/**
 Both planes end to end: a ping to the VIP reaches a listed backend, and that
 backend's answer reaches the client as the VIP's.
 */
module EndToEnd {
  import opened Types
  import opened KernelMaps
  import opened Packet
  import opened Xdp
  import opened Reconciler
  import opened SyncShape
  import opened ErrorFree
  import opened Faults
  import opened Convergence
  import opened Interleaving

  /** An ICMP frame for the VIP (for anyone, if the VIP is zero). */
  ghost predicate Addressed(e: Endian, s: Settings, f: Frame) {
    && Accepts(e, f)
    && (s.vip.V4? && s.vip.addr != ZERO_ADDR ==>
          f[30..34] == [s.vip.addr.a, s.vip.addr.b, s.vip.addr.c, s.vip.addr.d])
  }

  /** A frame by which the backend that received `g` answers: any ICMP frame back to whom `g` came from. */
  ghost predicate Answers(e: Endian, g: Frame, r: Frame)
    requires ETH_LEN + IP_LEN <= |g|
  {
    Accepts(e, r) && r[26..30] == g[30..34] && r[30..34] == g[26..30]
  }

  /** What any successful Sync of a non-empty list leaves for requests. */
  ghost predicate Serving(p: Plane) {
    && p.backends != [] && |p.backends| <= MAX_BACKENDS && Discovered(p.backends)
    && (forall i | 0 <= i < |p.backends| :: p.kernel.slots[i] == Info(p.kernel.host, p.backends[i]))
    && p.kernel.config == ConfigOf(p.kernel.host, p.settings, |p.backends|)
  }

  /**
   A frame the backend behind `veth` sends, as it leaves the load balancer: the
   reply program runs only on a veth it is attached to.
   */
  function Return(p: Plane, veth: string, r: Frame): Frame {
    if veth in p.links then Egress(p.kernel, r) else r
  }

  /** Every listed address is registered, so that answers are recognised. */
  ghost predicate Registered(p: Plane) {
    forall i | 0 <= i < |p.backends| :: Key(p.kernel.host, p.backends[i].ip) in p.kernel.ips
  }

  /** The VIP filter lets a frame through exactly when the VIP is zero or its four destination bytes are the VIP. */
  lemma VipFilter(e: Endian, w: Addr, f: Frame)
    requires 34 <= |f|
    ensures Pack(e, Dst(f)) == Pack(e, w) <==> f[30..34] == [w.a, w.b, w.c, w.d]
    ensures Pack(e, w) == 0 <==> w == ZERO_ADDR
  {
    PackInjective(e, Dst(f), w);
    PackZero(e, w);
    assert f[30..34] == [f[30], f[31], f[32], f[33]];
  }

  /** Every request, on every draw, is sent to the listed backend the draw names; every other frame is left alone. */
  lemma RequestReaches(p: Plane, draw: u32, f: Frame)
    requires Serving(p)
    ensures var i := draw % |p.backends|;
            if Addressed(p.kernel.host, p.settings, f)
            then && Target(p.kernel, draw, f) == Some(i)
                 && SentTo(p.settings, p.backends[i], f, Ingress(p.kernel, draw, f))
            else Target(p.kernel, draw, f) == None && Ingress(p.kernel, draw, f) == f
  {
    var e, i := p.kernel.host, draw % |p.backends|;
    var b := p.backends[i];
    if Accepts(e, f) && p.settings.vip.V4? {
      VipFilter(e, p.settings.vip.addr, f);
    }
    if Addressed(e, p.settings, f) {
      assert Discovered([b]);
      DnatSends(e, p.settings, p.kernel.config, b, f);
      PackZero(e, b.ip.addr);
      assert Choose(e, p.kernel.config, draw, f) == Some(i);
    }
  }

  /**
   What the backend behind `veth` sends leaves from the VIP exactly when the reply
   program is on that veth, the frame is ICMP from a registered address and the VIP is
   not zero; everything else leaves unchanged.
   */
  lemma AnswerReturns(p: Plane, veth: string, r: Frame)
    requires p.kernel.config == ConfigOf(p.kernel.host, p.settings, p.kernel.config.count)
    ensures if && veth in p.links && p.settings.vip.V4? && p.settings.vip.addr != ZERO_ADDR
               && Accepts(p.kernel.host, r) && Pack(p.kernel.host, Addr(r[26], r[27], r[28], r[29])) in p.kernel.ips
            then SentFromVip(p.settings, r, Return(p, veth, r))
            else Return(p, veth, r) == r
  {
    if p.settings.vip.V4? {
      PackZero(p.kernel.host, p.settings.vip.addr);
    }
    if Accepts(p.kernel.host, r) && p.kernel.config.vip != 0 {
      SnatSends(p.kernel.host, p.settings, p.kernel.config, r);
    }
  }

  /**
   After one error-free Sync from a clean state every request is served and every
   listed veth has the reply program; the answer
   of the backend at index `i` leaves from the VIP exactly when that backend did
   not move down in this Sync and the VIP is not zero, and otherwise leaves unchanged.
   */
  lemma AfterOneSync(p: Plane, list: seq<Backend>, cs: seq<Choice>, draw: u32, f: Frame, r: Frame)
    requires Ready(p, list) && NoFaults(cs) && list != [] && p.links.Keys == p.byVeth
    requires var q := Exec(Begin(p, list), cs); q.pc.Idle? && Addressed(q.kernel.host, q.settings, f)
    requires var q := Exec(Begin(p, list), cs);
             |Ingress(q.kernel, draw, f)| >= ETH_LEN + IP_LEN && Answers(q.kernel.host, Ingress(q.kernel, draw, f), r)
    ensures var q := Exec(Begin(p, list), cs);
            var i := draw % |list|;
            && SentTo(p.settings, list[i], f, Ingress(q.kernel, draw, f))
            && list[i].veth in q.links
            && var out := Return(q, list[i].veth, r);
            if !MovedDown(p.backends, list, i) && p.settings.vip.V4? && p.settings.vip.addr != ZERO_ADDR
            then SentFromVip(p.settings, r, out) && out[30..34] == f[26..30]
            else out == r
  {
    ErrorFreeSync(p, list, cs);
    SyncVeths(p, list, cs);
    var q, b := Exec(Begin(p, list), cs), list[draw % |list|];
    assert b in list;
    RequestReaches(q, draw, f);
    Answered(q, b, f, Ingress(q.kernel, draw, f), r);
  }

  /** The answer of `b`, if its veth is attached, leaves from the VIP for the client exactly when `b` is registered. */
  lemma Answered(q: Plane, b: Backend, f: Frame, g: Frame, r: Frame)
    requires q.kernel.config == ConfigOf(q.kernel.host, q.settings, q.kernel.config.count)
    requires SentTo(q.settings, b, f, g) && Answers(q.kernel.host, g, r) && b.veth in q.links
    ensures var out := Return(q, b.veth, r);
            if Key(q.kernel.host, b.ip) in q.kernel.ips && q.settings.vip.V4? && q.settings.vip.addr != ZERO_ADDR
            then SentFromVip(q.settings, r, out) && out[30..34] == f[26..30]
            else out == r
  {
    AnswerSource(q.kernel.host, q.settings, b, f, g, r);
    AnswerReturns(q, b.veth, r);
    if Key(q.kernel.host, b.ip) in q.kernel.ips && q.settings.vip.V4? && q.settings.vip.addr != ZERO_ADDR {
      AnswerTarget(q.settings, b, f, g, r, Return(q, b.veth, r));
    }
  }

  /** The answer to a request sent to `b` comes from `b`'s address. */
  lemma AnswerSource(e: Endian, s: Settings, b: Backend, f: Frame, g: Frame, r: Frame)
    requires SentTo(s, b, f, g) && Answers(e, g, r)
    ensures Pack(e, Src(r)) == Key(e, b.ip)
  {
    SourceBytes(e, r, b.ip.addr);
  }

  /** And leaves for the sender of the request. */
  lemma AnswerTarget(s: Settings, b: Backend, f: Frame, g: Frame, r: Frame, out: Frame)
    requires SentTo(s, b, f, g) && 34 <= |r| && r[30..34] == g[26..30] && SentFromVip(s, r, out)
    ensures out[30..34] == f[26..30]
  {
    KeptSlice(r, out, CHECKSUM_BYTES + SRC_BYTES, 30, 34);
    KeptSlice(f, g, MAC_BYTES + CHECKSUM_BYTES + DST_BYTES, 26, 30);
  }

  /** With every listed address registered, every listed veth attached and a non-zero VIP, both ways work. */
  lemma ServedBothWays(q: Plane, draw: u32, f: Frame, r: Frame)
    requires Serving(q) && Registered(q) && Veths(q.backends) <= q.links.Keys
    requires q.settings.vip.V4? && q.settings.vip.addr != ZERO_ADDR
    requires Addressed(q.kernel.host, q.settings, f)
    ensures var b, g := q.backends[draw % |q.backends|], Ingress(q.kernel, draw, f);
            && SentTo(q.settings, b, f, g) && b.veth in q.links
            && (Answers(q.kernel.host, g, r) ==>
                  SentFromVip(q.settings, r, Return(q, b.veth, r)) && Return(q, b.veth, r)[30..34] == f[26..30])
  {
    var b, g := q.backends[draw % |q.backends|], Ingress(q.kernel, draw, f);
    assert b in q.backends;
    RequestReaches(q, draw, f);
    if Answers(q.kernel.host, g, r) {
      Answered(q, b, f, g, r);
    }
  }

  /** Any successful Sync, from any state and with any ignored fault, serves requests. */
  lemma SuccessServes(p: Plane, list: seq<Backend>, cs: seq<Choice>)
    requires |p.backends| <= MAX_BACKENDS && Discovered(list) && list != []
    requires Exec(Begin(p, list), cs).pc == Idle(false)
    ensures Serving(Exec(Begin(p, list), cs)) && Exec(Begin(p, list), cs).backends == list
  {
    SyncOutcome(p, list, cs);
  }

  /** A second successful Sync of the list registers what the first may have left unregistered. */
  lemma SecondSuccessRegisters(p: Plane, ds: seq<Choice>)
    requires |p.backends| <= MAX_BACKENDS && Discovered(p.backends)
    requires Exec(Begin(p, p.backends), ds).pc == Idle(false)
    ensures Registered(Exec(Begin(p, p.backends), ds))
  {
    RepeatedSync(p, ds);
  }

  /**
   From any state in which bookkeeping and links agree, as they do in every
   reachable one whatever failed, after two consecutive successful Syncs of one
   non-empty list with a non-zero VIP: every ICMP frame to the VIP, on every draw, is
   sent to a listed backend, the reply program is on that backend's veth, and its
   answer is sent to the client from the VIP. Both checksums verify and only the bytes named
   in `SentTo` and `SentFromVip` change.
   */
  lemma EndToEndTheorem(p: Plane, list: seq<Backend>, cs: seq<Choice>, ds: seq<Choice>, draw: u32, f: Frame)
    requires |p.backends| <= MAX_BACKENDS && Discovered(list) && list != []
    requires p.links.Keys == p.byVeth
    requires p.settings.vip.V4? && p.settings.vip.addr != ZERO_ADDR
    requires Exec(Begin(p, list), cs).pc == Idle(false)
    requires Exec(Begin(Exec(Begin(p, list), cs), list), ds).pc == Idle(false)
    requires Addressed(p.kernel.host, p.settings, f)
    ensures var q := Exec(Begin(Exec(Begin(p, list), cs), list), ds);
            var b, g := list[draw % |list|], Ingress(q.kernel, draw, f);
            && SentTo(p.settings, b, f, g)
            && b.veth in q.links
            && forall r | Answers(q.kernel.host, g, r) ::
                 SentFromVip(p.settings, r, Return(q, b.veth, r)) && Return(q, b.veth, r)[30..34] == f[26..30]
  {
    var q1 := Exec(Begin(p, list), cs);
    SuccessServes(p, list, cs);
    var q := Exec(Begin(q1, list), ds);
    SuccessServes(q1, list, ds);
    SecondSuccessRegisters(q1, ds);
    SyncVeths(p, list, cs);
    SyncVeths(q1, list, ds);
    var b, g := list[draw % |list|], Ingress(q.kernel, draw, f);
    assert b in list;
    ServedBothWays(q, draw, f, f);
    forall r | Answers(q.kernel.host, g, r)
      ensures SentFromVip(p.settings, r, Return(q, b.veth, r)) && Return(q, b.veth, r)[30..34] == f[26..30]
    {
      ServedBothWays(q, draw, f, r);
    }
  }
}
