/**
 Error-free runs: what a packet can meet at any atomic point of any Sync.
 */
module Interleaving {
  import opened Types
  import opened KernelMaps
  import opened Packet
  import opened Reconciler
  import opened SyncShape
  import opened System
  import opened AnyRun
  import opened Fates

  /** Lists come from discovery and fit the tables; the environment fails nothing. */
  ghost predicate Benign(a: Action) {
    && (a.StartSync? ==> |a.list| <= MAX_BACKENDS && Discovered(a.list))
    && (a.Control? ==> a.choice.ok)
  }

  ghost predicate BenignRun(acts: seq<Action>) {
    forall k | 0 <= k < |acts| :: Benign(acts[k])
  }

  lemma ShapeInitial(e: Endian, s: Settings)
    ensures Shape(Initial(e, s))
  {
  }

  lemma ShapeNext(s: Sys, a: Action)
    requires Wf(s) && Shape(s.plane) && Benign(a)
    ensures Shape(Next(s, a).plane)
  {
    match a
    case StartSync(list) => if s.plane.pc.Idle? { ShapeBegin(s.plane, list); }
    case Control(choice) => ShapeStep(s.plane, choice);
    case _ => assert Next(s, a).plane == s.plane;
  }

  /** Every state of an error-free run has the exact shape: no Sync in it fails, whatever packets do. */
  lemma {:induction false} BenignRunShape(e: Endian, settings: Settings, n: nat, acts: seq<Action>)
    requires BenignRun(acts)
    ensures Shape(Run(Init(e, settings, n), acts).plane)
  {
    if acts == [] {
      ShapeInitial(e, settings);
    } else {
      var k := |acts| - 1;
      BenignRunShape(e, settings, n, acts[..k]);
      ShapeNext(Run(Init(e, settings, n), acts[..k]), acts[k]);
    }
  }

  // ------------------------------------------------------ what a slot can hold

  /** `b` is listed now: in the current list, or in the one being synced. */
  ghost predicate Listed(p: Plane, b: Backend) {
    b in p.backends || (!p.pc.Idle? && b in p.list)
  }

  /** A slot that is not blank holds an entry listed now. */
  lemma SlotListed(p: Plane, j: nat)
    requires Shape(p) && j < MAX_BACKENDS && p.kernel.slots[j] != EMPTY_INFO
    ensures exists b :: Listed(p, b) && Info(p.kernel.host, b) == p.kernel.slots[j]
  {
  }

  /** A registered key is that of an entry listed now. */
  lemma KeyListed(p: Plane, x: u32)
    requires Shape(p) && x in p.kernel.ips
    ensures exists b :: Listed(p, b) && b.ip.V4? && Key(p.kernel.host, b.ip) == x
  {
    var e, i := p.kernel.host, KeyBound(p);
    KeysDrawn(p, x);
    if KeyOfNew(e, p.list, i, x) {
      var n :| 0 <= n < i && n < |p.list| && Key(e, p.list[n].ip) == x;
      assert Listed(p, p.list[n]);
    } else {
      var j :| i <= j < |p.backends| && Key(e, p.backends[j].ip) == x && p.kernel.ips[x] == j;
      assert Listed(p, p.backends[j]);
    }
  }

  // ----------------------------------------------------------------- blanks

  /** How far the shrink phase has cleared the forward table. */
  function Cleared(p: Plane): nat {
    match p.pc
    case StaleSlot(i) => i
    case StaleIp(i) => i + 1
    case Detach(_) => End(p)
    case Commit => End(p)
    case _ => 0
  }

  /**
   Which slots below the advertised count are blank: the one index being replaced,
   or, once the list is written, those past its end already cleared. A packet that
   draws one passes unmodified, whichever config it has seen.
   */
  lemma BlankSlots(p: Plane, j: nat)
    requires Shape(p) && j < |p.backends|
    ensures p.kernel.slots[j].ipv4 == 0 <==>
              || p.pc == ClearIp(j)
              || (p.pc == WriteSlot(j) && Replaced(p, j))
              || |p.list| <= j < Cleared(p)
    ensures p.kernel.slots[j].ipv4 == 0 ==>
              forall cfg, f: Frame | ETH_LEN + IP_LEN <= |f| :: Dnat(p.kernel.host, cfg, p.kernel.slots[j], f) == None
  {
    PackZero(p.kernel.host, p.backends[j].ip.addr);
    if !p.pc.Idle? && j < |p.list| {
      PackZero(p.kernel.host, p.list[j].ip.addr);
    }
  }

  // ------------------------------------------------------------------ safety

  /** `after` is `before` sent to backend `b`: both layers, good checksum, nothing else touched. */
  ghost predicate SentTo(settings: Settings, b: Backend, before: Frame, after: Frame) {
    && b.ip.V4? && b.ip.addr != ZERO_ADDR
    && 34 <= |before|
    && SameOutside(before, after, MAC_BYTES + CHECKSUM_BYTES + DST_BYTES)
    && after[30..34] == [b.ip.addr.a, b.ip.addr.b, b.ip.addr.c, b.ip.addr.d]
    && after[..6] == b.mac && after[6..12] == MacOf(settings.srcMac)
    && ChecksumOk(after)
  }

  /** `after` is `before` sent from the VIP. */
  ghost predicate SentFromVip(settings: Settings, before: Frame, after: Frame) {
    && settings.vip.V4? && settings.vip.addr != ZERO_ADDR
    && 34 <= |before|
    && SameOutside(before, after, CHECKSUM_BYTES + SRC_BYTES)
    && after[26..30] == [settings.vip.addr.a, settings.vip.addr.b, settings.vip.addr.c, settings.vip.addr.d]
    && ChecksumOk(after)
  }

  lemma RewrittenSends(e: Endian, settings: Settings, cfg: LbConfig, b: Backend, f: Frame, g: Frame)
    requires Discovered([b]) && cfg == ConfigOf(e, settings, cfg.count) && RewrittenFor(e, cfg, Info(e, b), f, g)
    ensures SentTo(settings, b, f, g)
  {
    assert [b][0] == b;
    PackInjective(e, Addr(g[30], g[31], g[32], g[33]), b.ip.addr);
  }

  lemma RewrittenReturns(e: Endian, settings: Settings, cfg: LbConfig, f: Frame, g: Frame)
    requires cfg == ConfigOf(e, settings, cfg.count) && cfg.vip != 0 && RewrittenFrom(e, cfg, f, g)
    ensures SentFromVip(settings, f, g)
  {
    PackZero(e, settings.vip.addr);
    PackInjective(e, Addr(g[26], g[27], g[28], g[29]), settings.vip.addr);
  }

  lemma DnatSends(e: Endian, settings: Settings, cfg: LbConfig, b: Backend, f: Frame)
    requires Discovered([b]) && ETH_LEN + IP_LEN <= |f|
    requires cfg == ConfigOf(e, settings, cfg.count)
    ensures Dnat(e, cfg, Info(e, b), f).Some?
    ensures SentTo(settings, b, f, Dnat(e, cfg, Info(e, b), f).value)
  {
    assert [b][0] == b;
    PackZero(e, b.ip.addr);
    DnatCorrect(e, cfg, Info(e, b), f);
    RewrittenSends(e, settings, cfg, b, f, Dnat(e, cfg, Info(e, b), f).value);
  }

  lemma SnatSends(e: Endian, settings: Settings, cfg: LbConfig, f: Frame)
    requires ETH_LEN + IP_LEN <= |f| && cfg == ConfigOf(e, settings, cfg.count) && cfg.vip != 0
    ensures Snat(e, cfg, f).Some?
    ensures SentFromVip(settings, f, Snat(e, cfg, f).value)
  {
    SnatCorrect(e, cfg, f);
    RewrittenReturns(e, settings, cfg, f, Snat(e, cfg, f).value);
  }

  lemma ListedDiscovered(p: Plane, b: Backend)
    requires Shape(p) && Listed(p, b)
    ensures Discovered([b])
  {
  }

  /** The frame CPU `c` holds goes, from `s` to `t`, to one backend listed in `s`. */
  ghost predicate SentToListed(s: Sys, t: Sys, c: nat)
    requires c < |s.cpus| && s.cpus[c].Chosen? && s.cpus[c].idx < 64
  {
    var x, p := s.cpus[c], s.plane;
    exists b, after ::
      && Listed(p, b) && Info(p.kernel.host, b) == p.kernel.slots[x.idx]
      && t.hits == s.hits + [Hit(c, x.idx, x.frame, after)]
      && SentTo(p.settings, b, x.frame, after)
  }

  lemma DeliveredToListed(s: Sys, t: Sys, c: nat)
    requires Sound(s) && Shape(s.plane) && c < |s.cpus| && s.cpus[c].Chosen? && Delivered(s, t, c)
    requires s.plane.kernel.slots[s.cpus[c].idx].ipv4 != 0
    ensures SentToListed(s, t, c)
  {
    var x, k := s.cpus[c], s.plane.kernel;
    assert CpuSound(k.host, s.plane.settings, x);
    var after :| t.hits == s.hits + [Hit(c, x.idx, x.frame, after)]
                 && RewrittenFor(k.host, x.cfg, k.slots[x.idx], x.frame, after);
    SlotListed(s.plane, x.idx);
    var b :| Listed(s.plane, b) && Info(k.host, b) == k.slots[x.idx];
    ListedDiscovered(s.plane, b);
    RewrittenSends(k.host, s.plane.settings, x.cfg, b, x.frame, after);
  }

  /**
   In every error-free run, whatever moments of whatever Syncs its config and
   backend lookups see, a request is rewritten exactly when the entry it drew is not
   blank at the backend lookup. It then goes to one entry of the list current at that
   moment or of the list being synced then: never to a zero address, never to a mix of
   two entries, never to a backend dropped before.
   */
  lemma InterleavingSafety(e: Endian, settings: Settings, n: nat, acts: seq<Action>, k: nat)
    requires BenignRun(acts) && k < |acts| && acts[k].ReadBackend? && acts[k].cpu < n
    requires Before(Init(e, settings, n), acts, k).cpus[acts[k].cpu].Chosen?
    ensures var s, t := Before(Init(e, settings, n), acts, k), Before(Init(e, settings, n), acts, k + 1);
            var c := acts[k].cpu;
            && s.cpus[c].idx < 64
            && if s.plane.kernel.slots[s.cpus[c].idx].ipv4 == 0 then t.hits == s.hits else SentToListed(s, t, c)
  {
    var s, t := Before(Init(e, settings, n), acts, k), Before(Init(e, settings, n), acts, k + 1);
    var c := acts[k].cpu;
    RequestFate(e, settings, n, acts, k);
    EveryRunSound(e, settings, n, acts[..k]);
    BenignRunShape(e, settings, n, acts[..k]);
    if s.plane.kernel.slots[s.cpus[c].idx].ipv4 != 0 {
      DeliveredToListed(s, t, c);
    }
  }

  // ------------------------------------------------------------------ replies

  /** The frame's source is the address of a backend listed in `p`. */
  ghost predicate FromListed(p: Plane, f: Frame) {
    && 34 <= |f|
    && exists b :: Listed(p, b) && b.ip.V4? && f[26..30] == [b.ip.addr.a, b.ip.addr.b, b.ip.addr.c, b.ip.addr.d]
  }

  lemma ReverseListed(p: Plane, f: Frame)
    requires Shape(p) && 34 <= |f| && Pack(p.kernel.host, Addr(f[26], f[27], f[28], f[29])) in p.kernel.ips
    ensures FromListed(p, f)
  {
    var e, w := p.kernel.host, Addr(f[26], f[27], f[28], f[29]);
    KeyListed(p, Pack(e, w));
    var b :| Listed(p, b) && b.ip.V4? && Key(e, b.ip) == Pack(e, w);
    SourceBytes(e, f, b.ip.addr);
  }

  lemma SourceBytes(e: Endian, f: Frame, w: Addr)
    requires 34 <= |f|
    ensures Pack(e, Addr(f[26], f[27], f[28], f[29])) == Pack(e, w) <==> f[26..30] == [w.a, w.b, w.c, w.d]
  {
    PackInjective(e, Addr(f[26], f[27], f[28], f[29]), w);
    assert f[26..30] == [f[26], f[27], f[28], f[29]];
  }

  /** In every error-free run a reverse lookup takes only frames whose source is listed at that moment. */
  lemma ReverseSafety(e: Endian, settings: Settings, n: nat, acts: seq<Action>, k: nat, c: nat, f: Frame)
    requires BenignRun(acts) && k < |acts|
    requires TookAt(Before(Init(e, settings, n), acts, k), acts[k], c, f)
    ensures FromListed(Before(Init(e, settings, n), acts, k).plane, f)
  {
    BenignRunShape(e, settings, n, acts[..k]);
    ReverseListed(Before(Init(e, settings, n), acts, k).plane, f);
  }

  /** The frame CPU `c` holds leaves, from `s` to `t`, from the VIP. */
  ghost predicate SentBack(s: Sys, t: Sys, c: nat)
    requires c < |s.cpus| && s.cpus[c].Matched?
  {
    var f := s.cpus[c].frame;
    exists after :: t.replies == s.replies + [Reply(f, after)] && SentFromVip(s.plane.settings, f, after)
  }

  lemma ReturnedFromVip(s: Sys, t: Sys, c: nat)
    requires Sound(s) && c < |s.cpus| && s.cpus[c].Matched? && Returned(s, t, c) && s.plane.kernel.config.vip != 0
    ensures SentBack(s, t, c)
  {
    var f, k := s.cpus[c].frame, s.plane.kernel;
    var after :| t.replies == s.replies + [Reply(f, after)] && RewrittenFrom(k.host, k.config, f, after);
    RewrittenReturns(k.host, s.plane.settings, k.config, f, after);
  }

  /**
   In every error-free run a reply that has been taken is rewritten, to come from the
   VIP, exactly when the VIP is not zero; its source was listed at the reverse lookup
   that took it.
   */
  lemma ReplySafety(e: Endian, settings: Settings, n: nat, acts: seq<Action>, k: nat)
    requires BenignRun(acts) && k < |acts| && acts[k].ReadVip? && acts[k].cpu < n
    requires Before(Init(e, settings, n), acts, k).cpus[acts[k].cpu].Matched?
    ensures var s0, c := Init(e, settings, n), acts[k].cpu;
            var s, t := Before(s0, acts, k), Before(s0, acts, k + 1);
            && (if s.plane.kernel.config.vip == 0 then t.replies == s.replies else SentBack(s, t, c))
            && exists j | 0 <= j < k ::
                 acts[j] == ReadReverse(c, s.cpus[c].frame) && FromListed(Before(s0, acts, j).plane, s.cpus[c].frame)
  {
    var s0, c := Init(e, settings, n), acts[k].cpu;
    var s, t := Before(s0, acts, k), Before(s0, acts, k + 1);
    ReplyFate(e, settings, n, acts, k);
    var j :| 0 <= j < k && TookAt(Before(s0, acts, j), acts[j], c, s.cpus[c].frame);
    ReverseSafety(e, settings, n, acts, j, c, s.cpus[c].frame);
    if s.plane.kernel.config.vip != 0 {
      EveryRunSound(e, settings, n, acts[..k]);
      ReturnedFromVip(s, t, c);
    }
  }
}
