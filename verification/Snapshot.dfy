/**
 Whether requests ever see a list that was never given to Sync. The config slot is
 written last, but the forward table changes entry by entry before it.
 */
module Snapshot {
  import opened Types
  import opened KernelMaps
  import opened Packet
  import opened Xdp
  import opened Reconciler
  import opened SyncShape
  import opened ErrorFree
  import opened Faults
  import opened EndToEnd

  // ---------------------------------------------------- what a list stands for

  /** The frame sent to the backend of a table entry; a blank entry leaves it alone. */
  function Routed(e: Endian, s: Settings, info: BackendInfo, f: Frame): Frame
    requires ETH_LEN + IP_LEN <= |f|
  {
    if info.ipv4 == 0 then f else Dnat(e, ConfigOf(e, s, 0), info, f).value
  }

  /** What becomes of a frame when exactly the backends of `bs` are served. */
  ghost function Served(e: Endian, s: Settings, bs: seq<Backend>, draw: u32, f: Frame): Frame {
    if bs == [] || !Addressed(e, s, f) then f else Routed(e, s, Info(e, bs[draw % |bs|]), f)
  }

  /**
   A packet whose config lookup found `cfg` and whose backend lookup finds the table
   of `k` is treated as if exactly `bs` were served.
   */
  ghost predicate Sees(k: Kernel, cfg: LbConfig, s: Settings, bs: seq<Backend>) {
    forall draw: u32, f: Frame :: Ingress(k.(config := cfg), draw, f) == Served(k.host, s, bs, draw, f)
  }

  // --------------------------------------------------------- tables and packets

  /** A packet is routed by the slot it draws below the count it has seen. */
  lemma IngressRoutes(k: Kernel, s: Settings, n: nat, draw: u32, f: Frame)
    requires n <= MAX_BACKENDS
    ensures Ingress(k.(config := ConfigOf(k.host, s, n)), draw, f)
         == if n == 0 || !Addressed(k.host, s, f) then f else Routed(k.host, s, k.slots[draw % n], f)
  {
    if Accepts(k.host, f) && s.vip.V4? {
      VipFilter(k.host, s.vip.addr, f);
    }
  }

  /** Equal routes: the only parts of an entry a packet can see. */
  predicate SameRoute(x: BackendInfo, y: BackendInfo) {
    x.ipv4 == y.ipv4 && (x.ipv4 == 0 || x.mac == y.mac)
  }

  lemma SameRouteSameFrame(e: Endian, s: Settings, x: BackendInfo, y: BackendInfo, f: Frame)
    requires ETH_LEN + IP_LEN <= |f| && SameRoute(x, y)
    ensures Routed(e, s, x, f) == Routed(e, s, y, f)
  {
  }

  /** An addressed frame whose destination MAC starts with a given byte. */
  lemma AddressedFrame(e: Endian, s: Settings, b: byte) returns (f: Frame)
    ensures Addressed(e, s, f) && f[0] == b
  {
    var w := if s.vip.V4? then s.vip.addr else ZERO_ADDR;
    f := [b, 0, 0, 0, 0, 0, 0, 0, 0, 0, 0, 0, 8, 0] + [0x45, 0, 0, 28, 0, 0, 0, 0, 64, 1, 0, 0, 10, 0, 0, 5]
       + [w.a, w.b, w.c, w.d] + [8, 0, 0, 0, 0, 0, 0, 0];
  }

  /** Entries with different routes are told apart by some frame. */
  lemma DifferentRoutes(e: Endian, s: Settings, x: BackendInfo, y: BackendInfo) returns (f: Frame)
    requires !SameRoute(x, y)
    ensures Addressed(e, s, f) && Routed(e, s, x, f) != Routed(e, s, y, f)
  {
    var b: byte := if x.mac[0] != 0 && y.mac[0] != 0 then 0 else if x.mac[0] != 1 && y.mac[0] != 1 then 1 else 2;
    f := AddressedFrame(e, s, b);
    DnatCorrect(e, ConfigOf(e, s, 0), x, f);
    DnatCorrect(e, ConfigOf(e, s, 0), y, f);
    if x.ipv4 != 0 {
      assert Routed(e, s, x, f)[..6][0] == x.mac[0];
    }
    if y.ipv4 != 0 {
      assert Routed(e, s, y, f)[..6][0] == y.mac[0];
    }
  }

  /** Slots routed like `bs`, under its count, make packets see `bs`. */
  lemma SlotsShow(k: Kernel, s: Settings, bs: seq<Backend>)
    requires |bs| <= MAX_BACKENDS
    requires forall j | 0 <= j < |bs| :: SameRoute(k.slots[j], Info(k.host, bs[j]))
    ensures Sees(k, ConfigOf(k.host, s, |bs|), s, bs)
  {
    forall draw: u32, f: Frame
      ensures Ingress(k.(config := ConfigOf(k.host, s, |bs|)), draw, f) == Served(k.host, s, bs, draw, f)
    {
      IngressRoutes(k, s, |bs|, draw, f);
      if bs != [] && Addressed(k.host, s, f) {
        SameRouteSameFrame(k.host, s, k.slots[draw % |bs|], Info(k.host, bs[draw % |bs|]), f);
      }
    }
  }

  /** Under a count of zero, or of slots that are all blank, packets see nothing served. */
  lemma BlanksShow(k: Kernel, cfg: LbConfig, s: Settings)
    requires cfg.count <= MAX_BACKENDS
    requires forall j | 0 <= j < cfg.count :: k.slots[j].ipv4 == 0
    ensures Sees(k, cfg, s, [])
  {
  }

  /** A draw whose slot is routed unlike the entry of `bs` it names; nothing is named in an empty list. */
  predicate Tells(k: Kernel, n: nat, bs: seq<Backend>, draw: u32)
    requires 0 < n <= MAX_BACKENDS
  {
    !SameRoute(k.slots[draw % n], if bs == [] then EMPTY_INFO else Info(k.host, bs[draw % |bs|]))
  }

  lemma DrawTells(k: Kernel, s: Settings, n: nat, bs: seq<Backend>, draw: u32)
    requires 0 < n <= MAX_BACKENDS && Tells(k, n, bs, draw)
    ensures !Sees(k, ConfigOf(k.host, s, n), s, bs)
  {
    var x, y := k.slots[draw % n], if bs == [] then EMPTY_INFO else Info(k.host, bs[draw % |bs|]);
    var f := DifferentRoutes(k.host, s, x, y);
    IngressRoutes(k, s, n, draw, f);
    assert Ingress(k.(config := ConfigOf(k.host, s, n)), draw, f) != Served(k.host, s, bs, draw, f);
  }

  lemma SmallMod(j: nat, n: nat)
    requires j < n
    ensures j % n == j
  {
  }

  /** A draw below the count names the slot it equals. */
  lemma SmallDraw(k: Kernel, n: nat, bs: seq<Backend>, j: nat)
    requires j < n <= MAX_BACKENDS && j < |bs|
    ensures Tells(k, n, bs, j) <==> !SameRoute(k.slots[j], Info(k.host, bs[j]))
  {
    SmallMod(j, n);
    SmallMod(j, |bs|);
  }

  lemma Nonblank(e: Endian, bs: seq<Backend>, j: nat)
    requires Discovered(bs) && j < |bs|
    ensures Info(e, bs[j]).ipv4 != 0
  {
    PackZero(e, bs[j].ip.addr);
  }

  // ------------------------------------------------------------ reaching a point

  /** An error-free Sync of `list` from `p` is at `q`, not yet returned. */
  ghost predicate Underway(p: Plane, list: seq<Backend>, q: Plane) {
    && During(p, list, q) && !q.pc.Idle?
    && q.kernel.config == p.kernel.config
  }

  lemma UnderwayAt(p: Plane, list: seq<Backend>, cs: seq<Choice>)
    requires Ready(p, list) && NoFaults(cs) && !Exec(Begin(p, list), cs).pc.Idle?
    ensures Underway(p, list, Exec(Begin(p, list), cs))
  {
    ErrorFreeSync(p, list, cs);
    SyncOutcome(p, list, cs);
  }

  const OK := Choice(true, "")

  /** One more step that does not fail. */
  lemma Advance(p: Plane, list: seq<Backend>, cs: seq<Choice>) returns (cs': seq<Choice>)
    requires Ready(p, list) && NoFaults(cs)
    ensures NoFaults(cs') && Exec(Begin(p, list), cs') == Step(Exec(Begin(p, list), cs), OK)
  {
    cs' := cs + [OK];
    ExecSnoc(Begin(p, list), cs, OK);
  }

  /** Every iteration of the write loop is reached. */
  lemma {:induction false} ReachWrite(p: Plane, list: seq<Backend>, i: nat) returns (cs: seq<Choice>)
    requires Ready(p, list) && i <= |list|
    ensures NoFaults(cs) && Exec(Begin(p, list), cs).pc == AtWrite(p.backends, list, i)
  {
    if i == 0 {
      cs := [];
    } else {
      cs := ReachWrite(p, list, i - 1);
      cs := ClearEntry(p, list, cs, i - 1);
      cs := FinishEntry(p, list, cs, i - 1);
    }
  }

  lemma ClearEntry(p: Plane, list: seq<Backend>, cs: seq<Choice>, i: nat) returns (cs': seq<Choice>)
    requires Ready(p, list) && NoFaults(cs)
    requires i < |list| && Exec(Begin(p, list), cs).pc == AtWrite(p.backends, list, i)
    ensures NoFaults(cs') && Exec(Begin(p, list), cs').pc == WriteSlot(i)
  {
    cs' := cs;
    if Exec(Begin(p, list), cs).pc.ClearSlot? {
      cs' := Advance(p, list, cs');
      cs' := Advance(p, list, cs');
    }
  }

  /** Three steps take an entry from its slot to its veth. */
  lemma FinishEntry(p: Plane, list: seq<Backend>, cs: seq<Choice>, i: nat) returns (cs': seq<Choice>)
    requires Ready(p, list) && NoFaults(cs) && i < |list| && Exec(Begin(p, list), cs).pc == WriteSlot(i)
    ensures NoFaults(cs') && Exec(Begin(p, list), cs').pc == AtWrite(p.backends, list, i + 1)
  {
    cs' := Pass(p, list, cs, i);
    cs' := Pass(p, list, cs', i);
    cs' := Pass(p, list, cs', i);
  }

  /** What follows an entry's put, registration or attach when it does not fail. */
  function Onward(p: Plane, list: seq<Backend>, i: nat, pc: Pc): Pc {
    match pc
    case WriteSlot(_) => WriteIp(i)
    case WriteIp(_) => Attach(i)
    case _ => AtWrite(p.backends, list, i + 1)
  }

  lemma Pass(p: Plane, list: seq<Backend>, cs: seq<Choice>, i: nat) returns (cs': seq<Choice>)
    requires Ready(p, list) && NoFaults(cs) && i < |list|
    requires var pc := Exec(Begin(p, list), cs).pc; pc == WriteSlot(i) || pc == WriteIp(i) || pc == Attach(i)
    ensures NoFaults(cs') && Exec(Begin(p, list), cs').pc == Onward(p, list, i, Exec(Begin(p, list), cs).pc)
  {
    cs' := Advance(p, list, cs);
    ErrorFreeSync(p, list, cs);
    PassStep(p, list, Exec(Begin(p, list), cs), i);
  }

  lemma PassStep(p: Plane, list: seq<Backend>, q: Plane, i: nat)
    requires During(p, list, q) && (q.pc == WriteSlot(i) || q.pc == WriteIp(i) || q.pc == Attach(i))
    ensures Step(q, OK).pc == Onward(p, list, i, q.pc)
  {
    ShapeStep(q, OK);
  }

  /** At the start of iteration `i` the slots below the old count are new below `i` and old from there. */
  lemma SlotsAtWrite(p: Plane, list: seq<Backend>, i: nat, q: Plane)
    requires Underway(p, list, q) && i <= |list| && q.pc == AtWrite(p.backends, list, i)
    ensures Cells(q, i)
  {
  }

  // ---------------------------------------------------- before or after, exactly

  /**
   What a caller can check before the Sync: nothing was served; or one backend was
   and none will be; or the list only grows; or its length stays and one MAC changes.
   */
  ghost predicate Smooth(cur: seq<Backend>, list: seq<Backend>) {
    || cur == []
    || (|cur| == 1 && list == [])
    || (|cur| < |list| && forall j | 0 <= j < |cur| :: cur[j].ip == list[j].ip && cur[j].mac == list[j].mac)
    || (&& |cur| == |list| && (forall j | 0 <= j < |cur| :: cur[j].ip == list[j].ip)
        && (forall i, j | 0 <= i < j < |cur| :: cur[i].mac == list[i].mac || cur[j].mac == list[j].mac))
  }

  /** A slot whose address stays is never blank: it has the old entry or the new one. */
  lemma OldOrNew(p: Plane, list: seq<Backend>, q: Plane, j: nat)
    requires During(p, list, q) && Ready(p, list)
    requires j < |p.backends| && j < |list| && p.backends[j].ip == list[j].ip
    ensures q.kernel.slots[j] == Info(q.kernel.host, p.backends[j]) || q.kernel.slots[j] == Info(q.kernel.host, list[j])
  {
  }

  lemma SmoothGrowing(p: Plane, list: seq<Backend>, q: Plane)
    requires Ready(p, list) && During(p, list, q) && q.kernel.host == p.kernel.host
    requires |p.backends| <= |list|
    requires forall j | 0 <= j < |p.backends| :: p.backends[j].ip == list[j].ip && p.backends[j].mac == list[j].mac
    ensures Sees(q.kernel, ConfigOf(p.kernel.host, p.settings, |p.backends|), p.settings, p.backends)
  {
    forall j | 0 <= j < |p.backends|
      ensures SameRoute(q.kernel.slots[j], Info(p.kernel.host, p.backends[j]))
    {
      OldOrNew(p, list, q, j);
    }
    SlotsShow(q.kernel, p.settings, p.backends);
  }

  /** One MAC changes, at index `d`. */
  lemma SmoothMac(p: Plane, list: seq<Backend>, q: Plane, d: nat)
    requires Ready(p, list) && During(p, list, q) && q.kernel.host == p.kernel.host
    requires d < |p.backends| == |list| && forall j | 0 <= j < |list| :: p.backends[j].ip == list[j].ip
    requires forall j | 0 <= j < |list| && j != d :: p.backends[j].mac == list[j].mac
    ensures var cfg := ConfigOf(p.kernel.host, p.settings, |p.backends|);
            Sees(q.kernel, cfg, p.settings, p.backends) || Sees(q.kernel, cfg, p.settings, list)
  {
    OldOrNew(p, list, q, d);
    var bs := if q.kernel.slots[d] == Info(p.kernel.host, list[d]) then list else p.backends;
    forall j | 0 <= j < |bs| ensures SameRoute(q.kernel.slots[j], Info(p.kernel.host, bs[j])) {
      OldOrNew(p, list, q, j);
    }
    SlotsShow(q.kernel, p.settings, bs);
  }

  lemma SmoothEmptying(p: Plane, q: Plane)
    requires Ready(p, []) && During(p, [], q) && q.kernel.host == p.kernel.host && |p.backends| == 1
    ensures var cfg := ConfigOf(p.kernel.host, p.settings, 1);
            Sees(q.kernel, cfg, p.settings, p.backends) || Sees(q.kernel, cfg, p.settings, [])
  {
    if q.kernel.slots[0].ipv4 == 0 {
      BlanksShow(q.kernel, ConfigOf(p.kernel.host, p.settings, 1), p.settings);
    } else {
      assert q.kernel.slots[0] == Info(p.kernel.host, p.backends[0]);
      SlotsShow(q.kernel, p.settings, p.backends);
    }
  }

  /** With the old config still in hand, every later point shows the old list or the new one. */
  lemma SmoothPoint(p: Plane, list: seq<Backend>, q: Plane)
    requires Ready(p, list) && Configured(p) && Smooth(p.backends, list)
    requires During(p, list, q) && q.kernel.host == p.kernel.host
    ensures Sees(q.kernel, p.kernel.config, p.settings, p.backends) || Sees(q.kernel, p.kernel.config, p.settings, list)
  {
    var cur := p.backends;
    if cur == [] {
      BlanksShow(q.kernel, p.kernel.config, p.settings);
    } else if list == [] {
      SmoothEmptying(p, q);
    } else if d :| 0 <= d < |cur| && d < |list| && cur[d].mac != list[d].mac {
      SmoothMac(p, list, q, d);
    } else {
      SmoothGrowing(p, list, q);
    }
  }

  /** A packet with its config lookup after `cs` and its backend lookup `ds` later sees the old list or the new one. */
  ghost predicate SnapshotAt(p: Plane, list: seq<Backend>, cs: seq<Choice>, ds: seq<Choice>)
    requires |p.backends| <= MAX_BACKENDS
  {
    var q1 := Exec(Begin(p, list), cs);
    var q2 := Exec(q1, ds);
    || Sees(q2.kernel, q1.kernel.config, p.settings, p.backends)
    || Sees(q2.kernel, q1.kernel.config, p.settings, list)
  }

  lemma SnapshotKept(p: Plane, list: seq<Backend>, cs: seq<Choice>, ds: seq<Choice>)
    requires Ready(p, list) && Configured(p) && Smooth(p.backends, list)
    requires NoFaults(cs) && NoFaults(ds)
    ensures SnapshotAt(p, list, cs, ds)
  {
    var q1 := Exec(Begin(p, list), cs);
    ErrorFreeSync(p, list, cs);
    if q1.pc.Idle? {
      ExecIdle(q1, ds);
      SlotsShow(q1.kernel, p.settings, list);
    } else {
      UnderwayAt(p, list, cs);
      ExecAppend(Begin(p, list), cs, ds);
      ErrorFreeSync(p, list, cs + ds);
      SmoothPoint(p, list, Exec(q1, ds));
    }
  }

  // -------------------------------------------------------- every other Sync

  /** Neither the old list nor the new one is what packets see at `q`. */
  ghost predicate Torn(p: Plane, list: seq<Backend>, q: Plane) {
    && !Sees(q.kernel, q.kernel.config, p.settings, p.backends)
    && !Sees(q.kernel, q.kernel.config, p.settings, list)
  }

  /** One draw tells against the old list, another against the new one. */
  lemma TornBy(p: Plane, list: seq<Backend>, q: Plane, c: nat, d: u32)
    requires Ready(p, list) && Configured(p) && Underway(p, list, q)
    requires c < |p.backends| && !SameRoute(q.kernel.slots[c], Info(q.kernel.host, p.backends[c]))
    requires Tells(q.kernel, |p.backends|, list, d)
    ensures Torn(p, list, q)
  {
    SmallDraw(q.kernel, |p.backends|, p.backends, c);
    DrawTells(q.kernel, p.settings, |p.backends|, p.backends, c);
    DrawTells(q.kernel, p.settings, |p.backends|, list, d);
  }

  lemma BlankTells(k: Kernel, n: nat, list: seq<Backend>, j: nat)
    requires j < n <= MAX_BACKENDS && k.slots[j] == EMPTY_INFO && Discovered(list) && list != []
    ensures Tells(k, n, list, j)
  {
    SmallMod(j, n);
    Nonblank(k.host, list, j % |list|);
  }

  /** A blank slot tells against both lists, unless the new one is empty. */
  lemma TornByBlank(p: Plane, list: seq<Backend>, q: Plane, j: nat)
    requires Ready(p, list) && Configured(p) && Underway(p, list, q) && list != []
    requires j < |p.backends| && q.kernel.slots[j] == EMPTY_INFO
    ensures Torn(p, list, q)
  {
    Nonblank(q.kernel.host, p.backends, j);
    BlankTells(q.kernel, |p.backends|, list, j);
    TornBy(p, list, q, j, j);
  }

  /** An index that is given another address is blank in between. */
  lemma ReachBlank(p: Plane, list: seq<Backend>, j: nat) returns (cs: seq<Choice>)
    requires Ready(p, list)
    requires j < |p.backends| && j < |list| && p.backends[j].ip != list[j].ip
    ensures NoFaults(cs) && Underway(p, list, Exec(Begin(p, list), cs))
    ensures Exec(Begin(p, list), cs).kernel.slots[j] == EMPTY_INFO
  {
    cs := ReachWrite(p, list, j);
    cs := Advance(p, list, cs);
    UnderwayAt(p, list, cs);
  }

  /** A point before the commit at which the first slot past the new list is blank. */
  lemma ReachStale(p: Plane, list: seq<Backend>) returns (cs: seq<Choice>)
    requires Ready(p, list) && |list| < |p.backends|
    ensures NoFaults(cs) && Underway(p, list, Exec(Begin(p, list), cs))
    ensures Exec(Begin(p, list), cs).kernel.slots[|list|] == EMPTY_INFO
  {
    cs := ReachWrite(p, list, |list|);
    cs := Advance(p, list, cs);
    UnderwayAt(p, list, cs);
  }

  /** A point before the commit at which slot `j` has been dealt with. */
  lemma ReachDone(p: Plane, list: seq<Backend>, j: nat) returns (cs: seq<Choice>)
    requires Ready(p, list) && j < |p.backends| && j <= |list|
    ensures NoFaults(cs) && Underway(p, list, Exec(Begin(p, list), cs))
    ensures Exec(Begin(p, list), cs).kernel.slots[j] == if j < |list| then Info(p.kernel.host, list[j]) else EMPTY_INFO
  {
    if j == |list| {
      cs := ReachStale(p, list);
    } else {
      cs := ReachWrite(p, list, j + 1);
      UnderwayAt(p, list, cs);
      SlotsAtWrite(p, list, j + 1, Exec(Begin(p, list), cs));
    }
  }

  /** Two or more backends are removed one at a time. */
  lemma TornByEmptying(p: Plane) returns (cs: seq<Choice>)
    requires Ready(p, []) && Configured(p) && |p.backends| >= 2
    ensures NoFaults(cs) && Torn(p, [], Exec(Begin(p, []), cs))
  {
    cs := ReachSecond(p);
    Nonblank(p.kernel.host, p.backends, 0);
    var q := Exec(Begin(p, []), cs);
    SmallMod(1, |p.backends|);
    assert Tells(q.kernel, |p.backends|, [], 1);
    TornBy(p, [], q, 0, 1);
  }

  /** The first of several backends is removed, the second not yet. */
  lemma ReachSecond(p: Plane) returns (cs: seq<Choice>)
    requires Ready(p, []) && |p.backends| >= 2
    ensures NoFaults(cs) && Underway(p, [], Exec(Begin(p, []), cs))
    ensures var k := Exec(Begin(p, []), cs).kernel; k.slots[0] == EMPTY_INFO && k.slots[1].ipv4 != 0
  {
    cs := Advance(p, [], []);
    UnderwayAt(p, [], cs);
    Nonblank(p.kernel.host, p.backends, 1);
  }

  /** A draw equal to the old count wraps to slot 0 and names another entry of the longer list. */
  lemma WrappedTells(k: Kernel, n: nat, list: seq<Backend>)
    requires 0 < n < |list| && n <= MAX_BACKENDS && Discovered(list)
    requires k.slots[0].ipv4 == Key(k.host, list[0].ip)
    ensures Tells(k, n, list, n)
  {
    assert n % n == 0;
    SmallMod(n, |list|);
    KeyInjective(k.host, list[0].ip, list[n].ip);
  }

  /** A growing list in which a MAC changes: the new entry is seen under the old count. */
  lemma TornByGrowing(p: Plane, list: seq<Backend>, j: nat) returns (cs: seq<Choice>)
    requires Ready(p, list) && Configured(p) && |p.backends| < |list|
    requires forall i | 0 <= i < |p.backends| :: p.backends[i].ip == list[i].ip
    requires j < |p.backends| && p.backends[j].mac != list[j].mac
    ensures NoFaults(cs) && Torn(p, list, Exec(Begin(p, list), cs))
  {
    var e, n := p.kernel.host, |p.backends|;
    cs := ReachDone(p, list, j);
    var q := Exec(Begin(p, list), cs);
    Nonblank(e, list, j);
    OldOrNew(p, list, q, 0);
    WrappedTells(q.kernel, n, list);
    TornBy(p, list, q, j, n);
  }

  /** Two MACs change one after the other. */
  lemma TornByMacs(p: Plane, list: seq<Backend>, i: nat, j: nat) returns (cs: seq<Choice>)
    requires Ready(p, list) && Configured(p) && i < j < |p.backends| == |list|
    requires p.backends[i].mac != list[i].mac && p.backends[j].mac != list[j].mac
    ensures NoFaults(cs) && Torn(p, list, Exec(Begin(p, list), cs))
  {
    cs := ReachWrite(p, list, j);
    UnderwayAt(p, list, cs);
    var q := Exec(Begin(p, list), cs);
    SlotsAtWrite(p, list, j, q);
    Nonblank(q.kernel.host, list, i);
    Nonblank(q.kernel.host, list, j);
    SmallDraw(q.kernel, |list|, list, j);
    TornBy(p, list, q, i, j);
  }

  /** A Sync that is not smooth has a point at which packets see neither list. */
  lemma SnapshotBroken(p: Plane, list: seq<Backend>) returns (cs: seq<Choice>)
    requires Ready(p, list) && Configured(p) && !Smooth(p.backends, list)
    ensures NoFaults(cs) && Torn(p, list, Exec(Begin(p, list), cs))
  {
    var cur := p.backends;
    if list == [] {
      cs := TornByEmptying(p);
    } else if |list| < |cur| {
      cs := ReachStale(p, list);
      TornByBlank(p, list, Exec(Begin(p, list), cs), |list|);
    } else if j :| 0 <= j < |cur| && cur[j].ip != list[j].ip {
      cs := ReachBlank(p, list, j);
      TornByBlank(p, list, Exec(Begin(p, list), cs), j);
    } else if |cur| < |list| {
      var j :| 0 <= j < |cur| && cur[j].mac != list[j].mac;
      cs := TornByGrowing(p, list, j);
    } else {
      var i, j :| 0 <= i < j < |cur| && cur[i].mac != list[i].mac && cur[j].mac != list[j].mac;
      cs := TornByMacs(p, list, i, j);
    }
  }

  /** Whatever moments of the Sync its two lookups see, in this order, every packet sees the old list or the new one. */
  ghost predicate AlwaysSnapshot(p: Plane, list: seq<Backend>)
    requires |p.backends| <= MAX_BACKENDS
  {
    forall cs, ds | NoFaults(cs) && NoFaults(ds) :: SnapshotAt(p, list, cs, ds)
  }

  /** An error-free Sync from a clean state always shows requests a consistent snapshot exactly when it is smooth. */
  lemma SnapshotExactly(p: Plane, list: seq<Backend>)
    requires Ready(p, list) && Configured(p)
    ensures AlwaysSnapshot(p, list) <==> Smooth(p.backends, list)
  {
    if Smooth(p.backends, list) {
      forall cs, ds | NoFaults(cs) && NoFaults(ds) ensures SnapshotAt(p, list, cs, ds) {
        SnapshotKept(p, list, cs, ds);
      }
    } else {
      var cs := SnapshotBroken(p, list);
      assert !SnapshotAt(p, list, cs, []);
    }
  }

  /** From the start: sync two backends, then only the second; there is a moment at which packets see neither list. */
  lemma SnapshotBrokenRun(e: Endian, s: Settings, a: Backend, b: Backend) returns (cs: seq<Choice>, ds: seq<Choice>)
    requires Discovered([a, b])
    ensures NoFaults(cs) && Exec(Begin(Initial(e, s), [a, b]), cs).pc == Idle(false)
    ensures var p := Exec(Begin(Initial(e, s), [a, b]), cs);
            NoFaults(ds) && Torn(p, [b], Exec(Begin(p, [b]), ds))
  {
    var p0 := Initial(e, s);
    cs := Completion(Begin(p0, [a, b]));
    ErrorFreeSync(p0, [a, b], cs);
    var p := Exec(Begin(p0, [a, b]), cs);
    assert [a, b][1] == b && [b][0] == b;
    assert Discovered([b]);
    ds := SnapshotBroken(p, [b]);
  }

  // --------------------------------------------------- the old list until commit

  /** No point before the commit changes a slot below the advertised count. */
  ghost predicate SlotsUntouched(p: Plane, list: seq<Backend>)
    requires |p.backends| <= MAX_BACKENDS
  {
    forall cs | NoFaults(cs) && !Exec(Begin(p, list), cs).pc.Idle? ::
      forall j | 0 <= j < |p.backends| :: Exec(Begin(p, list), cs).kernel.slots[j] == p.kernel.slots[j]
  }

  /** No point before the commit shows packets anything but the old list. */
  ghost predicate OldUntilCommit(p: Plane, list: seq<Backend>)
    requires |p.backends| <= MAX_BACKENDS
  {
    forall cs | NoFaults(cs) && !Exec(Begin(p, list), cs).pc.Idle? ::
      var k := Exec(Begin(p, list), cs).kernel; Sees(k, k.config, p.settings, p.backends)
  }

  /** The table below the count stays as it was until the commit if and only if the new list extends the old one. */
  lemma UntouchedExactly(p: Plane, list: seq<Backend>)
    requires Ready(p, list)
    ensures SlotsUntouched(p, list) <==>
              && |p.backends| <= |list|
              && forall j | 0 <= j < |p.backends| :: Info(p.kernel.host, p.backends[j]) == Info(p.kernel.host, list[j])
  {
    var e, n, m := p.kernel.host, |p.backends|, |list|;
    if n <= m && forall j | 0 <= j < n :: Info(e, p.backends[j]) == Info(e, list[j]) {
      forall cs, j | NoFaults(cs) && !Exec(Begin(p, list), cs).pc.Idle? && 0 <= j < n
        ensures Exec(Begin(p, list), cs).kernel.slots[j] == p.kernel.slots[j]
      {
        UnderwayAt(p, list, cs);
        KeyInjective(e, p.backends[j].ip, list[j].ip);
        OldOrNew(p, list, Exec(Begin(p, list), cs), j);
      }
    } else {
      var j :| 0 <= j < n && j <= m && (j == m || Info(e, p.backends[j]) != Info(e, list[j]));
      var cs := ReachDone(p, list, j);
      Nonblank(e, p.backends, j);
      assert Exec(Begin(p, list), cs).kernel.slots[j] != p.kernel.slots[j];
    }
  }

  /** Packets see exactly the old list until the commit if and only if the new one extends it, address and MAC. */
  lemma OldUntilCommitExactly(p: Plane, list: seq<Backend>)
    requires Ready(p, list) && Configured(p)
    ensures OldUntilCommit(p, list) <==>
              && |p.backends| <= |list|
              && forall j | 0 <= j < |p.backends| :: p.backends[j].ip == list[j].ip && p.backends[j].mac == list[j].mac
  {
    var e, cur, m := p.kernel.host, p.backends, |list|;
    if |cur| <= m && forall j | 0 <= j < |cur| :: cur[j].ip == list[j].ip && cur[j].mac == list[j].mac {
      forall cs | NoFaults(cs) && !Exec(Begin(p, list), cs).pc.Idle?
        ensures var k := Exec(Begin(p, list), cs).kernel; Sees(k, k.config, p.settings, cur)
      {
        UnderwayAt(p, list, cs);
        ExtensionShowsOld(p, list, Exec(Begin(p, list), cs));
      }
    } else {
      var j :| 0 <= j < |cur| && j <= m && (j == m || cur[j].ip != list[j].ip || cur[j].mac != list[j].mac);
      var cs := ReachDone(p, list, j);
      DoneTells(p, list, Exec(Begin(p, list), cs), j);
    }
  }

  lemma ExtensionShowsOld(p: Plane, list: seq<Backend>, q: Plane)
    requires Ready(p, list) && Configured(p) && Underway(p, list, q) && |p.backends| <= |list|
    requires forall j | 0 <= j < |p.backends| :: p.backends[j].ip == list[j].ip && p.backends[j].mac == list[j].mac
    ensures Sees(q.kernel, q.kernel.config, p.settings, p.backends)
  {
    if p.backends == [] {
      BlanksShow(q.kernel, q.kernel.config, p.settings);
    } else {
      SmoothGrowing(p, list, q);
    }
  }

  lemma DoneTells(p: Plane, list: seq<Backend>, q: Plane, j: nat)
    requires Ready(p, list) && Configured(p) && Underway(p, list, q) && j < |p.backends| && j <= |list|
    requires q.kernel.slots[j] == if j < |list| then Info(p.kernel.host, list[j]) else EMPTY_INFO
    requires j == |list| || p.backends[j].ip != list[j].ip || p.backends[j].mac != list[j].mac
    ensures !Sees(q.kernel, q.kernel.config, p.settings, p.backends)
  {
    Nonblank(p.kernel.host, p.backends, j);
    if j < |list| {
      KeyInjective(p.kernel.host, p.backends[j].ip, list[j].ip);
    }
    SmallDraw(q.kernel, |p.backends|, p.backends, j);
    DrawTells(q.kernel, p.settings, |p.backends|, p.backends, j);
  }
}
