/**
 Sync clears reverse entries of the current list only. An address that a failed
 Sync registered and that is not current stays registered until a list has it
 again, and enough of them stop the Syncs that bring a new address.
 */
module Leaks {
  import opened Types
  import opened KernelMaps
  import opened Reconciler
  import opened SyncShape
  import opened Faults
  import opened Room
  import opened System

  // ---------------------------------------------------------- stranded keys

  /** Neither the current list nor the one being synced has the key. */
  ghost predicate Stranded(p: Plane, x: u32) {
    && Foreign(p.kernel.host, p.backends, x)
    && (!p.pc.Idle? ==> Foreign(p.kernel.host, p.list, x))
  }

  /** No list started by these actions has the key. */
  ghost predicate NeverListed(e: Endian, acts: seq<Action>, x: u32) {
    forall k | 0 <= k < |acts| && acts[k].StartSync? :: Foreign(e, acts[k].list, x)
  }

  lemma StrandedNext(s: Sys, a: Action, x: u32)
    requires Wf(s) && Stranded(s.plane, x)
    requires a.StartSync? ==> Foreign(s.plane.kernel.host, a.list, x)
    ensures Stranded(Next(s, a).plane, x) && SameKey(s.plane, Next(s, a).plane, x)
  {
    if a.Control? && !s.plane.pc.Idle? {
      ForeignStep(s.plane, a.choice, x);
    } else if !a.StartSync? {
      assert Next(s, a).plane == s.plane;
    }
  }

  /**
   A key of no current list keeps its reverse entry, and its index, through every
   later state of every run, whatever fails, in which no list started has it.
   */
  lemma {:induction false} StrandedKey(s: Sys, acts: seq<Action>, x: u32)
    requires Wf(s) && Stranded(s.plane, x) && NeverListed(s.plane.kernel.host, acts, x)
    ensures Stranded(Run(s, acts).plane, x) && SameKey(s.plane, Run(s, acts).plane, x)
  {
    if acts != [] {
      var k := |acts| - 1;
      StrandedKey(s, acts[..k], x);
      StrandedNext(Run(s, acts[..k]), acts[k], x);
    }
  }

  // -------------------------------------------------------------- a full map

  /** The map is full without the key of entry `n`, and no clear on the way there deletes a key it has. */
  ghost predicate Wedged(p: Plane, list: seq<Backend>, n: nat) {
    && |p.backends| <= MAX_BACKENDS && n < |list|
    && |p.kernel.ips| >= MAX_BACKENDS
    && (forall i | 0 <= i <= n && Clears(p, list, i) :: Key(p.kernel.host, p.backends[i].ip) !in p.kernel.ips)
    && Key(p.kernel.host, list[n].ip) !in p.kernel.ips
  }

  ghost predicate StillWedged(p: Plane, list: seq<Backend>, n: nat, q: Plane) {
    && Wedged(p, list, n) && InRange(q)
    && q.list == list && q.backends == p.backends && q.kernel.host == p.kernel.host
    && q.kernel.ips.Keys == p.kernel.ips.Keys
    && match q.pc
       case ClearSlot(i) => i <= n && p.backends[i].ip != list[i].ip
       case ClearIp(i) => i <= n && p.backends[i].ip != list[i].ip
       case WriteSlot(i) => i <= n
       case WriteIp(i) => i <= n
       case Attach(i) => i < n
       case Idle(err) => err
       case _ => false
  }

  lemma WedgedStep(p: Plane, list: seq<Backend>, n: nat, q: Plane, c: Choice)
    requires StillWedged(p, list, n, q)
    ensures StillWedged(p, list, n, Step(q, c))
  {
    assert |q.kernel.ips| == |q.kernel.ips.Keys| == |p.kernel.ips|;
    if q.pc.ClearIp? {
      assert Clears(p, list, q.pc.i) ==> Key(p.kernel.host, q.backends[q.pc.i].ip) !in p.kernel.ips.Keys;
    }
  }

  /**
   With the reverse map full, a list with an unregistered address fails, whatever
   the environment does, if no clear on the way to it frees a place; the map has the
   same keys afterwards, so the next such Sync fails too. `Room.FaultFreeOutcome` and
   `Room.SuccessPossible` say exactly when a Sync fails.
   */
  lemma {:induction false} FullMapWedges(p: Plane, list: seq<Backend>, n: nat, cs: seq<Choice>)
    requires Wedged(p, list, n)
    ensures StillWedged(p, list, n, Exec(Begin(p, list), cs))
  {
    if cs != [] {
      var k := |cs| - 1;
      FullMapWedges(p, list, n, cs[..k]);
      WedgedStep(p, list, n, Exec(Begin(p, list), cs[..k]), cs[k]);
    }
  }

  // --------------------------------------------------------- how it fills up

  /** Forward entry and reverse entry written, attach refused. */
  function RefusedAttach(): seq<Choice> { [Choice(true, ""), Choice(true, ""), Choice(false, "")] }

  /** A Sync of one backend whose veth cannot be attached. */
  function Refused(p: Plane, b: Backend): Plane
    requires |p.backends| <= MAX_BACKENDS
  {
    Exec(Begin(p, [b]), RefusedAttach())
  }

  lemma RefusedLeaks(p: Plane, b: Backend)
    requires p.backends == [] && p.pc.Idle? && b.ip.V4? && |p.kernel.ips| < MAX_BACKENDS
    requires b.veth !in p.byVeth && b.veth !in p.links
    ensures var q := Refused(p, b);
            && q.pc == Idle(true) && q.backends == [] && q.kernel.host == p.kernel.host
            && q.byVeth == p.byVeth && q.links == p.links
            && q.kernel.ips == p.kernel.ips[Key(p.kernel.host, b.ip) := 0]
  {
    var c, d := Choice(true, ""), Choice(false, "");
    var q := Begin(p, [b]);
    ExecShort(q, c, c);
    ExecSnoc(q, [c, c], d);
    assert RefusedAttach() == [c, c] + [d];
  }

  /** One such Sync after another. */
  function RefusedAll(p: Plane, bs: seq<Backend>): (q: Plane)
    requires |p.backends| <= MAX_BACKENDS
    ensures |q.backends| <= MAX_BACKENDS
  {
    if bs == [] then p else Refused(RefusedAll(p, bs[..|bs| - 1]), bs[|bs| - 1])
  }

  /** Up to 64 refused Syncs from the start leave all their addresses registered and no list current. */
  lemma {:induction false} LeaksAccumulate(e: Endian, s: Settings, bs: seq<Backend>)
    requires Discovered(bs) && |bs| <= MAX_BACKENDS
    ensures var q := RefusedAll(Initial(e, s), bs);
            && q.pc.Idle? && q.backends == [] && q.byVeth == {} && q.links == map[]
            && q.kernel.host == e && q.kernel.ips.Keys == KeySet(e, bs) && |q.kernel.ips| == |bs|
  {
    if bs != [] {
      var n := |bs| - 1;
      LeaksAccumulate(e, s, bs[..n]);
      var q := RefusedAll(Initial(e, s), bs[..n]);
      RefusedLeaks(q, bs[n]);
      FreshKey(e, bs);
    }
  }

  lemma FreshKey(e: Endian, bs: seq<Backend>)
    requires Discovered(bs) && bs != []
    ensures var n := |bs| - 1;
            && Key(e, bs[n].ip) !in KeySet(e, bs[..n])
            && KeySet(e, bs) == KeySet(e, bs[..n]) + {Key(e, bs[n].ip)}
  {
    var n := |bs| - 1;
    KeySetSnoc(e, bs[..n], bs[n]);
    assert bs == bs[..n] + [bs[n]];
    forall j | 0 <= j < n ensures Key(e, bs[j].ip) != Key(e, bs[n].ip) {
      KeyInjective(e, bs[j].ip, bs[n].ip);
    }
  }

  lemma KeySetSnoc(e: Endian, bs: seq<Backend>, b: Backend)
    ensures KeySet(e, bs + [b]) == KeySet(e, bs) + {Key(e, b.ip)}
  {
    assert forall x :: x in bs + [b] <==> x in bs || x == b;
  }

  /** After sixty-four refused Syncs the next Sync of a list with any other address fails, whatever happens. */
  lemma WedgedByLeaks(e: Endian, s: Settings, bs: seq<Backend>, list: seq<Backend>, n: nat, cs: seq<Choice>)
    requires Discovered(bs) && |bs| == MAX_BACKENDS
    requires n < |list| && Key(e, list[n].ip) !in KeySet(e, bs)
    ensures var p := RefusedAll(Initial(e, s), bs);
            StillWedged(p, list, n, Exec(Begin(p, list), cs))
  {
    LeaksAccumulate(e, s, bs);
    FullMapWedges(RefusedAll(Initial(e, s), bs), list, n, cs);
  }
}
