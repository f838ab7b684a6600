/**
 Syncing the same list again: it repairs the reverse map from whatever state,
 and once settled it changes nothing.
 */
module Convergence {
  import opened Types
  import opened KernelMaps
  import opened Reconciler
  import opened SyncShape
  import opened ErrorFree

  // ------------------------------------------------ a repeated Sync, any state

  /** `ips` is `before` with the first `i` listed addresses registered at their index and nothing else changed. */
  ghost predicate Overlaid(e: Endian, list: seq<Backend>, i: nat, before: map<u32, nat>, ips: map<u32, nat>) {
    && (forall n | 0 <= n < i && n < |list| :: Key(e, list[n].ip) in ips && ips[Key(e, list[n].ip)] == n)
    && (forall x | x in ips :: KeyOfNew(e, list, i, x) || (x in before && before[x] == ips[x]))
    && (forall x | x in before :: x in ips)
  }

  /** `slots` is `before` with the first `i` listed entries in place. */
  ghost predicate Written(e: Endian, list: seq<Backend>, i: nat, before: Table, slots: Table) {
    forall j | 0 <= j < MAX_BACKENDS :: slots[j] == if j < i && j < |list| then Info(e, list[j]) else before[j]
  }

  /** From `p` to `q`, `w` slots are written, `r` addresses registered and `v` veths attached, in list order. */
  ghost predicate Progress(p: Plane, q: Plane, w: nat, r: nat, v: nat)
    requires v <= |p.backends|
  {
    && q.list == q.backends == p.backends && q.kernel.host == p.kernel.host && q.settings == p.settings
    && Written(p.kernel.host, p.backends, w, p.kernel.slots, q.kernel.slots)
    && Overlaid(p.kernel.host, p.backends, r, p.kernel.ips, q.kernel.ips)
    && q.byVeth == p.byVeth + Veths(p.backends[..v])
  }

  /** `q` is a point of a Sync of the list that is already current in `p`: there is no clear among them. */
  ghost predicate Repeating(p: Plane, q: Plane) {
    var n := |p.backends|;
    && InRange(q) && q.list == q.backends == p.backends && q.kernel.host == p.kernel.host && q.settings == p.settings
    && match q.pc
       case WriteSlot(i) => Progress(p, q, i, i, i)
       case WriteIp(i) => Progress(p, q, i + 1, i, i)
       case Attach(i) => Progress(p, q, i + 1, i + 1, i)
       case Commit => Progress(p, q, n, n, n)
       case Idle(err) => !err ==> Progress(p, q, n, n, n) && q.kernel.config == ConfigOf(p.kernel.host, p.settings, n)
       case _ => false
  }

  lemma OverlayNext(e: Endian, list: seq<Backend>, i: nat, before: map<u32, nat>, ips: map<u32, nat>)
    requires Discovered(list) && i < |list| && Overlaid(e, list, i, before, ips)
    ensures Overlaid(e, list, i + 1, before, ips[Key(e, list[i].ip) := i])
  {
    var key := Key(e, list[i].ip);
    var ips' := ips[key := i];
    forall n | 0 <= n < i + 1 && n < |list| ensures key == Key(e, list[n].ip) <==> n == i {
      KeyInjective(e, list[n].ip, list[i].ip);
    }
    forall x | x in ips' ensures KeyOfNew(e, list, i + 1, x) || (x in before && before[x] == ips'[x]) {
      if x == key {
        assert KeyOfNew(e, list, i + 1, x);
      } else if KeyOfNew(e, list, i, x) {
        var n :| 0 <= n < i && n < |list| && Key(e, list[n].ip) == x;
        assert n < i + 1;
      }
    }
  }

  /** The write loop over an unchanged list goes from one entry to the next without a clear. */
  lemma AtWriteRepeating(list: seq<Backend>, i: nat)
    requires i <= |list|
    ensures AtWrite(list, list, i) == if i < |list| then WriteSlot(i) else Commit
  {
  }

  lemma RepeatingWriteIp(p: Plane, q: Plane, i: nat, ok: bool)
    requires Discovered(p.backends) && InRange(q) && q.pc == WriteIp(i)
    requires i < |p.backends| && Progress(p, q, i + 1, i, i)
    ensures Repeating(p, StepWriteIp(q, i, ok))
  {
    OverlayNext(p.kernel.host, p.backends, i, p.kernel.ips, q.kernel.ips);
  }

  lemma ProgressAttach(p: Plane, q: Plane, i: nat, ok: bool)
    requires InRange(q) && q.pc == Attach(i) && i < |p.backends|
    requires Progress(p, q, i + 1, i + 1, i)
    requires StepAttach(q, i, ok).pc != Idle(true)
    ensures Progress(p, StepAttach(q, i, ok), i + 1, i + 1, i + 1)
  {
    VethsSnoc(p.backends, i);
  }

  lemma RepeatingNext(p: Plane, r: Plane, i: nat)
    requires InRange(r) && i <= |p.backends| && Progress(p, r, i, i, i)
    requires r.pc == if i < |p.backends| then WriteSlot(i) else Commit
    ensures Repeating(p, r)
  {
  }

  lemma RepeatingAttach(p: Plane, q: Plane, i: nat, ok: bool)
    requires InRange(q) && q.pc == Attach(i) && i < |p.backends|
    requires Progress(p, q, i + 1, i + 1, i)
    ensures Repeating(p, StepAttach(q, i, ok))
  {
    var r := StepAttach(q, i, ok);
    AtWriteRepeating(p.backends, i + 1);
    if r.pc != Idle(true) {
      ProgressAttach(p, q, i, ok);
      RepeatingNext(p, r, i + 1);
    }
  }

  lemma RepeatingStep(p: Plane, q: Plane, c: Choice)
    requires Discovered(p.backends) && Repeating(p, q)
    ensures Repeating(p, Step(q, c))
  {
    match q.pc
    case WriteIp(i) => RepeatingWriteIp(p, q, i, c.ok);
    case Attach(i) => RepeatingAttach(p, q, i, c.ok);
    case _ =>
  }

  /**
   From any state, reached through whatever failures, a Sync of the list already
   current clears nothing; if it succeeds every listed address is registered at its
   own index and every listed entry is in its slot, and nothing else has changed.
   */
  lemma {:induction false} RepeatedSync(p: Plane, cs: seq<Choice>)
    requires |p.backends| <= MAX_BACKENDS && Discovered(p.backends)
    ensures Repeating(p, Exec(Begin(p, p.backends), cs))
  {
    if cs == [] {
      AtWriteRepeating(p.backends, 0);
      assert Veths(p.backends[..0]) == {};
    } else {
      var n := |cs| - 1;
      RepeatedSync(p, cs[..n]);
      RepeatingStep(p, Exec(Begin(p, p.backends), cs[..n]), cs[n]);
    }
  }

  // ------------------------------------------------------------ fixed point

  /** Everything a Sync of the current list would write is in place. */
  ghost predicate Settled(p: Plane) {
    var e, list := p.kernel.host, p.backends;
    && |list| <= MAX_BACKENDS
    && (forall n | 0 <= n < |list| :: p.kernel.slots[n] == Info(e, list[n]))
    && (forall n | 0 <= n < |list| :: Key(e, list[n].ip) in p.kernel.ips && p.kernel.ips[Key(e, list[n].ip)] == n)
    && Veths(list) <= p.byVeth
    && p.kernel.config == ConfigOf(e, p.settings, |list|)
  }

  /** `q` differs from `p` in nothing a packet or a later Sync could see. */
  ghost predicate Still(p: Plane, q: Plane) {
    && InRange(q)
    && q.settings == p.settings && q.kernel == p.kernel && q.links == p.links
    && q.list == q.backends == p.backends && q.byVeth == p.byVeth
    && (q.pc.Idle? || q.pc.WriteSlot? || q.pc.WriteIp? || q.pc.Attach? || q.pc.Commit?)
  }

  lemma StillStep(p: Plane, q: Plane, c: Choice)
    requires Settled(p) && Still(p, q)
    ensures Still(p, Step(q, c))
  {
    match q.pc
    case Attach(i) =>
      AtWriteRepeating(p.backends, i + 1);
      assert p.backends[i] in p.backends;
    case WriteIp(i) =>
      assert p.kernel.ips[Key(p.kernel.host, p.backends[i].ip) := i] == p.kernel.ips;
    case _ =>
  }

  /** Once settled, no point of any further Sync of the list is visible, whatever fails. */
  lemma {:induction false} FixedPoint(p: Plane, cs: seq<Choice>)
    requires Settled(p)
    ensures Still(p, Exec(Begin(p, p.backends), cs))
  {
    if cs == [] {
      AtWriteRepeating(p.backends, 0);
    } else {
      var n := |cs| - 1;
      FixedPoint(p, cs[..n]);
      StillStep(p, Exec(Begin(p, p.backends), cs[..n]), cs[n]);
    }
  }

  /** A second error-free Sync of the list meets no backend that moved, so it completes the inverse. */
  lemma SecondSync(p: Plane, list: seq<Backend>, q: Plane)
    requires p.backends == list && Discovered(list) && Synced(p, list, q)
    requires p.settings == q.settings && p.kernel.host == q.kernel.host
    ensures Inverse(p.kernel.host, list, q.kernel.ips) && Settled(q)
  {
  }

  /** Two error-free Syncs of one list from a clean state leave the exact inverse and a settled state. */
  lemma TwoSyncsConverge(p: Plane, list: seq<Backend>, cs: seq<Choice>, ds: seq<Choice>)
    requires Ready(p, list) && NoFaults(cs) && NoFaults(ds)
    requires Exec(Begin(p, list), cs).pc.Idle?
    requires Exec(Begin(Exec(Begin(p, list), cs), list), ds).pc.Idle?
    ensures var q := Exec(Begin(Exec(Begin(p, list), cs), list), ds);
            Clean(q) && q.backends == list && Inverse(p.kernel.host, list, q.kernel.ips) && Settled(q)
  {
    var q1 := Exec(Begin(p, list), cs);
    ErrorFreeSync(p, list, cs);
    assert Ready(q1, list);
    ErrorFreeSync(q1, list, ds);
    SecondSync(q1, list, Exec(Begin(q1, list), ds));
  }
}
