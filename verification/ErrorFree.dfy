/**
 What one Sync from a clean state leaves behind when no operation fails.
 */
module ErrorFree {
  import opened Types
  import opened KernelMaps
  import opened Reconciler
  import opened SyncShape

  /** A Sync of `list` may start from `p` and nothing but the environment can fail it. */
  ghost predicate Ready(p: Plane, list: seq<Backend>) {
    Clean(p) && p.pc.Idle? && |list| <= MAX_BACKENDS && Discovered(list)
  }

  /** `list[n]` was listed before, at a larger index. */
  ghost predicate MovedDown(cur: seq<Backend>, list: seq<Backend>, n: nat)
    requires n < |list|
  {
    exists j :: n < j < |cur| && cur[j].ip == list[n].ip
  }

  /** Registered are exactly the listed addresses that did not move down, each at its index. */
  ghost predicate ExactReverse(e: Endian, cur: seq<Backend>, list: seq<Backend>, ips: map<u32, nat>) {
    && (forall n | 0 <= n < |list| ::
          && (Key(e, list[n].ip) in ips <==> !MovedDown(cur, list, n))
          && (Key(e, list[n].ip) in ips ==> ips[Key(e, list[n].ip)] == n))
    && (forall x | x in ips :: KeyOfNew(e, list, |list|, x))
  }

  /** The whole state after a completed error-free Sync. */
  ghost predicate Synced(p: Plane, list: seq<Backend>, q: Plane) {
    && q.pc == Idle(false) && q.backends == list
    && Clean(q)
    && |list| <= MAX_BACKENDS && q.kernel.config == ConfigOf(p.kernel.host, p.settings, |list|)
    && ExactReverse(p.kernel.host, p.backends, list, q.kernel.ips)
  }

  lemma SyncedByCommit(p: Plane, q: Plane)
    requires Shape(q) && q.pc == Commit
    requires q.backends == p.backends && q.kernel.host == p.kernel.host && q.settings == p.settings
    ensures Synced(p, q.list, StepCommit(q, true))
  {
    ShapeCommit(q);
    var e, cur, list, ips := q.kernel.host, q.backends, q.list, q.kernel.ips;
    forall n | 0 <= n < |list| ensures Demoted(cur, list, n, End(q)) <==> MovedDown(cur, list, n) {
      if MovedDown(cur, list, n) {
        var j :| n < j < |cur| && cur[j].ip == list[n].ip;
        assert j < End(q);
      }
    }
    forall x | x in ips ensures KeyOfNew(e, list, |list|, x) {
      assert KeyOfNew(e, list, End(q), x);
    }
  }

  /** `q` is an atomic point of an error-free Sync of `list` from `p`, or its end. */
  ghost predicate During(p: Plane, list: seq<Backend>, q: Plane) {
    && Shape(q)
    && (if q.pc.Idle? then Synced(p, list, q) else
          && q.list == list && q.backends == p.backends
          && q.kernel.host == p.kernel.host && q.settings == p.settings)
  }

  /** Only the commit changes the current list. */
  lemma OnlyCommitCompletes(q: Plane, c: Choice)
    requires InRange(q) && q.pc != Commit
    ensures Step(q, c).backends == q.backends && Step(q, c).kernel.config == q.kernel.config
    ensures Step(q, c).pc == Idle(false) ==> q.pc == Idle(false)
  {
  }

  lemma DuringStep(p: Plane, list: seq<Backend>, q: Plane, c: Choice)
    requires During(p, list, q) && c.ok
    ensures During(p, list, Step(q, c))
  {
    ShapeStep(q, c);
    if q.pc == Commit {
      SyncedByCommit(p, q);
    } else {
      OnlyCommitCompletes(q, c);
    }
  }

  /**
   Every atomic point of an error-free Sync has the exact shape, and its
   completion leaves the exact tables: no operation is rejected on the way.
   */
  lemma {:induction false} ErrorFreeSync(p: Plane, list: seq<Backend>, cs: seq<Choice>)
    requires Ready(p, list) && NoFaults(cs)
    ensures During(p, list, Exec(Begin(p, list), cs))
  {
    if cs == [] {
      ShapeBegin(p, list);
    } else {
      var n := |cs| - 1;
      ErrorFreeSync(p, list, cs[..n]);
      DuringStep(p, list, Exec(Begin(p, list), cs[..n]), cs[n]);
    }
  }

  /**
   At every point the registered keys are drawn from the new entries up to some
   index and the old ones from there on, so the reverse map stays within the longer
   list and no key is ever refused for lack of room.
   */
  lemma Capacity(p: Plane, list: seq<Backend>, cs: seq<Choice>)
    requires Ready(p, list) && NoFaults(cs)
    ensures var q := Exec(Begin(p, list), cs);
            var news, olds := list[..Min(KeyBound(q), |list|)], q.backends[Min(KeyBound(q), |q.backends|)..];
            && q.kernel.ips.Keys <= KeySet(q.kernel.host, news) + KeySet(q.kernel.host, olds)
            && |q.kernel.ips| <= Max(|p.backends|, |list|) <= MAX_BACKENDS
            && (q.pc.WriteIp? ==> IpAccepted(q.kernel, Key(q.kernel.host, list[q.pc.i].ip), true))
  {
    ErrorFreeSync(p, list, cs);
    var q := Exec(Begin(p, list), cs);
    var e, k, ips := q.kernel.host, KeyBound(q), q.kernel.ips;
    forall x | x in ips ensures KeyOfNew(e, list, k, x) || KeyOfCur(e, q.backends, k, ips, x) {
      KeysDrawn(q, x);
    }
    KeyCount(e, q.backends, list, ips, k, k);
    if q.pc.WriteIp? {
      RevRoom(e, q.backends, list, ips, q.pc.i);
    }
  }

  // ------------------------------------------------ when one Sync is enough

  /** The reverse map is the exact inverse of the list. */
  ghost predicate Inverse(e: Endian, list: seq<Backend>, ips: map<u32, nat>) {
    && (forall n | 0 <= n < |list| :: Key(e, list[n].ip) in ips && ips[Key(e, list[n].ip)] == n)
    && (forall x | x in ips :: KeyOfNew(e, list, |list|, x))
  }

  /** One Sync makes the reverse map agree with the forward table if and only if no backend moved down. */
  lemma AgreementAfterOneSync(p: Plane, list: seq<Backend>, cs: seq<Choice>)
    requires Ready(p, list) && NoFaults(cs)
    requires Exec(Begin(p, list), cs).pc.Idle?
    ensures Inverse(p.kernel.host, list, Exec(Begin(p, list), cs).kernel.ips)
       <==> forall n | 0 <= n < |list| :: !MovedDown(p.backends, list, n)
  {
    ErrorFreeSync(p, list, cs);
  }

  /**
   Dropping the first of two backends leaves the survivor, which moves to index 0,
   in the forward table and out of the reverse one.
   */
  lemma SurvivorUnregistered(p: Plane, a: Backend, b: Backend, cs: seq<Choice>)
    requires Ready(p, [b]) && p.backends == [a, b] && NoFaults(cs)
    requires Exec(Begin(p, [b]), cs).pc.Idle?
    ensures var k := Exec(Begin(p, [b]), cs).kernel;
            k.slots[0] == Info(k.host, b) && Key(k.host, b.ip) !in k.ips
  {
    ErrorFreeSync(p, [b], cs);
    assert p.backends[1].ip == [b][0].ip;
    assert MovedDown(p.backends, [b], 0);
  }

  /** And such a state is reached from the start: Sync two backends, then only the second. */
  lemma SurvivorRun(e: Endian, s: Settings, a: Backend, b: Backend) returns (cs: seq<Choice>, ds: seq<Choice>)
    requires Discovered([a, b])
    ensures NoFaults(cs) && Exec(Begin(Initial(e, s), [a, b]), cs).pc == Idle(false)
    ensures var p := Exec(Begin(Initial(e, s), [a, b]), cs);
            var q := Exec(Begin(p, [b]), ds);
            && NoFaults(ds) && q.pc == Idle(false)
            && q.kernel.slots[0] == Info(e, b) && Key(e, b.ip) !in q.kernel.ips
  {
    var p0 := Initial(e, s);
    cs := Completion(Begin(p0, [a, b]));
    ErrorFreeSync(p0, [a, b], cs);
    var p := Exec(Begin(p0, [a, b]), cs);
    ds := Completion(Begin(p, [b]));
    assert [a, b][1] == b && [b][0] == b;
    assert Discovered([b]);
    ErrorFreeSync(p, [b], ds);
    SurvivorUnregistered(p, a, b, ds);
  }
}
