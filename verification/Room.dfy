/**
 When a Sync succeeds: exactly how the room left in the reverse map decides it,
 from any state.
 */
module Room {
  import opened Types
  import opened KernelMaps
  import opened Reconciler
  import opened SyncShape
  import opened ErrorFree

  // ---------------------------------------------------- computed beforehand

  /** Index `i` is cleared before its new entry is written, and the clear has a key to delete. */
  predicate Clears(p: Plane, list: seq<Backend>, i: nat)
    requires i < |list|
  {
    i < |p.backends| && p.backends[i].ip != list[i].ip && p.backends[i].ip.V4?
  }

  /**
   The keys registered when iteration `i` of the write loop starts, if it is reached
   and the clears of the indices in `kept`, and no others, left their key in place.
   */
  function KeysBefore(p: Plane, list: seq<Backend>, kept: set<nat>, i: nat): set<u32>
    requires i <= |list|
    decreases i, 0
  {
    if i == 0 then p.kernel.ips.Keys
    else KeysAt(p, list, kept, i - 1) + {Key(p.kernel.host, list[i - 1].ip)}
  }

  /** The keys registered when entry `i` is about to be. */
  function KeysAt(p: Plane, list: seq<Backend>, kept: set<nat>, i: nat): set<u32>
    requires i < |list|
    decreases i, 1
  {
    if Clears(p, list, i) && i !in kept
    then KeysBefore(p, list, kept, i) - {Key(p.kernel.host, p.backends[i].ip)}
    else KeysBefore(p, list, kept, i)
  }

  /** Entry `i` is one no environment can get through: not IPv4, past the table, or a new key for a full map. */
  predicate Stops(p: Plane, list: seq<Backend>, kept: set<nat>, i: nat)
    requires i < |list|
  {
    || !list[i].ip.V4?
    || i >= MAX_BACKENDS
    || (Key(p.kernel.host, list[i].ip) !in KeysAt(p, list, kept, i) && |KeysAt(p, list, kept, i)| >= MAX_BACKENDS)
  }

  /** No entry below `i` stops the Sync. */
  predicate Through(p: Plane, list: seq<Backend>, kept: set<nat>, i: nat)
    requires i <= |list|
  {
    forall j | 0 <= j < i :: !Stops(p, list, kept, j)
  }

  // ------------------------------------------------------- at every point

  /** The registered keys at `q` are the ones computed, and nothing so far stopped the Sync. */
  ghost predicate At(p: Plane, list: seq<Backend>, kept: set<nat>, q: Plane) {
    && InRange(q) && q.list == list && q.kernel.host == p.kernel.host
    && match q.pc
       case ClearSlot(i) => Starting(p, list, kept, q, i) && p.backends[i].ip != list[i].ip
       case ClearIp(i) => Starting(p, list, kept, q, i) && p.backends[i].ip != list[i].ip
       case WriteSlot(i) => Placing(p, list, kept, q, i)
       case WriteIp(i) => Placing(p, list, kept, q, i) && list[i].ip.V4?
       case Attach(i) => Starting(p, list, kept, q, i + 1)
       case Idle(err) => !err ==> Through(p, list, kept, |list|)
       case _ => q.backends == p.backends && Through(p, list, kept, |list|)
  }

  ghost predicate Starting(p: Plane, list: seq<Backend>, kept: set<nat>, q: Plane, i: nat)
    requires i <= |list|
  {
    q.backends == p.backends && q.kernel.ips.Keys == KeysBefore(p, list, kept, i) && Through(p, list, kept, i)
  }

  ghost predicate Placing(p: Plane, list: seq<Backend>, kept: set<nat>, q: Plane, i: nat)
    requires i < |list|
  {
    q.backends == p.backends && q.kernel.ips.Keys == KeysAt(p, list, kept, i) && Through(p, list, kept, i)
  }

  lemma AtNext(p: Plane, list: seq<Backend>, kept: set<nat>, q: Plane, i: nat)
    requires InRange(q) && q.list == list && q.kernel.host == p.kernel.host
    requires i <= |list| && Starting(p, list, kept, q, i)
    requires q.pc == AtWrite(p.backends, list, i)
    ensures At(p, list, kept, q)
  {
  }

  /** A step whose clear, if it is one, goes as `kept` says. */
  predicate Agrees(kept: set<nat>, q: Plane, c: Choice) {
    && (q.pc.ClearSlot? && !c.ok ==> q.pc.i in kept)
    && (q.pc.ClearIp? ==> (c.ok <==> q.pc.i !in kept))
  }

  lemma AtClear(p: Plane, list: seq<Backend>, kept: set<nat>, q: Plane, c: Choice)
    requires At(p, list, kept, q) && Agrees(kept, q, c)
    requires q.pc.ClearSlot? || q.pc.ClearIp?
    ensures At(p, list, kept, Step(q, c))
  {
  }

  lemma AtWriteIp(p: Plane, list: seq<Backend>, kept: set<nat>, q: Plane, i: nat, ok: bool)
    requires At(p, list, kept, q) && q.pc == WriteIp(i)
    ensures At(p, list, kept, StepWriteIp(q, i, ok))
    ensures ok && StepWriteIp(q, i, ok).pc == Idle(true) ==> Stops(p, list, kept, i)
  {
    assert |q.kernel.ips| == |q.kernel.ips.Keys|;
  }

  lemma AtAttach(p: Plane, list: seq<Backend>, kept: set<nat>, q: Plane, i: nat, ok: bool)
    requires At(p, list, kept, q) && q.pc == Attach(i)
    ensures At(p, list, kept, StepAttach(q, i, ok))
  {
    var r := StepAttach(q, i, ok);
    if r.pc != Idle(true) {
      AtNext(p, list, kept, r, i + 1);
    }
  }

  lemma AtWriteSlot(p: Plane, list: seq<Backend>, kept: set<nat>, q: Plane, i: nat, ok: bool)
    requires At(p, list, kept, q) && q.pc == WriteSlot(i)
    ensures At(p, list, kept, StepWriteSlot(q, i, ok))
    ensures ok && StepWriteSlot(q, i, ok).pc == Idle(true) ==> Stops(p, list, kept, i)
  {
  }

  /** The steps after the write loop. */
  lemma AtRest(p: Plane, list: seq<Backend>, kept: set<nat>, q: Plane, c: Choice)
    requires At(p, list, kept, q) && (q.pc.StaleSlot? || q.pc.StaleIp? || q.pc.Detach? || q.pc.Commit? || q.pc.Idle?)
    ensures At(p, list, kept, Step(q, c))
    ensures c.ok && q.pc != Idle(true) ==> Step(q, c).pc != Idle(true)
  {
  }

  lemma AtStep(p: Plane, list: seq<Backend>, kept: set<nat>, q: Plane, c: Choice)
    requires At(p, list, kept, q) && Agrees(kept, q, c)
    ensures At(p, list, kept, Step(q, c))
    ensures c.ok && q.pc != Idle(true) && Step(q, c).pc == Idle(true) ==> !Through(p, list, kept, |list|)
  {
    match q.pc
    case ClearSlot(i) => AtClear(p, list, kept, q, c);
    case ClearIp(i) => AtClear(p, list, kept, q, c);
    case WriteSlot(i) => AtWriteSlot(p, list, kept, q, i, c.ok);
    case WriteIp(i) => AtWriteIp(p, list, kept, q, i, c.ok);
    case Attach(i) => AtAttach(p, list, kept, q, i, c.ok);
    case _ => AtRest(p, list, kept, q, c);
  }

  // --------------------------------------------------- whatever happened so far

  /** Indices from `i` on do not matter for the keys before `i`. */
  lemma {:induction false} KeptLater(p: Plane, list: seq<Backend>, kept: set<nat>, k: nat, i: nat)
    requires i <= k && i <= |list|
    ensures KeysBefore(p, list, kept + {k}, i) == KeysBefore(p, list, kept, i)
  {
    if i > 0 {
      KeptLater(p, list, kept, k, i - 1);
      assert i - 1 in kept + {k} <==> i - 1 in kept;
    }
  }

  lemma StopsLater(p: Plane, list: seq<Backend>, kept: set<nat>, k: nat, i: nat)
    requires i <= k && i <= |list| && Through(p, list, kept, i)
    ensures Through(p, list, kept + {k}, i)
  {
    forall j | 0 <= j < i ensures !Stops(p, list, kept + {k}, j) {
      KeptLater(p, list, kept, k, j);
      assert KeysAt(p, list, kept + {k}, j) == KeysAt(p, list, kept, j);
      assert !Stops(p, list, kept, j);
    }
  }

  /** `kept` speaks only of clears already made. */
  ghost predicate Made(kept: set<nat>, q: Plane) {
    && (q.pc.ClearSlot? || q.pc.ClearIp? ==> forall k | k in kept :: k < q.pc.i)
    && (q.pc.WriteSlot? || q.pc.WriteIp? || q.pc.Attach? ==> forall k | k in kept :: k <= q.pc.i)
  }

  lemma MadeStep(kept: set<nat>, q: Plane, c: Choice)
    requires InRange(q) && Made(kept, q)
    ensures Made(if (q.pc.ClearSlot? || q.pc.ClearIp?) && !c.ok then kept + {q.pc.i} else kept, Step(q, c))
  {
  }

  lemma KeptStep(p: Plane, list: seq<Backend>, kept: set<nat>, q: Plane, c: Choice) returns (kept': set<nat>)
    requires At(p, list, kept, q) && Made(kept, q)
    ensures At(p, list, kept', Step(q, c)) && Made(kept', Step(q, c))
    ensures c.ok ==> kept' == kept
    ensures c.ok && q.pc != Idle(true) && Step(q, c).pc == Idle(true) ==> !Through(p, list, kept, |list|)
  {
    kept' := kept;
    if (q.pc.ClearSlot? || q.pc.ClearIp?) && !c.ok {
      KeptLater(p, list, kept, q.pc.i, q.pc.i);
      StopsLater(p, list, kept, q.pc.i, q.pc.i);
      kept' := kept + {q.pc.i};
    }
    MadeStep(kept, q, c);
    AtStep(p, list, kept', q, c);
  }

  /** Any execution is one in which some set of clears left their key, the empty one if nothing failed. */
  lemma {:induction false} SomeKept(p: Plane, list: seq<Backend>, cs: seq<Choice>) returns (kept: set<nat>)
    requires |p.backends| <= MAX_BACKENDS
    ensures var q := Exec(Begin(p, list), cs);
            && At(p, list, kept, q) && Made(kept, q)
            && (NoFaults(cs) ==> kept == {} && (q.pc == Idle(true) ==> !Through(p, list, {}, |list|)))
  {
    if cs == [] {
      kept := {};
      AtNext(p, list, kept, Begin(p, list), 0);
    } else {
      var n := |cs| - 1;
      kept := SomeKept(p, list, cs[..n]);
      kept := KeptStep(p, list, kept, Exec(Begin(p, list), cs[..n]), cs[n]);
    }
  }

  /**
   From any state, a Sync of any list in which nothing fails returns an error if and
   only if some entry is not IPv4, lies past the 64 slots, or is a new address for a
   reverse map that is full when its turn comes.
   */
  lemma FaultFreeOutcome(p: Plane, list: seq<Backend>, cs: seq<Choice>)
    requires |p.backends| <= MAX_BACKENDS && NoFaults(cs)
    requires Exec(Begin(p, list), cs).pc.Idle?
    ensures Exec(Begin(p, list), cs).pc == Idle(true) <==> exists i | 0 <= i < |list| :: Stops(p, list, {}, i)
  {
    var kept := SomeKept(p, list, cs);
  }

  // ------------------------------------------------------ whatever may happen

  /** From a point where nothing stopped it the environment can carry the Sync through, keeping exactly `kept`. */
  lemma CarryThrough(p: Plane, list: seq<Backend>, kept: set<nat>, q: Plane) returns (cs: seq<Choice>)
    requires At(p, list, kept, q) && q.pc != Idle(true) && Through(p, list, kept, |list|)
    ensures Exec(q, cs).pc == Idle(false)
    decreases Work(q).0, Work(q).1, Work(q).2
  {
    if q.pc.Idle? {
      return [];
    }
    var pick := "";
    if q.pc.Detach? {
      pick :| pick in q.pc.pending;
    }
    var c := Choice(q.pc.ClearIp? ==> q.pc.i !in kept, pick);
    AtStep(p, list, kept, q, c);
    var rest := CarryThrough(p, list, kept, Step(q, c));
    ExecCons(q, c, rest);
    cs := [c] + rest;
  }

  /** Some execution of the Sync succeeds. */
  ghost predicate CanSucceed(p: Plane, list: seq<Backend>)
    requires |p.backends| <= MAX_BACKENDS
  {
    exists cs :: Exec(Begin(p, list), cs).pc == Idle(false)
  }

  /**
   A Sync can succeed if and only if some set of clears, left without effect, lets
   every entry through. Those are the faults Sync ignores, by `Faults.ErrorsExactly`.
   */
  lemma SuccessPossible(p: Plane, list: seq<Backend>)
    requires |p.backends| <= MAX_BACKENDS
    ensures CanSucceed(p, list) <==> exists kept: set<nat> :: Through(p, list, kept, |list|)
  {
    if CanSucceed(p, list) {
      var cs :| Exec(Begin(p, list), cs).pc == Idle(false);
      var kept := SomeKept(p, list, cs);
    }
    if exists kept: set<nat> :: Through(p, list, kept, |list|) {
      var kept: set<nat> :| Through(p, list, kept, |list|);
      AtNext(p, list, kept, Begin(p, list), 0);
      var cs := CarryThrough(p, list, kept, Begin(p, list));
    }
  }

  /** From a clean state no entry of a discovered list of at most 64 stops a Sync. */
  lemma ReadyIsThrough(p: Plane, list: seq<Backend>)
    requires Ready(p, list)
    ensures Through(p, list, {}, |list|)
  {
    var cs := Completion(Begin(p, list));
    ErrorFreeSync(p, list, cs);
    FaultFreeOutcome(p, list, cs);
  }

  /** Where no entry stops it, a Sync in which nothing fails has room at every put of a key. */
  lemma RoomAtEveryPut(p: Plane, list: seq<Backend>, cs: seq<Choice>)
    requires |p.backends| <= MAX_BACKENDS && Through(p, list, {}, |list|) && NoFaults(cs)
    ensures var q := Exec(Begin(p, list), cs);
            q.pc.WriteIp? ==> IpAccepted(q.kernel, Key(q.kernel.host, list[q.pc.i].ip), true)
  {
    var kept := SomeKept(p, list, cs);
    var q := Exec(Begin(p, list), cs);
    if q.pc.WriteIp? {
      PutHasRoom(p, list, {}, q, q.pc.i);
    }
  }

  lemma PutHasRoom(p: Plane, list: seq<Backend>, kept: set<nat>, q: Plane, i: nat)
    requires i < |list| && Placing(p, list, kept, q, i) && !Stops(p, list, kept, i)
    ensures IpAccepted(q.kernel, Key(p.kernel.host, list[i].ip), true)
  {
    assert |q.kernel.ips| == |q.kernel.ips.Keys|;
  }

  /** The capacity: from a clean state a discovered list can be synced if and only if it has at most 64 backends. */
  lemma CapacityIs64(p: Plane, list: seq<Backend>)
    requires Clean(p) && p.pc.Idle? && Discovered(list)
    ensures CanSucceed(p, list) <==> |list| <= 64
  {
    SuccessPossible(p, list);
    if |list| <= 64 {
      ReadyIsThrough(p, list);
    } else {
      forall kept: set<nat> ensures !Through(p, list, kept, |list|) {
        assert Stops(p, list, kept, 64);
      }
    }
  }
}
