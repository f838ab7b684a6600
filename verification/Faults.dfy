/**
 What holds of Sync whatever fails: any operation, any number of times, in any
 sequence of Syncs of any lists.
 */
module Faults {
  import opened Types
  import opened KernelMaps
  import opened Reconciler
  import opened SyncShape
  import opened ErrorFree

  // ------------------------------------------------------- state invariant

  /** How many new entries are in their slots. */
  function Filled(p: Plane): nat {
    match p.pc
    case Idle(_) => 0
    case ClearSlot(i) => i
    case ClearIp(i) => i
    case WriteSlot(i) => i
    case WriteIp(i) => i + 1
    case Attach(i) => i + 1
    case _ => |p.list|
  }

  ghost predicate Prefix(p: Plane)
    requires InRange(p)
  {
    forall j | 0 <= j < Filled(p) && j < |p.list| && j < MAX_BACKENDS ::
      p.kernel.slots[j] == Info(p.kernel.host, p.list[j])
  }

  ghost predicate EntryOf(e: Endian, bs: seq<Backend>, info: BackendInfo) {
    exists b :: b in bs && Info(e, b) == info
  }

  /** Slots a packet can be sent to are blank, of the current list, or of a list tried since it became current. */
  ghost predicate Contained(p: Plane)
    requires |p.backends| <= MAX_BACKENDS
  {
    forall j | 0 <= j < |p.backends| ::
      || p.kernel.slots[j] == EMPTY_INFO
      || EntryOf(p.kernel.host, p.backends, p.kernel.slots[j])
      || EntryOf(p.kernel.host, p.attempted, p.kernel.slots[j])
  }

  /** The config slot is the one the current list was committed with, or still zero. */
  ghost predicate Configured(p: Plane)
    requires |p.backends| <= MAX_BACKENDS
  {
    || p.kernel.config == ConfigOf(p.kernel.host, p.settings, |p.backends|)
    || (p.kernel.config == EMPTY_CONFIG && p.backends == [])
  }

  ghost predicate Consistent(p: Plane) {
    && InRange(p)
    && Configured(p)
    && p.links.Keys == p.byVeth
    && (!p.pc.Idle? ==> forall b | b in p.list :: b in p.attempted)
    && Prefix(p)
    && Contained(p)
  }

  lemma ConsistentInitial(e: Endian, s: Settings)
    ensures Consistent(Initial(e, s))
  {
  }

  lemma ConsistentBegin(p: Plane, list: seq<Backend>)
    requires Consistent(p) && p.pc.Idle?
    ensures Consistent(Begin(p, list))
  {
  }

  lemma ConsistentWriteSlot(p: Plane, i: nat, ok: bool)
    requires Consistent(p) && p.pc == WriteSlot(i)
    ensures Consistent(StepWriteSlot(p, i, ok))
  {
  }

  lemma ConsistentClear(p: Plane, i: nat, ok: bool)
    requires Consistent(p)
    ensures p.pc == ClearSlot(i) ==> Consistent(StepClearSlot(p, i, ok))
    ensures p.pc == StaleSlot(i) ==> Consistent(StepStaleSlot(p, i, ok))
  {
  }

  lemma ConsistentCommit(p: Plane, ok: bool)
    requires Consistent(p) && p.pc == Commit
    ensures Consistent(StepCommit(p, ok))
  {
  }

  lemma PrefixStep(q: Plane, c: Choice)
    requires InRange(q) && Prefix(q)
    ensures Prefix(Step(q, c))
  {
  }

  /** The steps that do not touch the forward table. */
  lemma ConsistentQuiet(p: Plane, c: Choice)
    requires Consistent(p)
    requires !p.pc.ClearSlot? && !p.pc.WriteSlot? && !p.pc.StaleSlot? && p.pc != Commit
    ensures Consistent(Step(p, c))
  {
    var q := Step(p, c);
    PrefixStep(p, c);
    assert q.kernel.slots == p.kernel.slots && q.backends == p.backends && q.attempted == p.attempted;
    assert Contained(q);
  }

  /** One step, whatever its outcome. */
  lemma ConsistentStep(p: Plane, c: Choice)
    requires Consistent(p)
    ensures Consistent(Step(p, c))
  {
    match p.pc
    case ClearSlot(i) => ConsistentClear(p, i, c.ok);
    case WriteSlot(i) => ConsistentWriteSlot(p, i, c.ok);
    case StaleSlot(i) => ConsistentClear(p, i, c.ok);
    case Commit => ConsistentCommit(p, c.ok);
    case _ => ConsistentQuiet(p, c);
  }

  // ------------------------------------------------------ which failures count

  /**
   The environment or the kernel refuses an operation Sync cannot do without. The
   clears of the write loop and the deletes from the reverse map are not among them.
   */
  predicate Refused(q: Plane, c: Choice)
    requires InRange(q)
  {
    match q.pc
    case WriteSlot(i) => !q.list[i].ip.V4? || i >= 64 || !c.ok
    case WriteIp(i) => !c.ok || (Key(q.kernel.host, q.list[i].ip) !in q.kernel.ips && |q.kernel.ips| >= 64)
    case Attach(i) => q.list[i].veth !in q.byVeth && q.list[i].veth !in q.links && !c.ok
    case StaleSlot(_) => !c.ok
    case Detach(pending) => c.pick in pending && c.pick in q.links && !c.ok
    case Commit => !c.ok
    case _ => false
  }

  lemma RefusedStep(q: Plane, c: Choice)
    requires InRange(q)
    ensures if q.pc.Idle? then Step(q, c) == q else (Step(q, c).pc == Idle(true) <==> Refused(q, c))
  {
  }

  lemma RefusedEnds(q: Plane, c: Choice)
    requires InRange(q) && Refused(q, c)
    ensures Step(q, c).pc == Idle(true)
  {
  }

  /** An operation that fails changes nothing in the kernel or the links; a refusal changes nothing but the return. */
  lemma FailureHasNoEffect(q: Plane, c: Choice)
    requires InRange(q) && !q.pc.Idle?
    ensures !c.ok ==> Step(q, c).kernel == q.kernel && Step(q, c).links == q.links
    ensures Refused(q, c) ==> Step(q, c) == q.(pc := Idle(true))
  {
  }

  /** The operation made after `n` steps of the Sync was refused. */
  ghost predicate RefusedAt(p: Plane, list: seq<Backend>, cs: seq<Choice>, n: nat)
    requires |p.backends| <= MAX_BACKENDS && n < |cs|
  {
    Refused(Exec(Begin(p, list), cs[..n]), cs[n])
  }

  lemma RefusedEarlier(p: Plane, list: seq<Backend>, cs: seq<Choice>, m: nat, n: nat)
    requires |p.backends| <= MAX_BACKENDS && n < m <= |cs|
    ensures RefusedAt(p, list, cs[..m], n) <==> RefusedAt(p, list, cs, n)
  {
    assert cs[..m][..n] == cs[..n];
  }

  lemma {:induction false} ErrorHasRefusal(p: Plane, list: seq<Backend>, cs: seq<Choice>) returns (n: nat)
    requires |p.backends| <= MAX_BACKENDS && Exec(Begin(p, list), cs).pc == Idle(true)
    ensures n < |cs| && RefusedAt(p, list, cs, n)
  {
    var m := |cs| - 1;
    var q := Exec(Begin(p, list), cs[..m]);
    RefusedStep(q, cs[m]);
    if q.pc.Idle? {
      n := ErrorHasRefusal(p, list, cs[..m]);
      RefusedEarlier(p, list, cs, m, n);
    } else {
      n := m;
    }
  }

  lemma RefusalIsError(p: Plane, list: seq<Backend>, cs: seq<Choice>, n: nat)
    requires |p.backends| <= MAX_BACKENDS && n < |cs| && RefusedAt(p, list, cs, n)
    ensures Exec(Begin(p, list), cs).pc == Idle(true)
  {
    var q, rest := Exec(Begin(p, list), cs[..n]), cs[n + 1..];
    RefusedEnds(q, cs[n]);
    ExecIdle(Step(q, cs[n]), rest);
    ExecCons(q, cs[n], rest);
    ExecAppend(Begin(p, list), cs[..n], [cs[n]] + rest);
    SplitAt(cs, n);
  }

  lemma SplitAt<T>(xs: seq<T>, n: nat)
    requires n < |xs|
    ensures xs[..n] + ([xs[n]] + xs[n + 1..]) == xs
  {
  }

  /** A Sync returns an error if and only if one of its operations was refused, from any state. */
  lemma ErrorsExactly(p: Plane, list: seq<Backend>, cs: seq<Choice>)
    requires |p.backends| <= MAX_BACKENDS
    ensures Exec(Begin(p, list), cs).pc == Idle(true) <==> exists n | 0 <= n < |cs| :: RefusedAt(p, list, cs, n)
  {
    if Exec(Begin(p, list), cs).pc == Idle(true) {
      var n := ErrorHasRefusal(p, list, cs);
    }
    if n :| 0 <= n < |cs| && RefusedAt(p, list, cs, n) {
      RefusalIsError(p, list, cs, n);
    }
  }

  // ------------------------------------------------------ one Sync, any outcome

  /** What slot `j` holds once the indices below `i` are dealt with, whatever it held before. */
  function CellFrom(p: Plane, list: seq<Backend>, i: nat, j: nat): BackendInfo
    requires j < MAX_BACKENDS
  {
    if j < i && j < |list| then Info(p.kernel.host, list[j])
    else if |list| <= j < i && j < |p.backends| then BackendInfo(0, 0, [0, 0, 0, 0, 0, 0], 0)
    else p.kernel.slots[j]
  }

  /** The forward table with the indices below `i` dealt with, and slot `i` cleared if `blank`. */
  ghost predicate Table(p: Plane, list: seq<Backend>, q: Plane, i: nat, blank: bool) {
    && (blank ==> i < |list| && i < |p.backends| && p.backends[i].ip != list[i].ip)
    && forall j | 0 <= j < MAX_BACKENDS ::
         q.kernel.slots[j] == if blank && j == i then EMPTY_INFO else CellFrom(p, list, i, j)
  }

  ghost predicate TableAt(p: Plane, list: seq<Backend>, q: Plane) {
    match q.pc
    case ClearSlot(i) =>
      Table(p, list, q, i, false) && i < |p.backends| && i < |list| && p.backends[i].ip != list[i].ip
    case ClearIp(i) => Table(p, list, q, i, true)
    case WriteSlot(i) => Table(p, list, q, i, false) || Table(p, list, q, i, true)
    case WriteIp(i) => Table(p, list, q, i + 1, false)
    case Attach(i) => Table(p, list, q, i + 1, false)
    case StaleSlot(i) => Table(p, list, q, i, false)
    case StaleIp(i) => Table(p, list, q, i + 1, false)
    case Idle(err) =>
      if err then exists i, blank :: Table(p, list, q, i, blank)
      else Table(p, list, q, Max(|p.backends|, |list|), false)
    case _ => Table(p, list, q, Max(|p.backends|, |list|), false)
  }

  lemma TableNext(p: Plane, list: seq<Backend>, r: Plane, i: nat)
    requires Table(p, list, r, i, false)
    requires |list| <= i && i <= Max(|p.backends|, |list|) && r.pc == AtStale(p.backends, list, i)
    ensures TableAt(p, list, r)
  {
  }

  lemma TableEntry(p: Plane, list: seq<Backend>, r: Plane, i: nat)
    requires Table(p, list, r, i, false) && i <= |list| && r.pc == AtWrite(p.backends, list, i)
    ensures TableAt(p, list, r)
  {
    if i == |list| {
      TableNext(p, list, r, i);
    }
  }

  /** `q` is a point of the Sync before it returns. */
  ghost predicate Working(p: Plane, list: seq<Backend>, q: Plane) {
    && InRange(q) && q.list == list && q.backends == p.backends && q.kernel.host == p.kernel.host
    && !q.pc.Idle? && TableAt(p, list, q)
  }

  lemma TableClear(p: Plane, list: seq<Backend>, q: Plane, i: nat, ok: bool)
    requires Working(p, list, q)
    ensures q.pc == ClearSlot(i) ==> TableAt(p, list, StepClearSlot(q, i, ok))
    ensures q.pc == ClearIp(i) ==> TableAt(p, list, StepClearIp(q, i, ok))
  {
  }

  lemma TableWrite(p: Plane, list: seq<Backend>, q: Plane, i: nat, ok: bool)
    requires Working(p, list, q) && q.pc == WriteSlot(i)
    ensures TableAt(p, list, StepWriteSlot(q, i, ok))
  {
    var r := StepWriteSlot(q, i, ok);
    if r.pc == Idle(true) {
      assert Table(p, list, r, i, false) || Table(p, list, r, i, true);
    }
  }

  lemma TableAttach(p: Plane, list: seq<Backend>, q: Plane, i: nat, ok: bool)
    requires Working(p, list, q) && q.pc == Attach(i)
    ensures TableAt(p, list, StepAttach(q, i, ok))
  {
    var r := StepAttach(q, i, ok);
    assert Table(p, list, r, i + 1, false);
    if r.pc != Idle(true) {
      TableEntry(p, list, r, i + 1);
    }
  }

  lemma TableStale(p: Plane, list: seq<Backend>, q: Plane, i: nat, ok: bool)
    requires Working(p, list, q)
    ensures q.pc == StaleSlot(i) ==> TableAt(p, list, StepStaleSlot(q, i, ok))
    ensures q.pc == StaleIp(i) ==> TableAt(p, list, StepStaleIp(q, i, ok))
  {
    if q.pc == StaleSlot(i) {
      assert StepStaleSlot(q, i, ok).pc == Idle(true) ==> Table(p, list, StepStaleSlot(q, i, ok), i, false);
    }
    if q.pc == StaleIp(i) {
      TableNext(p, list, StepStaleIp(q, i, ok), i + 1);
    }
  }

  /** The steps that do not touch the forward table and stay where they are in it. */
  lemma TableQuiet(p: Plane, list: seq<Backend>, q: Plane, c: Choice)
    requires Working(p, list, q) && (q.pc.WriteIp? || q.pc.Detach? || q.pc.Commit?)
    ensures TableAt(p, list, Step(q, c))
  {
    var i := if q.pc.WriteIp? then q.pc.i + 1 else Max(|p.backends|, |list|);
    assert Table(p, list, Step(q, c), i, false);
  }

  lemma TableStep(p: Plane, list: seq<Backend>, q: Plane, c: Choice)
    requires Working(p, list, q)
    ensures TableAt(p, list, Step(q, c))
  {
    match q.pc
    case ClearSlot(i) => TableClear(p, list, q, i, c.ok);
    case ClearIp(i) => TableClear(p, list, q, i, c.ok);
    case WriteSlot(i) => TableWrite(p, list, q, i, c.ok);
    case Attach(i) => TableAttach(p, list, q, i, c.ok);
    case StaleSlot(i) => TableStale(p, list, q, i, c.ok);
    case StaleIp(i) => TableStale(p, list, q, i, c.ok);
    case _ => TableQuiet(p, list, q, c);
  }

  predicate AllV4(list: seq<Backend>, n: nat) {
    forall j | 0 <= j < n && j < |list| :: list[j].ip.V4?
  }

  lemma AllV4Step(q: Plane, c: Choice)
    requires InRange(q) && !q.pc.Idle? && AllV4(q.list, Filled(q))
    ensures AllV4(q.list, if Step(q, c).pc == Idle(false) then |q.list| else Filled(Step(q, c)))
  {
  }

  /** What a Sync of `list` from `p` has done to the forward table, the config and the current list, at `q`. */
  ghost predicate Outcome(p: Plane, list: seq<Backend>, q: Plane) {
    && InRange(q) && q.list == list && q.settings == p.settings && q.kernel.host == p.kernel.host
    && TableAt(p, list, q) && AllV4(list, if q.pc == Idle(false) then |list| else Filled(q))
    && if q.pc == Idle(false) then
         && |list| <= 64 && q.backends == list && q.attempted == []
         && q.kernel.config == ConfigOf(p.kernel.host, p.settings, |list|)
       else q.backends == p.backends && q.attempted == p.attempted + list && q.kernel.config == p.kernel.config
  }

  lemma OutcomeStep(p: Plane, list: seq<Backend>, q: Plane, c: Choice)
    requires Outcome(p, list, q)
    ensures Outcome(p, list, Step(q, c))
  {
    if !q.pc.Idle? {
      TableStep(p, list, q, c);
      AllV4Step(q, c);
      if q.pc != Commit {
        OnlyCommitCompletes(q, c);
      }
    }
  }

  /**
   From any state and whatever fails, the forward table is known at every point of
   a Sync. A Sync that returns an error leaves config and current list as they were;
   one that succeeds, even after failed ones, has every listed entry in its slot,
   every slot the old list had beyond them zeroed, and the others as they were. A
   list longer than the table always fails.
   */
  lemma {:induction false} SyncOutcome(p: Plane, list: seq<Backend>, cs: seq<Choice>)
    requires |p.backends| <= MAX_BACKENDS
    ensures var q := Exec(Begin(p, list), cs);
            && Outcome(p, list, q)
            && (q.pc == Idle(false) ==>
                  forall j | 0 <= j < 64 ::
                    q.kernel.slots[j] == if j < |list| then Info(p.kernel.host, list[j])
                                         else if j < |p.backends| then BackendInfo(0, 0, [0, 0, 0, 0, 0, 0], 0)
                                         else p.kernel.slots[j])
  {
    if cs != [] {
      var n := |cs| - 1;
      SyncOutcome(p, list, cs[..n]);
      OutcomeStep(p, list, Exec(Begin(p, list), cs[..n]), cs[n]);
    }
  }

  // --------------------------------------------------------------------- veths

  /** `list[i]` is the first entry with veth `v`. */
  predicate FirstWith(list: seq<Backend>, i: int, v: string) {
    0 <= i < |list| && list[i].veth == v && forall j | 0 <= j < i :: list[j].veth != v
  }

  /** Links held before keep their interface; new ones are to the interface the list first gives their veth. */
  ghost predicate LinkedTo(p: Plane, list: seq<Backend>, links: map<string, int>) {
    forall v | v in links ::
      if v in p.links then links[v] == p.links[v]
      else exists i :: FirstWith(list, i, v) && links[v] == list[i].vethIdx
  }

  /** The veths recorded as attached, and what they are linked to, at each point of a Sync from `p`. */
  ghost predicate VethsAt(p: Plane, list: seq<Backend>, q: Plane) {
    var stale := Veths(p.backends) - Veths(list);
    && InRange(q) && q.list == list
    && q.links.Keys == q.byVeth
    && LinkedTo(p, list, q.links)
    && match q.pc
       case Idle(err) => !err ==> q.byVeth == p.byVeth + Veths(list) - stale
       case Detach(pending) =>
         && q.backends == p.backends && pending <= stale
         && q.byVeth == p.byVeth + Veths(list) - (stale - pending)
       case Commit => q.byVeth == p.byVeth + Veths(list) - stale
       case _ => q.backends == p.backends && q.byVeth == p.byVeth + Veths(list[..Done(q)])
  }

  lemma VethsAtNext(p: Plane, q: Plane)
    requires InRange(q) && q.backends == p.backends && q.links.Keys == q.byVeth && LinkedTo(p, q.list, q.links)
    requires q.pc == AtDetach(Veths(p.backends) - Veths(q.list))
    requires q.byVeth == p.byVeth + Veths(q.list)
    ensures VethsAt(p, q.list, q)
  {
  }

  lemma LinkedAttach(p: Plane, list: seq<Backend>, links: map<string, int>, i: nat)
    requires i < |list| && LinkedTo(p, list, links) && p.links.Keys + Veths(list[..i]) <= links.Keys
    requires list[i].veth !in links
    ensures LinkedTo(p, list, links[list[i].veth := list[i].vethIdx])
  {
    assert forall j | 0 <= j < i :: list[j] in list[..i];
    assert FirstWith(list, i, list[i].veth);
  }

  lemma LinkedStep(p: Plane, list: seq<Backend>, q: Plane, i: nat, ok: bool)
    requires VethsAt(p, list, q) && q.pc == Attach(i) && p.links.Keys == p.byVeth
    ensures LinkedTo(p, list, StepAttach(q, i, ok).links)
  {
    if list[i].veth !in q.links {
      LinkedAttach(p, list, q.links, i);
    }
  }

  lemma AttachEffect(q: Plane, i: nat, ok: bool)
    requires InRange(q) && q.pc == Attach(i) && q.links.Keys == q.byVeth
    ensures var r := StepAttach(q, i, ok);
            if r.pc == Idle(true) then r == q.(pc := Idle(true))
            else
              && r.links.Keys == r.byVeth == q.byVeth + {q.list[i].veth}
              && r == q.(links := r.links, byVeth := r.byVeth, pc := AtWrite(q.backends, q.list, i + 1))
  {
  }

  lemma VethsAttach(p: Plane, list: seq<Backend>, q: Plane, r: Plane, i: nat)
    requires VethsAt(p, list, q) && q.pc == Attach(i) && LinkedTo(p, list, r.links) && InRange(r)
    requires if r.pc == Idle(true) then r == q.(pc := Idle(true))
             else
               && r.links.Keys == r.byVeth == q.byVeth + {q.list[i].veth}
               && r == q.(links := r.links, byVeth := r.byVeth, pc := AtWrite(q.backends, q.list, i + 1))
    ensures VethsAt(p, list, r)
  {
    if r.pc != Idle(true) {
      VethsSnoc(list, i);
      VethsEntry(p, list, r, i + 1);
    }
  }

  lemma VethsEntry(p: Plane, list: seq<Backend>, r: Plane, i: nat)
    requires InRange(r) && r.list == list && r.backends == p.backends && i <= |list|
    requires r.links.Keys == r.byVeth && LinkedTo(p, list, r.links)
    requires r.byVeth == p.byVeth + Veths(list[..i]) && r.pc == AtWrite(p.backends, list, i)
    ensures VethsAt(p, list, r)
  {
    assert i == |list| ==> list[..i] == list;
    if i == |list| && |list| >= |p.backends| {
      VethsAtNext(p, r);
    }
  }

  lemma VethsStaleIp(p: Plane, list: seq<Backend>, q: Plane, i: nat, ok: bool)
    requires VethsAt(p, list, q) && q.pc == StaleIp(i)
    ensures VethsAt(p, list, StepStaleIp(q, i, ok))
  {
    assert list[..|list|] == list;
    if i + 1 >= |p.backends| {
      VethsAtNext(p, StepStaleIp(q, i, ok));
    }
  }

  lemma VethsDetach(p: Plane, list: seq<Backend>, q: Plane, pending: set<string>, c: Choice)
    requires VethsAt(p, list, q) && q.pc == Detach(pending)
    ensures VethsAt(p, list, StepDetach(q, pending, c))
  {
  }

  lemma VethsStep(p: Plane, list: seq<Backend>, q: Plane, c: Choice)
    requires VethsAt(p, list, q) && p.links.Keys == p.byVeth
    ensures VethsAt(p, list, Step(q, c))
  {
    match q.pc
    case Attach(i) =>
      LinkedStep(p, list, q, i, c.ok);
      AttachEffect(q, i, c.ok);
      VethsAttach(p, list, q, Step(q, c), i);
    case StaleIp(i) => VethsStaleIp(p, list, q, i, c.ok);
    case Detach(pending) => VethsDetach(p, list, q, pending, c);
    case _ =>
  }

  /**
   Bookkeeping and links agree throughout; every link held before keeps its
   interface and every new one is to the interface first listed for its veth;
   success leaves exactly the veths kept and added.
   */
  lemma {:induction false} SyncVeths(p: Plane, list: seq<Backend>, cs: seq<Choice>)
    requires |p.backends| <= MAX_BACKENDS && p.links.Keys == p.byVeth
    ensures VethsAt(p, list, Exec(Begin(p, list), cs))
  {
    if cs == [] {
      assert Veths(list[..0]) == {};
      assert list == [] ==> list[..0] == list;
    } else {
      var n := |cs| - 1;
      SyncVeths(p, list, cs[..n]);
      VethsStep(p, list, Exec(Begin(p, list), cs[..n]), cs[n]);
    }
  }

  // -------------------------------------------------- keys of neither list

  /** `x` is registered in `q` just as in `p`. */
  ghost predicate SameKey(p: Plane, q: Plane, x: u32) {
    && (x in q.kernel.ips <==> x in p.kernel.ips)
    && (x in q.kernel.ips ==> q.kernel.ips[x] == p.kernel.ips[x])
  }

  ghost predicate Foreign(e: Endian, bs: seq<Backend>, x: u32) {
    forall b | b in bs :: Key(e, b.ip) != x
  }

  lemma ForeignStep(q: Plane, c: Choice, x: u32)
    requires InRange(q) && Foreign(q.kernel.host, q.backends, x) && Foreign(q.kernel.host, q.list, x)
    ensures SameKey(q, Step(q, c), x)
  {
  }

  /**
   A key of neither the current list nor the new one keeps its entry through any
   Sync, whatever fails.
   */
  lemma {:induction false} ForeignKeyKept(p: Plane, list: seq<Backend>, cs: seq<Choice>, x: u32)
    requires |p.backends| <= MAX_BACKENDS
    requires Foreign(p.kernel.host, p.backends, x) && Foreign(p.kernel.host, list, x)
    ensures SameKey(p, Exec(Begin(p, list), cs), x)
  {
    if cs != [] {
      var n := |cs| - 1;
      ForeignKeyKept(p, list, cs[..n], x);
      SyncOutcome(p, list, cs[..n]);
      ForeignStep(Exec(Begin(p, list), cs[..n]), cs[n], x);
    }
  }

  // ----------------------------------------------------- the reverse map, any state

  /** Every reverse entry is one `p` had, or gives an entry of the list its own index. */
  ghost predicate Sourced(p: Plane, list: seq<Backend>, ips: map<u32, nat>) {
    forall x | x in ips ::
      || (x in p.kernel.ips && p.kernel.ips[x] == ips[x])
      || (ips[x] < |list| && Key(p.kernel.host, list[ips[x]].ip) == x)
  }

  lemma SourcedStep(p: Plane, q: Plane, c: Choice)
    requires InRange(q) && q.kernel.host == p.kernel.host && Sourced(p, q.list, q.kernel.ips)
    ensures Sourced(p, q.list, Step(q, c).kernel.ips)
  {
  }

  /** How many old entries have been seen to: cleared, or kept by the new list. */
  function SeenTo(q: Plane): nat
    requires InRange(q)
  {
    match q.pc
    case ClearSlot(i) => i
    case ClearIp(i) => i
    case WriteSlot(i) => i + 1
    case WriteIp(i) => i + 1
    case Attach(i) => i + 1
    case StaleSlot(i) => i
    case StaleIp(i) => i
    case Idle(err) => 0
    case _ => |q.backends|
  }

  /** The old entries below `i` that the list does not have are unregistered. */
  ghost predicate DroppedBelow(p: Plane, list: seq<Backend>, ips: map<u32, nat>, i: nat) {
    forall j | 0 <= j < i && j < |p.backends| && p.backends[j].ip.V4? ::
      Foreign(p.kernel.host, list, Key(p.kernel.host, p.backends[j].ip)) ==>
        Key(p.kernel.host, p.backends[j].ip) !in ips
  }

  ghost predicate DroppedAt(p: Plane, list: seq<Backend>, q: Plane) {
    && InRange(q) && q.list == list && q.kernel.host == p.kernel.host
    && (q.pc.ClearSlot? || q.pc.ClearIp? ==> q.pc.i < |p.backends|)
    && if q.pc.Idle? then q.pc == Idle(false) ==> DroppedBelow(p, list, q.kernel.ips, |p.backends|)
       else q.backends == p.backends && DroppedBelow(p, list, q.kernel.ips, SeenTo(q))
  }

  lemma DroppedEntry(p: Plane, list: seq<Backend>, r: Plane, i: nat)
    requires InRange(r) && r.list == list && r.backends == p.backends && r.kernel.host == p.kernel.host
    requires i <= |list| && r.pc == AtWrite(p.backends, list, i) && DroppedBelow(p, list, r.kernel.ips, i)
    ensures DroppedAt(p, list, r)
  {
    if r.pc == WriteSlot(i) && i < |p.backends| {
      assert list[i] in list && p.backends[i].ip == list[i].ip;
    }
  }

  lemma DroppedAttach(p: Plane, list: seq<Backend>, q: Plane, i: nat, ok: bool)
    requires DroppedAt(p, list, q) && q.pc == Attach(i)
    ensures DroppedAt(p, list, StepAttach(q, i, ok))
  {
    var r := StepAttach(q, i, ok);
    if r.pc != Idle(true) {
      DroppedEntry(p, list, r, i + 1);
    }
  }

  lemma DroppedWrite(p: Plane, list: seq<Backend>, q: Plane, i: nat, ok: bool)
    requires DroppedAt(p, list, q) && q.pc == WriteIp(i)
    ensures DroppedAt(p, list, StepWriteIp(q, i, ok))
  {
    assert list[i] in list;
  }

  lemma DroppedStep(p: Plane, list: seq<Backend>, q: Plane, c: Choice)
    requires DroppedAt(p, list, q) && c.ok
    ensures DroppedAt(p, list, Step(q, c))
  {
    match q.pc
    case WriteIp(i) => DroppedWrite(p, list, q, i, c.ok);
    case Attach(i) => DroppedAttach(p, list, q, i, c.ok);
    case _ =>
  }

  /**
   From any state: a reverse entry after any part of a Sync was there before or gives
   a listed address its own index; and after a success in which nothing failed no
   address that the old list had and the new one has not is registered.
   */
  lemma {:induction false} ReverseFromAnyState(p: Plane, list: seq<Backend>, cs: seq<Choice>)
    requires |p.backends| <= MAX_BACKENDS
    ensures Sourced(p, list, Exec(Begin(p, list), cs).kernel.ips)
    ensures NoFaults(cs) ==> DroppedAt(p, list, Exec(Begin(p, list), cs))
  {
    if cs == [] {
      DroppedEntry(p, list, Begin(p, list), 0);
    } else {
      var n := |cs| - 1;
      ReverseFromAnyState(p, list, cs[..n]);
      var q := Exec(Begin(p, list), cs[..n]);
      SourcedStep(p, q, cs[n]);
      if NoFaults(cs) {
        DroppedStep(p, list, q, cs[n]);
      }
    }
  }
}
