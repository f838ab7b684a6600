/**
 The exact state of the maps at every atomic point of an error-free Sync that
 starts from a clean state.
 */
module SyncShape {
  import opened Types
  import opened KernelMaps
  import opened Reconciler

  // ------------------------------------------------------- forward table

  /** What slot `j` holds once the indices below `i` are done: new entries, then old ones, then zeros. */
  function Cell(e: Endian, cur: seq<Backend>, list: seq<Backend>, i: nat, j: nat): BackendInfo {
    if j < i && j < |list| then Info(e, list[j])
    else if i <= j < |cur| then Info(e, cur[j])
    else EMPTY_INFO
  }

  ghost predicate Cells(p: Plane, i: nat) {
    forall j | 0 <= j < MAX_BACKENDS :: p.kernel.slots[j] == Cell(p.kernel.host, p.backends, p.list, i, j)
  }

  /** As `Cells`, with slot `i` blank. */
  ghost predicate CellsBut(p: Plane, i: nat) {
    forall j | 0 <= j < MAX_BACKENDS ::
      p.kernel.slots[j] == if j == i then EMPTY_INFO else Cell(p.kernel.host, p.backends, p.list, i, j)
  }

  // -------------------------------------------------------- reverse table

  /** Entry `n` of the list held a larger index, below `o`, before: clearing that index deletes its fresh key. */
  ghost predicate Demoted(cur: seq<Backend>, list: seq<Backend>, n: nat, o: nat)
    requires n < |list|
  {
    exists j :: n < j < o && j < |cur| && cur[j].ip == list[n].ip
  }

  ghost predicate KeyOfNew(e: Endian, list: seq<Backend>, i: nat, x: u32) {
    exists n :: 0 <= n < i && n < |list| && Key(e, list[n].ip) == x
  }

  ghost predicate KeyOfCur(e: Endian, cur: seq<Backend>, o: nat, ips: map<u32, nat>, x: u32)
    requires x in ips
  {
    exists j :: o <= j < |cur| && Key(e, cur[j].ip) == x && ips[x] == j
  }

  /** Of the first `i` new entries exactly those not demoted below `o` are registered, at their own index. */
  ghost predicate NewKeys(e: Endian, cur: seq<Backend>, list: seq<Backend>, ips: map<u32, nat>, i: nat, o: nat) {
    forall n | 0 <= n < i && n < |list| ::
      && (Key(e, list[n].ip) in ips <==> !Demoted(cur, list, n, o))
      && (Key(e, list[n].ip) in ips ==> ips[Key(e, list[n].ip)] == n)
  }

  /** Every other key is that of an old entry at `i` or beyond, at its old index. */
  ghost predicate RevAt(e: Endian, cur: seq<Backend>, list: seq<Backend>, ips: map<u32, nat>, i: nat) {
    && NewKeys(e, cur, list, ips, i, i)
    && forall x | x in ips :: KeyOfNew(e, list, i, x) || KeyOfCur(e, cur, i, ips, x)
  }

  /** As `RevAt` once index `i` has been cleared where it had to be, and before its new key is put. */
  ghost predicate RevMid(e: Endian, cur: seq<Backend>, list: seq<Backend>, ips: map<u32, nat>, i: nat)
    requires i < |list|
  {
    && NewKeys(e, cur, list, ips, i, i + 1)
    && forall x | x in ips :: KeyOfNew(e, list, i + 1, x) || KeyOfCur(e, cur, i + 1, ips, x)
  }

  /** Deleting the key of old entry `i` moves the bound on demotions past `i`. */
  lemma RevDrop(e: Endian, cur: seq<Backend>, list: seq<Backend>, ips: map<u32, nat>, i: nat)
    requires Discovered(cur) && Discovered(list) && i < |cur|
    requires RevAt(e, cur, list, ips, i)
    ensures var ips' := ips - {Key(e, cur[i].ip)};
            && NewKeys(e, cur, list, ips', i, i + 1)
            && forall x | x in ips' :: KeyOfNew(e, list, i + 1, x) || KeyOfCur(e, cur, i + 1, ips', x)
  {
    var ips' := ips - {Key(e, cur[i].ip)};
    forall n | 0 <= n < i && n < |list|
      ensures Key(e, list[n].ip) in ips' <==> !Demoted(cur, list, n, i + 1)
    {
      KeyInjective(e, list[n].ip, cur[i].ip);
      if Demoted(cur, list, n, i) {
        var j :| n < j < i && j < |cur| && cur[j].ip == list[n].ip;
        assert j < i + 1;
      }
      if cur[i].ip == list[n].ip {
        assert Demoted(cur, list, n, i + 1);
      }
    }
    forall x | x in ips'
      ensures KeyOfNew(e, list, i + 1, x) || KeyOfCur(e, cur, i + 1, ips', x)
    {
      if KeyOfNew(e, list, i, x) {
        var n :| 0 <= n < i && n < |list| && Key(e, list[n].ip) == x;
        assert n < i + 1;
      } else {
        var j :| i <= j < |cur| && Key(e, cur[j].ip) == x && ips[x] == j;
        assert j != i;
      }
    }
  }

  /** Nothing needs clearing at `i` when the index is new or keeps its address. */
  lemma RevKeep(e: Endian, cur: seq<Backend>, list: seq<Backend>, ips: map<u32, nat>, i: nat)
    requires Discovered(cur) && Discovered(list) && i < |list|
    requires i < |cur| ==> cur[i].ip == list[i].ip
    requires RevAt(e, cur, list, ips, i)
    ensures RevMid(e, cur, list, ips, i)
  {
    forall n | 0 <= n < i
      ensures Demoted(cur, list, n, i + 1) <==> Demoted(cur, list, n, i)
    {
    }
    forall x | x in ips
      ensures KeyOfNew(e, list, i + 1, x) || KeyOfCur(e, cur, i + 1, ips, x)
    {
      if KeyOfNew(e, list, i, x) {
        var n :| 0 <= n < i && n < |list| && Key(e, list[n].ip) == x;
        assert n < i + 1;
      } else {
        var j :| i <= j < |cur| && Key(e, cur[j].ip) == x && ips[x] == j;
        assert j == i ==> Key(e, list[i].ip) == x;
      }
    }
  }

  lemma RevWrite(e: Endian, cur: seq<Backend>, list: seq<Backend>, ips: map<u32, nat>, i: nat)
    requires Discovered(cur) && Discovered(list) && i < |list|
    requires RevMid(e, cur, list, ips, i)
    ensures RevAt(e, cur, list, ips[Key(e, list[i].ip) := i], i + 1)
  {
    var key := Key(e, list[i].ip);
    var ips' := ips[key := i];
    forall n | 0 <= n < i + 1 && n < |list|
      ensures key == Key(e, list[n].ip) <==> n == i
    {
      KeyInjective(e, list[n].ip, list[i].ip);
    }
    forall x | x in ips'
      ensures KeyOfNew(e, list, i + 1, x) || KeyOfCur(e, cur, i + 1, ips', x)
    {
      if x == key {
        assert KeyOfNew(e, list, i + 1, x);
      } else if !KeyOfNew(e, list, i + 1, x) {
        var j :| i + 1 <= j < |cur| && Key(e, cur[j].ip) == x && ips[x] == j;
        assert ips'[x] == j;
      }
    }
  }

  // -------------------------------------------------------------- capacity

  function Min(x: nat, y: nat): nat { if x < y then x else y }

  function Max(x: nat, y: nat): nat { if x < y then y else x }

  function KeySet(e: Endian, bs: seq<Backend>): set<u32> {
    set b | b in bs :: Key(e, b.ip)
  }

  lemma {:induction false} KeySetSize(e: Endian, bs: seq<Backend>)
    ensures |KeySet(e, bs)| <= |bs|
  {
    if bs != [] {
      KeySetSize(e, bs[1..]);
      assert bs == [bs[0]] + bs[1..];
      assert KeySet(e, bs) == {Key(e, bs[0].ip)} + KeySet(e, bs[1..]);
    }
  }

  /** Keys drawn from `list[..i]` and `cur[o..]` are at most as many as those entries. */
  lemma KeyCount(e: Endian, cur: seq<Backend>, list: seq<Backend>, ips: map<u32, nat>, i: nat, o: nat)
    requires forall x | x in ips :: KeyOfNew(e, list, i, x) || KeyOfCur(e, cur, o, ips, x)
    ensures ips.Keys <= KeySet(e, list[..Min(i, |list|)]) + KeySet(e, cur[Min(o, |cur|)..])
    ensures |ips| <= Min(i, |list|) + |cur| - Min(o, |cur|)
  {
    var ns, os := list[..Min(i, |list|)], cur[Min(o, |cur|)..];
    forall x | x in ips ensures x in KeySet(e, ns) + KeySet(e, os) {
      if KeyOfNew(e, list, i, x) {
        var n :| 0 <= n < i && n < |list| && Key(e, list[n].ip) == x;
        assert ns[n] in ns;
      } else {
        var j :| o <= j < |cur| && Key(e, cur[j].ip) == x && ips[x] == j;
        assert os[j - o] in os;
      }
    }
    KeySetSize(e, ns);
    KeySetSize(e, os);
    SubsetSize(ips.Keys, KeySet(e, ns) + KeySet(e, os));
  }

  lemma SubsetSize<T>(x: set<T>, y: set<T>)
    requires x <= y
    ensures |x| <= |y|
  {
    assert y == x + (y - x);
  }

  /** Room for the next key: it is there already or the map is not full. */
  lemma RevRoom(e: Endian, cur: seq<Backend>, list: seq<Backend>, ips: map<u32, nat>, i: nat)
    requires i < |list| && RevMid(e, cur, list, ips, i)
    ensures Key(e, list[i].ip) in ips || |ips| < Max(|cur|, |list|)
  {
    if Key(e, list[i].ip) !in ips {
      forall x | x in ips ensures KeyOfNew(e, list, i, x) || KeyOfCur(e, cur, i + 1, ips, x) {
        if KeyOfNew(e, list, i + 1, x) {
          var n :| 0 <= n < i + 1 && n < |list| && Key(e, list[n].ip) == x;
          assert n != i;
        }
      }
      KeyCount(e, cur, list, ips, i, i + 1);
    }
  }

  // --------------------------------------------------- the state invariant

  /** Forward map the current list padded with zeros, reverse map part of its inverse, its veths attached. */
  ghost predicate Clean(p: Plane) {
    && |p.backends| <= MAX_BACKENDS && Discovered(p.backends)
    && (forall j | 0 <= j < MAX_BACKENDS ::
          p.kernel.slots[j] == if j < |p.backends| then Info(p.kernel.host, p.backends[j]) else EMPTY_INFO)
    && (forall x | x in p.kernel.ips :: KeyOfCur(p.kernel.host, p.backends, 0, p.kernel.ips, x))
    && p.byVeth == Veths(p.backends)
  }

  ghost predicate Rev(p: Plane, i: nat) {
    RevAt(p.kernel.host, p.backends, p.list, p.kernel.ips, i)
  }

  ghost predicate Mid(p: Plane, i: nat)
    requires i < |p.list|
  {
    RevMid(p.kernel.host, p.backends, p.list, p.kernel.ips, i)
  }

  /** Old entry `i` has another address than new entry `i`. */
  predicate Replaced(p: Plane, i: nat)
    requires i < |p.list|
  {
    i < |p.backends| && p.backends[i].ip != p.list[i].ip
  }

  function End(p: Plane): nat { Max(|p.backends|, |p.list|) }

  ghost predicate Maps(p: Plane)
    requires InRange(p)
  {
    match p.pc
    case Idle(_) => Clean(p)
    case ClearSlot(i) => Cells(p, i) && Rev(p, i) && Replaced(p, i)
    case ClearIp(i) => CellsBut(p, i) && Rev(p, i) && Replaced(p, i)
    case WriteSlot(i) => (if Replaced(p, i) then CellsBut(p, i) else Cells(p, i)) && Mid(p, i)
    case WriteIp(i) => Cells(p, i + 1) && Mid(p, i)
    case Attach(i) => Cells(p, i + 1) && Rev(p, i + 1)
    case StaleSlot(i) => Cells(p, i) && Rev(p, i)
    case StaleIp(i) => Cells(p, i + 1) && Rev(p, i)
    case Detach(_) => Cells(p, End(p)) && Rev(p, End(p))
    case Commit => Cells(p, End(p)) && Rev(p, End(p))
  }

  /** How many new entries have been seen to their veth. */
  function Done(p: Plane): nat
    requires InRange(p)
  {
    match p.pc
    case ClearSlot(i) => i
    case ClearIp(i) => i
    case WriteSlot(i) => i
    case WriteIp(i) => i
    case Attach(i) => i
    case _ => |p.list|
  }

  ghost predicate Attachments(p: Plane)
    requires InRange(p)
  {
    match p.pc
    case Idle(_) => true
    case Detach(pending) => p.byVeth == Veths(p.list) + pending && pending !! Veths(p.list)
    case Commit => p.byVeth == Veths(p.list)
    case _ => p.byVeth == Veths(p.backends) + Veths(p.list[..Done(p)])
  }

  /** Every atomic point of every error-free run satisfies this. */
  ghost predicate Shape(p: Plane) {
    && InRange(p)
    && p.pc != Idle(true)
    && Discovered(p.backends)
    && (!p.pc.Idle? ==> |p.list| <= MAX_BACKENDS && Discovered(p.list))
    && Maps(p)
    && Attachments(p)
  }

  /** Up to which index registered keys are those of new entries, and from which on those of old ones. */
  function KeyBound(p: Plane): nat
    requires InRange(p)
  {
    match p.pc
    case Idle(_) => 0
    case ClearSlot(i) => i
    case ClearIp(i) => i
    case WriteSlot(i) => i + 1
    case WriteIp(i) => i + 1
    case Attach(i) => i + 1
    case StaleSlot(i) => i
    case StaleIp(i) => i
    case _ => End(p)
  }

  lemma KeysDrawn(p: Plane, x: u32)
    requires Shape(p) && x in p.kernel.ips
    ensures || (!p.pc.Idle? && KeyOfNew(p.kernel.host, p.list, KeyBound(p), x))
            || KeyOfCur(p.kernel.host, p.backends, KeyBound(p), p.kernel.ips, x)
  {
  }

  // ------------------------------------------------------- every step keeps it

  lemma ShapeAtStale(p: Plane, i: nat)
    requires InRange(p) && |p.list| <= MAX_BACKENDS && Discovered(p.backends) && Discovered(p.list)
    requires |p.list| <= i <= End(p) && Cells(p, i) && Rev(p, i)
    requires p.byVeth == Veths(p.backends) + Veths(p.list)
    requires p.pc == AtStale(p.backends, p.list, i)
    ensures Shape(p)
  {
    assert p.list[..|p.list|] == p.list;
    if i >= |p.backends| {
      var pending := Veths(p.backends) - Veths(p.list);
      assert Veths(p.backends) + Veths(p.list) == Veths(p.list) + pending;
    }
  }

  lemma ShapeAtWrite(p: Plane, i: nat)
    requires InRange(p) && |p.list| <= MAX_BACKENDS && Discovered(p.backends) && Discovered(p.list)
    requires i <= |p.list| && Cells(p, i) && Rev(p, i)
    requires p.byVeth == Veths(p.backends) + Veths(p.list[..i])
    requires p.pc == AtWrite(p.backends, p.list, i)
    ensures Shape(p)
  {
    if i == |p.list| {
      assert p.list[..i] == p.list;
      ShapeAtStale(p, i);
    } else if !Replaced(p, i) {
      RevKeep(p.kernel.host, p.backends, p.list, p.kernel.ips, i);
    }
  }

  lemma ShapeBegin(p: Plane, list: seq<Backend>)
    requires Clean(p) && p.pc.Idle?
    requires |list| <= MAX_BACKENDS && Discovered(list)
    ensures Shape(Begin(p, list))
  {
  }

  lemma ShapeClearIp(p: Plane, i: nat)
    requires Shape(p) && p.pc == ClearIp(i)
    ensures Shape(StepClearIp(p, i, true))
  {
    RevDrop(p.kernel.host, p.backends, p.list, p.kernel.ips, i);
    assert Mid(StepClearIp(p, i, true), i);
  }

  lemma ShapeWriteSlot(p: Plane, i: nat)
    requires Shape(p) && p.pc == WriteSlot(i)
    ensures Shape(StepWriteSlot(p, i, true))
  {
  }

  lemma ShapeWriteIp(p: Plane, i: nat)
    requires Shape(p) && p.pc == WriteIp(i)
    ensures Shape(StepWriteIp(p, i, true))
  {
    RevRoom(p.kernel.host, p.backends, p.list, p.kernel.ips, i);
    RevWrite(p.kernel.host, p.backends, p.list, p.kernel.ips, i);
  }

  lemma VethsSnoc(list: seq<Backend>, i: nat)
    requires i < |list|
    ensures Veths(list[..i + 1]) == Veths(list[..i]) + {list[i].veth}
  {
  }

  lemma ShapeAttach(p: Plane, i: nat)
    requires InRange(p) && p.pc == Attach(i)
    requires |p.list| <= MAX_BACKENDS && Discovered(p.backends) && Discovered(p.list)
    requires Cells(p, i + 1) && Rev(p, i + 1)
    requires p.byVeth == Veths(p.backends) + Veths(p.list[..i])
    ensures Shape(StepAttach(p, i, true))
  {
    VethsSnoc(p.list, i);
    ShapeAtWrite(StepAttach(p, i, true), i + 1);
  }

  lemma ShapeStaleIp(p: Plane, i: nat)
    requires InRange(p) && p.pc == StaleIp(i)
    requires Discovered(p.backends) && Discovered(p.list)
    requires Cells(p, i + 1) && Rev(p, i)
    requires p.byVeth == Veths(p.backends) + Veths(p.list)
    ensures Shape(StepStaleIp(p, i, true))
  {
    RevDrop(p.kernel.host, p.backends, p.list, p.kernel.ips, i);
    ShapeAtStale(StepStaleIp(p, i, true), i + 1);
  }

  lemma ShapeDetach(p: Plane, pending: set<string>, c: Choice)
    requires Shape(p) && p.pc == Detach(pending) && c.ok
    ensures Shape(StepDetach(p, pending, c))
  {
  }

  lemma ShapeCommit(p: Plane)
    requires Shape(p) && p.pc == Commit
    ensures Shape(StepCommit(p, true))
  {
  }

  /** One step whose operation the environment does not fail keeps the exact shape; the kernel rejects none. */
  lemma ShapeStep(p: Plane, c: Choice)
    requires Shape(p) && c.ok
    ensures Shape(Step(p, c))
  {
    match p.pc
    case ClearIp(i) => ShapeClearIp(p, i);
    case WriteSlot(i) => ShapeWriteSlot(p, i);
    case WriteIp(i) => ShapeWriteIp(p, i);
    case Attach(i) => ShapeAttach(p, i);
    case StaleIp(i) =>
      assert p.list[..|p.list|] == p.list;
      ShapeStaleIp(p, i);
    case Detach(pending) => ShapeDetach(p, pending, c);
    case Commit => ShapeCommit(p);
    case _ =>
  }
}
