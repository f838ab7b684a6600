/**
 `discovery.Pool` (userspace/discovery/pool.go). The ghost field `plane` is the
 state of the step machine of `Reconciler`; every operation on the maps or links
 advances it by one step, so Sync is shown to be an execution of that machine.
 */
module DiscoveryPool {
  import opened Types
  import opened KernelMaps
  import opened Reconciler
  import opened BpfManager
  import opened SyncShape
  import opened ErrorFree
  import opened Faults

  /** Go's conversion `uint32(n)`. */
  function Uint32(n: nat): u32 { n % 0x1_0000_0000 }

  /** One more listed veth is one fewer to detach. */
  lemma StaleNext(cur: seq<Backend>, list: seq<Backend>, i: nat)
    requires i < |list|
    ensures Veths(cur) - Veths(list[..i]) - {list[i].veth} == Veths(cur) - Veths(list[..i + 1])
  {
    VethsSnoc(list, i);
  }

  /** What the two map operations of `ClearBackend` in the write loop come to. */
  lemma ClearSteps(p: Plane, i: nat, c1: Choice, c2: Choice)
    requires InRange(p) && p.pc == ClearSlot(i)
    ensures SlotAccepted(i, c1.ok) ==>
              var k1 := PutSlot(p.kernel, i, EMPTY_INFO, c1.ok);
              Step(Step(p, c1), c2) == p.(kernel := Dropped(k1, p.backends[i].ip, c2.ok), pc := WriteSlot(i))
    ensures !SlotAccepted(i, c1.ok) ==> Step(p, c1) == p.(pc := WriteSlot(i))
  {
  }

  /** What the two map operations of `UpdateBackend` come to. */
  lemma UpdateSteps(p: Plane, i: nat, c1: Choice, c2: Choice)
    requires InRange(p) && p.pc == WriteSlot(i)
    ensures var b := p.list[i];
            var key, k1 := Key(p.kernel.host, b.ip), PutSlot(p.kernel, i, Info(p.kernel.host, b), c1.ok);
            Step(Step(p, c1), c2)
            == if !b.ip.V4? || !SlotAccepted(i, c1.ok) then p.(pc := Idle(true))
               else if IpAccepted(k1, key, c2.ok) then p.(kernel := PutIp(k1, key, i, c2.ok), pc := Attach(i))
               else p.(kernel := k1, pc := Idle(true))
  {
  }

  class Pool {
    const manager: Manager
    const vip: IP
    const vport: u16
    const srcMac: seq<byte>
    var backends: seq<Backend>
    var byVeth: set<string>
    ghost var plane: Plane

    /** The machine state says what the fields, the maps and the links are. */
    ghost predicate Tied()
      reads this, manager, manager.objs
    {
      && plane.settings == Settings(vip, vport, srcMac)
      && plane.kernel == manager.objs.View()
      && plane.links == manager.vethLinks
      && plane.backends == backends
      && plane.byVeth == byVeth
      && InRange(plane)
    }

    ghost predicate Valid()
      reads this, manager, manager.objs
    {
      Tied() && plane.pc.Idle?
    }

    /** `NewPool`: nothing listed, nothing attached, whatever the maps hold. */
    constructor (manager: Manager, vip: IP, vport: u16, srcMac: seq<byte>)
      ensures this.manager == manager && Valid()
      ensures plane == Initial(manager.objs.host, Settings(vip, vport, srcMac))
                       .(kernel := manager.objs.View(), links := manager.vethLinks)
    {
      this.manager := manager;
      this.vip := vip;
      this.vport := vport;
      this.srcMac := srcMac;
      backends := [];
      byVeth := {};
      plane := Initial(manager.objs.host, Settings(vip, vport, srcMac))
               .(kernel := manager.objs.View(), links := manager.vethLinks);
    }

    /** The `ClearBackend` of one iteration of the write loop. */
    method ClearReplaced(i: nat) returns (ghost cs: seq<Choice>)
      requires Tied() && plane.pc == ClearSlot(i)
      modifies this`plane, manager.objs
      ensures Tied() && plane == Exec(old(plane), cs) && plane.pc == WriteSlot(i)
    {
      var err, ok1, ok2 := manager.ClearBackend(Uint32(i), backends[i].ip);
      ghost var c1, c2 := Choice(ok1, ""), Choice(ok2, "");
      cs := if err then [c1] else [c1, c2];
      ExecShort(plane, c1, c2);
      ClearSteps(plane, i, c1, c2);
      plane := if err then Step(plane, c1) else Step(Step(plane, c1), c2);
    }

    method WriteEntry(i: nat, b: Backend) returns (err: bool, ghost cs: seq<Choice>)
      requires Tied() && plane.pc == WriteSlot(i) && i < |plane.list| && plane.list[i] == b
      modifies this`plane, manager.objs
      ensures Tied() && plane == Exec(old(plane), cs)
      ensures plane.pc == if err then Idle(true) else Attach(i)
    {
      ghost var ok1, ok2;
      err, ok1, ok2 := manager.UpdateBackend(Uint32(i), b.ip, b.port, b.mac);
      ghost var c1, c2 := Choice(ok1, ""), Choice(ok2, "");
      cs := [c1, c2];
      ExecShort(plane, c1, c2);
      UpdateSteps(plane, i, c1, c2);
      plane := Step(Step(plane, c1), c2);
    }

    method AttachEntry(i: nat, b: Backend) returns (err: bool, ghost cs: seq<Choice>)
      requires Tied() && plane.pc == Attach(i) && i < |plane.list| && plane.list[i] == b
      modifies this, manager
      ensures Tied() && plane == Exec(old(plane), cs)
      ensures backends == old(backends)
      ensures plane.pc == if err then Idle(true) else AtWrite(backends, plane.list, i + 1)
    {
      err := false;
      ghost var ok := true;
      if b.veth !in byVeth {
        err, ok := manager.AttachVethXDP(b.veth, b.vethIdx);
        if !err {
          byVeth := byVeth + {b.veth};
        }
      }
      cs := [Choice(ok, "")];
      ExecShort(plane, cs[0], cs[0]);
      plane := Step(plane, cs[0]);
    }

    /** `oldByVeth`: the current backends by veth name. */
    method IndexByVeth() returns (oldByVeth: map<string, Backend>)
      ensures oldByVeth.Keys == Veths(backends)
    {
      oldByVeth := map[];
      for i := 0 to |backends|
        invariant oldByVeth.Keys == Veths(backends[..i])
      {
        VethsSnoc(backends, i);
        oldByVeth := oldByVeth[backends[i].veth := backends[i]];
      }
      assert backends[..|backends|] == backends;
    }

    /** One iteration of the write loop. */
    method WriteOne(i: nat, b: Backend) returns (err: bool, ghost cs: seq<Choice>)
      requires Tied() && i < |plane.list| && plane.list[i] == b
      requires plane.pc == AtWrite(backends, plane.list, i)
      modifies this, manager, manager.objs
      ensures Tied() && plane == Exec(old(plane), cs)
      ensures backends == old(backends)
      ensures plane.pc == if err then Idle(true) else AtWrite(backends, plane.list, i + 1)
    {
      ghost var start := plane;
      cs := [];
      ghost var ds;
      if i < |backends| && backends[i].ip != b.ip {
        cs := ClearReplaced(i);
      }
      err, ds := WriteEntry(i, b);
      ExecAppend(start, cs, ds);
      cs := cs + ds;
      if err {
        return;
      }
      err, ds := AttachEntry(i, b);
      ExecAppend(start, cs, ds);
      cs := cs + ds;
    }

    /** One iteration of the stale loop. */
    method ClearStale(i: nat) returns (err: bool, ghost cs: seq<Choice>)
      requires Tied() && plane.pc == StaleSlot(i)
      modifies this`plane, manager.objs
      ensures Tied() && plane == Exec(old(plane), cs)
      ensures plane.pc == if err then Idle(true) else AtStale(backends, plane.list, i + 1)
    {
      ghost var ok1, ok2;
      err, ok1, ok2 := manager.ClearBackend(Uint32(i), backends[i].ip);
      ghost var c1, c2 := Choice(ok1, ""), Choice(ok2, "");
      cs := [c1, c2];
      ExecShort(plane, c1, c2);
      plane := Step(Step(plane, c1), c2);
    }

    /** One iteration of the detach loop; a range over a Go map yields the veths in any order. */
    method DetachOne(v: string) returns (err: bool, ghost cs: seq<Choice>)
      requires Tied() && plane.pc.Detach? && v in plane.pc.pending
      modifies this, manager
      ensures Tied() && plane == Exec(old(plane), cs)
      ensures backends == old(backends)
      ensures plane.pc == if err then Idle(true) else AtDetach(old(plane).pc.pending - {v})
    {
      ghost var ok;
      err, ok := manager.DetachVethXDP(v);
      if !err {
        byVeth := byVeth - {v};
      }
      cs := [Choice(ok, v)];
      ExecShort(plane, cs[0], cs[0]);
      plane := Step(plane, cs[0]);
    }

    /** The config update and the assignment that makes the list current. */
    method CommitList(newBackends: seq<Backend>) returns (err: bool, ghost cs: seq<Choice>)
      requires Tied() && plane.pc == Commit && plane.list == newBackends
      modifies this, manager.objs
      ensures Tied() && plane == Exec(old(plane), cs)
      ensures plane.pc == Idle(err)
    {
      ghost var ok;
      err, ok := manager.UpdateConfig(vip, vport, Uint32(|newBackends|), srcMac);
      if !err {
        backends := newBackends;
      }
      cs := [Choice(ok, "")];
      ExecShort(plane, cs[0], cs[0]);
      plane := Step(plane, cs[0]);
    }

    /** The write loop. */
    method WriteAll(newBackends: seq<Backend>, oldByVeth: map<string, Backend>)
      returns (err: bool, stale: map<string, Backend>, ghost cs: seq<Choice>)
      requires Tied() && plane.list == newBackends && plane.pc == AtWrite(backends, newBackends, 0)
      requires oldByVeth.Keys == Veths(backends)
      modifies this, manager, manager.objs
      ensures Tied() && plane == Exec(old(plane), cs)
      ensures backends == old(backends)
      ensures plane.pc == if err then Idle(true) else AtStale(backends, newBackends, |newBackends|)
      ensures !err ==> stale.Keys == Veths(backends) - Veths(newBackends)
    {
      stale := oldByVeth;
      cs := [];
      assert Veths(newBackends[..0]) == {};
      for i := 0 to |newBackends|
        invariant Tied() && plane == Exec(old(plane), cs)
        invariant backends == old(backends) && plane.list == newBackends
        invariant plane.pc == AtWrite(backends, newBackends, i)
        invariant stale.Keys == Veths(backends) - Veths(newBackends[..i])
      {
        ghost var ds;
        err, ds := WriteOne(i, newBackends[i]);
        ExecAppend(old(plane), cs, ds);
        cs := cs + ds;
        if err {
          return;
        }
        StaleNext(backends, newBackends, i);
        stale := stale - {newBackends[i].veth};
      }
      err := false;
      assert newBackends[..|newBackends|] == newBackends;
    }

    /** The stale loop. */
    method ClearAllStale(newBackends: seq<Backend>) returns (err: bool, ghost cs: seq<Choice>)
      requires Tied() && plane.list == newBackends && plane.pc == AtStale(backends, newBackends, |newBackends|)
      modifies this`plane, manager.objs
      ensures Tied() && plane == Exec(old(plane), cs)
      ensures plane.pc == if err then Idle(true) else AtDetach(Veths(backends) - Veths(newBackends))
    {
      err, cs := false, [];
      var staleCount := |backends| - |newBackends|;
      var i := 0;
      while i < staleCount
        invariant 0 <= i && (i <= staleCount || i == 0)
        invariant Tied() && plane == Exec(old(plane), cs) && plane.list == newBackends
        invariant plane.pc == AtStale(backends, newBackends, |newBackends| + i)
      {
        ghost var ds;
        err, ds := ClearStale(|newBackends| + i);
        ExecAppend(old(plane), cs, ds);
        cs := cs + ds;
        if err {
          return;
        }
        i := i + 1;
      }
    }

    /** The detach loop. */
    method DetachAll(stale: set<string>) returns (err: bool, ghost cs: seq<Choice>)
      requires Tied() && plane.pc == AtDetach(stale)
      modifies this, manager
      ensures Tied() && plane == Exec(old(plane), cs)
      ensures backends == old(backends)
      ensures plane.pc == if err then Idle(true) else Commit
    {
      err, cs := false, [];
      var pending := stale;
      while pending != {}
        invariant Tied() && plane == Exec(old(plane), cs)
        invariant backends == old(backends)
        invariant plane.pc == AtDetach(pending)
        decreases pending
      {
        var v :| v in pending;
        ghost var ds;
        err, ds := DetachOne(v);
        ExecAppend(old(plane), cs, ds);
        cs := cs + ds;
        if err {
          return;
        }
        pending := pending - {v};
      }
    }

    /** The body of Sync, as an execution of the machine. */
    method Reconcile(newBackends: seq<Backend>) returns (err: bool, ghost cs: seq<Choice>)
      requires Valid()
      modifies this, manager, manager.objs
      ensures Valid()
      ensures plane == Exec(Begin(old(plane), newBackends), cs)
      ensures plane.pc == Idle(err)
    {
      var oldByVeth := IndexByVeth();
      plane := Begin(plane, newBackends);
      ghost var start := plane;
      var stale;
      ghost var ds;
      err, stale, cs := WriteAll(newBackends, oldByVeth);
      if err {
        return;
      }
      err, ds := ClearAllStale(newBackends);
      ExecAppend(start, cs, ds);
      cs := cs + ds;
      if err {
        return;
      }
      err, ds := DetachAll(stale.Keys);
      ExecAppend(start, cs, ds);
      cs := cs + ds;
      if err {
        return;
      }
      err, ds := CommitList(newBackends);
      ExecAppend(start, cs, ds);
      cs := cs + ds;
    }

    /**
     `Sync`: an execution of the machine ending with the error it returns, so that
     the theorems about executions hold of it. It fails exactly when an operation it
     needs was refused; then config and current list stay. When it succeeds, every
     entry is in its slot, the old slots beyond are zeroed and the others untouched,
     the config is the list's, and exactly the kept and added veths are attached, each
     to the interface it had or the one first listed for it. Without faults from a
     clean state it succeeds and leaves the exact tables.
     */
    method Sync(newBackends: seq<Backend>) returns (err: bool, ghost cs: seq<Choice>)
      requires Valid()
      modifies this, manager, manager.objs
      ensures Valid()
      ensures plane == Exec(Begin(old(plane), newBackends), cs) && plane.pc == Idle(err)
      ensures err <==> exists n | 0 <= n < |cs| :: RefusedAt(old(plane), newBackends, cs, n)
      ensures Ready(old(plane), newBackends) && NoFaults(cs) ==> !err && Synced(old(plane), newBackends, plane)
      ensures err ==> backends == old(backends) && manager.objs.config == old(manager.objs.config)
      ensures !err ==> backends == newBackends && |newBackends| <= 64
      ensures !err ==>
                var word := if vip.V4? then Pack(manager.objs.host, vip.addr) else 0;
                var mac := if |srcMac| == 6 then srcMac else [0, 0, 0, 0, 0, 0];
                manager.objs.config == LbConfig(word, vport, |newBackends|, mac)
      ensures !err ==>
                forall i | 0 <= i < |newBackends| ::
                  && newBackends[i].ip.V4?
                  && var mac := if |newBackends[i].mac| == 6 then newBackends[i].mac else [0, 0, 0, 0, 0, 0];
                  manager.objs.slots[i]
                  == BackendInfo(Pack(manager.objs.host, newBackends[i].ip.addr), newBackends[i].port, mac, 1)
      ensures !err ==>
                forall i | |newBackends| <= i < 64 ::
                  manager.objs.slots[i] == if i < |old(backends)| then BackendInfo(0, 0, [0, 0, 0, 0, 0, 0], 0)
                                           else old(manager.objs.slots[i])
      ensures old(manager.vethLinks.Keys == byVeth) ==>
                && manager.vethLinks.Keys == byVeth
                && (!err ==> byVeth == old(byVeth) + Veths(newBackends) - (Veths(old(backends)) - Veths(newBackends)))
      ensures old(manager.vethLinks.Keys == byVeth) ==>
                forall v | v in manager.vethLinks ::
                  if v in old(manager.vethLinks) then manager.vethLinks[v] == old(manager.vethLinks)[v]
                  else exists i :: FirstWith(newBackends, i, v) && manager.vethLinks[v] == newBackends[i].vethIdx
    {
      err, cs := Reconcile(newBackends);
      SyncOutcome(old(plane), newBackends, cs);
      ErrorsExactly(old(plane), newBackends, cs);
      if old(plane).links.Keys == old(plane).byVeth {
        SyncVeths(old(plane), newBackends, cs);
      }
      if Ready(old(plane), newBackends) && NoFaults(cs) {
        ErrorFreeSync(old(plane), newBackends, cs);
      }
    }
  }
}
