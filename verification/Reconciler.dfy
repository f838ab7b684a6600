/**
 `Pool.Sync` (userspace/discovery/pool.go) as a machine that makes one atomic map
 or link operation per step. The environment decides each step's outcome; the
 machine follows the source's early returns and its one ignored error.
 `DiscoveryPool` proves the imperative Sync to be an execution of this machine.
 */
module Reconciler {
  import opened Types
  import opened KernelMaps

  /** The operation Sync performs next. */
  datatype Pc =
    | Idle(err: bool)                  // between Syncs; whether the last one returned an error
    | ClearSlot(i: nat)                // ClearBackend inside the write loop, its error ignored
    | ClearIp(i: nat)
    | WriteSlot(i: nat)                // UpdateBackend
    | WriteIp(i: nat)
    | Attach(i: nat)
    | StaleSlot(i: nat)                // ClearBackend past the end of the new list
    | StaleIp(i: nat)
    | Detach(pending: set<string>)
    | Commit                           // UpdateConfig, then the new list becomes current

  /** What the environment decides for one step: the outcome, and the veth a range over a Go map yields. */
  datatype Choice = Choice(ok: bool, pick: string)

  /** What `NewPool` fixes. */
  datatype Settings = Settings(vip: IP, vport: u16, srcMac: seq<byte>)

  /**
   Control plane and kernel at one moment. `list` is the argument of the Sync in
   progress; `attempted` is history: all entries of lists given to Sync since one last succeeded.
   */
  datatype Plane = Plane(
    settings: Settings,
    kernel: Kernel,
    links: map<string, int>,
    backends: seq<Backend>,
    byVeth: set<string>,
    list: seq<Backend>,
    pc: Pc,
    attempted: seq<Backend>)

  function ConfigOf(e: Endian, s: Settings, count: u32): LbConfig {
    LbConfig(Key(e, s.vip), s.vport, count, MacOf(s.srcMac))
  }

  function Initial(e: Endian, s: Settings): Plane {
    Plane(s, Kernel(e, EMPTY_CONFIG, EmptyTable(), map[]), map[], [], {}, [], Idle(false), [])
  }

  // --------------------------------------------------------- control flow

  function AtDetach(pending: set<string>): Pc {
    if pending == {} then Commit else Detach(pending)
  }

  function AtStale(cur: seq<Backend>, list: seq<Backend>, i: nat): Pc {
    if i < |cur| then StaleSlot(i) else AtDetach(Veths(cur) - Veths(list))
  }

  /** Where iteration `i` of the write loop starts, or what follows the loop. */
  function AtWrite(cur: seq<Backend>, list: seq<Backend>, i: nat): Pc {
    if i >= |list| then AtStale(cur, list, |list|)
    else if i < |cur| && cur[i].ip != list[i].ip then ClearSlot(i)
    else WriteSlot(i)
  }

  function Fail(p: Plane): Plane { p.(pc := Idle(true)) }

  /** The positions Sync can be at. */
  predicate InRange(p: Plane) {
    && |p.backends| <= MAX_BACKENDS
    && match p.pc
       case Idle(_) => true
       case ClearSlot(i) => i < |p.list| && i < |p.backends|
       case ClearIp(i) => i < |p.list| && i < |p.backends|
       case WriteSlot(i) => i < |p.list| && i <= MAX_BACKENDS
       case WriteIp(i) => i < |p.list| && i < MAX_BACKENDS
       case Attach(i) => i < |p.list| && i < MAX_BACKENDS
       case StaleSlot(i) => |p.list| <= i < |p.backends|
       case StaleIp(i) => |p.list| <= i < |p.backends|
       case Detach(pending) => |p.list| <= MAX_BACKENDS && pending != {}
       case Commit => |p.list| <= MAX_BACKENDS
  }

  /** A call of Sync. */
  function Begin(p: Plane, list: seq<Backend>): (q: Plane)
    requires |p.backends| <= MAX_BACKENDS
    ensures InRange(q)
  {
    p.(list := list, pc := AtWrite(p.backends, list, 0), attempted := p.attempted + list)
  }

  // ------------------------------------------------------------ the steps

  /** The reverse-map delete of ClearBackend: skipped for a non-IPv4 address, its error ignored. */
  function Dropped(k: Kernel, ip: IP, ok: bool): Kernel {
    if ip.V4? then DeleteIp(k, Key(k.host, ip), ok) else k
  }

  function StepClearSlot(p: Plane, i: nat, ok: bool): (q: Plane)
    requires InRange(p) && p.pc == ClearSlot(i)
    ensures InRange(q)
  {
    p.(kernel := PutSlot(p.kernel, i, EMPTY_INFO, ok),
       pc := if SlotAccepted(i, ok) then ClearIp(i) else WriteSlot(i))
  }

  function StepClearIp(p: Plane, i: nat, ok: bool): (q: Plane)
    requires InRange(p) && p.pc == ClearIp(i)
    ensures InRange(q)
  {
    p.(kernel := Dropped(p.kernel, p.backends[i].ip, ok), pc := WriteSlot(i))
  }

  function StepWriteSlot(p: Plane, i: nat, ok: bool): (q: Plane)
    requires InRange(p) && p.pc == WriteSlot(i)
    ensures InRange(q)
  {
    if !p.list[i].ip.V4? || !SlotAccepted(i, ok) then Fail(p)
    else p.(kernel := PutSlot(p.kernel, i, Info(p.kernel.host, p.list[i]), ok), pc := WriteIp(i))
  }

  function StepWriteIp(p: Plane, i: nat, ok: bool): (q: Plane)
    requires InRange(p) && p.pc == WriteIp(i)
    ensures InRange(q)
  {
    var key := Key(p.kernel.host, p.list[i].ip);
    if !IpAccepted(p.kernel, key, ok) then Fail(p)
    else p.(kernel := PutIp(p.kernel, key, i, ok), pc := Attach(i))
  }

  predicate AttachAccepted(links: map<string, int>, veth: string, ok: bool) { veth in links || ok }

  /** The table of links after `AttachVethXDP`. */
  function Attached(links: map<string, int>, veth: string, ifindex: int, ok: bool): map<string, int> {
    if veth !in links && ok then links[veth := ifindex] else links
  }

  predicate DetachAccepted(links: map<string, int>, veth: string, ok: bool) { veth !in links || ok }

  /** The table of links after `DetachVethXDP`. */
  function Detached(links: map<string, int>, veth: string, ok: bool): map<string, int> {
    if ok then links - {veth} else links
  }

  function StepAttach(p: Plane, i: nat, ok: bool): (q: Plane)
    requires InRange(p) && p.pc == Attach(i)
    ensures InRange(q)
  {
    var b := p.list[i];
    if b.veth in p.byVeth then p.(pc := AtWrite(p.backends, p.list, i + 1))
    else if !AttachAccepted(p.links, b.veth, ok) then Fail(p)
    else p.(links := Attached(p.links, b.veth, b.vethIdx, ok), byVeth := p.byVeth + {b.veth},
            pc := AtWrite(p.backends, p.list, i + 1))
  }

  function StepStaleSlot(p: Plane, i: nat, ok: bool): (q: Plane)
    requires InRange(p) && p.pc == StaleSlot(i)
    ensures InRange(q)
  {
    if !SlotAccepted(i, ok) then Fail(p)
    else p.(kernel := PutSlot(p.kernel, i, EMPTY_INFO, ok), pc := StaleIp(i))
  }

  function StepStaleIp(p: Plane, i: nat, ok: bool): (q: Plane)
    requires InRange(p) && p.pc == StaleIp(i)
    ensures InRange(q)
  {
    p.(kernel := Dropped(p.kernel, p.backends[i].ip, ok), pc := AtStale(p.backends, p.list, i + 1))
  }

  function StepDetach(p: Plane, pending: set<string>, c: Choice): (q: Plane)
    requires InRange(p) && p.pc == Detach(pending)
    ensures InRange(q)
  {
    if c.pick !in pending then p
    else if !DetachAccepted(p.links, c.pick, c.ok) then Fail(p)
    else p.(links := Detached(p.links, c.pick, c.ok), byVeth := p.byVeth - {c.pick},
            pc := AtDetach(pending - {c.pick}))
  }

  function StepCommit(p: Plane, ok: bool): (q: Plane)
    requires InRange(p) && p.pc == Commit
    ensures InRange(q)
  {
    if !ok then Fail(p)
    else p.(kernel := PutConfig(p.kernel, ConfigOf(p.kernel.host, p.settings, |p.list|), ok),
            backends := p.list, pc := Idle(false), attempted := [])
  }

  /** One atomic step of the Sync in progress. */
  function Step(p: Plane, c: Choice): (q: Plane)
    requires InRange(p)
    ensures InRange(q)
    ensures q.settings == p.settings && q.list == p.list && q.kernel.host == p.kernel.host
  {
    match p.pc
    case Idle(_) => p
    case ClearSlot(i) => StepClearSlot(p, i, c.ok)
    case ClearIp(i) => StepClearIp(p, i, c.ok)
    case WriteSlot(i) => StepWriteSlot(p, i, c.ok)
    case WriteIp(i) => StepWriteIp(p, i, c.ok)
    case Attach(i) => StepAttach(p, i, c.ok)
    case StaleSlot(i) => StepStaleSlot(p, i, c.ok)
    case StaleIp(i) => StepStaleIp(p, i, c.ok)
    case Detach(pending) => StepDetach(p, pending, c)
    case Commit => StepCommit(p, c.ok)
  }

  /** The state after the steps whose outcomes are `cs`. */
  function Exec(p: Plane, cs: seq<Choice>): (q: Plane)
    requires InRange(p)
    ensures InRange(q)
    ensures q.settings == p.settings && q.list == p.list && q.kernel.host == p.kernel.host
  {
    if cs == [] then p else Step(Exec(p, cs[..|cs| - 1]), cs[|cs| - 1])
  }

  /** The environment fails no operation. */
  predicate NoFaults(cs: seq<Choice>) {
    forall i | 0 <= i < |cs| :: cs[i].ok
  }

  lemma ExecSnoc(p: Plane, cs: seq<Choice>, c: Choice)
    requires InRange(p)
    ensures Exec(p, cs + [c]) == Step(Exec(p, cs), c)
  {
  }

  lemma ExecShort(p: Plane, c: Choice, d: Choice)
    requires InRange(p)
    ensures Exec(p, [c]) == Step(p, c)
    ensures Exec(p, [c, d]) == Step(Step(p, c), d)
  {
  }

  lemma {:induction false} ExecCons(p: Plane, c: Choice, cs: seq<Choice>)
    requires InRange(p)
    ensures Exec(p, [c] + cs) == Exec(Step(p, c), cs)
  {
    if cs == [] {
      assert ([c] + cs)[..0] == [];
    } else {
      var n := |cs| - 1;
      ExecCons(p, c, cs[..n]);
      assert ([c] + cs)[..n + 1] == [c] + cs[..n];
    }
  }

  lemma {:induction false} ExecAppend(p: Plane, cs: seq<Choice>, ds: seq<Choice>)
    requires InRange(p)
    ensures Exec(p, cs + ds) == Exec(Exec(p, cs), ds)
  {
    if ds == [] {
      assert cs + ds == cs;
    } else {
      var n := |ds| - 1;
      ExecAppend(p, cs, ds[..n]);
      assert (cs + ds)[..|cs + ds| - 1] == cs + ds[..n];
      assert (cs + ds)[|cs + ds| - 1] == ds[n];
    }
  }

  lemma {:induction false} ExecIdle(q: Plane, ds: seq<Choice>)
    requires InRange(q) && q.pc.Idle?
    ensures Exec(q, ds) == q
  {
    if ds != [] {
      ExecIdle(q, ds[..|ds| - 1]);
    }
  }

  // ----------------------------------------------------------- completion

  /** What remains of a Sync, compared component by component. */
  function Work(p: Plane): (nat, nat, nat)
    requires InRange(p)
  {
    match p.pc
    case ClearSlot(i) => (4, |p.list| - i, 4)
    case ClearIp(i) => (4, |p.list| - i, 3)
    case WriteSlot(i) => (4, |p.list| - i, 2)
    case WriteIp(i) => (4, |p.list| - i, 1)
    case Attach(i) => (4, |p.list| - i, 0)
    case StaleSlot(i) => (3, |p.backends| - i, 1)
    case StaleIp(i) => (3, |p.backends| - i, 0)
    case Detach(pending) => (2, |pending|, 0)
    case Commit => (1, 0, 0)
    case Idle(_) => (0, 0, 0)
  }

  /** From every point of a Sync the environment can let it return, without failing anything. */
  lemma Completion(p: Plane) returns (cs: seq<Choice>)
    requires InRange(p)
    ensures NoFaults(cs) && Exec(p, cs).pc.Idle?
    decreases Work(p).0, Work(p).1, Work(p).2
  {
    if p.pc.Idle? {
      return [];
    }
    var pick := "";
    if p.pc.Detach? {
      pick :| pick in p.pc.pending;
    }
    var c := Choice(true, pick);
    var rest := Completion(Step(p, c));
    ExecCons(p, c, rest);
    cs := [c] + rest;
  }
}
