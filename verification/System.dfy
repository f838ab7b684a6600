/**
 Both planes as one system of atomic steps. Each CPU runs the XDP programs one at
 a time, split at their map lookups; the steps of Syncs and of all CPUs interleave
 in any order, so two lookups of one packet may see different moments of a Sync.
 */
module System {
  import opened Types
  import opened KernelMaps
  import opened Packet
  import opened Reconciler

  /** Where a CPU is between two map lookups. */
  datatype Cpu =
    | Free
    | Chosen(frame: Frame, cfg: LbConfig, idx: nat)  // config seen, index drawn
    | Rewritten(idx: nat, len: nat)                  // backend seen and frame rewritten, not yet counted
    | Matched(frame: Frame)                          // source found in the reverse map

  /** A frame rewritten by xdp_lb_ingress. */
  datatype Hit = Hit(cpu: nat, idx: nat, before: Frame, after: Frame)

  /** A frame rewritten by xdp_veth_snat. */
  datatype Reply = Reply(before: Frame, after: Frame)

  /** `counters[c][i]` is CPU `c`'s counter of index `i`; `hits` and `replies` are history. */
  datatype Sys = Sys(
    plane: Plane,
    cpus: seq<Cpu>,
    counters: seq<seq<Stats>>,
    hits: seq<Hit>,
    replies: seq<Reply>)

  datatype Action =
    | StartSync(list: seq<Backend>)
    | Control(choice: Choice)
    | ReadConfig(cpu: nat, frame: Frame, draw: u32)
    | ReadBackend(cpu: nat)
    | Count(cpu: nat)
    | ReadReverse(cpu: nat, frame: Frame)
    | ReadVip(cpu: nat)

  predicate CpuOk(e: Endian, c: Cpu) {
    match c
    case Chosen(f, _, _) => Accepts(e, f)
    case Matched(f) => Accepts(e, f)
    case _ => true
  }

  predicate Wf(s: Sys) {
    && InRange(s.plane)
    && |s.counters| == |s.cpus|
    && (forall c | 0 <= c < |s.counters| :: |s.counters[c]| == MAX_BACKENDS)
    && (forall c | 0 <= c < |s.cpus| :: CpuOk(s.plane.kernel.host, s.cpus[c]))
  }

  function Init(e: Endian, settings: Settings, n: nat): (s: Sys)
    ensures Wf(s)
  {
    Sys(Initial(e, settings), seq(n, _ => Free), seq(n, _ => seq(MAX_BACKENDS, _ => NO_STATS)), [], [])
  }

  function SetCpu(s: Sys, c: nat, x: Cpu): Sys
    requires c < |s.cpus|
  {
    s.(cpus := s.cpus[c := x])
  }

  /** xdp_lb_ingress up to and including the draw. */
  function StepReadConfig(s: Sys, c: nat, f: Frame, draw: u32): Sys
    requires Wf(s) && c < |s.cpus|
  {
    match Choose(s.plane.kernel.host, s.plane.kernel.config, draw, f)
    case Some(i) => SetCpu(s, c, Chosen(f, s.plane.kernel.config, i))
    case None => s
  }

  /** The backend lookup and the rewrite. */
  function StepReadBackend(s: Sys, c: nat): Sys
    requires Wf(s) && c < |s.cpus| && s.cpus[c].Chosen?
  {
    var Chosen(f, cfg, i) := s.cpus[c];
    if i >= MAX_BACKENDS then SetCpu(s, c, Free) else
    match Dnat(s.plane.kernel.host, cfg, s.plane.kernel.slots[i], f)
    case Some(g) => SetCpu(s, c, Rewritten(i, |f|)).(hits := s.hits + [Hit(c, i, f, g)])
    case None => SetCpu(s, c, Free)
  }

  function StepCount(s: Sys, c: nat): Sys
    requires Wf(s) && c < |s.cpus| && s.cpus[c].Rewritten?
  {
    var Rewritten(i, len) := s.cpus[c];
    if i >= MAX_BACKENDS then SetCpu(s, c, Free) else
    SetCpu(s, c, Free).(counters := s.counters[c := s.counters[c][i := Bump(s.counters[c][i], len)]])
  }

  /** xdp_veth_snat up to the reverse lookup. */
  function StepReadReverse(s: Sys, c: nat, f: Frame): Sys
    requires Wf(s) && c < |s.cpus|
  {
    if FromBackend(s.plane.kernel.host, s.plane.kernel.ips, f) then SetCpu(s, c, Matched(f)) else s
  }

  function StepReadVip(s: Sys, c: nat): Sys
    requires Wf(s) && c < |s.cpus| && s.cpus[c].Matched?
  {
    match Snat(s.plane.kernel.host, s.plane.kernel.config, s.cpus[c].frame)
    case Some(g) => SetCpu(s, c, Free).(replies := s.replies + [Reply(s.cpus[c].frame, g)])
    case None => SetCpu(s, c, Free)
  }

  /** One atomic step; an action that is not enabled changes nothing. */
  function Next(s: Sys, a: Action): (t: Sys)
    requires Wf(s)
    ensures Wf(t)
    ensures |t.cpus| == |s.cpus|
    ensures t.plane.kernel.host == s.plane.kernel.host && t.plane.settings == s.plane.settings
  {
    match a
    case StartSync(list) => if s.plane.pc.Idle? then s.(plane := Begin(s.plane, list)) else s
    case Control(choice) => s.(plane := Step(s.plane, choice))
    case ReadConfig(c, f, draw) => if c < |s.cpus| && s.cpus[c].Free? then StepReadConfig(s, c, f, draw) else s
    case ReadBackend(c) => if c < |s.cpus| && s.cpus[c].Chosen? then StepReadBackend(s, c) else s
    case Count(c) => if c < |s.cpus| && s.cpus[c].Rewritten? then StepCount(s, c) else s
    case ReadReverse(c, f) => if c < |s.cpus| && s.cpus[c].Free? then StepReadReverse(s, c, f) else s
    case ReadVip(c) => if c < |s.cpus| && s.cpus[c].Matched? then StepReadVip(s, c) else s
  }

  function Run(s: Sys, acts: seq<Action>): (t: Sys)
    requires Wf(s)
    ensures Wf(t)
    ensures |t.cpus| == |s.cpus|
    ensures t.plane.kernel.host == s.plane.kernel.host && t.plane.settings == s.plane.settings
  {
    if acts == [] then s else Next(Run(s, acts[..|acts| - 1]), acts[|acts| - 1])
  }

  /** The state in which the `k`-th action of a run happens. */
  function Before(s: Sys, acts: seq<Action>, k: nat): (t: Sys)
    requires Wf(s) && k <= |acts|
    ensures Wf(t)
  {
    Run(s, acts[..k])
  }

  lemma BeforeNext(s: Sys, acts: seq<Action>, k: nat)
    requires Wf(s) && k < |acts|
    ensures Before(s, acts, k + 1) == Next(Before(s, acts, k), acts[k])
  {
    assert acts[..k + 1][..k] == acts[..k];
  }

  /** A prefix of a run goes through the same states. */
  lemma BeforePrefix(s: Sys, acts: seq<Action>, k: nat, j: nat)
    requires Wf(s) && j <= k <= |acts|
    ensures Before(s, acts[..k], j) == Before(s, acts, j)
  {
    assert acts[..k][..j] == acts[..j];
  }
}
