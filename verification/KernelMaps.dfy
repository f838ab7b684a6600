/**
 The BPF maps shared by the two planes (kernelspace/xdp_lb.c). One call on a map
 is one atomic step. A call may fail for a reason of the environment's (`ok` is
 false) or because the kernel rejects it: an array map refuses an index past its
 end, a hash map refuses a new key when it is full. A call that fails has no effect.
 */
module KernelMaps {
  import opened Types

  type Table = s: seq<BackendInfo> | |s| == MAX_BACKENDS witness seq(MAX_BACKENDS, _ => EMPTY_INFO)

  /** An array map starts zeroed. */
  function EmptyTable(): (t: Table)
    ensures forall i | 0 <= i < MAX_BACKENDS :: t[i] == EMPTY_INFO
  {
    seq(MAX_BACKENDS, _ => EMPTY_INFO)
  }

  /** The contents of `config_map`, `backend_map` and `backend_ips_map` at one moment. */
  datatype Kernel = Kernel(host: Endian, config: LbConfig, slots: Table, ips: map<u32, nat>)

  predicate SlotAccepted(i: nat, ok: bool) {
    ok && i < MAX_BACKENDS
  }

  predicate IpAccepted(k: Kernel, key: u32, ok: bool) {
    ok && (key in k.ips || |k.ips| < MAX_BACKENDS)
  }

  function PutSlot(k: Kernel, i: nat, info: BackendInfo, ok: bool): Kernel {
    if SlotAccepted(i, ok) then k.(slots := k.slots[i := info]) else k
  }

  function PutIp(k: Kernel, key: u32, i: nat, ok: bool): Kernel {
    if IpAccepted(k, key, ok) then k.(ips := k.ips[key := i]) else k
  }

  function DeleteIp(k: Kernel, key: u32, ok: bool): Kernel {
    if ok then k.(ips := k.ips - {key}) else k
  }

  function PutConfig(k: Kernel, cfg: LbConfig, ok: bool): Kernel {
    if ok then k.(config := cfg) else k
  }

  /** `struct stats_counter`; both fields wrap at 2^64. */
  datatype Stats = Stats(packets: u64, bytes: u64)

  const NO_STATS := Stats(0, 0)

  function Wrap64(n: nat): u64 { n % 0x1_0000_0000_0000_0000 }

  function Bump(s: Stats, len: nat): Stats {
    Stats(Wrap64(s.packets + 1), Wrap64(s.bytes + len))
  }

  /** The two things a counter counts. */
  datatype Field = PacketCount | ByteCount

  function Value(f: Field, s: Stats): u64 {
    match f
    case PacketCount => s.packets
    case ByteCount => s.bytes
  }

  /** What one frame of length `len` adds. */
  function Amount(f: Field, len: nat): nat {
    match f
    case PacketCount => 1
    case ByteCount => len
  }

  /** The unbounded sum over the values of a per-CPU entry. */
  function SumOf(f: Field, row: seq<Stats>): nat {
    if row == [] then 0 else SumOf(f, row[..|row| - 1]) + Value(f, row[|row| - 1])
  }

  lemma WrapSum(x: nat, x': nat, y: nat, y': nat)
    requires Wrap64(x) == Wrap64(x') && Wrap64(y) == Wrap64(y')
    ensures Wrap64(x + y) == Wrap64(x' + y')
  {
  }

  /** The loaded collection of maps, live in the kernel. */
  class Maps {
    const host: Endian
    const cpus: nat
    var config: LbConfig
    var slots: Table
    var ips: map<u32, nat>
    var counters: array2<Stats>  // index, CPU

    constructor (host: Endian, cpus: nat)
      ensures this.host == host && this.cpus == cpus && Valid() && fresh(counters)
      ensures View() == Kernel(host, LbConfig(0, 0, 0, [0, 0, 0, 0, 0, 0]), EmptyTable(), map[])
      ensures |slots| == 64 && forall i | 0 <= i < 64 :: slots[i] == BackendInfo(0, 0, [0, 0, 0, 0, 0, 0], 0)
      ensures forall i, c | 0 <= i < MAX_BACKENDS && 0 <= c < cpus :: counters[i, c] == Stats(0, 0)
    {
      this.host := host;
      this.cpus := cpus;
      config := EMPTY_CONFIG;
      slots := EmptyTable();
      ips := map[];
      counters := new Stats[MAX_BACKENDS, cpus]((_, _) => NO_STATS);
    }

    ghost predicate Valid()
      reads this
    {
      counters.Length0 == MAX_BACKENDS && counters.Length1 == cpus
    }

    ghost function View(): Kernel
      reads this
    {
      Kernel(host, config, slots, ips)
    }

    /** The per-CPU values of one entry of `counters_map`. */
    ghost function Row(i: nat): (row: seq<Stats>)
      requires Valid() && i < MAX_BACKENDS
      reads this, counters
    {
      seq(cpus, c requires 0 <= c < cpus && i < counters.Length0 && cpus == counters.Length1
                reads this, counters => counters[i, c])
    }

    method Put(i: nat, info: BackendInfo) returns (err: bool, ghost ok: bool)
      modifies this`slots
      ensures View() == PutSlot(old(View()), i, info, ok)
      ensures err == !SlotAccepted(i, ok)
    {
      var up: bool := *;
      ok := up;
      err := !(up && i < MAX_BACKENDS);
      if !err {
        slots := slots[i := info];
      }
    }

    method Register(key: u32, i: nat) returns (err: bool, ghost ok: bool)
      modifies this`ips
      ensures View() == PutIp(old(View()), key, i, ok)
      ensures err == !IpAccepted(old(View()), key, ok)
    {
      var up: bool := *;
      ok := up;
      err := !(up && (key in ips || |ips| < MAX_BACKENDS));
      if !err {
        ips := ips[key := i];
      }
    }

    method Unregister(key: u32) returns (ghost ok: bool)
      modifies this`ips
      ensures View() == DeleteIp(old(View()), key, ok)
    {
      var up: bool := *;
      ok := up;
      if up {
        ips := ips - {key};
      }
    }

    method Configure(cfg: LbConfig) returns (err: bool, ghost ok: bool)
      modifies this`config
      ensures View() == PutConfig(old(View()), cfg, ok)
      ensures err == !ok
    {
      var up: bool := *;
      ok := up;
      err := !up;
      if up {
        config := cfg;
      }
    }
  }
}
