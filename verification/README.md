# A model of the container load balancer

The load balancer has two planes that meet in four BPF maps. The Go control plane
(`Pool.Sync` over `bpf.Manager`) reconciles a changing list of backends into
`backend_map` (index to backend), `backend_ips_map` (backend address to index), a set of
veth links and one config slot. The C data plane reads those maps on every packet:
`xdp_lb_ingress` rewrites a request for the VIP towards a randomly drawn backend,
`xdp_veth_snat` rewrites a backend's answer to come from the VIP. This project models both
and proves what holds of them separately, interleaved, and end to end.

## How it is organised

- `Types`, `Bits`, `KernelMaps`: records, native byte order, `>>` `&` `~` bit by bit, and the
  maps with the two ways a map operation can fail: the environment's fault, or the kernel's
  rejection (array index past the end, hash map full). A failing operation has no effect.
- `Checksum`, `Packet`, `WireFormat`: the Internet checksum of RFC 1071 defined by
  end-around-carry addition, and the bytes the two programs write.
- `Xdp`: the XDP programs as in-place methods on a packet array, proved against `Packet`.
- `Reconciler`: Sync as a machine making one atomic map or link operation per step, with the
  source's early returns and its one ignored error. A `Choice` is what the environment decides
  for a step. `SyncShape`, `ErrorFree`, `Convergence`, `Faults`, `Room`
  and `Leaks` are about its executions.
- `BpfManager`, `DiscoveryPool`: the imperative classes. Every operation advances a ghost
  machine state, so `Pool.Sync` is proved to be an execution of `Reconciler`.
- `System`: all of Sync's steps and the packet programs of any number of CPUs, split at their
  map lookups, in any order. `AnyRun` and `Fates` are about every run, `Interleaving` about error-free ones,
  `Uninterrupted` ties the split programs to the whole ones, `EndToEnd` joins the two planes,
  `Snapshot` compares what requests see during a Sync with the lists before and after it.
- `StatsFormat`: the unit scaling of the dashboard.

A state is *clean* when the forward map is the current list padded with zeros, the reverse map
is part of the list's inverse, and exactly the list's veths are attached. A list is
*discovered* when its addresses are IPv4, non-zero and distinct and its MACs have six bytes:
discovery enforces the form (userspace/discovery/docker.go:88-94); that two running containers
do not share an address is assumed of the container network. Sync itself is modelled for every
list; only theorems that need it ask for a discovered one.

## What came out

- One Sync does not always make the reverse map agree with the forward table. Clears and
  puts alternate per index, so a backend that moves to a smaller index has its fresh reverse
  entry deleted by a later clear. The two agree after one error-free Sync exactly when no
  listed backend moved down (`ErrorFree.AgreementAfterOneSync`); syncing `[a, b]` and then `[b]`
  leaves `b` unregistered (`ErrorFree.SurvivorRun`), and its answers then pass unmodified
  (`EndToEnd.AfterOneSync`). A second successful Sync always repairs it, from any state.
- The repository's own documentation says the config update comes last so that the data plane
  only ever sees a consistent snapshot (README.md:54, userspace/discovery/pool.go:103). The
  forward table changes earlier, entry by entry, so it does not: while `[a, b]` is replaced by
  `[b]` there is a moment at which requests see neither list (`Snapshot.SnapshotBrokenRun`).
  Requests see the old list or the new one throughout an error-free Sync exactly when nothing was
  served before, or one backend was and none will be, or the list only grows, or its length and
  addresses stay and at most one MAC changes (`Snapshot.SnapshotExactly`). They see the old list
  until the commit exactly when the new one extends it (`Snapshot.OldUntilCommitExactly`). In
  every Sync each single request still goes to one listed backend or passes unmodified
  (`Interleaving.InterleavingSafety`).
- A fault-free Sync of a list that fits the tables can fail for lack of room in the reverse map.
  From any state it does exactly when some entry is not IPv4, past the 64 slots, or a new address
  for a map that is full when its turn comes, which the registered keys and the two lists decide
  beforehand (`Room.FaultFreeOutcome`). It cannot happen from a clean state
  (`Room.ReadyIsThrough`). It can after failures: a reverse entry of an address that is not current
  stays until a list has the address again (`Leaks.StrandedKey`), and after sixty-four refused
  attaches a list with any other address fails (`Leaks.WedgedByLeaks`).
- Recomputing the checksum equals the incremental update of RFC 1624 for every frame with a
  verifying checksum that the programs rewrite; the one exception of that equation needs a zero
  new address, which they never write.
- The checksum covers the 20 fixed header bytes, so a rewritten frame with IP options verifies
  exactly when the option words sum to zero modulo 65535. `WireFormat.OptionsFail` is a frame that
  arrives with a good checksum and leaves with a bad one.
- `struct iphdr` in the checked-in kernelspace/vmlinux.h declares `ihl` before `version`, the
  little-endian order of the two bit-fields. In a big-endian build that makes `ihl` the version
  nibble, which loosens the length check (`WireFormat.BigEndianParse`). Everything else writes
  the same bytes on either kind of host.

## Model

| member | source | states |
|---|---|---|
| `Types.PackInjective` | userspace/bpf/maps.go:12-19 | addresses loaded as native words are equal exactly when their four wire bytes are |
| `Types.PackValue` | userspace/bpf/maps.go:12-19 | the number a native load makes of four wire bytes on either kind of host |
| `Bits.HalfWords` | kernelspace/xdp_lb.c:62-63 | shift and mask, taken bit by bit, are quotient and remainder by 65536 |
| `Bits.LowComplement` | kernelspace/xdp_lb.c:64 | the truncated complement, taken bit by bit, is 65535 minus the low half |
| `Checksum.OnesSumIsCanon` | kernelspace/xdp_lb.c:55-63 | adding words with end-around carry equals summing them and reducing once |
| `Checksum.TwoFoldsSuffice` | kernelspace/xdp_lb.c:62-63 | two folds reduce every 32-bit sum, without overflow, to its ones' complement sum |
| `Checksum.ByteOrderIndependent` | kernelspace/xdp_lb.c:54-60 | the sum over byte-swapped words is the byte-swapped sum (section 2(B) of RFC 1071) |
| `Checksum.ChecksumVerifies` | kernelspace/xdp_lb.c:52-65 | whatever checksum a header came with, the recomputed one makes its sum 0xFFFF, in either byte order |
| `Checksum.StoredAllOnes` | kernelspace/xdp_lb.c:64 | 0xFFFF is stored exactly for a header that is zero everywhere else |
| `Checksum.OptionsCharacterisation` | kernelspace/xdp_lb.c:59-64 | a header with options verifies exactly when the option words sum to 0 modulo 65535 |
| `Checksum.RecomputeIsIncrement` | kernelspace/xdp_lb.c:52-65 | for a verifying ICMP header, recomputation equals equation 3 of RFC 1624 on the two changed words, except in exactly one case |
| `KernelMaps.Maps.constructor` | kernelspace/xdp_lb.c:18-44 | the four maps start with 64 zeroed slots, a zeroed config, no keys and zero counters |
| `KernelMaps.Maps.Put` | kernelspace/xdp_lb.c:25-30 | an array put takes effect unless it fails or the index is 64 or more |
| `KernelMaps.Maps.Register` | kernelspace/xdp_lb.c:32-37 | a hash put takes effect unless it fails, or the key is new and 64 are held |
| `KernelMaps.Maps.Unregister` | userspace/bpf/maps.go:83-87 | a delete removes at most its key and reports nothing |
| `KernelMaps.Maps.Configure` | kernelspace/xdp_lb.c:18-23 | a config put replaces the whole slot or fails without effect |
| `Packet.DnatCorrect` | kernelspace/xdp_lb.c:107-118 | a request is rewritten exactly when the entry is not blank; then MACs and destination are the entry's, the checksum verifies, and no other byte changes |
| `Packet.SnatCorrect` | kernelspace/xdp_lb.c:175-182 | a reply is rewritten exactly when the VIP is not zero; then its source is the VIP, the checksum verifies, and no other byte changes |
| `Xdp.SumHeader` | kernelspace/xdp_lb.c:55-60 | the loop sums the ten native words without overflowing 32 bits |
| `Xdp.FoldSum` | kernelspace/xdp_lb.c:62-64 | folds and complement give the complement of the ones' complement sum |
| `Xdp.UpdateIpCsum` | kernelspace/xdp_lb.c:52-65 | in place, on either kind of host, exactly the two checksum bytes become the network-order RFC 1071 checksum |
| `Xdp.CopyMacs` | kernelspace/xdp_lb.c:112-116 | the loop replaces exactly the two MAC addresses |
| `Xdp.SelectBackend` | kernelspace/xdp_lb.c:76-109 | the tests and lookups select the drawn entry exactly when `EndToEnd.RequestReaches` says the frame is served |
| `Xdp.CountFrame` | kernelspace/xdp_lb.c:121-126 | one counter of one CPU gains one packet and the frame's length, modulo 2^64; no other changes |
| `Xdp.RewriteRequest` | kernelspace/xdp_lb.c:111-118 | the in-place DNAT block is the rewrite whose properties `Packet.DnatCorrect` states |
| `Xdp.RewriteReply` | kernelspace/xdp_lb.c:180-182 | the in-place SNAT block is the rewrite whose properties `Packet.SnatCorrect` states |
| `Xdp.XdpLbIngress` | kernelspace/xdp_lb.c:73-129 | every frame is rewritten for its target or left alone; exactly the target's counter on this CPU gains one packet and the frame's length, modulo 2^64 |
| `Xdp.XdpVethSnat` | kernelspace/xdp_lb.c:148-186 | every frame is rewritten or left alone by the reverse lookup and the VIP; nothing else changes |
| `WireFormat.DnatOptions` | kernelspace/xdp_lb.c:117-118 | the whole declared header of a rewritten request verifies exactly when its options sum to 0 modulo 65535 |
| `WireFormat.SnatOptions` | kernelspace/xdp_lb.c:181-182 | the same for a rewritten reply |
| `WireFormat.OptionsFail` | kernelspace/xdp_lb.c:59-64 | one frame with three no-operation options that verifies on arrival and fails after either rewrite |
| `WireFormat.NoOptions` | kernelspace/xdp_lb.c:59-64 | with IHL 5 the whole header always verifies after either rewrite |
| `WireFormat.DnatIncrement` | kernelspace/xdp_lb.c:117-118 | for a verifying ICMP frame the recomputed checksum of a request is the incremental one, without exception |
| `WireFormat.SnatIncrement` | kernelspace/xdp_lb.c:181-182 | the same for a reply |
| `WireFormat.SameBytesOnTheWire` | userspace/bpf/maps.go:12-19 | maps filled and read in native order give the same rewritten bytes on both kinds of host |
| `WireFormat.SameChoice` | kernelspace/xdp_lb.c:95-105 | a frame both kinds of host parse is given the same index by both |
| `WireFormat.ParsedFrames` | kernelspace/xdp_lb.c:79-93 | in literal bytes: exactly the IPv4 ICMP frames with room for their headers are parsed, the header length from the low nibble on a little-endian host and the high one on a big-endian host |
| `WireFormat.BigEndianParse` | kernelspace/xdp_lb.c:91-93 | the exact lengths at which each kind of host accepts an option-less ICMP frame |
| `Reconciler.Completion` | userspace/discovery/pool.go:48-110 | from every point of a Sync there is a fault-free continuation that returns |
| `SyncShape.RevDrop` | userspace/bpf/maps.go:83-87 | clearing old index i deletes the key of a new entry exactly when that entry moved down from i |
| `SyncShape.RevKeep` | userspace/discovery/pool.go:60-64 | an index that is new or keeps its address needs no clear |
| `SyncShape.RevWrite` | userspace/bpf/maps.go:65-69 | registering entry i restores the description of the reverse map, one index on |
| `SyncShape.RevRoom` | kernelspace/xdp_lb.c:32-37 | before entry i is registered it is there already or the map is smaller than the longer list |
| `SyncShape.ShapeBegin` | userspace/discovery/pool.go:48-59 | a Sync of a discovered list of at most 64 from a clean state starts in the exact shape |
| `SyncShape.ShapeStep` | userspace/discovery/pool.go:58-108 | every step that does not fail keeps the exact forward table, reverse table and attachments of its position |
| `ErrorFree.OnlyCommitCompletes` | userspace/discovery/pool.go:103-108 | no step but the last changes config or current list, or makes Sync succeed |
| `ErrorFree.ErrorFreeSync` | userspace/discovery/pool.go:48-110 | every point of an error-free Sync from a clean state has the exact shape; its end is clean and registers exactly the listed addresses that did not move down, at their index |
| `ErrorFree.Capacity` | kernelspace/xdp_lb.c:32-37 | at every point the keys come from a prefix of the new list and a suffix of the old one, never exceed the longer list, and no put lacks room |
| `ErrorFree.AgreementAfterOneSync` | userspace/discovery/pool.go:59-91 | one Sync leaves the reverse map the exact inverse if and only if no listed backend moved down |
| `ErrorFree.SurvivorUnregistered` | userspace/discovery/pool.go:83-91 | syncing only the second of two backends leaves it in slot 0 and unregistered |
| `ErrorFree.SurvivorRun` | userspace/discovery/pool.go:59-91 | that happens in a fault-free run from the start |
| `Convergence.RepeatedSync` | userspace/discovery/pool.go:59-68 | from any state and whatever fails, syncing the current list clears nothing; on success exactly its entries are written and registered at their index |
| `Convergence.FixedPoint` | userspace/discovery/pool.go:104-108 | once settled, no point of a further Sync of the list changes maps, links or bookkeeping, whatever fails |
| `Convergence.TwoSyncsConverge` | userspace/discovery/pool.go:48-110 | two error-free Syncs from a clean state leave the exact inverse and a settled state |
| `Faults.ConsistentStep` | userspace/discovery/pool.go:59-109 | any step with any outcome keeps count, links, written prefix and containment of the slots |
| `Faults.SyncOutcome` | userspace/discovery/pool.go:58-109 | from any state and whatever fails, the forward table is known at every point; a failed Sync leaves config and current list; a successful one has at most 64 IPv4 entries, each in its slot, the old slots beyond them zeroed and the rest untouched |
| `Faults.ErrorsExactly` | userspace/discovery/pool.go:62-106 | from any state a Sync returns an error if and only if one of its operations was refused, other than the clears of the write loop and the deletes from the reverse map |
| `Faults.FailureHasNoEffect` | userspace/discovery/pool.go:62-106 | an operation that fails leaves kernel maps and links as they were, and a refusal changes nothing but the return |
| `Faults.SyncVeths` | userspace/discovery/pool.go:52-101 | whatever fails, bookkeeping equals links, held links keep their interface and new ones are to the interface first listed for their veth; success leaves exactly the veths held or new, less the old ones not listed again |
| `Faults.ReverseFromAnyState` | userspace/bpf/maps.go:61-87 | from any state, whatever fails, a reverse entry was there before or gives a listed address its own index; a fault-free success leaves no address registered that only the old list had |
| `Faults.ForeignKeyKept` | userspace/bpf/maps.go:83-87 | a key of neither list keeps its reverse entry through any Sync |
| `Room.FaultFreeOutcome` | userspace/bpf/maps.go:42-72 | from any state a fault-free Sync of any list errs if and only if some entry is not IPv4, past the 64 slots, or a new key for a map full at its turn |
| `Room.SuccessPossible` | userspace/discovery/pool.go:62-68 | from any state some execution succeeds if and only if some set of clears left without effect lets every entry through |
| `Room.CapacityIs64` | kernelspace/types.h:5 | from a clean state a discovered list can be synced if and only if it has at most 64 backends |
| `Room.ReadyIsThrough` | kernelspace/xdp_lb.c:32-37 | from a clean state no entry of a discovered list of at most 64 stops a Sync |
| `Room.RoomAtEveryPut` | kernelspace/xdp_lb.c:32-37 | where no entry stops it, a fault-free Sync has room at every put of a key |
| `Leaks.StrandedKey` | userspace/bpf/maps.go:83-87 | a key of no current list keeps its entry and index through every later state of every run in which no started list has it |
| `Leaks.FullMapWedges` | userspace/bpf/maps.go:65-69 | whatever fails, a full map without the key of some entry, and with no registered key cleared on the way to it, makes the Sync fail and keeps its keys |
| `Leaks.LeaksAccumulate` | userspace/discovery/pool.go:66-74 | Syncs refused at the attach leave all their addresses registered and no list current |
| `Leaks.WedgedByLeaks` | userspace/discovery/pool.go:66-74 | after sixty-four of them the next Sync of a list with any other address fails and leaves the map as full |
| `BpfManager.Manager.UpdateConfig` | userspace/bpf/maps.go:15-38 | the config slot becomes VIP, port, count and MAC, zero where the VIP is not IPv4 or the MAC not six bytes |
| `BpfManager.Manager.UpdateBackend` | userspace/bpf/maps.go:42-72 | forward then reverse entry, stopping at the first failure; a non-IPv4 address changes nothing |
| `BpfManager.Manager.ClearBackend` | userspace/bpf/maps.go:76-90 | the slot is zeroed or nothing happens; then the key is deleted unless that fails unnoticed |
| `BpfManager.Manager.AttachVethXDP` | userspace/bpf/loader.go:74-102 | a veth already linked is left alone; otherwise it is linked or the call fails without effect |
| `BpfManager.Manager.DetachVethXDP` | userspace/bpf/loader.go:106-120 | an unlinked veth is left alone; otherwise it is unlinked or the call fails without effect |
| `BpfManager.Manager.ReadStats` | userspace/bpf/maps.go:93-103 | the per-CPU counters of an index summed modulo 2^64; an index past the map is an error |
| `DiscoveryPool.Pool.constructor` | userspace/discovery/pool.go:32-40 | a new pool has nothing listed and nothing attached, and leaves the maps alone |
| `DiscoveryPool.Pool.IndexByVeth` | userspace/discovery/pool.go:52-56 | the index has exactly the veth names of the current list |
| `DiscoveryPool.Pool.ClearReplaced` | userspace/discovery/pool.go:62-64 | the clear of a replaced index is the machine's, and its error does not stop Sync |
| `DiscoveryPool.Pool.WriteEntry` | userspace/discovery/pool.go:66-68 | the update of one entry is the machine's two steps, an error ending Sync |
| `DiscoveryPool.Pool.AttachEntry` | userspace/discovery/pool.go:71-78 | the attach of one entry is the machine's step, an error ending Sync |
| `DiscoveryPool.Pool.WriteAll` | userspace/discovery/pool.go:59-81 | the write loop is an execution; without error the veths left over are the old ones not listed again |
| `DiscoveryPool.Pool.ClearAllStale` | userspace/discovery/pool.go:84-91 | the stale loop is an execution up to the detach loop or an error |
| `DiscoveryPool.Pool.DetachAll` | userspace/discovery/pool.go:94-101 | the detach loop, in whatever order, is an execution up to the commit or an error |
| `DiscoveryPool.Pool.CommitList` | userspace/discovery/pool.go:104-108 | config update and assignment are the machine's last step |
| `DiscoveryPool.Pool.Reconcile` | userspace/discovery/pool.go:48-110 | the whole body is an execution of the machine ending with the error returned |
| `DiscoveryPool.Pool.Sync` | userspace/discovery/pool.go:48-110 | on the real fields: it fails exactly when a needed operation was refused, and then config and list stay; on success all 64 slots, the config, the attached veths and their interfaces are field by field as listed; fault-free from a clean state it succeeds with the exact tables |
| `AnyRun.EveryRunSound` | userspace/discovery/pool.go:59-109 | in every run with any failures the count is the current list's length and at most 64, links equal bookkeeping, slots below the count are blank, current or attempted since, and drawn indices hit the tables |
| `AnyRun.EveryRunConserves` | kernelspace/xdp_lb.c:121-126 | at every moment of every run each per-CPU counter plus what that CPU still owes is what it rewrote, modulo 2^64 |
| `AnyRun.StatsExact` | userspace/bpf/maps.go:93-103 | with no count pending, the sums read for an index are the total for it since load, modulo 2^64 and exactly while it fits |
| `AnyRun.CountersAccountForAll` | userspace/bpf/maps.go:93-103 | with no count pending, what is read over all 64 indices sums to the grand total since load, modulo 2^64 and exactly while it fits |
| `AnyRun.TotalsMeasure` | kernelspace/xdp_lb.c:124-125 | the packet totals are the numbers of frames rewritten, per index and in all, and the byte totals their added lengths |
| `Fates.Separate` | kernelspace/xdp_lb.c:95-126 | Sync's steps touch nothing of a packet in flight, packets nothing of Sync, and CPUs nothing of each other |
| `Fates.ConfigLookup` | kernelspace/xdp_lb.c:79-105 | a config lookup gives a frame an index exactly when it is parsed, the count is not zero and the VIP filter lets it through; then the draw modulo that count |
| `Fates.BackendLookup` | kernelspace/xdp_lb.c:107-118 | a backend lookup rewrites the frame exactly when the entry is not blank then, for that entry, and records it with its CPU and index |
| `Fates.ReverseLookup` | kernelspace/xdp_lb.c:154-173 | a reverse lookup takes exactly the parsed frames whose source is registered then |
| `Fates.VipLookup` | kernelspace/xdp_lb.c:175-182 | a taken frame is rewritten exactly when the VIP is not zero then |
| `Fates.RequestFate` | kernelspace/xdp_lb.c:95-118 | in every run with any failures an index stems from one earlier config lookup, and the frame is rewritten if and only if the entry is not blank at the backend lookup, for exactly that entry |
| `Fates.ReplyFate` | kernelspace/xdp_lb.c:170-182 | in every run with any failures a taken reply stems from one earlier reverse lookup, and is rewritten if and only if the VIP is not zero |
| `Interleaving.BenignRunShape` | userspace/discovery/pool.go:58-108 | every state of every error-free run, packets included, has the exact shape |
| `Interleaving.SlotListed` | kernelspace/xdp_lb.c:107-109 | a slot that is not blank holds one entry of the current list or the list being synced |
| `Interleaving.KeyListed` | kernelspace/xdp_lb.c:170-173 | a registered key is the address of such an entry |
| `Interleaving.BlankSlots` | userspace/discovery/pool.go:58-91 | exactly which slots below the advertised count are blank at each position: the one being replaced, or those past the new end already cleared; a packet drawing one is not rewritten, whatever config it saw |
| `Interleaving.InterleavingSafety` | kernelspace/xdp_lb.c:95-118 | in every error-free run, with config and backend seen at different moments, a request is rewritten exactly when its entry is not blank, and then for one entry listed at the backend lookup, never zero, mixed or dropped |
| `Interleaving.ReverseSafety` | kernelspace/xdp_lb.c:170-173 | in every error-free run a reverse lookup takes only frames whose source is listed at that moment |
| `Interleaving.ReplySafety` | kernelspace/xdp_lb.c:170-182 | in every error-free run a taken reply is rewritten, from the VIP, exactly when the VIP is not zero, and its source was listed at the lookup that took it |
| `Uninterrupted.IngressIsWhole` | kernelspace/xdp_lb.c:73-129 | the split request program run alone is the whole one, frame and counter |
| `Uninterrupted.EgressIsWhole` | kernelspace/xdp_lb.c:148-186 | the split reply program run alone is the whole one |
| `EndToEnd.RequestReaches` | kernelspace/xdp_lb.c:95-118 | once a list is served, every ICMP frame for the VIP, on every draw, is sent to the backend the draw names, and every other frame is left alone |
| `EndToEnd.AnswerReturns` | kernelspace/xdp_lb.c:154-182 | a frame from a veth leaves from the VIP exactly when the reply program is on that veth, the frame is ICMP, its source is registered and the VIP is not zero; every other frame is unchanged |
| `EndToEnd.AfterOneSync` | userspace/discovery/pool.go:59-91 | after one error-free Sync requests are served and the backend's veth has the reply program; an answer leaves from the VIP exactly when its backend did not move down and the VIP is not zero |
| `EndToEnd.SuccessServes` | userspace/discovery/pool.go:103-109 | any successful Sync from any state serves requests |
| `EndToEnd.SecondSuccessRegisters` | userspace/discovery/pool.go:59-68 | a second successful Sync of the list registers every listed address |
| `EndToEnd.EndToEndTheorem` | userspace/discovery/pool.go:48-110 | from any state whose bookkeeping matches its links, after two successful Syncs of a non-empty list and with a non-zero VIP, every ping reaches a listed backend whose veth has the reply program, and its answer reaches the client from the VIP, checksums good and no other byte changed |
| `Snapshot.SnapshotExactly` | userspace/discovery/pool.go:58-108 | with its config and backend lookups at any two moments of an error-free Sync, every request is treated as under the old list or the new one throughout, if and only if the two lists are smooth |
| `Snapshot.SnapshotBroken` | userspace/discovery/pool.go:58-91 | otherwise there is a point at which requests see neither list |
| `Snapshot.SnapshotBrokenRun` | userspace/discovery/pool.go:83-108 | that happens in a fault-free run from the start: two backends, then only the second |
| `Snapshot.UntouchedExactly` | userspace/discovery/pool.go:58-91 | no point before the commit changes a slot below the advertised count if and only if the new list's entries extend the old one's |
| `Snapshot.OldUntilCommitExactly` | userspace/discovery/pool.go:58-108 | requests see exactly the old list until the commit if and only if the new list extends it, address and MAC |
| `StatsFormat.FormatBytes` | userspace/stats/collector.go:82-93 | from 1024 up the divisor is a power of 1024 that fits int64 and brackets the count, with the letter of its scale from K to E |
| `StatsFormat.ScaleUnique` | userspace/stats/collector.go:87-91 | no other exponent brackets the count |

## Left out

- Container discovery, network namespaces and veth lookup: calls into Docker and the kernel; only what they guarantee of a list is used.
- `NewManager`, `Close`, program loading and the fall-back from driver to generic attach: an attach is one operation that succeeds or fails.
- `GetBackends`, which copies the current list for the dashboard, `truncate`, which shortens a name, and the dashboard text with its floating-point formatting: they only display, and nothing proved here depends on them.
- Locks: a Sync starts only between Syncs, as the pool's mutex has it; the mutex itself is not modelled.
- Aliasing of the slice passed to Sync: lists are values, so a caller that changes the slice afterwards is not captured.
- Reads inside one map value: a lookup copies the value at once. The programs hold pointers into live array values, so a config or backend replaced between two of their reads is not captured.
- The random source: a draw is any 32-bit number.
- What replies see during a Sync is stated per lookup (`Interleaving.ReplySafety`) and at every index (`SyncShape.ShapeStep`); `Snapshot` is about requests.
- Bridge forwarding, routing and ARP: an answer is any ICMP frame from the address a request was sent to, back to its sender.
- Ports and weights: stored as the source stores them; neither XDP program reads them.
