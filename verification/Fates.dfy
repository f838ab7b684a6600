/**
 What becomes of every single packet in every run, whatever fails and whatever
 interleaves: each lookup decides by what the maps hold at that moment.
 */
module Fates {
  import opened Types
  import opened KernelMaps
  import opened Packet
  import opened Reconciler
  import opened Faults
  import opened System
  import opened AnyRun

  // ------------------------------------------------------------- one lookup

  /** The action belongs to CPU `c`. */
  predicate OnCpu(a: Action, c: nat) {
    match a
    case StartSync(_) => false
    case Control(_) => false
    case ReadConfig(d, _, _) => d == c
    case ReadBackend(d) => d == c
    case Count(d) => d == c
    case ReadReverse(d, _) => d == c
    case ReadVip(d) => d == c
  }

  /** Sync's steps touch nothing of a packet in flight, packets nothing of Sync, and CPUs nothing of each other. */
  lemma Separate(s: Sys, a: Action, c: nat)
    requires Wf(s) && c < |s.cpus|
    ensures a.StartSync? || a.Control? ==> Next(s, a) == s.(plane := Next(s, a).plane)
    ensures a.Control? ==> Next(s, a).plane == Step(s.plane, a.choice)
    ensures a.StartSync? && s.plane.pc.Idle? ==> Next(s, a).plane == Begin(s.plane, a.list)
    ensures !a.StartSync? && !a.Control? ==> Next(s, a).plane == s.plane
    ensures !OnCpu(a, c) ==> Next(s, a).cpus[c] == s.cpus[c] && Next(s, a).counters[c] == s.counters[c]
  {
  }

  /** The frame passes the filter on the VIP that `cfg` has; a zero VIP lets every destination through. */
  predicate ForVip(e: Endian, cfg: LbConfig, f: Frame)
    requires 34 <= |f|
  {
    cfg.vip == 0 || Pack(e, Addr(f[30], f[31], f[32], f[33])) == cfg.vip
  }

  /** The config lookup of a free CPU: which index the frame draws, if any, and under which config. */
  lemma ConfigLookup(s: Sys, c: nat, f: Frame, draw: u32)
    requires Wf(s) && c < |s.cpus| && s.cpus[c].Free?
    ensures var e, cfg := s.plane.kernel.host, s.plane.kernel.config;
            var x := if Accepts(e, f) && cfg.count != 0 && ForVip(e, cfg, f)
                     then Chosen(f, cfg, draw % cfg.count) else Free;
            Next(s, ReadConfig(c, f, draw)) == s.(cpus := s.cpus[c := x])
  {
  }

  /** `after` is `before` rewritten for a table entry, with the source MAC of the config. */
  ghost predicate RewrittenFor(e: Endian, cfg: LbConfig, info: BackendInfo, before: Frame, after: Frame) {
    && 34 <= |before|
    && SameOutside(before, after, MAC_BYTES + CHECKSUM_BYTES + DST_BYTES)
    && after[..6] == info.mac && after[6..12] == cfg.srcMac
    && Pack(e, Addr(after[30], after[31], after[32], after[33])) == info.ipv4
    && ChecksumOk(after)
  }

  /** `after` is `before` rewritten to come from the VIP of the config. */
  ghost predicate RewrittenFrom(e: Endian, cfg: LbConfig, before: Frame, after: Frame) {
    && 34 <= |before|
    && SameOutside(before, after, CHECKSUM_BYTES + SRC_BYTES)
    && Pack(e, Addr(after[26], after[27], after[28], after[29])) == cfg.vip
    && ChecksumOk(after)
  }

  /** The backend lookup: the frame is rewritten exactly when the entry is not blank at that moment. */
  lemma BackendLookup(s: Sys, c: nat)
    requires Wf(s) && c < |s.cpus| && s.cpus[c].Chosen? && s.cpus[c].idx < MAX_BACKENDS
    ensures var k, f, cfg, i := s.plane.kernel, s.cpus[c].frame, s.cpus[c].cfg, s.cpus[c].idx;
            var t := Next(s, ReadBackend(c));
            if k.slots[i].ipv4 == 0 then t == s.(cpus := s.cpus[c := Free])
            else exists after ::
                   && t == s.(cpus := s.cpus[c := Rewritten(i, |f|)], hits := s.hits + [Hit(c, i, f, after)])
                   && RewrittenFor(k.host, cfg, k.slots[i], f, after)
  {
    var k, f, cfg, i := s.plane.kernel, s.cpus[c].frame, s.cpus[c].cfg, s.cpus[c].idx;
    assert CpuOk(k.host, s.cpus[c]);
    DnatCorrect(k.host, cfg, k.slots[i], f);
    if k.slots[i].ipv4 != 0 {
      assert RewrittenFor(k.host, cfg, k.slots[i], f, Dnat(k.host, cfg, k.slots[i], f).value);
    }
  }

  /** The reverse lookup of a free CPU takes exactly the ICMP frames whose source is registered at that moment. */
  lemma ReverseLookup(s: Sys, c: nat, f: Frame)
    requires Wf(s) && c < |s.cpus| && s.cpus[c].Free?
    ensures var k := s.plane.kernel;
            var x := if Accepts(k.host, f) && Pack(k.host, Addr(f[26], f[27], f[28], f[29])) in k.ips
                     then Matched(f) else Free;
            Next(s, ReadReverse(c, f)) == s.(cpus := s.cpus[c := x])
  {
  }

  /** The last lookup of a reply: the frame is rewritten exactly when the VIP is not zero at that moment. */
  lemma VipLookup(s: Sys, c: nat)
    requires Wf(s) && c < |s.cpus| && s.cpus[c].Matched?
    ensures var k, f, t := s.plane.kernel, s.cpus[c].frame, Next(s, ReadVip(c));
            if k.config.vip == 0 then t == s.(cpus := s.cpus[c := Free])
            else exists after ::
                   && t == s.(cpus := s.cpus[c := Free], replies := s.replies + [Reply(f, after)])
                   && RewrittenFrom(k.host, k.config, f, after)
  {
    var k, f := s.plane.kernel, s.cpus[c].frame;
    assert CpuOk(k.host, s.cpus[c]);
    SnatCorrect(k.host, k.config, f);
    if k.config.vip != 0 {
      assert RewrittenFrom(k.host, k.config, f, Snat(k.host, k.config, f).value);
    }
  }

  // --------------------------------------------------------- over whole runs

  /** At `s` the config lookup of `a` gives a CPU what it holds as `x`. */
  ghost predicate DrewAt(s: Sys, a: Action, c: nat, x: Cpu)
    requires x.Chosen?
  {
    var k := s.plane.kernel;
    && a.ReadConfig? && a.cpu == c && a.frame == x.frame
    && Accepts(k.host, x.frame) && ForVip(k.host, k.config, x.frame)
    && x.cfg == k.config && k.config.count != 0 && x.idx == a.draw % k.config.count
  }

  /** At `s` the reverse lookup of `a` takes the frame `f`. */
  ghost predicate TookAt(s: Sys, a: Action, c: nat, f: Frame) {
    var k := s.plane.kernel;
    && a == ReadReverse(c, f)
    && Accepts(k.host, f) && Pack(k.host, Addr(f[26], f[27], f[28], f[29])) in k.ips
  }

  /** A CPU that holds a drawn index got it at one earlier config lookup. */
  lemma {:induction false} ChosenAt(s: Sys, acts: seq<Action>, c: nat) returns (j: nat)
    requires Wf(s) && c < |s.cpus| && s.cpus[c].Free?
    requires Run(s, acts).cpus[c].Chosen?
    ensures j < |acts| && DrewAt(Before(s, acts, j), acts[j], c, Run(s, acts).cpus[c])
  {
    var k := |acts| - 1;
    var t := Run(s, acts[..k]);
    if t.cpus[c] == Run(s, acts).cpus[c] {
      j := ChosenAt(s, acts[..k], c);
      assert acts[..k][..j] == acts[..j];
    } else {
      j := k;
    }
  }

  /** A CPU that holds a matched frame took it at one earlier reverse lookup. */
  lemma {:induction false} MatchedAt(s: Sys, acts: seq<Action>, c: nat) returns (j: nat)
    requires Wf(s) && c < |s.cpus| && s.cpus[c].Free?
    requires Run(s, acts).cpus[c].Matched?
    ensures j < |acts| && TookAt(Before(s, acts, j), acts[j], c, Run(s, acts).cpus[c].frame)
  {
    var k := |acts| - 1;
    var t := Run(s, acts[..k]);
    if t.cpus[c] == Run(s, acts).cpus[c] {
      j := MatchedAt(s, acts[..k], c);
      assert acts[..k][..j] == acts[..j];
    } else {
      j := k;
    }
  }

  /** The drawn index of CPU `c` at step `k` of the run stems from an earlier config lookup. */
  ghost predicate Drew(s0: Sys, acts: seq<Action>, k: nat, c: nat, x: Cpu)
    requires Wf(s0) && k <= |acts| && x.Chosen?
  {
    exists j | 0 <= j < k :: DrewAt(Before(s0, acts, j), acts[j], c, x)
  }

  ghost predicate Took(s0: Sys, acts: seq<Action>, k: nat, c: nat, f: Frame)
    requires Wf(s0) && k <= |acts|
  {
    exists j | 0 <= j < k :: TookAt(Before(s0, acts, j), acts[j], c, f)
  }

  lemma RequestOrigin(s0: Sys, acts: seq<Action>, k: nat, c: nat)
    requires Wf(s0) && k <= |acts| && c < |s0.cpus| && s0.cpus[c].Free? && Before(s0, acts, k).cpus[c].Chosen?
    ensures Drew(s0, acts, k, c, Before(s0, acts, k).cpus[c])
  {
    var j := ChosenAt(s0, acts[..k], c);
    BeforePrefix(s0, acts, k, j);
  }

  lemma ReplyOrigin(s0: Sys, acts: seq<Action>, k: nat, c: nat)
    requires Wf(s0) && k <= |acts| && c < |s0.cpus| && s0.cpus[c].Free? && Before(s0, acts, k).cpus[c].Matched?
    ensures Took(s0, acts, k, c, Before(s0, acts, k).cpus[c].frame)
  {
    var j := MatchedAt(s0, acts[..k], c);
    BeforePrefix(s0, acts, k, j);
  }

  /** The frame of CPU `c` is rewritten from `s` to `t` exactly when the entry it drew is not blank, for that entry. */
  ghost predicate Delivered(s: Sys, t: Sys, c: nat)
    requires c < |s.cpus| && s.cpus[c].Chosen?
  {
    var x := s.cpus[c];
    && x.idx < 64
    && var slot := s.plane.kernel.slots[x.idx];
    if slot.ipv4 == 0 then t.hits == s.hits
    else exists after :: t.hits == s.hits + [Hit(c, x.idx, x.frame, after)]
                         && RewrittenFor(s.plane.kernel.host, x.cfg, slot, x.frame, after)
  }

  /** The frame of CPU `c` is rewritten from `s` to `t` exactly when the VIP is not zero, to come from it. */
  ghost predicate Returned(s: Sys, t: Sys, c: nat)
    requires c < |s.cpus| && s.cpus[c].Matched?
  {
    var f, cfg := s.cpus[c].frame, s.plane.kernel.config;
    if cfg.vip == 0 then t.replies == s.replies
    else exists after :: t.replies == s.replies + [Reply(f, after)]
                         && RewrittenFrom(s.plane.kernel.host, cfg, f, after)
  }

  /**
   In every run with any failures: a CPU about to look up a backend drew its index
   at an earlier config lookup, from the config of that moment. The frame is rewritten
   if and only if the entry at that index is not blank at this moment, and then for
   exactly that entry; nothing else becomes of it.
   */
  lemma RequestFate(e: Endian, settings: Settings, n: nat, acts: seq<Action>, k: nat)
    requires k < |acts| && acts[k].ReadBackend? && acts[k].cpu < n
    requires Before(Init(e, settings, n), acts, k).cpus[acts[k].cpu].Chosen?
    ensures var s0, c := Init(e, settings, n), acts[k].cpu;
            && Drew(s0, acts, k, c, Before(s0, acts, k).cpus[c])
            && Delivered(Before(s0, acts, k), Before(s0, acts, k + 1), c)
  {
    var s0, c := Init(e, settings, n), acts[k].cpu;
    RequestOrigin(s0, acts, k, c);
    EveryRunSound(e, settings, n, acts[..k]);
    assert CpuSound(e, settings, Before(s0, acts, k).cpus[c]);
    BeforeNext(s0, acts, k);
    BackendLookup(Before(s0, acts, k), c);
  }

  /**
   In every run with any failures: a CPU about to look up the VIP took its frame at
   an earlier reverse lookup that found the source registered. The frame is rewritten
   if and only if the VIP is not zero at this moment.
   */
  lemma ReplyFate(e: Endian, settings: Settings, n: nat, acts: seq<Action>, k: nat)
    requires k < |acts| && acts[k].ReadVip? && acts[k].cpu < n
    requires Before(Init(e, settings, n), acts, k).cpus[acts[k].cpu].Matched?
    ensures var s0, c := Init(e, settings, n), acts[k].cpu;
            && Took(s0, acts, k, c, Before(s0, acts, k).cpus[c].frame)
            && Returned(Before(s0, acts, k), Before(s0, acts, k + 1), c)
  {
    var s0, c := Init(e, settings, n), acts[k].cpu;
    ReplyOrigin(s0, acts, k, c);
    BeforeNext(s0, acts, k);
    VipLookup(Before(s0, acts, k), c);
  }
}
