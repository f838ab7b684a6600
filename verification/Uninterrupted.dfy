/**
 The split programs of `System`, run without interference, are the whole programs
 that `Xdp` proves the in-place code to be.
 */
module Uninterrupted {
  import opened Types
  import opened KernelMaps
  import opened Packet
  import opened Xdp
  import opened Reconciler
  import opened System

  /** `s` after xdp_lb_ingress ran on CPU `c` with nothing in between. */
  function WholeIngress(s: Sys, c: nat, f: Frame, draw: u32): Sys
    requires Wf(s)
  {
    Next(Next(Next(s, ReadConfig(c, f, draw)), ReadBackend(c)), Count(c))
  }

  /** The last step: the counter of the rewritten frame, and a free CPU. */
  lemma CountStep(s: Sys, c: nat)
    requires Wf(s) && c < |s.cpus| && s.cpus[c].Rewritten? && s.cpus[c].idx < MAX_BACKENDS
    ensures var i, len := s.cpus[c].idx, s.cpus[c].len;
            var was := s.counters[c][i];
            var now := Stats((was.packets + 1) % 0x1_0000_0000_0000_0000, (was.bytes + len) % 0x1_0000_0000_0000_0000);
            Next(s, Count(c))
            == s.(cpus := s.cpus[c := Free], counters := s.counters[c := s.counters[c][i := now]])
  {
  }

  /** The first two steps: the frame is rewritten for its target, or the CPU is free again. */
  lemma LookupSteps(s: Sys, c: nat, f: Frame, draw: u32)
    requires Wf(s) && c < |s.cpus| && s.cpus[c].Free?
    ensures var k, t := s.plane.kernel, Next(Next(s, ReadConfig(c, f, draw)), ReadBackend(c));
            match Target(k, draw, f)
            case Some(i) => t == s.(cpus := s.cpus[c := Rewritten(i, |f|)],
                                    hits := s.hits + [Hit(c, i, f, Ingress(k, draw, f))])
            case None => t == s
  {
    var t := Next(Next(s, ReadConfig(c, f, draw)), ReadBackend(c));
    assert Target(s.plane.kernel, draw, f) == None ==> t.cpus == s.cpus;
    assert Target(s.plane.kernel, draw, f) != None ==> t.cpus == s.cpus[c := t.cpus[c]];
  }

  lemma IngressIsWhole(s: Sys, c: nat, f: Frame, draw: u32)
    requires Wf(s) && c < |s.cpus| && s.cpus[c].Free?
    ensures var k, t := s.plane.kernel, WholeIngress(s, c, f, draw);
            match Target(k, draw, f)
            case Some(i) =>
              && t.hits == s.hits + [Hit(c, i, f, Ingress(k, draw, f))]
              && var was := s.counters[c][i];
              var packets := (was.packets + 1) % 0x1_0000_0000_0000_0000;
              var bytes := (was.bytes + |f|) % 0x1_0000_0000_0000_0000;
              t == s.(hits := t.hits, counters := s.counters[c := s.counters[c][i := Stats(packets, bytes)]])
            case None => t == s
  {
    LookupSteps(s, c, f, draw);
    var t := Next(Next(s, ReadConfig(c, f, draw)), ReadBackend(c));
    if Target(s.plane.kernel, draw, f).Some? {
      CountStep(t, c);
      assert t.cpus[c := Free] == s.cpus;
    }
  }

  lemma EgressIsWhole(s: Sys, c: nat, f: Frame)
    requires Wf(s) && c < |s.cpus| && s.cpus[c].Free?
    ensures var k, t := s.plane.kernel, Next(Next(s, ReadReverse(c, f)), ReadVip(c));
            if FromBackend(k.host, k.ips, f) && k.config.vip != 0
            then t == s.(replies := s.replies + [Reply(f, Egress(k, f))])
            else t == s && Egress(k, f) == f
  {
  }
}
