/**
 Every run of the system, whatever fails and however packets interleave: the index
 a packet draws is in the tables, and no rewritten frame is lost to the counters.
 */
module AnyRun {
  import opened Types
  import opened KernelMaps
  import opened Packet
  import opened Reconciler
  import opened Faults
  import opened System

  // -------------------------------------------------------------- in range

  /** A config a packet still holds was committed with some list that fits the tables. */
  ghost predicate CpuSound(e: Endian, settings: Settings, c: Cpu) {
    match c
    case Chosen(_, cfg, i) => i < cfg.count <= MAX_BACKENDS && cfg == ConfigOf(e, settings, cfg.count)
    case Rewritten(i, _) => i < MAX_BACKENDS
    case _ => true
  }

  ghost predicate Sound(s: Sys) {
    && Wf(s)
    && Consistent(s.plane)
    && (forall c | 0 <= c < |s.cpus| :: CpuSound(s.plane.kernel.host, s.plane.settings, s.cpus[c]))
    && (forall k | 0 <= k < |s.hits| :: s.hits[k].cpu < |s.cpus| && s.hits[k].idx < MAX_BACKENDS)
  }

  lemma SoundNext(s: Sys, a: Action)
    requires Sound(s)
    ensures Sound(Next(s, a))
  {
    match a
    case StartSync(list) => if s.plane.pc.Idle? { ConsistentBegin(s.plane, list); }
    case Control(choice) => ConsistentStep(s.plane, choice);
    case _ => assert Next(s, a).plane == s.plane;
  }

  /**
   In every reachable state the config's count is the length of the current list
   and at most 64, attached veths and bookkeeping agree, every slot below the count
   is blank or of a list current or since attempted, and every drawn index is one
   the tables have.
   */
  lemma {:induction false} EveryRunSound(e: Endian, settings: Settings, n: nat, acts: seq<Action>)
    ensures var s := Run(Init(e, settings, n), acts);
            && Sound(s)
            && s.plane.kernel.config.count == |s.plane.backends| <= MAX_BACKENDS
            && s.plane.byVeth == s.plane.links.Keys
            && Contained(s.plane)
  {
    if acts == [] {
      ConsistentInitial(e, settings);
    } else {
      var k := |acts| - 1;
      EveryRunSound(e, settings, n, acts[..k]);
      SoundNext(Run(Init(e, settings, n), acts[..k]), acts[k]);
    }
  }

  // ---------------------------------------------------------- conservation

  /** What `h` adds to CPU `c`'s counter of index `i`. */
  function Share(f: Field, h: Hit, c: nat, i: nat): nat {
    if h.cpu == c && h.idx == i then Amount(f, |h.before|) else 0
  }

  /** The number, or total length, of the frames CPU `c` rewrote with index `i`. */
  function Tally(f: Field, hits: seq<Hit>, c: nat, i: nat): nat {
    if hits == [] then 0 else Tally(f, hits[..|hits| - 1], c, i) + Share(f, hits[|hits| - 1], c, i)
  }

  /** A frame rewritten but not yet counted. */
  function Owed(f: Field, x: Cpu, i: nat): nat {
    if x.Rewritten? && x.idx == i then Amount(f, x.len) else 0
  }

  /** One CPU's counter of one index, with what it still owes, is what it rewrote, modulo 2^64. */
  ghost predicate Balanced(f: Field, s: Sys, c: nat, i: nat)
    requires Wf(s) && c < |s.cpus| && i < MAX_BACKENDS
  {
    (Value(f, s.counters[c][i]) + Owed(f, s.cpus[c], i)) % 0x1_0000_0000_0000_0000
    == Tally(f, s.hits, c, i) % 0x1_0000_0000_0000_0000
  }

  ghost predicate Conserved(s: Sys) {
    && Wf(s)
    && forall f, c, i | 0 <= c < |s.cpus| && 0 <= i < MAX_BACKENDS :: Balanced(f, s, c, i)
  }

  lemma TallySnoc(f: Field, hits: seq<Hit>, h: Hit, c: nat, i: nat)
    ensures Tally(f, hits + [h], c, i) == Tally(f, hits, c, i) + Share(f, h, c, i)
  {
  }

  lemma BalancedHit(f: Field, s: Sys, t: Sys, h: Hit, c: nat, i: nat)
    requires Wf(s) && h.cpu < |s.cpus| && s.cpus[h.cpu].Chosen?
    requires Wf(t) && t.counters == s.counters && t.hits == s.hits + [h]
    requires t.cpus == s.cpus[h.cpu := Rewritten(h.idx, |h.before|)]
    requires c < |s.cpus| && i < MAX_BACKENDS && Balanced(f, s, c, i)
    ensures Balanced(f, t, c, i)
  {
    TallySnoc(f, s.hits, h, c, i);
    var share := Share(f, h, c, i);
    WrapSum(Value(f, s.counters[c][i]) + Owed(f, s.cpus[c], i), Tally(f, s.hits, c, i), share, share);
  }

  lemma BalancedReadBackend(f: Field, s: Sys, d: nat, c: nat, i: nat)
    requires Wf(s) && d < |s.cpus| && s.cpus[d].Chosen?
    requires c < |s.cpus| && i < MAX_BACKENDS && Balanced(f, s, c, i)
    ensures Balanced(f, Next(s, ReadBackend(d)), c, i)
  {
    var t := Next(s, ReadBackend(d));
    if t.cpus[d].Rewritten? {
      BalancedHit(f, s, t, t.hits[|s.hits|], c, i);
    }
  }

  lemma BalancedCount(f: Field, s: Sys, d: nat, c: nat, i: nat)
    requires Wf(s) && d < |s.cpus| && s.cpus[d].Rewritten? && s.cpus[d].idx < MAX_BACKENDS
    requires c < |s.cpus| && i < MAX_BACKENDS && Balanced(f, s, c, i)
    ensures Balanced(f, Next(s, Count(d)), c, i)
  {
  }

  lemma ConservedNext(s: Sys, a: Action)
    requires Conserved(s) && Sound(s)
    ensures Conserved(Next(s, a))
  {
    var t := Next(s, a);
    forall f, c, i | 0 <= c < |s.cpus| && 0 <= i < MAX_BACKENDS ensures Balanced(f, t, c, i) {
      assert Balanced(f, s, c, i);
      if a.ReadBackend? && a.cpu < |s.cpus| && s.cpus[a.cpu].Chosen? {
        BalancedReadBackend(f, s, a.cpu, c, i);
      } else if a.Count? && a.cpu < |s.cpus| && s.cpus[a.cpu].Rewritten? {
        assert CpuSound(s.plane.kernel.host, s.plane.settings, s.cpus[a.cpu]);
        BalancedCount(f, s, a.cpu, c, i);
      }
    }
  }

  /** Counting loses nothing: at every moment of every run each counter plus what is owed equals what was rewritten. */
  lemma {:induction false} EveryRunConserves(e: Endian, settings: Settings, n: nat, acts: seq<Action>)
    ensures Conserved(Run(Init(e, settings, n), acts))
  {
    if acts != [] {
      var k := |acts| - 1;
      EveryRunConserves(e, settings, n, acts[..k]);
      EveryRunSound(e, settings, n, acts[..k]);
      ConservedNext(Run(Init(e, settings, n), acts[..k]), acts[k]);
    }
  }

  // ------------------------------------------------------------------ totals

  /** The number, or total length, of the frames rewritten with index `i`, on any CPU. */
  function Total(f: Field, hits: seq<Hit>, i: nat): nat {
    if hits == [] then 0 else
    var h := hits[|hits| - 1];
    Total(f, hits[..|hits| - 1], i) + if h.idx == i then Amount(f, |h.before|) else 0
  }

  /** The per-CPU values `ReadStats` finds at index `i`. */
  function Column(s: Sys, i: nat): (row: seq<Stats>)
    requires Wf(s) && i < MAX_BACKENDS
    ensures |row| == |s.cpus|
  {
    seq(|s.cpus|, c requires 0 <= c < |s.cpus| => s.counters[c][i])
  }

  /** The tallies of the first `n` CPUs. */
  function TallyUpTo(f: Field, hits: seq<Hit>, n: nat, i: nat): nat {
    if n == 0 then 0 else TallyUpTo(f, hits, n - 1, i) + Tally(f, hits, n - 1, i)
  }

  lemma {:induction false} UpToSnoc(f: Field, hits: seq<Hit>, h: Hit, n: nat, i: nat)
    ensures TallyUpTo(f, hits + [h], n, i) == TallyUpTo(f, hits, n, i) + if h.cpu < n then Share(f, h, h.cpu, i) else 0
  {
    if n > 0 {
      UpToSnoc(f, hits, h, n - 1, i);
      TallySnoc(f, hits, h, n - 1, i);
    }
  }

  lemma NoHits(f: Field, n: nat, i: nat)
    ensures TallyUpTo(f, [], n, i) == 0
  {
  }

  /** Splitting by CPU loses no frame. */
  lemma {:induction false} AllCpus(f: Field, hits: seq<Hit>, n: nat, i: nat)
    requires forall k | 0 <= k < |hits| :: hits[k].cpu < n
    ensures TallyUpTo(f, hits, n, i) == Total(f, hits, i)
  {
    if hits == [] {
      NoHits(f, n, i);
    } else {
      var k := |hits| - 1;
      AllCpus(f, hits[..k], n, i);
      UpToSnoc(f, hits[..k], hits[k], n, i);
      assert hits[..k] + [hits[k]] == hits;
    }
  }

  lemma {:induction false} SumsMatch(f: Field, s: Sys, i: nat, n: nat)
    requires Conserved(s) && i < MAX_BACKENDS && n <= |s.cpus|
    requires forall c | 0 <= c < n :: !s.cpus[c].Rewritten?
    ensures Wrap64(SumOf(f, Column(s, i)[..n])) == Wrap64(TallyUpTo(f, s.hits, n, i))
  {
    if n > 0 {
      SumsMatch(f, s, i, n - 1);
      assert Column(s, i)[..n][..n - 1] == Column(s, i)[..n - 1];
      assert Balanced(f, s, n - 1, i);
      WrapSum(SumOf(f, Column(s, i)[..n - 1]), TallyUpTo(f, s.hits, n - 1, i),
              Value(f, s.counters[n - 1][i]), Tally(f, s.hits, n - 1, i));
    }
  }

  /** A 64-bit reading of `x` is `total` modulo 2^64, and `total` itself while it fits. */
  ghost predicate CountsTo(x: nat, total: nat) {
    && x % 0x1_0000_0000_0000_0000 == total % 0x1_0000_0000_0000_0000
    && (total < 0x1_0000_0000_0000_0000 ==> x % 0x1_0000_0000_0000_0000 == total)
  }

  lemma Fits(x: nat, total: nat)
    requires Wrap64(x) == Wrap64(total)
    ensures CountsTo(x, total)
  {
  }

  /**
   When no CPU is between a rewrite and its count, the sums `ReadStats` returns for
   an index are, modulo 2^64, the number and the total length of the frames
   rewritten with that index since load, over any run: exactly those while they fit.
   */
  lemma StatsExact(e: Endian, settings: Settings, n: nat, acts: seq<Action>, f: Field, i: nat)
    requires i < MAX_BACKENDS
    requires forall c | 0 <= c < n :: !Run(Init(e, settings, n), acts).cpus[c].Rewritten?
    ensures var s := Run(Init(e, settings, n), acts);
            CountsTo(SumOf(f, Column(s, i)), Total(f, s.hits, i))
  {
    EveryRunConserves(e, settings, n, acts);
    EveryRunSound(e, settings, n, acts);
    StatsAt(Run(Init(e, settings, n), acts), f, i);
  }

  /** The state in which a count is pending on no CPU. */
  ghost predicate Settled(s: Sys) {
    && Conserved(s)
    && (forall k | 0 <= k < |s.hits| :: s.hits[k].cpu < |s.cpus| && s.hits[k].idx < MAX_BACKENDS)
    && (forall c | 0 <= c < |s.cpus| :: !s.cpus[c].Rewritten?)
  }

  lemma StatsAt(s: Sys, f: Field, i: nat)
    requires Settled(s) && i < MAX_BACKENDS
    ensures CountsTo(SumOf(f, Column(s, i)), Total(f, s.hits, i))
  {
    SumsMatch(f, s, i, |s.cpus|);
    AllCpus(f, s.hits, |s.cpus|, i);
    assert Column(s, i)[..|s.cpus|] == Column(s, i);
    Fits(SumOf(f, Column(s, i)), Total(f, s.hits, i));
  }

  /** The totals of the indices below `n`. */
  function TotalBelow(f: Field, hits: seq<Hit>, n: nat): nat {
    if n == 0 then 0 else TotalBelow(f, hits, n - 1) + Total(f, hits, n - 1)
  }

  function GrandTotal(f: Field, hits: seq<Hit>): nat {
    if hits == [] then 0 else GrandTotal(f, hits[..|hits| - 1]) + Amount(f, |hits[|hits| - 1].before|)
  }

  lemma {:induction false} BelowSnoc(f: Field, hits: seq<Hit>, h: Hit, n: nat)
    ensures TotalBelow(f, hits + [h], n) == TotalBelow(f, hits, n) + if h.idx < n then Amount(f, |h.before|) else 0
  {
    if n > 0 {
      BelowSnoc(f, hits, h, n - 1);
      assert (hits + [h])[..|hits|] == hits;
    }
  }

  lemma NoneBelow(f: Field, n: nat)
    ensures TotalBelow(f, [], n) == 0
  {
  }

  lemma {:induction false} EveryHitIndexed(f: Field, hits: seq<Hit>)
    requires forall k | 0 <= k < |hits| :: hits[k].idx < MAX_BACKENDS
    ensures TotalBelow(f, hits, MAX_BACKENDS) == GrandTotal(f, hits)
  {
    if hits == [] {
      NoneBelow(f, MAX_BACKENDS);
    } else {
      var k := |hits| - 1;
      EveryHitIndexed(f, hits[..k]);
      BelowSnoc(f, hits[..k], hits[k], MAX_BACKENDS);
      assert hits[..k] + [hits[k]] == hits;
    }
  }

  /** The per-CPU values of every index of the table. */
  function Columns(s: Sys): (rows: seq<seq<Stats>>)
    requires Wf(s)
    ensures |rows| == MAX_BACKENDS
  {
    seq(MAX_BACKENDS, i requires 0 <= i < MAX_BACKENDS => Column(s, i))
  }

  /** The sum of what `ReadStats` returns for each index below `n`. */
  function ReadBelow(f: Field, rows: seq<seq<Stats>>, n: nat): nat
    requires n <= |rows|
  {
    if n == 0 then 0 else ReadBelow(f, rows, n - 1) + SumOf(f, rows[n - 1]) % 0x1_0000_0000_0000_0000
  }

  lemma WrapSumRead(x: nat, x': nat, y: nat, y': nat)
    requires Wrap64(x) == Wrap64(x') && Wrap64(y) == Wrap64(y')
    ensures Wrap64(x + Wrap64(y)) == Wrap64(x' + y')
  {
    WrapSum(x, x', Wrap64(y), y');
  }

  lemma {:induction false} ReadsMatch(f: Field, rows: seq<seq<Stats>>, hits: seq<Hit>, n: nat)
    requires n <= |rows|
    requires forall i | 0 <= i < n :: Wrap64(SumOf(f, rows[i])) == Wrap64(Total(f, hits, i))
    ensures Wrap64(ReadBelow(f, rows, n)) == Wrap64(TotalBelow(f, hits, n))
  {
    if n > 0 {
      ReadsMatch(f, rows, hits, n - 1);
      var x, y := ReadBelow(f, rows, n - 1), SumOf(f, rows[n - 1]);
      WrapSumRead(x, TotalBelow(f, hits, n - 1), y, Total(f, hits, n - 1));
      assert ReadBelow(f, rows, n) == x + Wrap64(y);
    }
  }

  /**
   When no CPU is between a rewrite and its count, what `ReadStats` returns over all
   indices of the table sums, modulo 2^64, to the number and the total length of all
   frames rewritten since load, over any run.
   */
  lemma CountersAccountForAll(e: Endian, settings: Settings, n: nat, acts: seq<Action>, f: Field)
    requires forall c | 0 <= c < n :: !Run(Init(e, settings, n), acts).cpus[c].Rewritten?
    ensures var s := Run(Init(e, settings, n), acts);
            CountsTo(ReadBelow(f, Columns(s), 64), GrandTotal(f, s.hits))
  {
    EveryRunConserves(e, settings, n, acts);
    EveryRunSound(e, settings, n, acts);
    CountersAt(Run(Init(e, settings, n), acts), f);
  }

  lemma CountersAt(s: Sys, f: Field)
    requires Settled(s)
    ensures CountsTo(ReadBelow(f, Columns(s), 64), GrandTotal(f, s.hits))
  {
    forall i | 0 <= i < 64 ensures Wrap64(SumOf(f, Columns(s)[i])) == Wrap64(Total(f, s.hits, i)) {
      StatsAt(s, f, i);
    }
    ReadsAccount(f, Columns(s), s.hits);
    Fits(ReadBelow(f, Columns(s), 64), GrandTotal(f, s.hits));
  }

  lemma ReadsAccount(f: Field, rows: seq<seq<Stats>>, hits: seq<Hit>)
    requires |rows| == 64 && forall k | 0 <= k < |hits| :: hits[k].idx < MAX_BACKENDS
    requires forall i | 0 <= i < 64 :: Wrap64(SumOf(f, rows[i])) == Wrap64(Total(f, hits, i))
    ensures Wrap64(ReadBelow(f, rows, 64)) == Wrap64(GrandTotal(f, hits))
  {
    ReadsMatch(f, rows, hits, 64);
    EveryHitIndexed(f, hits);
  }

  // -------------------------------------------------- what the totals measure

  /** The rewritten frames with index `i`, by position. */
  function Positions(hits: seq<Hit>, i: nat): set<nat> {
    set k: nat | k < |hits| && hits[k].idx == i
  }

  /** The lengths of all frames, and of those with index `i`, added up. */
  function Lengths(hits: seq<Hit>): nat {
    if hits == [] then 0 else |hits[0].before| + Lengths(hits[1..])
  }

  function LengthsAt(hits: seq<Hit>, i: nat): nat {
    if hits == [] then 0
    else if hits[0].idx == i then |hits[0].before| + LengthsAt(hits[1..], i)
    else LengthsAt(hits[1..], i)
  }

  lemma {:induction false} LengthsSnoc(hits: seq<Hit>, h: Hit, i: nat)
    ensures Lengths(hits + [h]) == Lengths(hits) + |h.before|
    ensures LengthsAt(hits + [h], i) == LengthsAt(hits, i) + if h.idx == i then |h.before| else 0
  {
    if hits != [] {
      LengthsSnoc(hits[1..], h, i);
      assert (hits + [h])[1..] == hits[1..] + [h];
    }
  }

  lemma PositionsSnoc(hits: seq<Hit>, h: Hit, i: nat)
    ensures |Positions(hits + [h], i)| == |Positions(hits, i)| + if h.idx == i then 1 else 0
  {
    var n := |hits|;
    if h.idx == i {
      assert Positions(hits + [h], i) == Positions(hits, i) + {n};
    } else {
      assert Positions(hits + [h], i) == Positions(hits, i);
    }
  }

  /** The packet totals count the rewritten frames; the byte totals add up their lengths. */
  lemma {:induction false} TotalsMeasure(hits: seq<Hit>, i: nat)
    ensures Total(PacketCount, hits, i) == |Positions(hits, i)| && Total(ByteCount, hits, i) == LengthsAt(hits, i)
    ensures GrandTotal(PacketCount, hits) == |hits| && GrandTotal(ByteCount, hits) == Lengths(hits)
  {
    if hits != [] {
      var n := |hits| - 1;
      TotalsMeasure(hits[..n], i);
      PositionsSnoc(hits[..n], hits[n], i);
      LengthsSnoc(hits[..n], hits[n], i);
      assert hits[..n] + [hits[n]] == hits;
    }
  }
}
