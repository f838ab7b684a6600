/**
 The Internet checksum of section 1 of RFC 1071, as `update_ip_csum` computes it
 (kernelspace/xdp_lb.c), against the end-around-carry definition.
 */
module Checksum {
  import opened Types

  const M: nat := 65535

  // ---------------------------------------------------------- definition

  /** Ones' complement addition: the carry out of bit 15 is added back in. */
  function OnesAdd(x: u16, y: u16): u16 {
    if x + y >= 0x1_0000 then x + y - M else x + y
  }

  /** The ones' complement sum of a sequence of words, one addition at a time. */
  function OnesSum(ws: seq<u16>): u16 {
    if ws == [] then 0 else OnesAdd(OnesSum(ws[..|ws| - 1]), ws[|ws| - 1])
  }

  function Not16(x: u16): u16 { M - x }

  /** Words with a checksum among them verify when their ones' complement sum is all ones. */
  predicate Verifies(ws: seq<u16>) { OnesSum(ws) == 0xFFFF }

  /** The 16-bit words of a byte sequence of even length, loaded in byte order `e`. */
  function Words(e: Endian, bs: seq<byte>): (ws: seq<u16>)
    requires |bs| % 2 == 0
    ensures |ws| == |bs| / 2
  {
    seq(|bs| / 2, i requires 0 <= i < |bs| / 2 => Load16(e, bs[2 * i], bs[2 * i + 1]))
  }

  lemma WordsConcat(e: Endian, xs: seq<byte>, ys: seq<byte>)
    requires |xs| % 2 == 0 && |ys| % 2 == 0
    ensures Words(e, xs + ys) == Words(e, xs) + Words(e, ys)
  {
    var zs := xs + ys;
    forall i | 0 <= i < |zs| / 2 ensures Words(e, zs)[i] == (Words(e, xs) + Words(e, ys))[i] {
      if i >= |xs| / 2 {
        assert zs[2 * i] == ys[2 * (i - |xs| / 2)] && zs[2 * i + 1] == ys[2 * (i - |xs| / 2) + 1];
      }
    }
  }

  // ------------------------------------------------------- sums and folds

  function Sum(ws: seq<u16>): nat {
    if ws == [] then 0 else Sum(ws[..|ws| - 1]) + ws[|ws| - 1]
  }

  /** The non-zero representative of a residue modulo 65535; 0 only for 0. */
  function Canon(n: nat): (r: u16)
    ensures r == 0 <==> n == 0
    ensures r % M == n % M
  {
    if n == 0 then 0 else (n - 1) % M + 1
  }

  /** Two non-zero words of one residue are the same word. */
  lemma CanonUnique(n: nat, r: u16)
    requires n % M == r % M
    requires n == 0 <==> r == 0
    ensures r == Canon(n)
  {
  }

  lemma SumBounds(ws: seq<u16>)
    ensures Sum(ws) <= M * |ws|
    ensures Sum(ws) == 0 <==> forall i | 0 <= i < |ws| :: ws[i] == 0
  {
  }

  /** Carrying as you go is summing first and reducing afterwards. */
  lemma {:induction false} OnesSumIsCanon(ws: seq<u16>)
    ensures OnesSum(ws) == Canon(Sum(ws))
  {
    if ws != [] {
      var n := |ws| - 1;
      OnesSumIsCanon(ws[..n]);
      CanonUnique(Sum(ws), OnesSum(ws));
    }
  }

  lemma {:induction false} SumConcat(xs: seq<u16>, ys: seq<u16>)
    ensures Sum(xs + ys) == Sum(xs) + Sum(ys)
  {
    if ys == [] {
      assert xs + ys == xs;
    } else {
      var n := |ys| - 1;
      SumConcat(xs, ys[..n]);
      assert (xs + ys)[..|xs + ys| - 1] == xs + ys[..n];
    }
  }

  lemma {:induction false} SumUpdate(ws: seq<u16>, i: nat, v: u16)
    requires i < |ws|
    ensures Sum(ws[i := v]) == Sum(ws) - ws[i] + v
  {
    var n := |ws| - 1;
    if i == n {
      assert ws[i := v][..n] == ws[..n];
    } else {
      assert ws[i := v][..n] == ws[..n][i := v];
      SumUpdate(ws[..n], i, v);
    }
  }

  /** Numbers a multiple of 65535 apart have one residue. */
  lemma Congruent(n: int, r: int, k: int)
    requires n == r + M * k
    ensures n % M == r % M
  {
  }

  /** How many times 65535 was cast out. */
  lemma CastOut(n: nat) returns (k: nat)
    ensures n == Canon(n) + M * k
  {
    k := if n == 0 then 0 else (n - 1) / M;
  }

  // ------------------------------------------------- the folds of the code

  /** `(c >> 16) + (c & 0xffff)` */
  function Fold(c: u32): u32 { c / 0x1_0000 + c % 0x1_0000 }

  /** Two folds reduce any 32-bit sum, without overflow, to its ones' complement sum. */
  lemma TwoFoldsSuffice(c: u32)
    ensures Fold(c) + Fold(c) / 0x1_0000 < 0x2_0000
    ensures (Fold(c) + Fold(c) / 0x1_0000) % 0x1_0000 == Canon(c)
  {
    var f := Fold(c);
    Congruent(c, f, c / 0x1_0000);
    var g := (f + f / 0x1_0000) % 0x1_0000;
    assert g == f - M * (f / 0x1_0000);
    Congruent(f, g, f / 0x1_0000);
    CanonUnique(c, g);
  }

  // ---------------------------------------- byte order (section 2(B) of RFC 1071)

  function Swap(w: u16): u16 { 256 * (w % 256) + w / 256 }

  lemma {:induction false} SumSwapped(bs: seq<byte>) returns (k: nat)
    requires |bs| % 2 == 0
    ensures 256 * Sum(Words(Big, bs)) == Sum(Words(Little, bs)) + M * k
    ensures Sum(Words(Big, bs)) == 0 <==> Sum(Words(Little, bs)) == 0
  {
    if bs == [] {
      k := 0;
    } else {
      var n := |bs| - 2;
      var k' := SumSwapped(bs[..n]);
      assert Words(Big, bs)[..n / 2] == Words(Big, bs[..n]);
      assert Words(Little, bs)[..n / 2] == Words(Little, bs[..n]);
      k := k' + bs[n];
    }
  }

  /** The sum taken with the bytes of every word swapped is the swapped sum. */
  lemma ByteOrderIndependent(bs: seq<byte>)
    requires |bs| % 2 == 0
    ensures OnesSum(Words(Little, bs)) == Swap(OnesSum(Words(Big, bs)))
  {
    var big, little := Sum(Words(Big, bs)), Sum(Words(Little, bs));
    OnesSumIsCanon(Words(Big, bs));
    OnesSumIsCanon(Words(Little, bs));
    var k := SumSwapped(bs);
    var c: int := Canon(big);
    var q := CastOut(big);
    assert 256 * c == Swap(c) + M * (c / 256);
    Congruent(little, Swap(c), c / 256 + 256 * q - k);
    CanonUnique(little, Swap(c));
  }

  // ------------------------------------------------------------ IPv4 header

  /** A 20-byte header with its checksum field zeroed. */
  function Blanked(h: seq<byte>): (r: seq<byte>)
    requires |h| == 20
    ensures |r| == 20
  {
    h[10 := 0][11 := 0]
  }

  /** The checksum of section 1 of RFC 1071 over the header's network-order words. */
  function HeaderChecksum(h: seq<byte>): u16
    requires |h| == 20
  {
    Not16(OnesSum(Words(Big, Blanked(h))))
  }

  /** The header carrying its checksum, high byte first. */
  function WithChecksum(h: seq<byte>): (r: seq<byte>)
    requires |h| == 20
    ensures |r| == 20
  {
    h[10 := HeaderChecksum(h) / 256][11 := HeaderChecksum(h) % 256]
  }

  lemma WithChecksumWords(h: seq<byte>)
    requires |h| == 20
    ensures Words(Big, WithChecksum(h)) == Words(Big, Blanked(h))[5 := HeaderChecksum(h)]
  {
  }

  lemma WithChecksumSum(h: seq<byte>)
    requires |h| == 20
    ensures Sum(Words(Big, WithChecksum(h))) > 0
    ensures Sum(Words(Big, WithChecksum(h))) % M == 0
  {
    var ws := Words(Big, Blanked(h));
    WithChecksumWords(h);
    SumUpdate(ws, 5, HeaderChecksum(h));
    OnesSumIsCanon(ws);
    assert ws[5] == 0;
    var k := CastOut(Sum(ws));
    Congruent(Sum(Words(Big, WithChecksum(h))), 0, k + 1);
  }

  /**
   The full header of `20 + |opts|` bytes verifies exactly when the option words
   sum to zero modulo 65535: the code sums the 20 fixed bytes only.
   */
  lemma OptionsCharacterisation(h: seq<byte>, opts: seq<byte>)
    requires |h| == 20 && |opts| % 2 == 0
    ensures Verifies(Words(Big, WithChecksum(h) + opts)) <==> Sum(Words(Big, opts)) % M == 0
  {
    var fixed, more := Words(Big, WithChecksum(h)), Words(Big, opts);
    WordsConcat(Big, WithChecksum(h), opts);
    SumConcat(fixed, more);
    WithChecksumSum(h);
    OnesSumIsCanon(fixed + more);
    Congruent(Sum(fixed) + Sum(more), Sum(more), Sum(fixed) / M);
  }

  /** Whatever checksum it arrived with, a recomputed header verifies in either byte order. */
  lemma ChecksumVerifies(e: Endian, h: seq<byte>)
    requires |h| == 20
    ensures Verifies(Words(e, WithChecksum(h)))
  {
    OptionsCharacterisation(h, []);
    assert WithChecksum(h) + [] == WithChecksum(h);
    ByteOrderIndependent(WithChecksum(h));
  }

  /** The stored value is 0xFFFF only for a header that is zero everywhere else. */
  lemma StoredAllOnes(h: seq<byte>)
    requires |h| == 20
    ensures HeaderChecksum(h) == 0xFFFF <==> forall i | 0 <= i < 20 && i != 10 && i != 11 :: h[i] == 0
  {
    var ws := Words(Big, Blanked(h));
    OnesSumIsCanon(ws);
    SumBounds(ws);
    if HeaderChecksum(h) == 0xFFFF {
      forall i | 0 <= i < 20 && i != 10 && i != 11 ensures h[i] == 0 {
        assert ws[i / 2] == 0;
      }
    }
  }

  // ------------------------------------------- incremental update (RFC 1624)

  /** Equation 3 in section 3 of RFC 1624: HC' = ~(~HC + ~m + m'). */
  function Increment(hc: u16, m: u16, m': u16): u16 {
    Not16(OnesAdd(OnesAdd(Not16(hc), Not16(m)), m'))
  }

  /**
   For a verifying ICMP header, recomputing after two words changed equals two
   applications of equation 3, except when the old checksum is 0xFFFF, both old
   words are 0xFFFF and both new ones are 0.
   */
  lemma RecomputeIsIncrement(ws: seq<u16>, i: nat, n0: u16, n1: u16)
    requires |ws| == 10 && 6 <= i < 9
    requires Verifies(ws) && ws[4] % 256 == 1
    ensures Not16(OnesSum(ws[i := n0][i + 1 := n1][5 := 0])) == Increment(Increment(ws[5], ws[i], n0), ws[i + 1], n1)
       <==> !(ws[5] == 0xFFFF && ws[i] == ws[i + 1] == 0xFFFF && n0 == n1 == 0)
  {
    var ws' := ws[i := n0][i + 1 := n1];
    var v := Not16(Increment(Increment(ws[5], ws[i], n0), ws[i + 1], n1));
    OnesSumIsCanon(ws);
    OnesSumIsCanon(ws'[5 := 0]);
    SumUpdate(ws, i, n0);
    SumUpdate(ws[i := n0], i + 1, n1);
    SumUpdate(ws', 5, 0);
    SumBounds(ws'[5 := 0]);
    assert ws'[5 := 0][4] != 0;
    var k := CastOut(Sum(ws));
    var c := IncrementExact(ws[5], ws[i], n0, ws[i + 1], n1);
    var t: int := k + c;
    Congruent(Sum(ws'[5 := 0]), v, t - 2);
    if v != 0 {
      CanonUnique(Sum(ws'[5 := 0]), v);
    }
  }

  /** Two applications of equation 3 as one integer sum less its carries. */
  lemma IncrementExact(hc: u16, m0: u16, n0: u16, m1: u16, n1: u16) returns (c: nat)
    ensures Not16(Increment(Increment(hc, m0, n0), m1, n1)) == 3 * M - hc - m0 + n0 - m1 + n1 - M * c
    ensures Not16(Increment(Increment(hc, m0, n0), m1, n1)) == 0
       <==> hc == m0 == m1 == 0xFFFF && n0 == n1 == 0
  {
    var x0 := OnesAdd(Not16(hc), Not16(m0));
    var x1 := OnesAdd(x0, n0);
    var x2 := OnesAdd(x1, Not16(m1));
    var x3 := OnesAdd(x2, n1);
    c := (if x0 == Not16(hc) + Not16(m0) then 0 else 1)
       + (if x1 == x0 + n0 then 0 else 1)
       + (if x2 == x1 + Not16(m1) then 0 else 1)
       + (if x3 == x2 + n1 then 0 else 1);
  }
}
