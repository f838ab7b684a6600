/**
 The C operators `>>`, `&` and `~` bit by bit, and the arithmetic they amount to
 on the masks and shifts the data plane uses.
 */
module Bits {
  import opened Types

  function Pow2(n: nat): (p: nat)
    ensures p > 0
  {
    if n == 0 then 1 else 2 * Pow2(n - 1)
  }

  /** `x >> n` */
  function Shr(x: nat, n: nat): nat {
    if n == 0 then x else Shr(x / 2, n - 1)
  }

  /** `x & y` */
  function And(x: nat, y: nat): nat {
    if x == 0 || y == 0 then 0
    else 2 * And(x / 2, y / 2) + if x % 2 == 1 && y % 2 == 1 then 1 else 0
  }

  /** `~x` on the low `n` bits */
  function Not(x: nat, n: nat): nat {
    if n == 0 then 0 else 2 * Not(x / 2, n - 1) + 1 - x % 2
  }

  lemma QuotientUnique(x: nat, d: nat, q: nat, r: nat)
    requires r < d && x == d * q + r
    ensures q == x / d && r == x % d
  {
    var q', r' := x / d, x % d;
    assert x == d * q' + r';
    assert q < q' ==> d * q' >= d * (q + 1);
    assert q > q' ==> d * q >= d * (q' + 1);
  }

  /** Dividing by two and then by `p` is dividing by `2 * p`. */
  lemma Halve(x: nat, p: nat)
    requires p > 0
    ensures x / (2 * p) == x / 2 / p
    ensures x % (2 * p) == 2 * (x / 2 % p) + x % 2
  {
    var y := x / 2;
    assert y == p * (y / p) + y % p;
    assert x == 2 * p * (y / p) + (2 * (y % p) + x % 2);
    QuotientUnique(x, 2 * p, y / p, 2 * (y % p) + x % 2);
  }

  lemma {:induction false} ShrIsDiv(x: nat, n: nat)
    ensures Shr(x, n) == x / Pow2(n)
  {
    if n > 0 {
      ShrIsDiv(x / 2, n - 1);
      Halve(x, Pow2(n - 1));
    }
  }

  lemma {:induction false} AndMaskIsMod(x: nat, n: nat)
    ensures And(x, Pow2(n) - 1) == x % Pow2(n)
    decreases n
  {
    if n > 0 {
      var p := Pow2(n - 1);
      AndMaskIsMod(x / 2, n - 1);
      Halve(x, p);
      assert (2 * p - 1) / 2 == p - 1 && (2 * p - 1) % 2 == 1;
    }
  }

  lemma {:induction false} NotIsComplement(x: nat, n: nat)
    ensures Not(x, n) == Pow2(n) - 1 - x % Pow2(n)
  {
    if n > 0 {
      NotIsComplement(x / 2, n - 1);
      Halve(x, Pow2(n - 1));
    }
  }

  lemma Pow2Values()
    ensures Pow2(4) == 16 && Pow2(16) == 0x1_0000 && Pow2(32) == 0x1_0000_0000
  {
    assert Pow2(8) == 256 && Pow2(12) == 0x1000;
    assert Pow2(20) == 0x10_0000 && Pow2(24) == 0x100_0000 && Pow2(28) == 0x1000_0000;
  }

  lemma ComplementLow(x: u32)
    ensures (0xFFFF_FFFF - x) % 0x1_0000 == 0xFFFF - x % 0x1_0000
  {
    var q: int := 0xFFFF - x / 0x1_0000;
    assert 0xFFFF_FFFF - x == 0x1_0000 * q + (0xFFFF - x % 0x1_0000);
    QuotientUnique(0xFFFF_FFFF - x, 0x1_0000, q, 0xFFFF - x % 0x1_0000);
  }

  /** `csum >> 16` and `csum & 0xffff` */
  lemma HalfWords(x: u32)
    ensures Shr(x, 16) == x / 0x1_0000
    ensures And(x, 0xFFFF) == x % 0x1_0000
  {
    Pow2Values();
    ShrIsDiv(x, 16);
    AndMaskIsMod(x, 16);
  }

  lemma WordComplement(x: u32, n: nat)
    requires Pow2(n) == 0x1_0000_0000
    ensures Not(x, n) == 0xFFFF_FFFF - x
  {
    NotIsComplement(x, n);
  }

  /** `(u16)~csum` */
  lemma LowComplement(x: u32)
    ensures And(Not(x, 32), 0xFFFF) == 0xFFFF - x % 0x1_0000
  {
    Pow2Values();
    WordComplement(x, 32);
    AndMaskIsMod(Not(x, 32), 16);
    ComplementLow(x);
  }
}
