/**
 `formatBytes` (userspace/stats/collector.go), without the floating-point text.
 */
module StatsFormat {
  import opened Types
  import opened Bits

  const UNIT: nat := 1024
  const SUFFIXES := "KMGTPE"

  /** A byte count as shown: in bytes, or in units of `div` bytes with a suffix letter. */
  datatype Shown = Plain(b: u64) | Scaled(b: u64, div: nat, exp: nat, suffix: char)

  function Pow1024(n: nat): (p: nat)
    ensures p > 0
  {
    if n == 0 then 1 else UNIT * Pow1024(n - 1)
  }

  lemma Pow1024Values()
    ensures Pow1024(1) == UNIT && Pow1024(6) == 0x1000_0000_0000_0000 && Pow1024(7) == 0x40_0000_0000_0000_0000
  {
  }

  lemma {:induction false} Pow1024Monotone(m: nat, n: nat)
    requires m <= n
    ensures Pow1024(m) <= Pow1024(n)
  {
    if m < n {
      Pow1024Monotone(m, n - 1);
    }
  }

  lemma Distribute(d: nat, x: nat, y: nat)
    ensures d * (UNIT * x + y) == UNIT * (d * x) + d * y
  {
  }

  lemma MulMonotone(d: nat, x: nat, y: nat)
    requires x <= y
    ensures d * x <= d * y
  {
  }

  /** Dividing again by the unit multiplies the divisor. */
  lemma DivStep(b: nat, div: nat)
    requires div > 0
    ensures b / div / UNIT == b / (UNIT * div)
  {
    var q := b / div;
    var r, s := q / UNIT, q % UNIT;
    assert b == div * q + b % div;
    Distribute(div, r, s);
    MulMonotone(div, s, UNIT - 1);
    ScaledQuotient(b, div, r, div * s + b % div);
  }

  lemma ScaledQuotient(b: nat, div: nat, r: nat, low: nat)
    requires b == UNIT * (div * r) + low && low < UNIT * div
    ensures r == b / (UNIT * div)
  {
    assert UNIT * (div * r) == UNIT * div * r;
    QuotientUnique(b, UNIT * div, r, low);
  }

  /** The divisor is the largest power of 1024 not above the count: no other exponent brackets it. */
  lemma ScaleUnique(b: nat, m: nat, n: nat)
    requires Pow1024(m) <= b < Pow1024(m + 1) && Pow1024(n) <= b < Pow1024(n + 1)
    ensures m == n
  {
    if m < n {
      Pow1024Monotone(m + 1, n);
    } else if n < m {
      Pow1024Monotone(n + 1, m);
    }
  }

  lemma Bracket(b: nat, div: nat)
    requires div > 0
    ensures b / div >= UNIT ==> UNIT * div <= b
    ensures 1 <= b / div < UNIT ==> div <= b < UNIT * div
  {
    var n := b / div;
    assert b == div * n + b % div;
    if n >= UNIT {
      MulMonotone(div, UNIT, n);
    } else if n >= 1 {
      MulMonotone(div, 1, n);
      MulMonotone(div, n + 1, UNIT);
    }
  }

  method FormatBytes(b: u64) returns (s: Shown)
    ensures b < UNIT ==> s == Plain(b)
    ensures b >= UNIT ==>
              && s.Scaled? && s.b == b
              && s.exp <= 5
              && s.suffix == (match s.exp
                              case 0 => 'K' case 1 => 'M' case 2 => 'G' case 3 => 'T' case 4 => 'P' case _ => 'E')
              && s.div == Pow1024(s.exp + 1) < 0x8000_0000_0000_0000
              && s.div <= b < Pow1024(s.exp + 2)
  {
    if b < UNIT {
      return Plain(b);
    }
    var div, exp, n := UNIT, 0, b / UNIT;
    Pow1024Values();
    while n >= UNIT
      invariant div == Pow1024(exp + 1) && n == b / div && n >= 1
      invariant exp <= 5
      decreases n
    {
      DivStep(b, div);
      Bracket(b, div);
      div := UNIT * div;
      exp := exp + 1;
      n := n / UNIT;
    }
    Bracket(b, div);
    Pow1024Monotone(exp + 1, 6);
    s := Scaled(b, div, exp, SUFFIXES[exp]);
  }
}
