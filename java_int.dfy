/** Java's fixed-width integer arithmetic, written out over Dafny's unbounded `int`.
    `int` is 32-bit two's complement, `long` is 64-bit; `+` wraps around, and
    `/` and `%` round toward zero (Dafny's own `/` and `%` are Euclidean). */
module JavaInt {

  const Int32Min: int := -0x8000_0000
  const Int32Max: int := 0x7FFF_FFFF
  const Int64Min: int := -0x8000_0000_0000_0000
  const Int64Max: int := 0x7FFF_FFFF_FFFF_FFFF

  predicate IsInt32(x: int) { Int32Min <= x <= Int32Max }
  predicate IsInt64(x: int) { Int64Min <= x <= Int64Max }

  /** The Java `int` that an exact result `x` wraps around to. */
  function Wrap32(x: int): (r: int)
    ensures IsInt32(r)
    ensures IsInt32(x) ==> r == x
  {
    (x + 0x8000_0000) % 0x1_0000_0000 - 0x8000_0000
  }

  /** The Java `long` that an exact result `x` wraps around to: `x` moved by
      whole multiples of 2^64 into the `long` range. */
  function Wrap64(x: int): (r: int)
    ensures IsInt64(r)
    ensures IsInt64(x) ==> r == x
    decreases if x < 0 then -x - 1 else x
  {
    if x > Int64Max then Wrap64(x - 0x1_0000_0000_0000_0000)
    else if x < Int64Min then Wrap64(x + 0x1_0000_0000_0000_0000)
    else x
  }

  /** Wrapping changes a result by a multiple of 2^64 only. */
  lemma {:induction false} Wrap64Congruent(x: int)
    ensures (Wrap64(x) - x) % 0x1_0000_0000_0000_0000 == 0
    decreases if x < 0 then -x - 1 else x
  {
    var m := 0x1_0000_0000_0000_0000;
    if x > Int64Max {
      Wrap64Congruent(x - m);
      ShiftByModulus(Wrap64(x) - x);
    } else if x < Int64Min {
      Wrap64Congruent(x + m);
      ShiftByModulus(Wrap64(x) - x - m);
    }
  }

  /** Adding 2^64 does not change the remainder modulo 2^64. */
  lemma ShiftByModulus(y: int)
    ensures (y + 0x1_0000_0000_0000_0000) % 0x1_0000_0000_0000_0000 == y % 0x1_0000_0000_0000_0000
  {
  }

  /** A `long` congruent to `x` modulo 2^64 is the one `x` wraps around to. */
  lemma Wrap64Unique(x: int, r: int)
    requires IsInt64(r)
    requires (r - x) % 0x1_0000_0000_0000_0000 == 0
    ensures Wrap64(x) == r
  {
    var m := 0x1_0000_0000_0000_0000;
    var w := Wrap64(x);
    Wrap64Congruent(x);
    assert w - x == m * ((w - x) / m);
    assert r - x == m * ((r - x) / m);
    var k := (w - x) / m - (r - x) / m;
    assert w - r == m * k;
    assert -m < w - r < m;
  }

  /** Accumulating into a `long` step by step wraps the same way as wrapping
      the exact total once: if a `long` holds the wrapped value of an exact
      total, `sum += x` leaves it holding the wrapped value of the new total. */
  lemma WrapAdd64(sum: int, exact: int, x: int)
    requires sum == Wrap64(exact)
    ensures Wrap64(sum + x) == Wrap64(exact + x)
  {
    var m := 0x1_0000_0000_0000_0000;
    var u := Wrap64(exact + x);
    Wrap64Congruent(exact + x);
    Wrap64Congruent(exact);
    assert u - (exact + x) == m * ((u - (exact + x)) / m);
    assert sum - exact == m * ((sum - exact) / m);
    assert u - (sum + x) == m * ((u - (exact + x)) / m - (sum - exact) / m);
    Wrap64Unique(sum + x, u);
  }

  /** Java's `x / d` for a positive divisor: the quotient rounded toward zero. */
  function JavaDiv(x: int, d: int): int
    requires d > 0
  {
    if x >= 0 then x / d else -((-x) / d)
  }

  /** Java's `x % d` for a positive divisor: the remainder that goes with `JavaDiv`. */
  function JavaRem(x: int, d: int): int
    requires d > 0
  {
    x - JavaDiv(x, d) * d
  }

  /** What the Java language promises of `/` and `%` (JLS 15.17.2 and 15.17.3):
      the remainder is smaller than the divisor and takes the sign of the dividend,
      the quotient lies between zero and the dividend, on non-negative operands
      both agree with Dafny's operators, and the remainder is zero exactly when
      the divisor divides the dividend. */
  lemma JavaDivision(x: int, d: int)
    requires d > 0
    ensures -d < JavaRem(x, d) < d
    ensures x >= 0 ==> 0 <= JavaDiv(x, d) <= x && JavaDiv(x, d) == x / d && JavaRem(x, d) == x % d
    ensures x < 0 ==> x <= JavaDiv(x, d) <= 0 && JavaRem(x, d) == -((-x) % d)
    ensures (JavaRem(x, d) == 0) == (x % d == 0)
  {
    if x >= 0 {
      QuotientBound(x, d);
    } else {
      QuotientBound(-x, d);
      assert JavaRem(x, d) == -((-x) % d);
      NegatedDivisible(x, d);
    }
  }

  lemma QuotientBound(x: int, d: int)
    requires d > 0 && x >= 0
    ensures 0 <= x / d <= x
  {
    var q, r := x / d, x % d;
    assert x == d * q + r;
    MulNonneg(d - 1, q);
    assert d * q == (d - 1) * q + q;
  }

  /** `d` divides `x` exactly when it divides `-x`. */
  lemma NegatedDivisible(x: int, d: int)
    requires d > 0
    ensures (x % d == 0) == ((-x) % d == 0)
  {
    if x % d == 0 {
      assert x == d * (x / d);
      assert -x == d * (-(x / d));
      ModOfMultiple(d, -(x / d));
    }
    if (-x) % d == 0 {
      assert -x == d * ((-x) / d);
      assert x == d * (-((-x) / d));
      ModOfMultiple(d, -((-x) / d));
    }
  }

  lemma ModOfMultiple(d: int, q: int)
    requires d > 0
    ensures (d * q) % d == 0
  {
    var x := d * q;
    var q2, r := x / d, x % d;
    assert x == d * q2 + r;
    assert d * (q - q2) == r;
    if q - q2 >= 1 {
      MulAtLeast(d, q - q2);
      assert false;
    } else if q - q2 <= -1 {
      MulAtLeast(d, q2 - q);
      assert false;
    }
  }

  lemma MulAtLeast(d: int, k: int)
    requires d > 0 && k >= 1
    ensures d * k >= d
  {
    MulNonneg(d, k - 1);
    assert d * k == d * (k - 1) + d;
  }

  /** Multiplying by a non-negative factor keeps an order. */
  lemma MulMonotone(a: int, b: int, c: int)
    requires a <= b && c >= 0
    ensures a * c <= b * c
  {
    MulNonneg(b - a, c);
    assert (b - a) * c == b * c - a * c;
  }

  lemma MulNonneg(a: int, b: int)
    requires a >= 0 && b >= 0
    ensures a * b >= 0
  {
  }
}
