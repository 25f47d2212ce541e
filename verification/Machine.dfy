/** Fixed-width integer conversions of C, as the tools use them. */
module Machine {

  const TWO_31 := 0x8000_0000
  const TWO_32 := 0x1_0000_0000
  const TWO_64 := 0x1_0000_0000_0000_0000
  const BILLION := 1_000_000_000

  /** Conversion to uint64_t: reduction modulo 2^64. */
  function U64(x: int): (r: int)
    ensures 0 <= r < TWO_64
  {
    x % TWO_64
  }

  /** Conversion of a uint64_t (or wider) value to a 32-bit int: two's complement of the low 32 bits. */
  function S32(x: int): (r: int)
    ensures -TWO_31 <= r < TWO_31
  {
    var low := x % TWO_32;
    if low < TWO_31 then low else low - TWO_32
  }

  /** A remainder is determined by any decomposition into a multiple of 2^64 and a reduced part. */
  lemma U64Unique(x: int, q: int, r: int)
    requires x == TWO_64 * q + r && 0 <= r < TWO_64
    ensures U64(x) == r
  {
    assert x - r == TWO_64 * q;
  }

  /** 2^64 periods may be added freely below a reduction. */
  lemma U64Shift(x: int, q: int)
    ensures U64(x + TWO_64 * q) == U64(x)
  {
    var q0 := x / TWO_64;
    U64Unique(x + TWO_64 * q, q0 + q, U64(x));
  }

  lemma U64Identity(x: int)
    requires 0 <= x < TWO_64
    ensures U64(x) == x
  {
    U64Unique(x, 0, x);
  }

  /** Integer division of Java and C by a positive divisor: truncation toward zero. */
  function TruncDiv(a: int, n: int): int
    requires n > 0
  {
    if a >= 0 then a / n else -(-a / n)
  }

  /** The conversions keep the low bits: 64 of them, or 32 read as a signed number. */
  lemma U64Congruent(x: int)
    ensures exists q :: x == q * 0x1_0000_0000_0000_0000 + U64(x)
    ensures 0 <= U64(x) < 0x1_0000_0000_0000_0000
  {
    assert x == x / TWO_64 * 0x1_0000_0000_0000_0000 + U64(x);
  }

  lemma S32Congruent(x: int)
    ensures exists q :: x == q * 0x1_0000_0000 + S32(x)
    ensures -0x8000_0000 <= S32(x) < 0x8000_0000
  {
    var q := x / TWO_32;
    assert x == q * 0x1_0000_0000 + x % TWO_32;
    if S32(x) < 0 {
      assert x == (q + 1) * 0x1_0000_0000 + S32(x);
    }
  }

  lemma Scales(x: int, y: int, k: nat)
    requires x <= y
    ensures x * k <= y * k
  {
    assert (y - x) * k >= 0;
  }

  lemma CancelFactor(x: int, y: int, k: nat)
    requires x * k < y * k
    ensures x < y
  {
    if y <= x {
      Scales(y, x, k);
    }
  }

  lemma Quotient(a: nat, d: nat)
    requires d > 0
    ensures a / d >= 0 && a / d * d <= a < (a / d + 1) * d
  {
    var q := a / d;
    assert a == q * d + a % d;
    CancelFactor(0, q + 1, d);
  }

  /** Truncation: the quotient is the largest multiple in reach of zero's side. */
  lemma TruncDivIs(a: int, n: int)
    requires n > 0
    ensures a >= 0 ==> TruncDiv(a, n) >= 0 && TruncDiv(a, n) * n <= a < (TruncDiv(a, n) + 1) * n
    ensures a < 0 ==> TruncDiv(a, n) <= 0 && (TruncDiv(a, n) - 1) * n < a <= TruncDiv(a, n) * n
  {
    if a >= 0 {
      Quotient(a, n);
    } else {
      Quotient(-a, n);
      var q := -a / n;
      assert TruncDiv(a, n) == -q;
      assert -q * n == -(q * n) && (-q - 1) * n == -((q + 1) * n);
    }
  }
}
