/** The 17.14 fixed-point operations of threads/fixed-point.h.

    Results are 32-bit; the 64-bit intermediate products never overflow.  A result that
    does not fit is undefined in C, so each operation requires that it fits. */
module FixedPoint {
  import opened Arithmetic

  type Fp = I32

  /** F_CONV */
  const ONE: int := 16384

  predicate Fits(x: int) {
    -0x8000_0000 <= x < 0x8000_0000
  }

  /** conv_itofp */
  function FromInt(n: int): Fp
    requires Fits(n * ONE)
  {
    n * ONE
  }

  /** rnconv_fptoi */
  function ToNearest(x: Fp): int
    requires x >= 0 ==> Fits(x + ONE / 2)
    requires x < 0 ==> Fits(x - ONE / 2)
  {
    if x >= 0 then Trunc(x + ONE / 2, ONE) else Trunc(x - ONE / 2, ONE)
  }

  /** rzconv_fptoi */
  function TowardZero(x: Fp): int {
    Trunc(x, ONE)
  }

  /** add_fpfp, sub_fpfp, mult_fpfp and div_fpfp */
  function Add(x: Fp, y: Fp): Fp
    requires Fits(x + y)
  {
    x + y
  }

  function Sub(x: Fp, y: Fp): Fp
    requires Fits(x - y)
  {
    x - y
  }

  function Mult(x: Fp, y: Fp): Fp
    requires Fits(Trunc(x * y, ONE))
  {
    Trunc(x * y, ONE)
  }

  function Div(x: Fp, y: Fp): Fp
    requires y != 0 && Fits(Trunc(x * ONE, y))
  {
    Trunc(x * ONE, y)
  }

  /** C division rounds toward zero: the quotient times the divisor is short of the
      dividend by less than the divisor, and never past it. */
  lemma TruncShort(n: int, d: int)
    requires d > 0
    ensures n >= 0 ==> 0 <= d * Trunc(n, d) <= n < d * Trunc(n, d) + d
    ensures n < 0 ==> d * Trunc(n, d) - d < n <= d * Trunc(n, d) <= 0
  {
    var q := Abs(n) / d;
    assert d * q + Abs(n) % d == Abs(n);
    assert n < 0 ==> d * Trunc(n, d) == -(d * q);
  }

  lemma TruncUnique(n: int, d: int, q: int)
    requires d > 0
    requires if n >= 0 then d * q <= n < d * q + d else d * q - d < n <= d * q
    ensures Trunc(n, d) == q
  {
    hide Trunc;
    TruncShort(n, d);
    var r := Trunc(n, d);
    assert d * (r - q) == d * r - d * q;
    NarrowGap(d, r - q);
  }

  /** An integer survives conversion there and back, by either rounding. */
  lemma RoundTrip(n: int)
    requires Fits(n * ONE + ONE / 2) && Fits(n * ONE - ONE / 2)
    ensures TowardZero(FromInt(n)) == n && ToNearest(FromInt(n)) == n
  {
    TruncUnique(n * ONE, ONE, n);
    TruncUnique(if n >= 0 then n * ONE + ONE / 2 else n * ONE - ONE / 2, ONE, n);
  }

  /** Rounding to nearest is off by at most one half. */
  lemma NearestIsNear(x: Fp)
    requires x >= 0 ==> Fits(x + ONE / 2)
    requires x < 0 ==> Fits(x - ONE / 2)
    ensures -(ONE / 2) <= x - ONE * ToNearest(x) <= ONE / 2
  {
    TruncShort(if x >= 0 then x + ONE / 2 else x - ONE / 2, ONE);
  }

  /** Multiplying by a converted integer is exact. */
  lemma MultInt(x: Fp, n: int)
    requires Fits(n * ONE)
    ensures Trunc(x * FromInt(n), ONE) == x * n
  {
    assert x * FromInt(n) == ONE * (x * n);
    TruncUnique(x * FromInt(n), ONE, x * n);
  }

  /** Dividing by a converted positive integer is integer division. */
  lemma DivInt(x: Fp, n: int)
    requires n > 0 && Fits(n * ONE)
    ensures Trunc(x * ONE, FromInt(n)) == Trunc(x, n)
  {
    TruncShort(x, n);
    var q := Trunc(x, n);
    assert FromInt(n) * q == ONE * (n * q);
    TruncUnique(x * ONE, FromInt(n), q);
  }
}
