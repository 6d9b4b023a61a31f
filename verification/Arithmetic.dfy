/** The 64-bit division routines of lib/arithmetic.c.

    Machine words are integers with explicit ranges.  Every C operation whose
    mathematical result could leave its type goes through one of the wrapping
    functions below, so the correctness results also say that no step wraps in
    a way that matters. */
module Arithmetic {

  const B32: int := 0x1_0000_0000
  const HALF32: int := 0x8000_0000
  const QUARTER64: int := 0x4000_0000_0000_0000
  const B63: int := 0x8000_0000_0000_0000
  const B64: int := 0x1_0000_0000_0000_0000

  type U32 = x: int | 0 <= x < 0x1_0000_0000
  type U64 = x: int | 0 <= x < 0x1_0000_0000_0000_0000
  type I32 = x: int | -0x8000_0000 <= x < 0x8000_0000
  type I64 = x: int | -0x8000_0000_0000_0000 <= x < 0x8000_0000_0000_0000

  function Wrap32(x: int): U32 { if 0 <= x < B32 then x else x % 0x1_0000_0000 }

  function Wrap64(x: int): U64 { if 0 <= x < B64 then x else x % 0x1_0000_0000_0000_0000 }

  function Signed32(x: int): I32 {
    if -HALF32 <= x < HALF32 then x else
      var w := Wrap32(x);
      if w < HALF32 then w else w - B32
  }

  function Signed64(x: int): I64 {
    if -B63 <= x < B63 then x else
      var w := Wrap64(x);
      if w < B63 then w else w - B64
  }

  function Pow2(k: nat): (p: int)
    ensures p >= 1
  {
    if k == 0 then 1 else 2 * Pow2(k - 1)
  }

  /** The DIVL instruction.  It traps unless the quotient fits in 32 bits,
      which is the precondition here. */
  function Divl(n: U64, d: U32): (q: U32)
    requires d != 0
    requires n / d < B32
    ensures q * d <= n < q * d + d
  {
    DivisionBounds(n, d);
    n / d
  }

  /** The number of leading zero bits of a nonzero 32-bit word. */
  function LeadingZeros(x: U32): nat
    requires x != 0
    decreases B32 - x
  {
    if x >= 0x8000_0000 then 0 else 1 + LeadingZeros(2 * x)
  }

  /** Shifting left by the leading zeros sets the top bit and loses no bit. */
  lemma {:induction false} LeadingZerosNormalize(x: U32)
    requires x != 0
    ensures LeadingZeros(x) <= 31
    ensures 0x8000_0000 <= x * Pow2(LeadingZeros(x)) < B32
    decreases B32 - x
  {
    if x < 0x8000_0000 {
      LeadingZerosNormalize(2 * x);
      DoublingStep(x, LeadingZeros(2 * x));
    }
  }

  lemma DoublingStep(x: int, m: nat)
    requires 0 < x
    requires m <= 31 && 2 * x * Pow2(m) < B32
    ensures m < 31
    ensures x * Pow2(m + 1) == 2 * x * Pow2(m)
  {
    if m == 31 {
      DoubledOverflows(x);
    }
  }

  lemma DoubledOverflows(x: int)
    requires x >= 1
    ensures 2 * x * Pow2(31) >= B32
  {
    var p := Pow2(31);
    assert p == 0x8000_0000 by { Pow2Literals(); }
  }

  lemma {:induction false} LeadingZerosShift(x: U32, k: nat, p: int)
    requires x != 0
    requires p == Pow2(k)
    requires x * p < B32
    ensures x * p > 0
    ensures LeadingZeros(x) == k + LeadingZeros(x * p)
    decreases k
  {
    MulMonotone(1, p, x);
    if k != 0 {
      var h := Pow2(k - 1);
      assert x * p == 2 * x * h;
      MulMonotone(1, h, 2 * x);
      LeadingZerosShift(2 * x, k - 1, h);
    }
  }

  /** One halving step: the shift loses no bit and uncovers exactly K zeros. */
  lemma HalvingStep(x: U32, k: nat, p: int)
    requires k in {1, 2, 4, 8, 16}
    requires p == Pow2(k)
    requires 0 < x && x * p < B32
    ensures Wrap32(x * p) == x * p > 0
    ensures LeadingZeros(x) == k + LeadingZeros(Wrap32(x * p))
  {
    LeadingZerosShift(x, k, p);
  }

  lemma Pow2Literals()
    ensures Pow2(1) == 2 && Pow2(2) == 4 && Pow2(4) == 16 && Pow2(8) == 256
    ensures Pow2(16) == 0x1_0000 && Pow2(31) == 0x8000_0000 && Pow2(32) == B32
  {
    Pow2Split(8, 8);
    Pow2Split(16, 16);
  }

  lemma {:induction false} Pow2Split(a: nat, b: nat)
    ensures Pow2(a + b) == Pow2(a) * Pow2(b)
  {
    if a != 0 {
      Pow2Split(a - 1, b);
    }
  }

  /** The halving search of the source: after the five tests N is the number of
      leading zeros and no bit has been shifted out on the left. */
  method Nlz(x0: U32) returns (n: nat)
    requires x0 != 0
    ensures n == LeadingZeros(x0)
  {
    ghost var z := LeadingZeros(x0);
    n := 0;
    var x: U32 := x0;
    if x <= 0x0000FFFF {
      HalvingStep(x, 16, 0x1_0000) by { Pow2Literals(); }
      n := n + 16;
      x := Wrap32(x * 0x1_0000);
    }
    assert x > 0x0000FFFF && z == n + LeadingZeros(x);
    if x <= 0x00FFFFFF {
      HalvingStep(x, 8, 0x100) by { Pow2Literals(); }
      n := n + 8;
      x := Wrap32(x * 0x100);
    }
    assert x > 0x00FFFFFF && z == n + LeadingZeros(x);
    if x <= 0x0FFFFFFF {
      HalvingStep(x, 4, 0x10) by { Pow2Literals(); }
      n := n + 4;
      x := Wrap32(x * 0x10);
    }
    assert x > 0x0FFFFFFF && z == n + LeadingZeros(x);
    if x <= 0x3FFFFFFF {
      HalvingStep(x, 2, 4) by { Pow2Literals(); }
      n := n + 2;
      x := Wrap32(x * 4);
    }
    assert x > 0x3FFFFFFF && z == n + LeadingZeros(x);
    if x <= 0x7FFFFFFF {
      HalvingStep(x, 1, 2) by { Pow2Literals(); }
      n := n + 1;
    }
  }

  lemma MulMonotone(a: int, b: int, c: int)
    requires a <= b && 0 <= c
    ensures a * c <= b * c
  {
  }

  lemma DivisionBounds(n: int, d: int)
    requires d > 0
    ensures n / d * d <= n < n / d * d + d
  {
  }

  lemma DivisionUnique(n: int, d: int, q: int)
    requires d > 0
    requires q * d <= n < q * d + d
    ensures n / d == q
  {
    DivisionBounds(n, d);
    var p := n / d;
    if p < q {
      MulMonotone(p + 1, q, d);
    } else if p > q {
      MulMonotone(q + 1, p, d);
    }
  }

  lemma DivisionNests(n: int, a: int, b: int)
    requires a > 0 && b > 0 && n >= 0
    ensures a * b > 0
    ensures n / a / b == n / (a * b)
  {
    var q := n / a;
    var p := q / b;
    DivisionBounds(n, a);
    DivisionBounds(q, b);
    assert p * (a * b) == p * b * a;
    MulMonotone(p * b, q, a);
    MulMonotone(q + 1, p * b + b, a);
    assert (p * b + b) * a == p * (a * b) + a * b;
    assert a * b > 0 by { MulMonotone(1, a, b); }
    DivisionUnique(n, a * b, p);
  }

  /** The dividend handed to DIVL for a 32-bit divisor yields a 32-bit quotient. */
  lemma SmallDivisorNeverTraps(r: int, n0: int, d: int)
    requires 0 <= r < d < B32
    requires 0 <= n0 < B32
    ensures 0 <= B32 * r + n0 < B64
    ensures (B32 * r + n0) / d < B32
  {
    var m := B32 * r + n0;
    assert m < B32 * d;
    DivisionBounds(m, d);
    if m / d >= B32 {
      MulMonotone(B32, m / d, d);
    }
  }

  lemma SmallDivisorExact(n: U64, d: int)
    requires 0 < d < B32
    ensures var n1, n0 := n / B32, n % B32;
            n / d == (B32 * (n1 % d) + n0) / d + B32 * (n1 / d)
  {
    var n1, n0 := n / B32, n % B32;
    var r, t := n1 % d, n1 / d;
    var q := (B32 * r + n0) / d;
    DivisionBounds(B32 * r + n0, d);
    assert n1 == d * t + r;
    assert n == B32 * n1 + n0;
    calc {
      n;
      B32 * (d * t + r) + n0;
      { assert B32 * (d * t) == B32 * t * d; }
      B32 * t * d + (B32 * r + n0);
    }
    assert (q + B32 * t) * d == q * d + B32 * t * d;
    DivisionUnique(n, d, q + B32 * t);
  }

  /** Rounding the divisor down to a multiple of 2^(32-s), where s normalises its
      top word, changes the quotient by at most one. */
  lemma EstimateWithinOne(n: U64, d: int, k: int)
    requires k >= 2
    requires d / k >= HALF32
    ensures d / k * k > 0
    ensures n / d <= n / (d / k * k) <= n / d + 1
  {
    var m := d / k;
    var e := m * k;
    DivisionBounds(d, k);
    MulMonotone(1, m, k);
    var q, p := n / d, n / e;
    DivisionBounds(n, d);
    DivisionBounds(n, e);
    QuotientAntitone(n, e, d);
    assert (q + 1) * d == q * d + d;
    EstimateGap(n, e, d - e, k, m, q, p);
  }

  lemma QuotientAntitone(n: int, e: int, d: int)
    requires 0 <= n && 0 < e <= d
    ensures n / d <= n / e
    ensures 0 <= n / d
  {
    var q, p := n / d, n / e;
    DivisionBounds(n, d);
    DivisionBounds(n, e);
    QuotientShrinks(n, d);
    MulMonotone(e, d, q);
    if p < q {
      MulMonotone(p + 1, q, e);
    }
  }

  lemma EstimateGap(n: U64, e: int, g: int, k: int, m: int, q: int, p: int)
    requires k >= 2 && m >= HALF32 && e == m * k && 0 <= g < k
    requires 0 <= q && p * e <= n < (q + 1) * (e + g)
    ensures p < q + 2
  {
    if p >= q + 2 {
      var a := q + 1;
      MulMonotone(a + 1, p, e);
      assert e > 0 by { MulMonotone(1, m, k); }
      assert (a + 1) * e == a * e + e;
      assert a * (e + g) == a * e + a * g;
      assert e < a * g;
      assert a * e < B64;
      assert e * e < a * g * e by { MulStrict(e, a * g, e); }
      assert a * g * e == a * e * g;
      MulMonotone(a * e, B64, g);
      assert e * e <= B64 * (k - 1);
      SquareBound(m, k);
      assert false;
    }
  }

  lemma MulStrict(a: int, b: int, c: int)
    requires a < b && 0 < c
    ensures a * c < b * c
  {
  }

  lemma SquareBound(m: int, k: int)
    requires k >= 2 && m >= HALF32
    ensures m * k * (m * k) >= B64 * (k - 1)
  {
    assert m * m >= QUARTER64 by {
      MulMonotone(HALF32, m, HALF32);
      MulMonotone(HALF32, m, m);
    }
    assert k * k >= 4 * (k - 1) by {
      assert (k - 2) * (k - 2) >= 0;
    }
    assert m * k * (m * k) == m * m * (k * k);
    MulMonotone(QUARTER64, m * m, k * k);
    MulMonotone(4 * (k - 1), k * k, QUARTER64);
  }

  /** With J = 2^s and K = 2^(32-s): the normalising shift loses no bit of the
      divisor, and its top word is then the divisor divided by K. */
  lemma NormalizedDivisor(d: U64, j: int, k: int)
    requires j >= 1 && k >= 1 && j * k == B32
    requires HALF32 <= d / B32 * j < B32
    ensures d * j < B64
    ensures d * j / B32 == d / k
    ensures HALF32 <= d / k < B32
  {
    var d1 := d / B32;
    DivisionBounds(d, B32);
    ShiftFits(d, d1, j, k);
    ShiftDivides(d, j, k);
    MulMonotone(d1 * B32, d, j);
    assert d1 * B32 * j == d1 * j * B32;
    TopWordRange(d * j, d1 * j);
  }

  lemma ShiftFits(d: int, d1: int, j: int, k: int)
    requires j >= 1 && k >= 1 && j * k == B32
    requires d < (d1 + 1) * B32 && d1 * j < B32
    ensures d * j < B64
  {
    if d1 >= k {
      MulMonotone(k, d1, j);
    }
    MulMonotone(d1 + 1, k, B32);
    MulStrict(d, k * B32, j);
    assert k * B32 * j == B32 * B32;
  }

  lemma ShiftDivides(d: int, j: int, k: int)
    requires j >= 1 && k >= 1 && j * k == B32
    ensures d * j / B32 == d / k
  {
    var q := d / k;
    DivisionBounds(d, k);
    assert q * k * j == q * B32;
    MulMonotone(q * k, d, j);
    MulStrict(d, q * k + k, j);
    assert (q * k + k) * j == q * k * j + k * j;
    DivisionUnique(d * j, B32, q);
  }

  lemma TopWordRange(m: int, t: int)
    requires t * B32 <= m < B64
    requires HALF32 <= t
    ensures HALF32 <= m / B32 < B32
  {
  }

  /** The 32-bit quotient of N/2 by the normalised top word, shifted back, is the
      quotient of N by the divisor rounded down to a multiple of K = 2H. */
  lemma EstimateIsQuotient(n: U64, v: int, h: int)
    requires HALF32 <= v < B32 && h >= 1
    ensures n / 2 / v < B32
    ensures v * (2 * h) > 0
    ensures n / 2 / v / h == n / (v * (2 * h))
  {
    var u := n / 2;
    DivisionBounds(u, v);
    if u / v >= B32 {
      MulMonotone(B32, u / v, v);
    }
    DivisionNests(n, 2, v);
    DivisionNests(n, 2 * v, h);
    assert 2 * v * h == v * (2 * h);
  }

  lemma ShiftFactors(d: U64, s: nat)
    requires d / B32 != 0
    requires s == LeadingZeros(d / B32)
    ensures s <= 31
    ensures Pow2(s) * (2 * Pow2(31 - s)) == B32
    ensures HALF32 <= d / B32 * Pow2(s) < B32
  {
    LeadingZerosNormalize(d / B32);
    Pow2Split(s, 32 - s);
    assert Pow2(32 - s) == 2 * Pow2(31 - s);
    assert Pow2(32) == B32 by { Pow2Literals(); }
  }

  /** DIVL does not trap on the estimate, which is the true quotient or one more. */
  lemma EstimateCorrect(n: U64, d: U64, j: int, h: int)
    requires j >= 1 && h >= 1 && j * (2 * h) == B32
    requires HALF32 <= d / B32 * j < B32
    ensures d * j < B64
    ensures 0 < d * j / B32 < B32
    ensures n / 2 / (d * j / B32) < B32
    ensures n / d <= n / 2 / (d * j / B32) / h <= n / d + 1
  {
    NormalizedDivisor(d, j, 2 * h);
    EstimateIsQuotient(n, d / (2 * h), h);
    EstimateWithinOne(n, d, 2 * h);
  }

  /** The quotient estimate of the large-divisor case. */
  function Estimate(n: U64, d: U64): (q: U32)
    requires d / B32 != 0
    ensures n / d <= q <= n / d + 1
  {
    var s := LeadingZeros(d / B32);
    ShiftFactors(d, s);
    EstimateCorrect(n, d, Pow2(s), Pow2(31 - s));
    var t := Divl(n / 2, Wrap64(d * Pow2(s)) / B32);
    QuotientShrinks(t, Pow2(31 - s));
    t / Pow2(31 - s)
  }

  /** The quotient for a divisor that fits in 32 bits. */
  function SmallQuotient(n: U64, d: U64): (q: U64)
    requires 0 < d < B32
    ensures q == n / d
  {
    var n1, n0 := n / B32, n % B32;
    SmallDivisorNeverTraps(n1 % d, n0, d);
    SmallDivisorExact(n, d);
    QuotientFits(n, d);
    Wrap64(Divl(Wrap64(B32 * (n1 % d) + n0), d) + Wrap64(B32 * (n1 / d)))
  }

  /** The quotient for a divisor that does not fit in 32 bits. */
  function LargeQuotient(n: U64, d: U64): (q: U64)
    requires d / B32 != 0
    ensures q == n / d
  {
    if n < d then
      DivisionUnique(n, d, 0);
      0
    else
      var q := Estimate(n, d);
      Correction(n, d, q);
      if Wrap64(n - Wrap64(Wrap64(q - 1) * d)) < d then Wrap64(q - 1) else q
  }

  /** Unsigned 64-bit division.  A zero divisor makes the source divide by zero. */
  function Udiv64(n: U64, d: U64): (q: U64)
    requires d != 0
    ensures q == n / d
  {
    if d / B32 == 0 then SmallQuotient(n, d) else LargeQuotient(n, d)
  }

  lemma QuotientFits(n: U64, d: U64)
    requires d != 0
    ensures 0 <= n / d <= n
    ensures 0 <= B32 * (n / B32 / d) <= n
  {
    QuotientShrinks(n, d);
    QuotientShrinks(n / B32, d);
  }

  lemma QuotientShrinks(n: int, d: int)
    requires n >= 0 && d >= 1
    ensures 0 <= n / d <= n
  {
    var q := n / d;
    DivisionBounds(n, d);
    if q < 0 {
      MulMonotone(q + 1, 0, d);
    } else {
      MulMonotone(1, d, q);
    }
  }

  /** Comparing the remainder of the smaller candidate with D selects the quotient. */
  lemma CorrectionStep(n: U64, d: U64, q: int)
    requires 0 < d <= n
    requires n / d <= q <= n / d + 1
    ensures 1 <= q
    ensures 0 <= (q - 1) * d <= n
    ensures n - (q - 1) * d < d <==> q == n / d + 1
  {
    var t := n / d;
    DivisionBounds(n, d);
    if t < 1 {
      MulMonotone(t + 1, 1, d);
    }
    MulMonotone(0, q - 1, d);
    MulMonotone(q - 1, t, d);
    assert t * d == (t - 1) * d + d;
  }

  lemma Correction(n: U64, d: U64, q: U32)
    requires 0 < d <= n
    requires n / d <= q <= n / d + 1
    ensures 1 <= q
    ensures Wrap64(n - Wrap64(Wrap64(q - 1) * d)) < d <==> q == n / d + 1
  {
    CorrectionStep(n, d, q);
    var m := (q - 1) * d;
    assert Wrap64(Wrap64(q - 1) * d) == m;
  }

  /** The remainder routine returns 32 bits of the 64-bit remainder. */
  function Umod64(n: U64, d: U64): (r: U32)
    requires d != 0
    ensures r == n % d % B32
  {
    var q := Udiv64(n, d);
    RemainderRange(n, d);
    Wrap32(Wrap64(n - Wrap64(d * q)))
  }

  lemma RemainderRange(n: U64, d: U64)
    requires d != 0
    ensures 0 <= d * (n / d) <= n
    ensures n - d * (n / d) == n % d
  {
    DivisionBounds(n, d);
    QuotientShrinks(n, d);
    assert d * (n / d) == n / d * d;
  }

  /** A divisor gives exact remainders for every dividend just when it is at most 2^32. */
  lemma Umod64ExactIff(d: U64)
    requires d != 0
    ensures (forall n: U64 :: Umod64(n, d) == n % d) <==> d <= B32
  {
    if d <= B32 {
      forall n: U64 ensures Umod64(n, d) == n % d {
        assert 0 <= n % d < B32;
      }
    } else {
      assert Umod64(B32, d) == 0 != B32 % d;
    }
  }

  function Abs(x: int): int { if x < 0 then -x else x }

  /** Only zero times D lies strictly between -D and D. */
  lemma NarrowGap(d: int, k: int)
    requires d > 0 && -d < d * k < d
    ensures k == 0
  {
  }

  /** Quotient rounded toward zero, as C division defines it. */
  function Trunc(n: int, d: int): int
    requires d != 0
  {
    var q := Abs(n) / Abs(d);
    if (n < 0) == (d < 0) then q else -q
  }

  /** Remainder that goes with Trunc. */
  function TruncRem(n: int, d: int): int
    requires d != 0
  {
    n - d * Trunc(n, d)
  }

  /** The magnitude of a signed word as an unsigned one, negating in unsigned arithmetic. */
  function Magnitude(x: I64): (m: U64)
    ensures m == Abs(x)
  {
    if x >= 0 then x else Wrap64(0 - Wrap64(x))
  }

  function Sdiv64(n: I64, d: I64): (q: I64)
    requires d != 0
  {
    var nAbs := Magnitude(n);
    var dAbs := Magnitude(d);
    var qAbs := Udiv64(nAbs, dAbs);
    if (n < 0) == (d < 0) then Signed64(qAbs) else Signed64(0 - Signed64(qAbs))
  }

  /** Signed division truncates toward zero for every pair of operands but one:
      the quotient of the least integer by -1 does not exist in 64 bits. */
  lemma Sdiv64ExactIff(n: I64, d: I64)
    requires d != 0
    ensures Sdiv64(n, d) == Trunc(n, d) <==> !(n == -B63 && d == -1)
    ensures n == -B63 && d == -1 ==> Sdiv64(n, d) == -B63
  {
    var q := Abs(n) / Abs(d);
    QuotientShrinks(Abs(n), Abs(d));
    if q == B63 {
      LeastQuotient(n, d);
    }
  }

  lemma LeastQuotient(n: I64, d: I64)
    requires d != 0
    requires Abs(n) / Abs(d) == B63
    ensures n == -B63 && (d == -1 || d == 1)
  {
    DivisionBounds(Abs(n), Abs(d));
    if Abs(d) >= 2 {
      MulMonotone(2, Abs(d), B63);
    }
  }

  /** Signed remainder, narrowed to 32 bits as the source's return type does. */
  function Smod64(n: I64, d: I64): (r: I32)
    requires d != 0
    ensures r == Signed32(TruncRem(n, d))
  {
    Sdiv64ExactIff(n, d);
    TruncRemRange(n, d);
    Signed32(Signed64(n - Signed64(d * Sdiv64(n, d))))
  }

  lemma TruncRemRange(n: int, d: int)
    requires d != 0
    ensures Abs(TruncRem(n, d)) == Abs(n) % Abs(d)
    ensures Abs(d * Trunc(n, d)) <= Abs(n)
    ensures n < 0 ==> 0 - Abs(d) < TruncRem(n, d) <= 0
    ensures n >= 0 ==> 0 <= TruncRem(n, d) < Abs(d)
  {
    var a, b := Abs(n), Abs(d);
    var q := a / b;
    DivisionBounds(a, b);
    QuotientShrinks(a, b);
    assert d * Trunc(n, d) == if n < 0 then 0 - q * b else q * b;
  }

  /** A divisor gives exact signed remainders for every dividend just when its
      magnitude is at most 2^31. */
  lemma Smod64ExactIff(d: I64)
    requires d != 0
    ensures (forall n: I64 :: Smod64(n, d) == TruncRem(n, d)) <==> Abs(d) <= HALF32
  {
    if Abs(d) <= HALF32 {
      forall n: I64 ensures Smod64(n, d) == TruncRem(n, d) {
        TruncRemRange(n, d);
      }
    } else {
      DivisionUnique(HALF32, Abs(d), 0);
      assert TruncRem(HALF32, d) == HALF32;
      assert Smod64(HALF32, d) != TruncRem(HALF32, d);
    }
  }
}
