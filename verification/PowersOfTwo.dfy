/** Bitwise AND of unsigned words, and what it does to powers of two (lib/kernel/hash.c). */
module PowersOfTwo {
  import opened Arithmetic

  /** C's bitwise AND of two unsigned values. */
  function And(a: nat, b: nat): (r: nat)
    ensures r <= a && r <= b
  {
    if a == 0 || b == 0 then 0 else 2 * And(a / 2, b / 2) + (a % 2) * (b % 2)
  }

  /** Masking with 2^K - 1 takes the remainder by 2^K. */
  lemma {:induction false} AndMask(a: nat, k: nat)
    ensures Pow2(k) >= 1 && And(a, Pow2(k) - 1) == a % Pow2(k)
  {
    hide And;
    if k > 0 {
      AndMask(a / 2, k - 1);
      MaskDoubled(a, Pow2(k - 1), Pow2(k));
    } else {
      AndZero(a);
    }
  }

  lemma AndZero(a: nat)
    ensures And(a, 0) == 0
  {
  }

  lemma MaskDoubled(a: nat, p: nat, q: nat)
    requires p > 0 && q == 2 * p && And(a / 2, p - 1) == a / 2 % p
    ensures And(a, q - 1) == a % q
  {
    hide And;
    AndStep(a, p);
    HalfRemainder(a, p);
  }

  lemma AndStep(a: nat, p: nat)
    requires p > 0
    ensures And(a, 2 * p - 1) == 2 * And(a / 2, p - 1) + a % 2
  {
    assert (2 * p - 1) / 2 == p - 1 && (2 * p - 1) % 2 == 1;
  }

  lemma HalfRemainder(a: nat, p: nat)
    requires p > 0
    ensures a % (2 * p) == 2 * (a / 2 % p) + a % 2
  {
    var q, r := a / 2 / p, a / 2 % p;
    assert a / 2 == p * q + r;
    assert a == (2 * p) * q + (2 * r + a % 2);
    RemainderIs(a, 2 * p, q, 2 * r + a % 2);
  }

  lemma RemainderIs(a: nat, d: nat, q: nat, r: nat)
    requires a == d * q + r && r < d
    ensures a % d == r
  {
    var q1, r1 := a / d, a % d;
    assert d * (q - q1) == r1 - r;
    NarrowGap(d, q - q1);
  }

  /** turn_off_least_1bit */
  function TurnOffLeast(x: nat): (r: nat)
    requires x > 0
    ensures r < x
  {
    And(x, x - 1)
  }

  /** is_power_of_2 */
  predicate IsPowerOf2(x: nat) {
    x != 0 && TurnOffLeast(x) == 0
  }

  /** Turning off the least bit of an even number is doing so to its half. */
  lemma TurnOffEven(x: nat)
    requires x > 0
    ensures TurnOffLeast(2 * x) == 2 * TurnOffLeast(x)
  {
    assert (2 * x) / 2 == x && (2 * x - 1) / 2 == x - 1 && (2 * x) % 2 == 0;
  }

  lemma {:induction false} AndSame(x: nat)
    ensures And(x, x) == x
  {
    if x > 0 {
      AndSame(x / 2);
    }
  }

  lemma TurnOffOdd(x: nat)
    requires x % 2 == 1
    ensures TurnOffLeast(x) == x - 1
  {
    if x > 1 {
      AndSame(x / 2);
      assert (x - 1) / 2 == x / 2 && (x - 1) % 2 == 0;
    }
  }

  /** Between 2^K and 2^(K+1), turning off the least bit either hits zero, at 2^K itself, or
      stays in that range. */
  lemma {:induction false} TurnOffKeepsHigh(x: nat, k: nat)
    requires Pow2(k) <= x < Pow2(k + 1)
    ensures if x == Pow2(k) then x > 0 && TurnOffLeast(x) == 0 else x > 0 && Pow2(k) <= TurnOffLeast(x)
    decreases k
  {
    if x % 2 == 1 {
      TurnOffOdd(x);
      if k > 0 {
        assert Pow2(k) == 2 * Pow2(k - 1);
      }
    } else {
      assert k > 0 && Pow2(k) == 2 * Pow2(k - 1) && Pow2(k + 1) == 2 * Pow2(k);
      TurnOffKeepsHigh(x / 2, k - 1);
      TurnOffEven(x / 2);
    }
  }

  /** The greatest power of two not above X, found by turning off bits (hash.c:371-372). */
  method RoundDownToPower(x: nat, ghost k: nat) returns (r: nat)
    requires Pow2(k) <= x < Pow2(k + 1)
    ensures r == Pow2(k)
  {
    r := x;
    TurnOffKeepsHigh(r, k);
    while !IsPowerOf2(r)
      invariant Pow2(k) <= r < Pow2(k + 1)
      decreases r
    {
      TurnOffKeepsHigh(r, k);
      r := TurnOffLeast(r);
    }
    TurnOffKeepsHigh(r, k);
  }

  /** Every positive number lies between two powers of two. */
  lemma {:induction false} SomePower(x: nat) returns (k: nat)
    requires x > 0
    ensures Pow2(k) <= x < Pow2(k + 1)
  {
    if x == 1 {
      k := 0;
    } else {
      k := SomePower(x / 2);
      k := k + 1;
    }
  }
}
