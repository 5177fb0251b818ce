/** What it means to round a positive real once, to the nearest 64-bit significand with an
    unbounded exponent, ties to even (IEEE 754-2019, section 4.3.1).  Nothing here knows how
    the emulator computes. */
module Rounding {
  import opened Words

  /** x * 2^k, for any integer k. */
  ghost function Shift(x: real, k: int): real
    decreases if k < 0 then -k else k
  {
    if k == 0 then x
    else if k > 0 then 2.0 * Shift(x, k - 1)
    else Shift(x, k + 1) / 2.0
  }

  lemma ShiftSucc(x: real, k: int)
    ensures Shift(x, k + 1) == 2.0 * Shift(x, k)
  {
  }

  lemma {:induction false} ShiftDouble(x: real, k: int)
    ensures Shift(2.0 * x, k) == 2.0 * Shift(x, k)
    decreases if k < 0 then -k else k
  {
    if k > 0 {
      ShiftDouble(x, k - 1);
    } else if k < 0 {
      ShiftDouble(x, k + 1);
    }
  }

  lemma {:induction false} ShiftShift(x: real, a: int, b: int)
    ensures Shift(Shift(x, a), b) == Shift(x, a + b)
    decreases if b < 0 then -b else b
  {
    if b > 0 {
      ShiftShift(x, a, b - 1);
      ShiftSucc(x, a + b - 1);
    } else if b < 0 {
      ShiftShift(x, a, b + 1);
      ShiftSucc(x, a + b);
    }
  }

  lemma {:induction false} ShiftMono(x: real, y: real, k: int)
    ensures x <= y <==> Shift(x, k) <= Shift(y, k)
    ensures x < y <==> Shift(x, k) < Shift(y, k)
    decreases if k < 0 then -k else k
  {
    if k > 0 {
      ShiftMono(x, y, k - 1);
    } else if k < 0 {
      ShiftMono(x, y, k + 1);
    }
  }

  lemma {:induction false} ShiftZero(k: int)
    ensures Shift(0.0, k) == 0.0
    decreases if k < 0 then -k else k
  {
    if k > 0 {
      ShiftZero(k - 1);
    } else if k < 0 {
      ShiftZero(k + 1);
    }
  }

  lemma {:induction false} ShiftAdd(x: real, y: real, k: int)
    ensures Shift(x + y, k) == Shift(x, k) + Shift(y, k)
    decreases if k < 0 then -k else k
  {
    if k > 0 {
      ShiftAdd(x, y, k - 1);
    } else if k < 0 {
      ShiftAdd(x, y, k + 1);
    }
  }

  lemma {:induction false} ShiftNegate(x: real, k: int)
    ensures Shift(-x, k) == -Shift(x, k)
  {
    ShiftAdd(x, -x, k);
    ShiftZero(k);
  }

  /** Multiplying an integer by 2^k is the same as moving k into the exponent. */
  lemma {:induction false} ShiftNat(m: int, k: nat)
    ensures Shift(m as real, k) == (m * Pow2(k)) as real
  {
    if k == 0 {
    } else {
      ShiftNat(m, k - 1);
      assert m * Pow2(k) == 2 * (m * Pow2(k - 1));
    }
  }

  /** A significand with its integer bit set. */
  predicate Mantissa(m: int) {
    TWO63 <= m < TWO64
  }

  /** m * 2^e. */
  ghost function Scaled(m: int, e: int): real {
    Shift(m as real, e)
  }

  ghost function Abs(x: real): real {
    if x < 0.0 then -x else x
  }

  ghost function Distance(x: real, m: int, e: int): real {
    Abs(x - Scaled(m, e))
  }

  /** No 64-bit float is nearer to x than m * 2^e, and if another one is equally near then m is even. */
  ghost predicate NearestEven(x: real, m: int, e: int) {
    && Mantissa(m)
    && forall m', e' :: Mantissa(m') ==>
         && Distance(x, m, e) <= Distance(x, m', e')
         && (Distance(x, m, e) == Distance(x, m', e') && Scaled(m', e') != Scaled(m, e) ==> m % 2 == 0)
  }

  lemma ScaledShift(m: int, e: int, k: nat)
    ensures Scaled(m, e + k) == Scaled(m * Pow2(k), e)
  {
    ShiftNat(m, k);
    ShiftShift(m as real, k, e);
  }

  lemma ScaledMono(m: int, m': int, e: int)
    ensures m <= m' <==> Scaled(m, e) <= Scaled(m', e)
    ensures m < m' <==> Scaled(m, e) < Scaled(m', e)
  {
    ShiftMono(m as real, m' as real, e);
  }

  lemma AtLeastDouble(q: nat, k: nat)
    requires k > 0
    ensures q * Pow2(k) >= 2 * q
  {
    var d := Pow2(k) - 2;
    assert q * Pow2(k) == 2 * q + q * d;
    assert q * d >= 0;
  }

  /** Between q * 2^e and (q + 1) * 2^e lies no 64-bit float. */
  lemma NoFloatBetween(q: int, e: int, m: int, e': int)
    requires Mantissa(q) && Mantissa(m)
    ensures Scaled(m, e') <= Scaled(q, e) || Scaled(m, e') >= Scaled(q + 1, e)
  {
    if e' >= e {
      var k := m * Pow2(e' - e);
      ScaledShift(m, e, e' - e);
      ScaledMono(k, q, e);
      ScaledMono(q + 1, k, e);
    } else {
      ScaledShift(q, e', e - e');
      AtLeastDouble(q, e - e');
      ScaledMono(m, q * Pow2(e - e'), e');
    }
  }

  lemma BiggerExponent(m: int, e: int, m': int, e': int)
    requires Mantissa(m) && Mantissa(m') && e < e'
    ensures Scaled(m, e) < Scaled(m', e')
  {
    ScaledShift(m', e, e' - e);
    AtLeastDouble(m', e' - e);
    ScaledMono(m, m' * Pow2(e' - e), e);
  }

  lemma ScaledInjective(m: int, e: int, m': int, e': int)
    requires Mantissa(m) && Mantissa(m') && Scaled(m, e) == Scaled(m', e')
    ensures m == m' && e == e'
  {
    if e < e' {
      BiggerExponent(m, e, m', e');
    } else if e' < e {
      BiggerExponent(m', e', m, e);
    } else {
      ScaledMono(m, m', e);
      ScaledMono(m', m, e);
    }
  }

  /** The float just above m * 2^e. */
  function Successor(m: int, e: int): (int, int) {
    if m + 1 == TWO64 then (TWO63, e + 1) else (m + 1, e)
  }

  lemma SuccessorValue(m: int, e: int)
    requires Mantissa(m)
    ensures Mantissa(Successor(m, e).0)
    ensures Scaled(Successor(m, e).0, Successor(m, e).1) == Scaled(m + 1, e)
    ensures Successor(m, e).0 % 2 != m % 2
  {
    if m + 1 == TWO64 {
      ScaledShift(TWO63, e, 1);
      assert Pow2(1) == 2;
    }
  }

  /** The rounding decision on the unit interval [q, q + 1) * 2^e, by comparing x with the midpoint. */
  ghost function RoundInUnit(x: real, q: int, e: int): (int, int) {
    var mid := Scaled(2 * q + 1, e - 1);
    if x < mid || (x == mid && q % 2 == 0) then (q, e) else Successor(q, e)
  }

  lemma UnitMidpoint(q: int, e: int)
    ensures Scaled(q, e) + Scaled(q + 1, e) == 2.0 * Scaled(2 * q + 1, e - 1)
  {
    var x, y := (2 * q) as real, (2 * q + 2) as real;
    ScaledShift(q, e - 1, 1);
    ScaledShift(q + 1, e - 1, 1);
    assert Pow2(1) == 2;
    ShiftAdd(x, y, e - 1);
    ShiftDouble((2 * q + 1) as real, e - 1);
  }

  /** That decision is the nearest-even one among all floats. */
  lemma RoundInUnitNearest(x: real, q: int, e: int)
    requires Mantissa(q)
    requires Scaled(q, e) <= x < Scaled(q + 1, e)
    ensures var (m, e1) := RoundInUnit(x, q, e); NearestEven(x, m, e1)
  {
    var (m, e1) := RoundInUnit(x, q, e);
    UnitMidpoint(q, e);
    SuccessorValue(q, e);
    forall m', e' | Mantissa(m')
      ensures Distance(x, m, e1) <= Distance(x, m', e')
      ensures Distance(x, m, e1) == Distance(x, m', e') && Scaled(m', e') != Scaled(m, e1) ==> m % 2 == 0
    {
      NoFloatBetween(q, e, m', e');
    }
  }

  /** The nearest-even float is unique: the specification determines the result. */
  lemma NearestEvenUnique(x: real, m: int, e: int, m': int, e': int)
    requires NearestEven(x, m, e) && NearestEven(x, m', e')
    ensures m == m' && e == e'
  {
    NotOrdered(x, m, e, m', e');
    NotOrdered(x, m', e', m, e);
    ScaledInjective(m, e, m', e');
  }

  /** Two distinct nearest floats would both be even and adjacent. */
  lemma NotOrdered(x: real, m: int, e: int, m': int, e': int)
    requires NearestEven(x, m, e) && NearestEven(x, m', e')
    ensures Scaled(m, e) >= Scaled(m', e')
  {
    if Scaled(m, e) < Scaled(m', e') {
      var (n, f) := Successor(m, e);
      SuccessorValue(m, e);
      assert Distance(x, m, e) == Distance(x, m', e');
      assert m % 2 == 0 && m' % 2 == 0;
      NoFloatBetween(m, e, m', e');
      ScaledMono(m, m + 1, e);
      assert Scaled(n, f) <= Scaled(m', e');
      assert Distance(x, m, e) <= Distance(x, n, f);
      assert Scaled(n, f) == Scaled(m', e');
      ScaledInjective(n, f, m', e');
    }
  }
}
