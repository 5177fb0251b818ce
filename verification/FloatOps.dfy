/** f80_add, f80_sub, f80_mul and f80_div as the emulator runs them, on 64-bit halves and with
    loops, each proved equal to its closed formula on every input. */
module FloatOps {
  import opened Words
  import opened Magnitudes
  import opened SoftFloat
  import opened FloatReference

  method Unpack(f: Float80) returns (mant: u64, rawExp: int)
    ensures (mant, rawExp) == Unpacked(f)
  {
    rawExp := f.rawExp;
    mant := f.sig;
    if rawExp == 0 && mant != 0 {
      while mant < TWO63
        invariant mant > 0
        invariant Normalized(mant, rawExp, TWO63) == Normalized(f.sig, 0, TWO63)
        decreases TWO63 - mant
      {
        mant := (2 * mant) % TWO64;
        rawExp := rawExp - 1;
      }
      rawExp := rawExp + 1;
    }
  }

  method ShiftSticky(v: U128, n: nat) returns (r: U128)
    ensures r.Val() == Jam(v.Val(), n)
    ensures n == 0 ==> r == v
  {
    ShrStickyIsJam(v, n);
    r := ShrSticky(v, n);
  }

  method ShiftStickyOnce(v: U128) returns (r: U128)
    ensures r.Val() == JamOnce(v.Val())
  {
    r := ShiftSticky(v, 1);
    assert Jam(v.Val(), 1) == JamOnce(Jam(v.Val(), 0));
  }

  /** Put both significands in the upper halves and shift the smaller one down to the larger exponent. */
  method Align(am: u64, ae: int, bm: u64, be: int) returns (A: U128, B: U128, e: int)
    ensures e == Max(ae, be)
    ensures A.Val() == Jam(am * TWO64, e - ae)
    ensures B.Val() == Jam(bm * TWO64, e - be)
    ensures A.lo == 0 || B.lo == 0
  {
    A, B, e := U128(am, 0), U128(bm, 0), ae;
    if ae > be {
      B := ShiftSticky(B, ae - be);
    } else if be > ae {
      A := ShiftSticky(A, be - ae);
      e := be;
    }
  }

  /** 128-bit sum; comparing upper halves detects the carry because one operand has an empty
      guard field. */
  method AddWithCarry(A: U128, B: U128) returns (sum: U128, carry: bool)
    requires A.lo == 0 || B.lo == 0
    ensures carry <==> A.Val() + B.Val() >= TWO128
    ensures sum.Val() == A.Val() + B.Val() - if carry then TWO128 else 0
  {
    sum := Add128(A, B);
    carry := sum.hi < A.hi;
  }

  method AddMagnitudes(am: u64, ae: int, bm: u64, be: int) returns (sum: U128, e: int)
    ensures (sum.Val(), e) == SumOf(am, ae, bm, be)
  {
    var A, B, carry;
    A, B, e := Align(am, ae, bm, be);
    sum, carry := AddWithCarry(A, B);
    if carry {
      sum := ShiftInCarry(sum);
      e := e + 1;
    }
  }

  /** Shifting the wrapped sum and setting the top bit is the shift of the true sum. */
  method ShiftInCarry(sum: U128) returns (r: U128)
    ensures r.Val() == JamOnce(sum.Val() + TWO128)
  {
    var s := ShiftStickyOnce(sum);
    JamOnceTop(sum.Val());
    r := SetTopBit(s);
  }

  function SetTopBit(s: U128): (r: U128)
    requires s.Val() < TWO127
    ensures r.Val() == s.Val() + TWO127
  {
    OrTopBit(s.hi);
    U128(Or(s.hi, TWO63), s.lo)
  }

  lemma OrTopBit(x: u64)
    requires x < TWO63
    ensures Or(x, TWO63) == x + TWO63
  {
    Pow2Values();
    OrDisjoint(x, 1, 63);
  }

  /** |A - B| and whether B was the larger. */
  method AbsoluteDifference(A: U128, B: U128) returns (flip: bool, diff: U128)
    ensures flip == (A.Val() < B.Val())
    ensures diff.Val() == if flip then B.Val() - A.Val() else A.Val() - B.Val()
  {
    flip := Cmp128(A, B) < 0;
    diff := if flip then Sub128(B, A) else Sub128(A, B);
  }

  /** Shift left until the integer bit is set. */
  method NormalizeLeft(d: U128, e0: int) returns (diff: U128, e: int)
    requires d.Val() > 0
    ensures (diff.Val(), e) == Normalized(d.Val(), e0, TWO127)
  {
    diff, e := d, e0;
    while diff.hi < TWO63
      invariant diff.Val() > 0
      invariant Normalized(diff.Val(), e, TWO127) == Normalized(d.Val(), e0, TWO127)
      decreases TWO128 - diff.Val()
    {
      diff := Double128(diff);
      e := e - 1;
    }
  }

  method SubMagnitudes(am: u64, ae: int, bm: u64, be: int) returns (flip: bool, diff: U128, e: int)
    ensures (flip, diff.Val(), e) == DifferenceOf(am, ae, bm, be)
  {
    var A, B;
    A, B, e := Align(am, ae, bm, be);
    flip, diff := AbsoluteDifference(A, B);
    if diff.hi == 0 && diff.lo == 0 {
      return;
    }
    diff, e := NormalizeLeft(diff, e);
  }

  method F80Add(a: Float80, b: Float80) returns (r: Float80)
    ensures r == Add(a, b)
    decreases if a.sign != b.sign then 1 else 0
  {
    if a.IsNan() || b.IsNan() {
      return QNAN;
    }
    if a.IsInf() || b.IsInf() {
      if a.IsInf() && b.IsInf() {
        return if a.sign != b.sign then QNAN else Inf(a.sign);
      }
      return if a.IsInf() then a else b;
    }
    if a.sign != b.sign {
      r := F80Sub(a, b.Negated());
      return;
    }
    if a.IsZero() {
      return b;
    }
    if b.IsZero() {
      return a;
    }
    var am, ae := Unpack(a);
    var bm, be := Unpack(b);
    var sum, e := AddMagnitudes(am, ae, bm, be);
    var (mant, e') := RoundToNearestEven(sum, e);
    return PackNormal(a.sign, mant, e');
  }

  method F80Sub(a: Float80, b: Float80) returns (r: Float80)
    ensures r == Sub(a, b)
    decreases if a.sign != b.sign then 1 else 0
  {
    if a.IsNan() || b.IsNan() {
      return QNAN;
    }
    if a.IsInf() && b.IsInf() {
      return if a.sign == b.sign then QNAN else Inf(a.sign);
    }
    if a.IsInf() {
      return a;
    }
    if b.IsInf() {
      return Inf(!b.sign);
    }
    if a.sign != b.sign {
      r := F80Add(a, b.Negated());
      return;
    }
    if a.IsZero() && b.IsZero() {
      return Zero(false);
    }
    if b.IsZero() {
      return a;
    }
    if a.IsZero() {
      return b.Negated();
    }
    var am, ae := Unpack(a);
    var bm, be := Unpack(b);
    var flip, diff, e := SubMagnitudes(am, ae, bm, be);
    if diff.hi == 0 && diff.lo == 0 {
      return Zero(false);
    }
    var (mant, e') := RoundToNearestEven(diff, e);
    return PackNormal(a.sign != flip, mant, e');
  }

  method F80Mul(a: Float80, b: Float80) returns (r: Float80)
    ensures r == Mul(a, b)
  {
    var sign := a.sign != b.sign;
    if a.IsNan() || b.IsNan() {
      return QNAN;
    }
    if a.IsInf() || b.IsInf() {
      return if a.IsZero() || b.IsZero() then QNAN else Inf(sign);
    }
    if a.IsZero() || b.IsZero() {
      return Zero(sign);
    }
    var am, ae := Unpack(a);
    var bm, be := Unpack(b);
    var p := Mul64x64(am, bm);
    var rawExp := ae + be - BIAS;
    if p.hi >= TWO63 {
      rawExp := rawExp + 1;
    } else {
      p := Double128(p);
    }
    var (mant, e) := RoundToNearestEven(p, rawExp);
    return PackNormal(sign, mant, e);
  }

  /** The round and sticky bits of num / den from the remainder, in 64-bit arithmetic. */
  method RoundBits(rem: u64, den: u64) returns (roundBit: bool, sticky: bool)
    ensures rem < den ==> (roundBit <==> 2 * rem >= den)
    ensures rem < den ==> (sticky <==> 2 * rem != if roundBit then den else 0)
  {
    var doubled := (2 * rem) % TWO64;
    var after;
    if rem >= TWO63 {
      roundBit := true;
      var complement := (TWO64 - 1 - den + 1) % TWO64;
      after := (doubled + complement) % TWO64;
    } else if doubled >= den {
      roundBit, after := true, doubled - den;
    } else {
      roundBit, after := false, doubled;
    }
    sticky := after != 0;
  }

  method DivideMagnitudes(am: u64, ae: int, bm: u64, be: int) returns (m: U128, rawExp: int)
    ensures bm >= TWO63 ==> (m.Val(), rawExp) == QuotientOf(am, ae, bm, be)
  {
    var num;
    if am < bm {
      num, rawExp := U128(am, 0), ae - be + BIAS - 1;
    } else {
      num, rawExp := U128(am / 2, (am % 2) * TWO63), ae - be + BIAS;
    }
    assert num.Val() == Numerator(am, bm);
    var q, rem := Div128By64(num, bm);
    if num.hi < bm {
      DivModUnique(num.Val(), bm, q, rem);
    }
    var roundBit, sticky := RoundBits(rem, bm);
    m := U128(q, (if roundBit then TWO63 else 0) + (if sticky then 1 else 0));
  }

  method F80Div(a: Float80, b: Float80) returns (r: Float80)
    ensures b.Canonical() ==> r == Div(a, b)
  {
    var sign := a.sign != b.sign;
    if a.IsNan() || b.IsNan() {
      return QNAN;
    }
    if a.IsInf() && b.IsInf() {
      return QNAN;
    }
    if b.IsZero() {
      return if a.IsZero() then QNAN else Inf(sign);
    }
    if a.IsZero() {
      return Zero(sign);
    }
    if a.IsInf() {
      return Inf(sign);
    }
    if b.IsInf() {
      return Zero(sign);
    }
    var am, ae := Unpack(a);
    var bm, be := Unpack(b);
    var m, rawExp := DivideMagnitudes(am, ae, bm, be);
    var (mant, e) := RoundToNearestEven(m, rawExp);
    return PackNormal(sign, mant, e);
  }
}
