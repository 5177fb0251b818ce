/** The soft-float operations return the exact real result rounded once. */
module FloatCorrect {
  import opened Words
  import opened Rounding
  import opened Magnitudes
  import opened SoftFloat
  import opened FloatReference

  /** Exponent of the last significand bit when the raw exponent is 0. */
  const SCALE: int := BIAS + 63

  /** The magnitude of a finite pattern; denormals use exponent 1. */
  ghost function Magnitude(f: Float80): real
    requires f.IsFinite()
  {
    Scaled(f.sig, Max(f.rawExp, 1) - SCALE)
  }

  /** The real number a finite pattern denotes. */
  ghost function Value(f: Float80): real
    requires f.IsFinite()
  {
    if f.sign then -Magnitude(f) else Magnitude(f)
  }

  predicate Number(f: Float80) {
    f.Canonical() && f.IsFinite() && !f.IsZero()
  }

  /** r is the magnitude rounded once to nearest-even with an unbounded exponent, then overflowed to
      infinity or flushed to a signed zero when the raw exponent leaves 1 .. 0x7FFE. */
  ghost predicate RoundsTo(sign: bool, magnitude: real, r: Float80) {
    exists m: u64, e :: NearestEven(magnitude, m, e) && r == PackNormal(sign, m, e + SCALE)
  }

  ghost predicate RoundedOnce(x: real, r: Float80) {
    RoundsTo(x < 0.0, Abs(x), r)
  }

  lemma RoundedOnceUnique(x: real, r: Float80, r': Float80)
    requires RoundedOnce(x, r) && RoundedOnce(x, r')
    ensures r == r'
  {
    var m: u64, e :| NearestEven(Abs(x), m, e) && r == PackNormal(x < 0.0, m, e + SCALE);
    var m': u64, e' :| NearestEven(Abs(x), m', e') && r' == PackNormal(x < 0.0, m', e' + SCALE);
    NearestEvenUnique(Abs(x), m, e, m', e');
  }

  // ---- Unpacking keeps the value -----------------------------------------------

  lemma UnpackedValue(f: Float80)
    requires Number(f)
    ensures var (m, e) := Unpacked(f); Mantissa(m) && Scaled(m, e - SCALE) == Magnitude(f)
  {
    if f.rawExp == 0 {
      NormalizedValue(f.sig, 0, TWO63);
      var (m0, e0) := Normalized(f.sig, 0, TWO63);
      Rescale(m0, e0, f.sig, 0, 1 - SCALE);
    }
  }

  lemma PositiveScaled(m: int, e: int)
    requires m > 0
    ensures Scaled(m, e) > 0.0
  {
    ScaledMono(0, m, e);
    ShiftZero(e);
  }

  lemma Rescale(m: int, e: int, m': int, e': int, k: int)
    requires Scaled(m, e) == Scaled(m', e')
    ensures Scaled(m, e + k) == Scaled(m', e' + k)
  {
    ShiftShift(m as real, e, k);
    ShiftShift(m' as real, e', k);
  }

  lemma MagnitudePositive(f: Float80)
    requires Number(f)
    ensures Magnitude(f) > 0.0
  {
    PositiveScaled(f.sig, Max(f.rawExp, 1) - SCALE);
  }

  // ---- From a deciding integer to a delivered result ----------------------------

  lemma DeliveredIsRounded(magnitude: real, t: real, sign: bool, j: nat, e: int)
    requires TWO127 <= j < TWO128 && Decides(t, j)
    requires Shift(t, e - 64 - SCALE) == magnitude
    ensures RoundsTo(sign, magnitude, Delivered(sign, j, e))
  {
    RoundsCorrectly(t, j, e - SCALE);
    var (m, e') := RoundHalves(j, e);
    assert RoundHalves(j, e - SCALE) == (m, e' - SCALE);
    var w: u64 := m;
    assert NearestEven(magnitude, w, e' - SCALE);
    assert Delivered(sign, j, e) == PackNormal(sign, w, (e' - SCALE) + SCALE);
  }

  // ---- Alignment -----------------------------------------------------------------

  /** The significand shifted down to exponent e, without losing anything. */
  ghost function Aligned(m: u64, ae: int, e: int): real {
    Shift((m * TWO64) as real, ae - e)
  }

  lemma AlignedValue(m: u64, ae: int, e: int, k: int)
    ensures Shift(Aligned(m, ae, e), e - 64 - k) == Scaled(m, ae - k)
  {
    ShiftShift((m * TWO64) as real, ae - e, e - 64 - k);
    Pow2Values();
    ScaledShift(m, ae - k - 64, 64);
  }

  lemma AlignedJams(m: u64, ae: int, e: int)
    requires ae <= e
    ensures Jams(Aligned(m, ae, e), Jam(m * TWO64, e - ae))
    ensures ae == e ==> AlignedExactly(m, ae, e)
  {
    JamsAt(m * TWO64, e - ae, ae - e);
    if ae == e {
      AlignedUnshifted(m, e);
    }
  }

  lemma AlignedUnshifted(m: u64, e: int)
    ensures AlignedExactly(m, e, e)
  {
    EvenMultiple(m);
  }

  lemma EvenMultiple(m: nat)
    ensures (m * TWO64) % 2 == 0
  {
    assert m * TWO64 == 2 * (m * TWO63);
  }

  lemma JamsAt(v: nat, n: nat, k: int)
    requires k + n == 0
    ensures Jams(Shift(v as real, k), Jam(v, n))
  {
    JamIsJams(v, n);
  }

  /** The operand with the larger exponent is not shifted, and its guard field is empty. */
  ghost predicate AlignedExactly(m: u64, ae: int, e: int)
    requires ae <= e
  {
    var j := Jam(m * TWO64, e - ae);
    j == m * TWO64 && j % 2 == 0 && Aligned(m, ae, e) == j as real
  }

  // ---- Addition of magnitudes ----------------------------------------------------

  lemma SumJams(am: u64, ae: int, bm: u64, be: int)
    ensures var e := Max(ae, be);
      Jams(Aligned(am, ae, e) + Aligned(bm, be, e), Jam(am * TWO64, e - ae) + Jam(bm * TWO64, e - be))
  {
    var e := Max(ae, be);
    AlignedJams(am, ae, e);
    AlignedJams(bm, be, e);
    if e == ae {
      JamsOffset(Aligned(am, ae, e), Jam(am * TWO64, e - ae), Aligned(bm, be, e), Jam(bm * TWO64, e - be));
    } else {
      JamsOffset(Aligned(bm, be, e), Jam(bm * TWO64, e - be), Aligned(am, ae, e), Jam(am * TWO64, e - ae));
    }
  }

  lemma SumValue(am: u64, ae: int, bm: u64, be: int, k: int)
    ensures var e := Max(ae, be);
      Shift(Aligned(am, ae, e) + Aligned(bm, be, e), e - 64 - k) == Scaled(am, ae - k) + Scaled(bm, be - k)
  {
    var e := Max(ae, be);
    AlignedValue(am, ae, e, k);
    AlignedValue(bm, be, e, k);
    ShiftAdd(Aligned(am, ae, e), Aligned(bm, be, e), e - 64 - k);
  }

  lemma SumAtLeast(am: u64, ae: int, bm: u64, be: int)
    requires Mantissa(am) && Mantissa(bm)
    ensures SumOf(am, ae, bm, be).0 >= TWO127
  {
    var e := Max(ae, be);
    AlignedJams(am, ae, e);
    AlignedJams(bm, be, e);
  }

  lemma SumDecides(am: u64, ae: int, bm: u64, be: int, k: int) returns (t: real)
    ensures var (j, e) := SumOf(am, ae, bm, be);
      && Decides(t, j)
      && Shift(t, e - 64 - k) == Scaled(am, ae - k) + Scaled(bm, be - k)
  {
    var e := Max(ae, be);
    var j := Jam(am * TWO64, e - ae) + Jam(bm * TWO64, e - be);
    SumJams(am, ae, bm, be);
    SumValue(am, ae, bm, be, k);
    t := Aligned(am, ae, e) + Aligned(bm, be, e);
    if j >= TWO128 {
      JamTwice(t, j);
      ShiftHalf(t, e - 64 - k);
      t := t / 2.0;
      JamsDecides(t, JamOnce(j));
    } else {
      JamsDecides(t, j);
    }
  }

  lemma ShiftHalf(t: real, k: int)
    ensures Shift(t / 2.0, k + 1) == Shift(t, k)
  {
    ShiftSucc(t / 2.0, k);
    ShiftDouble(t / 2.0, k);
  }

  // ---- Subtraction of magnitudes -------------------------------------------------

  /** When bits were jammed away the other operand dominates, so at most one left shift follows. */
  lemma JamOnlyFarApart(m: u64, n: nat)
    ensures Shift((m * TWO64) as real, -(n as int)) == Jam(m * TWO64, n) as real || Jam(m * TWO64, n) <= TWO63
  {
    if n <= 64 {
      JamNear(m, n);
    } else {
      JamFar(m, n - 65);
    }
  }

  lemma JamNear(m: u64, n: nat)
    requires n <= 64
    ensures Shift((m * TWO64) as real, -(n as int)) == Jam(m * TWO64, n) as real
  {
    JamExact(m, 64, n);
    ProductSplit(m, n);
    ShiftDown(m * Pow2(64 - n), n);
  }

  lemma Regroup(m: nat, p: nat, s: nat, w: nat)
    requires p * s == w
    ensures m * w == (m * p) * s
  {
  }

  lemma ProductSplit(m: nat, n: nat)
    requires n <= 64
    ensures m * TWO64 == (m * Pow2(64 - n)) * Pow2(n)
    ensures m * Pow2(64) == m * TWO64
  {
    PowersOfWord(n);
    SplitBy(m, Pow2(64 - n), Pow2(n));
    WordPower(64);
    EqualTimes(m, Pow2(64), TWO64);
  }

  lemma SplitBy(m: nat, p: nat, s: nat)
    requires s * p == TWO64
    ensures m * TWO64 == (m * p) * s
  {
    Regroup(m, p, s, TWO64);
  }

  lemma EqualTimes(m: nat, x: nat, y: nat)
    requires x == y
    ensures m * x == m * y
  {
  }

  lemma WordPower(n: nat)
    requires n == 64
    ensures Pow2(n) == TWO64
  {
    PowersOfWord(n);
  }

  lemma JamFar(m: u64, n: nat)
    ensures Jam(m * TWO64, 65 + n) <= TWO63
  {
    JamExact(m, 64, 64);
    ProductSplit(m, 64);
    JamSplit(m * TWO64, 65, n);
    assert Jam(m * TWO64, 65) == JamOnce(Jam(m * TWO64, 64));
    assert m * Pow2(0) == m;
  }

  /** The signed gap between the aligned operands, and its jammed counterpart. */
  ghost function TrueGap(am: u64, ae: int, bm: u64, be: int): real {
    var e := Max(ae, be);
    Aligned(am, ae, e) - Aligned(bm, be, e)
  }

  function JammedGap(am: u64, ae: int, bm: u64, be: int): int {
    var e := Max(ae, be);
    Jam(am * TWO64, e - ae) - Jam(bm * TWO64, e - be)
  }

  lemma GapJams(am: u64, ae: int, bm: u64, be: int)
    ensures Jams(TrueGap(am, ae, bm, be), JammedGap(am, ae, bm, be))
  {
    var e := Max(ae, be);
    AlignedJams(am, ae, e);
    AlignedJams(bm, be, e);
    if e == ae {
      JamsOffset(Aligned(am, ae, e), Jam(am * TWO64, e - ae), Aligned(bm, be, e), Jam(bm * TWO64, e - be));
    } else {
      JamsOffset(Aligned(bm, be, e), Jam(bm * TWO64, e - be), Aligned(am, ae, e), Jam(am * TWO64, e - ae));
    }
  }

  lemma InexactGapIsLarge(am: u64, ae: int, bm: u64, be: int)
    requires Mantissa(am) && Mantissa(bm)
    requires TrueGap(am, ae, bm, be) != JammedGap(am, ae, bm, be) as real
    ensures TWO127 <= 2 * JammedGap(am, ae, bm, be) || TWO127 <= -2 * JammedGap(am, ae, bm, be)
  {
    var e := Max(ae, be);
    AlignedJams(am, ae, e);
    AlignedJams(bm, be, e);
    JamOnlyFarApart(am, e - ae);
    JamOnlyFarApart(bm, e - be);
  }

  lemma GapValue(am: u64, ae: int, bm: u64, be: int, k: int)
    ensures Shift(TrueGap(am, ae, bm, be), Max(ae, be) - 64 - k) == Scaled(am, ae - k) - Scaled(bm, be - k)
  {
    var e := Max(ae, be);
    AlignedValue(am, ae, e, k);
    AlignedValue(bm, be, e, k);
    ShiftAdd(Aligned(am, ae, e), -Aligned(bm, be, e), e - 64 - k);
    ShiftNegate(Aligned(bm, be, e), e - 64 - k);
  }

  /** Normalising a jammed difference leaves an integer that still decides the rounding. */
  lemma NormalizedDecides(t: real, d: nat, e: int, k: int) returns (t': real)
    requires Jams(t, d) && 0 < d < TWO128
    requires t != d as real ==> TWO127 <= 2 * d
    ensures var (j, e') := Normalized(d, e, TWO127);
      TWO127 <= j < TWO128 && Decides(t', j) && Shift(t', e' - 64 - k) == Shift(t, e - 64 - k)
  {
    var (j, e') := Normalized(d, e, TWO127);
    if t == d as real {
      t' := j as real;
      NormalizedValue(d, e, TWO127);
      Rescale(j, e', d, e, -64 - k);
      JamsDecides(t', j);
    } else {
      NormalizedOnce(d, e, TWO127);
      JamsDecides(t, d);
      t' := if d >= TWO127 then t else 2.0 * t;
      ShiftHalf(2.0 * t, e - 1 - 64 - k);
    }
  }

  lemma ShiftAbs(t: real, k: int)
    ensures Abs(Shift(t, k)) == Shift(Abs(t), k)
    ensures Shift(t, k) < 0.0 <==> t < 0.0
    ensures Shift(t, k) == 0.0 <==> t == 0.0
  {
    ShiftNegate(t, k);
    ShiftZero(k);
    ShiftMono(t, 0.0, k);
    ShiftMono(0.0, t, k);
  }

  lemma DifferenceDecides(am: u64, ae: int, bm: u64, be: int, k: int) returns (t: real)
    requires Mantissa(am) && Mantissa(bm)
    ensures var (flip, j, e) := DifferenceOf(am, ae, bm, be);
      var x := Scaled(am, ae - k) - Scaled(bm, be - k);
      && (j == 0 <==> x == 0.0)
      && (j != 0 ==> TWO127 <= j && Decides(t, j) && Shift(t, e - 64 - k) == Abs(x) && flip == (x < 0.0))
  {
    var gap, jam := TrueGap(am, ae, bm, be), JammedGap(am, ae, bm, be);
    GapJams(am, ae, bm, be);
    GapValue(am, ae, bm, be, k);
    ShiftAbs(gap, Max(ae, be) - 64 - k);
    JamsCompare(gap, jam, 0);
    JamsOffset(0.0, 0, gap, jam);
    t := 0.0;
    if jam != 0 {
      var d := if jam >= 0 then jam else -jam;
      if gap != jam as real {
        InexactGapIsLarge(am, ae, bm, be);
      }
      t := NormalizedDecides(Abs(gap), d, Max(ae, be), k);
    }
  }

  // ---- Addition and subtraction --------------------------------------------------

  /** The numeric specification of addition: exact sum, rounded once; an exact zero is +0. */
  ghost predicate AddSpec(a: Float80, b: Float80, r: Float80)
    requires Number(a) && Number(b)
  {
    var x := Value(a) + Value(b);
    if x == 0.0 then r == Zero(false) else RoundedOnce(x, r)
  }

  lemma SameSignRounds(a: Float80, b: Float80)
    requires Number(a) && Number(b) && a.sign == b.sign
    ensures RoundsTo(a.sign, Magnitude(a) + Magnitude(b), Add(a, b))
  {
    UnpackedValue(a);
    UnpackedValue(b);
    var ((am, ae), (bm, be)) := (Unpacked(a), Unpacked(b));
    var (j, e) := SumOf(am, ae, bm, be);
    var t := SumDecides(am, ae, bm, be, SCALE);
    SumAtLeast(am, ae, bm, be);
    DeliveredIsRounded(Magnitude(a) + Magnitude(b), t, a.sign, j, e);
  }

  lemma OppositeSignRounds(a: Float80, b: Float80)
    requires Number(a) && Number(b) && a.sign != b.sign
    ensures var gap := Magnitude(a) - Magnitude(b);
            if gap == 0.0 then Add(a, b) == Zero(false)
            else RoundsTo(a.sign != (gap < 0.0), Abs(gap), Add(a, b))
  {
    UnpackedValue(a);
    UnpackedValue(b);
    var ((am, ae), (bm, be)) := (Unpacked(a), Unpacked(b));
    var (flip, j, e) := DifferenceOf(am, ae, bm, be);
    var t := DifferenceDecides(am, ae, bm, be, SCALE);
    if j != 0 {
      DeliveredIsRounded(Abs(Magnitude(a) - Magnitude(b)), t, a.sign != flip, j, e);
    }
  }

  lemma AddRoundsOnce(a: Float80, b: Float80)
    requires Number(a) && Number(b)
    ensures AddSpec(a, b, Add(a, b))
  {
    MagnitudePositive(a);
    MagnitudePositive(b);
    if a.sign == b.sign {
      SameSignRounds(a, b);
    } else {
      OppositeSignRounds(a, b);
    }
  }

  lemma SubRoundsOnce(a: Float80, b: Float80)
    requires Number(a) && Number(b)
    ensures var x := Value(a) - Value(b);
            if x == 0.0 then Sub(a, b) == Zero(false) else RoundedOnce(x, Sub(a, b))
  {
    AddRoundsOnce(a, b.Negated());
  }

  // ---- Multiplication --------------------------------------------------------------

  lemma DoubleTimes(u: real, v: real, y: real)
    requires u == 2.0 * v
    ensures u * y == 2.0 * (v * y)
  {
    assert (2.0 * v) * y == 2.0 * (v * y);
  }

  lemma {:induction false} ShiftTimes(x: real, k: int, y: real)
    ensures Shift(x, k) * y == Shift(x * y, k)
    decreases if k < 0 then -k else k
  {
    if k > 0 {
      ShiftTimes(x, k - 1, y);
      DoubleTimes(Shift(x, k), Shift(x, k - 1), y);
    } else if k < 0 {
      ShiftTimes(x, k + 1, y);
      DoubleTimes(Shift(x, k + 1), Shift(x, k), y);
    }
  }

  lemma ShiftProduct(x: real, a: int, y: real, b: int)
    ensures Shift(x, a) * Shift(y, b) == Shift(x * y, a + b)
  {
    TimesShift(x, y, b);
    ShiftBoth(x, a, Shift(y, b), x * y, b);
  }

  lemma ShiftBoth(x: real, a: int, u: real, p: real, b: int)
    requires x * u == Shift(p, b)
    ensures Shift(x, a) * u == Shift(p, a + b)
  {
    ShiftTimes(x, a, u);
    ShiftShift(p, b, a);
  }

  lemma TimesShift(x: real, y: real, b: int)
    ensures x * Shift(y, b) == Shift(x * y, b)
  {
    ShiftTimes(y, b, x);
    Swapped(x, y);
    Swapped(x, Shift(y, b));
  }

  lemma Swapped(x: real, y: real)
    ensures x * y == y * x
  {
  }

  lemma MantissaProduct(am: int, bm: int)
    requires Mantissa(am) && Mantissa(bm)
    ensures TWO127 <= 2 * (am * bm)
  {
    MulNonNegative(am - TWO63, bm);
    assert (am - TWO63) * bm == am * bm - TWO63 * bm;
  }

  lemma ProductDecides(am: u64, ae: int, bm: u64, be: int) returns (t: real)
    requires Mantissa(am) && Mantissa(bm)
    ensures var (j, e) := ProductOf(am, ae, bm, be);
      && TWO127 <= j
      && Decides(t, j)
      && 0 <= am * bm
      && Shift(t, e - 64 - SCALE) == Scaled(am * bm, ae + be - 2 * SCALE)
  {
    var p := am * bm;
    MantissaProduct(am, bm);
    ProductFits(am, bm);
    if p >= TWO127 {
      t := p as real;
    } else {
      t := (2 * p) as real;
      Halved(p, ae + be - 2 * SCALE);
    }
    JamsDecides(t, ProductOf(am, ae, bm, be).0);
  }

  lemma ProductScaled(am: int, ae: int, bm: int, be: int)
    ensures Scaled(am, ae) * Scaled(bm, be) == Scaled(am * bm, ae + be)
  {
    ShiftProduct(am as real, ae, bm as real, be);
    IntProduct(am, bm);
  }

  lemma IntProduct(a: int, b: int)
    ensures (a * b) as real == a as real * b as real
  {
  }

  /** Signs and magnitudes multiply separately. */
  lemma SignedProduct(u: real, x: real, sx: bool, v: real, y: real, sy: bool)
    requires x > 0.0 && y > 0.0
    requires u == (if sx then -x else x) && v == (if sy then -y else y)
    ensures u * v < 0.0 <==> sx != sy
    ensures Abs(u * v) == x * y
  {
    assert x * y > 0.0;
    assert (-x) * y == -(x * y) && x * (-y) == -(x * y) && (-x) * (-y) == x * y;
  }

  lemma AbsProduct(u: real, v: real)
    ensures Abs(u * v) == Abs(u) * Abs(v)
  {
  }

  lemma EqualFactors(x: real, y: real, x': real, y': real)
    requires x == x' && y == y'
    ensures x * y == x' * y'
  {
  }

  lemma AbsScaledProduct(u: real, am: int, ae: int, v: real, bm: int, be: int)
    requires Abs(u) == Scaled(am, ae) && Abs(v) == Scaled(bm, be)
    ensures Abs(u * v) == Scaled(am * bm, ae + be)
  {
    AbsProduct(u, v);
    EqualFactors(Abs(u), Abs(v), Scaled(am, ae), Scaled(bm, be));
    ProductScaled(am, ae, bm, be);
  }

  lemma AbsValue(f: Float80)
    requires Number(f)
    ensures Abs(Value(f)) == Scaled(Unpacked(f).0, Unpacked(f).1 - SCALE)
  {
    UnpackedValue(f);
    MagnitudePositive(f);
  }

  function ProductSig(a: Float80, b: Float80): int {
    (Unpacked(a).0 as int) * Unpacked(b).0
  }

  function ProductExp(a: Float80, b: Float80): int {
    (Unpacked(a).1 - SCALE) + (Unpacked(b).1 - SCALE)
  }

  lemma ExactProductSign(a: Float80, b: Float80, u: real, v: real)
    requires Number(a) && Number(b)
    requires u == Value(a) && v == Value(b)
    ensures u * v < 0.0 <==> a.sign != b.sign
  {
    MagnitudePositive(a);
    MagnitudePositive(b);
    SignedProduct(u, Magnitude(a), a.sign, v, Magnitude(b), b.sign);
  }

  lemma ExactProduct(a: Float80, b: Float80, u: real, v: real)
    requires Number(a) && Number(b)
    requires u == Value(a) && v == Value(b)
    ensures Abs(u * v) == Scaled(ProductSig(a, b), ProductExp(a, b))
  {
    AbsValue(a);
    AbsValue(b);
    AbsScaledProduct(u, Unpacked(a).0, Unpacked(a).1 - SCALE, v, Unpacked(b).0, Unpacked(b).1 - SCALE);
  }

  lemma MulOfExact(a: Float80, b: Float80, exact: real)
    requires Number(a) && Number(b)
    requires exact < 0.0 <==> a.sign != b.sign
    requires Abs(exact) == Scaled(ProductSig(a, b), ProductExp(a, b))
    ensures RoundedOnce(exact, Mul(a, b))
  {
    UnpackedValue(a);
    UnpackedValue(b);
    var ((am, ae), (bm, be)) := (Unpacked(a), Unpacked(b));
    var t := ProductDecides(am, ae, bm, be);
    DeliveredIsRounded(Abs(exact), t, a.sign != b.sign, ProductOf(am, ae, bm, be).0, ProductOf(am, ae, bm, be).1);
  }

  /** Multiplication: the exact product of the two values, rounded once. */
  lemma MulRoundsOnce(a: Float80, b: Float80, x: real, y: real)
    requires Number(a) && Number(b)
    requires x == Value(a) && y == Value(b)
    ensures RoundedOnce(x * y, Mul(a, b))
  {
    ExactProductSign(a, b, x, y);
    ExactProduct(a, b, x, y);
    MulOfExact(a, b, x * y);
  }

  // ---- Division --------------------------------------------------------------------

  /** Dividing the doubled remainder places the tail below, at or above one half. */
  lemma TailPlacement(r: real, d: real, inv: real, f: real)
    requires 0.0 <= r < d && d * inv == 1.0 && inv > 0.0 && f == r * inv
    ensures f == 0.0 <==> r == 0.0
    ensures 0.0 <= f < 1.0
    ensures 2.0 * f < 1.0 <==> 2.0 * r < d
    ensures 2.0 * f == 1.0 <==> 2.0 * r == d
  {
    ScaleOrder(0.0, r, inv, 0.0, f);
    ScaleOrder(r, d, inv, f, 1.0);
    DoubleTimes(2.0 * r, r, inv);
    ScaleOrder(2.0 * r, d, inv, 2.0 * f, 1.0);
  }

  lemma ScaleOrder(x: real, y: real, p: real, xp: real, yp: real)
    requires p > 0.0 && xp == x * p && yp == y * p
    ensures x < y <==> xp < yp
    ensures x == y <==> xp == yp
  {
    if x < y {
      StrictScale(x, y, p);
    } else if y < x {
      StrictScale(y, x, p);
    }
  }

  lemma StrictScale(x: real, y: real, p: real)
    requires p > 0.0 && x < y
    ensures x * p < y * p
  {
    var d := y - x;
    assert d * p > 0.0;
    assert y * p == x * p + d * p;
  }

  /** An integer whose fractional word sits in the same cell as the true tail decides for it. */
  lemma SameCell(q: nat, f: real, g: int)
    requires 0.0 <= f < TWO64 as real && 0 <= g < TWO64
    requires f == 0.0 <==> g == 0
    requires f < TWO63 as real <==> g < TWO63
    requires f == TWO63 as real <==> g == TWO63
    ensures Decides((q * TWO64) as real + f, q * TWO64 + g)
  {
    var t, j := (q * TWO64) as real + f, q * TWO64 + g;
    forall k
      ensures (t < Boundary(k) as real <==> j < Boundary(k)) && (t == Boundary(k) as real <==> j == Boundary(k))
    {
      var d := k - 2 * q;
      assert Boundary(k) == q * TWO64 + d * TWO63;
    }
  }

  lemma GuardedCell(q: u64, rem: nat, den: nat, inv: real, f: real)
    requires rem < den && den as real * inv == 1.0 && inv > 0.0 && f == rem as real * inv
    ensures Decides((q * TWO64) as real + TWO64 as real * f, Guarded(q, rem, den))
  {
    TailPlacement(rem as real, den as real, inv, f);
    SameCell(q, TWO64 as real * f, Guarded(q, rem, den) - q * TWO64);
  }

  lemma QuotientTimes(num: nat, den: nat, q: nat, rem: nat, inv: real, x: real, f: real)
    requires num == q * den + rem && den as real * inv == 1.0
    requires x == num as real * inv && f == rem as real * inv
    ensures x == q as real + f
  {
    var n, d, r := q as real, den as real, rem as real;
    assert num as real == n * d + r by {
      IntProduct(q, den);
    }
    assert (n * d + r) * inv == (n * d) * inv + r * inv;
    assert (n * d) * inv == n * (d * inv);
  }

  /** num / den as a real, times 2^64, is decided by the guarded integer quotient. */
  lemma GuardedDecides(num: nat, den: nat, q: u64, rem: nat, inv: real, x: real)
    requires num == q * den + rem && rem < den && den as real * inv == 1.0 && inv > 0.0
    requires x == num as real * inv
    ensures Decides(TWO64 as real * x, Guarded(q, rem, den))
  {
    var f := rem as real * inv;
    GuardedCell(q, rem, den, inv, f);
    QuotientTimes(num, den, q, rem, inv, x, f);
  }

  /** The quotient of two significands: at least one half and below two, so q fills 64 bits. */
  lemma QuotientFull(am: u64, bm: u64, num: nat)
    requires Mantissa(am) && Mantissa(bm) && num == Numerator(am, bm)
    ensures num < bm * TWO64 && TWO63 * bm <= num
  {
  }

  lemma QuotientAtLeast(num: nat, den: nat, q: nat, rem: nat)
    requires den > 0 && num == q * den + rem && rem < den && TWO63 * den <= num
    ensures q >= TWO63
  {
    if q < TWO63 {
      BelowNext(q, TWO63, den, rem);
    }
  }

  lemma BelowNext(q: nat, s: nat, den: nat, rem: nat)
    requires q < s && rem < den
    ensures q * den + rem < s * den
  {
    MulNonNegative(s - 1 - q, den);
    assert (s - 1 - q) * den == s * den - den - q * den;
  }

  lemma QuotientDecides(am: u64, bm: u64, inv: real, x: real)
    requires Mantissa(am) && Mantissa(bm) && bm as real * inv == 1.0 && inv > 0.0
    requires x == Numerator(am, bm) as real * inv
    ensures var j := QuotientOf(am, 0, bm, 0).0; TWO127 <= j && Decides(TWO64 as real * x, j)
  {
    var num := Numerator(am, bm);
    QuotientFull(am, bm, num);
    QuotientFits64(num, bm);
    var q, rem := num / bm, num % bm;
    assert num == q * bm + rem;
    QuotientAtLeast(num, bm, q, rem);
    GuardedDecides(num, bm, q, rem, inv, x);
  }

  lemma ShiftWord(w: real)
    ensures Shift(w, 64) == TWO64 as real * w
    ensures Shift(w, 63) == TWO63 as real * w
  {
    Pow2Values();
    ShiftAsPower(w, 64);
    ShiftAsPower(w, 63);
  }

  lemma ShiftAsPower(w: real, n: nat)
    ensures Shift(w, n) == Pow2(n) as real * w
  {
    ShiftNat(1, n);
    ShiftTimes(1.0, n, w);
    assert 1.0 * w == w;
  }

  /** The numerator was pre-shifted by 63 or 64 places; undo it in the exponent. */
  lemma PreShift(am: u64, bm: u64, inv: real, w: real, x: real, k: int)
    requires w == am as real * inv && x == Numerator(am, bm) as real * inv
    ensures Shift(TWO64 as real * x, k) == Shift(w, k + 64 + if am < bm then 64 else 63)
  {
    ShiftWord(x);
    ShiftWord(w);
    var n := if am < bm then 64 else 63;
    Factor(am, if am < bm then TWO64 else TWO63, inv, w, x);
    assert x == Shift(w, n);
    ShiftTwice(w, n, x, k);
  }

  lemma ShiftTwice(w: real, n: int, x: real, k: int)
    requires x == Shift(w, n)
    ensures Shift(Shift(x, 64), k) == Shift(w, k + 64 + n)
  {
    ShiftShift(x, 64, k);
    ShiftShift(w, n, 64 + k);
  }

  lemma Factor(m: nat, c: nat, inv: real, w: real, x: real)
    requires w == m as real * inv && x == (m * c) as real * inv
    ensures x == c as real * w
  {
    var mr, cr := m as real, c as real;
    IntProduct(m, c);
    assert (mr * cr) * inv == cr * (mr * inv);
  }

  /** Dividing scaled significands: divide the significands and subtract the exponents. */
  lemma ScaledQuotient(am: u64, ea: int, bm: u64, eb: int, inv: real, w: real, y: real, d: real, n: real)
    requires bm as real * inv == 1.0 && w == am as real * inv
    requires d == Scaled(bm, eb) && d > 0.0 && n == Scaled(am, ea) && y * d == n
    ensures y == Shift(w, ea - eb)
  {
    var z := Shift(w, ea - eb);
    Regroup3(am as real, inv, bm as real, w);
    ProductBack(w, bm as real, am as real, ea, eb, z, d, n);
    CancelFactor(y, z, d, n);
  }

  lemma ProductBack(w: real, b: real, p: real, ea: int, eb: int, z: real, d: real, n: real)
    requires w * b == p && z == Shift(w, ea - eb) && d == Shift(b, eb) && n == Shift(p, ea)
    ensures z * d == n
  {
    ShiftProduct(w, ea - eb, b, eb);
    EqualFactors(z, d, Shift(w, ea - eb), Shift(b, eb));
    assert (ea - eb) + eb == ea;
  }

  lemma Regroup3(m: real, inv: real, b: real, w: real)
    requires b * inv == 1.0 && w == m * inv
    ensures w * b == m
  {
    assert (m * inv) * b == m * (b * inv);
  }

  lemma CancelFactor(y: real, z: real, d: real, n: real)
    requires d > 0.0 && y * d == n && z * d == n
    ensures y == z
  {
    if y < z {
      StrictScale(y, z, d);
    } else if z < y {
      StrictScale(z, y, d);
    }
  }

  lemma DivOfExact(a: Float80, b: Float80, exact: real, y: real, n: real, d: real)
    requires Number(a) && Number(b)
    requires exact < 0.0 <==> a.sign != b.sign
    requires y == Abs(exact) && n == Magnitude(a) && d == Magnitude(b) && y * d == n
    ensures RoundedOnce(exact, Div(a, b))
  {
    UnpackedValue(a);
    UnpackedValue(b);
    MagnitudePositive(b);
    var ((am, ae), (bm, be)) := (Unpacked(a), Unpacked(b));
    QuotientRounds(a.sign != b.sign, am, ae, bm, be, y, n, d);
  }

  lemma QuotientRounds(sign: bool, am: u64, ae: int, bm: u64, be: int, y: real, n: real, d: real)
    requires Mantissa(am) && Mantissa(bm)
    requires n == Scaled(am, ae - SCALE) && d == Scaled(bm, be - SCALE) && d > 0.0
    requires y * d == n
    ensures var (j, e) := QuotientOf(am, ae, bm, be); RoundsTo(sign, y, Delivered(sign, j, e))
  {
    var inv := 1.0 / bm as real;
    var w, x := am as real * inv, Numerator(am, bm) as real * inv;
    var (j, e) := QuotientOf(am, ae, bm, be);
    ReciprocalOf(bm as real, inv);
    QuotientDecides(am, bm, inv, x);
    PreShift(am, bm, inv, w, x, e - 64 - SCALE);
    ScaledQuotient(am, ae - SCALE, bm, be - SCALE, inv, w, y, d, n);
    DeliveredIsRounded(y, TWO64 as real * x, sign, j, e);
  }

  lemma ReciprocalOf(b: real, inv: real)
    requires b > 0.0 && inv == 1.0 / b
    ensures b * inv == 1.0 && inv > 0.0
  {
  }

  lemma QuotientOfSigned(u: real, v: real, y: real)
    requires v != 0.0 && y == u / v
    ensures Abs(y) * Abs(v) == Abs(u)
    ensures u != 0.0 ==> (y < 0.0 <==> (u < 0.0) != (v < 0.0))
  {
    assert y * v == u;
    AbsProduct(y, v);
  }

  lemma DivSigns(a: Float80, b: Float80, x: real, y: real, q: real, n: real, d: real)
    requires Number(a) && Number(b)
    requires x == Value(a) && y == Value(b) && y != 0.0 && q == x / y
    requires n == Magnitude(a) && d == Magnitude(b)
    ensures Abs(q) * d == n
    ensures q < 0.0 <==> a.sign != b.sign
  {
    MagnitudePositive(a);
    MagnitudePositive(b);
    QuotientOfSigned(x, y, q);
    EqualFactors(Abs(q), Abs(y), Abs(q), d);
  }

  /** Division: the exact quotient of the two values, rounded once. */
  lemma DivRoundsOnce(a: Float80, b: Float80, x: real, y: real)
    requires Number(a) && Number(b)
    requires x == Value(a) && y == Value(b)
    ensures y != 0.0 && RoundedOnce(x / y, Div(a, b))
  {
    MagnitudePositive(b);
    DivSigns(a, b, x, y, x / y, Magnitude(a), Magnitude(b));
    DivOfExact(a, b, x / y, Abs(x / y), Magnitude(a), Magnitude(b));
  }

  // ---- Laws on every pair of bit patterns ------------------------------------------

  lemma PairsCommute(am: u64, ae: int, bm: u64, be: int)
    ensures SumOf(am, ae, bm, be) == SumOf(bm, be, am, ae)
    ensures var ((f, j, e), (f', j', e')) := (DifferenceOf(am, ae, bm, be), DifferenceOf(bm, be, am, ae));
            j == j' && e == e' && (j != 0 ==> f == !f')
  {
  }

  /** Addition and multiplication commute bit for bit, unnormals, infinities and NaNs included. */
  lemma AddCommutes(a: Float80, b: Float80)
    ensures Add(a, b) == Add(b, a)
  {
    var ((am, ae), (bm, be)) := (Unpacked(a), Unpacked(b));
    PairsCommute(am, ae, bm, be);
  }

  lemma MulCommutes(a: Float80, b: Float80)
    ensures Mul(a, b) == Mul(b, a)
  {
  }
}
