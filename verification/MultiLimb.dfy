/** Arithmetic on numbers of many limbs, carried from limb to limb by the carry flag. */
module MultiLimb {
  import opened Words
  import opened EFlags
  import opened LazyFlags

  /** One limb up: u times the modulus. */
  function Raised(u: int, s: OpSize): int {
    if s == 1 then 0x100 * u else if s == 2 then 0x1_0000 * u
    else if s == 4 then 0x1_0000_0000 * u else 0x1_0000_0000_0000_0000 * u
  }

  /** Value of little-endian limbs. */
  function Unsigned(x: seq<nat>, s: OpSize): nat {
    if |x| == 0 then 0 else x[0] + Raised(Unsigned(x[1..], s), s)
  }

  /** Two's complement value: the last limb carries the sign. */
  function SignedValue(x: seq<nat>, s: OpSize): int
    requires |x| > 0 && Limbs(x, s)
  {
    if |x| == 1 then Signed(x[0], s) else x[0] + Raised(SignedValue(x[1..], s), s)
  }

  predicate Limbs(x: seq<nat>, s: OpSize) {
    forall i :: 0 <= i < |x| ==> x[i] < Modulus(s)
  }

  function Weight(n: nat, s: OpSize): nat {
    if n == 0 then 1 else Raised(Weight(n - 1, s), s)
  }

  /** A carry or borrow out of the top, worth w when set. */
  function Worth(carry: bool, w: int): int {
    if carry then w else 0
  }

  datatype Chained = Chained(limbs: seq<nat>, flags: RFlags)

  /** The carry an ADC or SBB reads; a plain ADD, SUB or CMP reads none. */
  predicate CarryIn(plain: bool, f: RFlags) {
    !plain && f.cf
  }

  lemma AddMeans(s: OpSize, a: u64, b: u64, r: u64, x: RFlags)
    requires a < Modulus(s) && b < Modulus(s) && r == Wrap(a + b, s) && x == ComputeAdd(s, b, r)
    ensures x.Six() == AddMeaning(s, a, b, false)
  {
    ComputeAddMeaning(s, a, b, b, r);
  }

  lemma AdcMeans(s: OpSize, a: u64, b: u64, c: bool, r: u64, x: RFlags)
    requires a < Modulus(s) && b < Modulus(s) && r == Wrap(a + b + B2N(c), s) && x == ComputeAdc(s, b, r, c)
    ensures x.Six() == AddMeaning(s, a, b, c)
  {
    ComputeAdcMeaning(s, a, b, c, b, r);
  }

  lemma SubMeans(s: OpSize, a: u64, b: u64, r: u64, x: RFlags)
    requires a < Modulus(s) && b < Modulus(s) && r == Wrap(a - b, s) && x == ComputeSub(s, b, r)
    ensures x.Six() == SubMeaning(s, a, b, false)
  {
    ComputeSubMeaning(s, a, b, b, r);
  }

  lemma SbbMeans(s: OpSize, a: u64, b: u64, c: bool, r: u64, x: RFlags)
    requires a < Modulus(s) && b < Modulus(s) && r == Wrap(a - b - B2N(c), s) && x == ComputeSbb(s, b, r, c)
    ensures x.Six() == SubMeaning(s, a, b, c)
  {
    ComputeSbbMeaning(s, a, b, c, b, r);
  }

  lemma SumShown(plain: bool, s: OpSize, a: u64, b: u64, f: RFlags, c: bool)
    requires a < Modulus(s) && b < Modulus(s) && c == CarryIn(plain, f)
    ensures LazyAlu(f, if plain then DoAdd else DoAdc, s, a, b).Six() == AddMeaning(s, a, b, c)
  {
    if plain {
      AddMeans(s, a, b, Wrap(a + b, s), LazyAlu(f, DoAdd, s, a, b));
    } else {
      CarryRead(f, s, a, b, c);
      AdcMeans(s, a, b, c, Wrap(a + b + B2N(c), s), LazyAlu(f, DoAdc, s, a, b));
    }
  }

  /** What the flags show after an instruction on two limbs, given what they showed before. */
  type Stepper = (bool, nat, nat, RFlags) -> RFlags

  /** What the lazy machine shows after ADD or ADC. */
  function SumFlags(plain: bool, s: OpSize, a: nat, b: nat, f: RFlags): RFlags {
    if a < Modulus(s) && b < Modulus(s) then LazyStep(f, Alu(if plain then DoAdd else DoAdc, s, a, b)) else f
  }

  function LazySum(s: OpSize): Stepper {
    (plain: bool, a: nat, b: nat, f: RFlags) => SumFlags(plain, s, a, b, f)
  }

  /** The carry flag is the carry out of the top. */
  ghost predicate CarriesUp(step: Stepper, s: OpSize) {
    forall plain: bool, a: nat, b: nat, f: RFlags {:trigger step(plain, a, b, f)} ::
      a < Modulus(s) && b < Modulus(s) ==>
        step(plain, a, b, f).cf == (a + b + B2N(CarryIn(plain, f)) >= Modulus(s))
  }

  lemma SumFlagsCarry(plain: bool, s: OpSize, a: nat, b: nat, f: RFlags, g: RFlags)
    requires a < Modulus(s) && b < Modulus(s) && g == SumFlags(plain, s, a, b, f)
    ensures g.cf == (a + b + B2N(CarryIn(plain, f)) >= Modulus(s))
  {
    SumShown(plain, s, a, b, f, CarryIn(plain, f));
  }

  lemma LazySumCarries(s: OpSize, step: Stepper)
    requires step == LazySum(s)
    ensures CarriesUp(step, s)
  {
    forall plain: bool, a: nat, b: nat, f: RFlags | a < Modulus(s) && b < Modulus(s)
      ensures step(plain, a, b, f).cf == (a + b + B2N(CarryIn(plain, f)) >= Modulus(s))
    {
      SumFlagsCarry(plain, s, a, b, f, step(plain, a, b, f));
    }
  }

  lemma DifferenceShown(plain: bool, s: OpSize, a: u64, b: u64, f: RFlags, c: bool)
    requires a < Modulus(s) && b < Modulus(s) && c == CarryIn(plain, f)
    ensures LazyAlu(f, if plain then DoSub else DoSbb, s, a, b).Six() == SubMeaning(s, a, b, c)
  {
    if plain {
      SubMeans(s, a, b, Wrap(a - b, s), LazyAlu(f, DoSub, s, a, b));
    } else {
      CarryRead(f, s, a, b, c);
      SbbMeans(s, a, b, c, Wrap(a - b - B2N(c), s), LazyAlu(f, DoSbb, s, a, b));
    }
  }

  /** What the lazy machine shows after SUB, CMP or SBB. */
  function DifferenceFlags(plain: bool, s: OpSize, a: nat, b: nat, f: RFlags): RFlags {
    if a < Modulus(s) && b < Modulus(s) then LazyStep(f, Alu(if plain then DoSub else DoSbb, s, a, b)) else f
  }

  function LazyDifference(s: OpSize): Stepper {
    (plain: bool, a: nat, b: nat, f: RFlags) => DifferenceFlags(plain, s, a, b, f)
  }

  /** The carry flag is the borrow, and the sign and overflow flags tell the sign of the exact difference. */
  ghost predicate BorrowsUp(step: Stepper, s: OpSize) {
    forall plain: bool, a: nat, b: nat, f: RFlags {:trigger step(plain, a, b, f)} ::
      a < Modulus(s) && b < Modulus(s) ==>
        && step(plain, a, b, f).cf == (a < b + B2N(CarryIn(plain, f)))
        && (step(plain, a, b, f).sf != step(plain, a, b, f).of
            <==> Signed(a, s) - Signed(b, s) - B2N(CarryIn(plain, f)) < 0)
  }

  lemma DifferenceFlagsBorrow(plain: bool, s: OpSize, a: nat, b: nat, f: RFlags, g: RFlags, c: bool)
    requires a < Modulus(s) && b < Modulus(s) && g == DifferenceFlags(plain, s, a, b, f) && c == CarryIn(plain, f)
    ensures g.cf == (a < b + B2N(c))
    ensures g.sf != g.of <==> Signed(a, s) - Signed(b, s) - B2N(c) < 0
  {
    DifferenceShown(plain, s, a, b, f, c);
    SignedBorrow(s, a, b, c);
  }

  lemma LazyDifferenceBorrows(s: OpSize, step: Stepper)
    requires step == LazyDifference(s)
    ensures BorrowsUp(step, s)
  {
    forall plain: bool, a: nat, b: nat, f: RFlags | a < Modulus(s) && b < Modulus(s)
      ensures var g, c := step(plain, a, b, f), CarryIn(plain, f);
        g.cf == (a < b + B2N(c)) && (g.sf != g.of <==> Signed(a, s) - Signed(b, s) - B2N(c) < 0)
    {
      DifferenceFlagsBorrow(plain, s, a, b, f, step(plain, a, b, f), CarryIn(plain, f));
    }
  }

  /** ADC limb by limb; the first step may be a plain ADD. */
  function AdcChain(step: Stepper, x: seq<nat>, y: seq<nat>, plain: bool, f: RFlags, s: OpSize): (r: Chained)
    requires |x| == |y| && Limbs(x, s) && Limbs(y, s)
    ensures |r.limbs| == |x| && Limbs(r.limbs, s)
  {
    if |x| == 0 then Chained([], f)
    else
      var rest := AdcChain(step, x[1..], y[1..], false, step(plain, x[0], y[0], f), s);
      Chained([Wrap(x[0] + y[0] + B2N(CarryIn(plain, f)), s)] + rest.limbs, rest.flags)
  }

  /** SBB limb by limb; the first step may be a plain SUB or CMP. */
  function SbbChain(step: Stepper, x: seq<nat>, y: seq<nat>, plain: bool, f: RFlags, s: OpSize): (r: Chained)
    requires |x| == |y| && Limbs(x, s) && Limbs(y, s)
    ensures |r.limbs| == |x| && Limbs(r.limbs, s)
  {
    if |x| == 0 then Chained([], f)
    else
      var rest := SbbChain(step, x[1..], y[1..], false, step(plain, x[0], y[0], f), s);
      Chained([Wrap(x[0] - y[0] - B2N(CarryIn(plain, f)), s)] + rest.limbs, rest.flags)
  }

  /** The limbs and the carry of the chain, without the other five flags. */
  function Carries(x: seq<nat>, y: seq<nat>, c: bool, s: OpSize): (seq<nat>, bool)
    requires |x| == |y| && Limbs(x, s) && Limbs(y, s)
  {
    if |x| == 0 then ([], c)
    else
      var rest := Carries(x[1..], y[1..], x[0] + y[0] + B2N(c) >= Modulus(s), s);
      ([Wrap(x[0] + y[0] + B2N(c), s)] + rest.0, rest.1)
  }

  lemma {:induction false} AdcChainIsCarries(step: Stepper, x: seq<nat>, y: seq<nat>, plain: bool, f: RFlags, s: OpSize)
    requires |x| == |y| && Limbs(x, s) && Limbs(y, s) && (plain ==> |x| > 0) && CarriesUp(step, s)
    ensures var r := AdcChain(step, x, y, plain, f, s); Carries(x, y, CarryIn(plain, f), s) == (r.limbs, r.flags.cf)
  {
    if |x| == 0 {
    } else {
      AdcChainIsCarries(step, x[1..], y[1..], false, step(plain, x[0], y[0], f), s);
    }
  }

  lemma {:induction false} CarriesExact(x: seq<nat>, y: seq<nat>, c: bool, s: OpSize)
    requires |x| == |y| && Limbs(x, s) && Limbs(y, s)
    ensures var (limbs, top) := Carries(x, y, c, s);
      Unsigned(limbs, s) + Worth(top, Weight(|x|, s)) == Unsigned(x, s) + Unsigned(y, s) + B2N(c)
  {
    if |x| == 0 {
    } else {
      var k, lo := x[0] + y[0] + B2N(c) >= Modulus(s), Wrap(x[0] + y[0] + B2N(c), s);
      CarriesExact(x[1..], y[1..], k, s);
      var rest := Carries(x[1..], y[1..], k, s);
      assert ([lo] + rest.0)[1..] == rest.0;
      CarryStep(s, x[0], y[0], B2N(c), lo, k, Unsigned(x[1..], s), Unsigned(y[1..], s), Unsigned(rest.0, s),
        Weight(|x| - 1, s), rest.1);
    }
  }

  lemma CarryStep(s: OpSize, a: nat, b: nat, c: nat, lo: nat, k: bool, xs: nat, ys: nat, rs: nat, w: nat, top: bool)
    requires lo + Worth(k, Modulus(s)) == a + b + c
    requires rs + Worth(top, w) == xs + ys + B2N(k)
    ensures (lo + Raised(rs, s)) + Worth(top, Raised(w, s)) == (a + Raised(xs, s)) + (b + Raised(ys, s)) + c
  {
  }

  lemma ExactSum(step: Stepper, x: seq<nat>, y: seq<nat>, plain: bool, f: RFlags, s: OpSize)
    requires |x| == |y| && Limbs(x, s) && Limbs(y, s) && (plain ==> |x| > 0) && CarriesUp(step, s)
    ensures var r := AdcChain(step, x, y, plain, f, s);
      Unsigned(r.limbs, s) + Worth(r.flags.cf, Weight(|x|, s))
      == Unsigned(x, s) + Unsigned(y, s) + B2N(CarryIn(plain, f))
  {
    AdcChainIsCarries(step, x, y, plain, f, s);
    CarriesExact(x, y, CarryIn(plain, f), s);
  }

  /** On the lazy machine the chain computes the exact sum: limbs plus the final carry. */
  lemma AddExact(x: seq<nat>, y: seq<nat>, plain: bool, f: RFlags, s: OpSize)
    requires |x| == |y| && Limbs(x, s) && Limbs(y, s) && (plain ==> |x| > 0)
    ensures var r := AdcChain(LazySum(s), x, y, plain, f, s);
      Unsigned(r.limbs, s) + Worth(r.flags.cf, Weight(|x|, s))
      == Unsigned(x, s) + Unsigned(y, s) + B2N(CarryIn(plain, f))
  {
    var step := LazySum(s);
    LazySumCarries(s, step);
    ExactSum(step, x, y, plain, f, s);
  }

  /** The limbs and the borrow of the chain, without the other five flags. */
  function Borrows(x: seq<nat>, y: seq<nat>, c: bool, s: OpSize): (seq<nat>, bool)
    requires |x| == |y| && Limbs(x, s) && Limbs(y, s)
  {
    if |x| == 0 then ([], c)
    else
      var rest := Borrows(x[1..], y[1..], x[0] < y[0] + B2N(c), s);
      ([Wrap(x[0] - y[0] - B2N(c), s)] + rest.0, rest.1)
  }

  lemma {:induction false} SbbChainIsBorrows(step: Stepper, x: seq<nat>, y: seq<nat>, plain: bool, f: RFlags, s: OpSize)
    requires |x| == |y| && Limbs(x, s) && Limbs(y, s) && (plain ==> |x| > 0) && BorrowsUp(step, s)
    ensures var r := SbbChain(step, x, y, plain, f, s); Borrows(x, y, CarryIn(plain, f), s) == (r.limbs, r.flags.cf)
  {
    if |x| == 0 {
    } else {
      SbbChainIsBorrows(step, x[1..], y[1..], false, step(plain, x[0], y[0], f), s);
    }
  }

  lemma {:induction false} BorrowsExact(x: seq<nat>, y: seq<nat>, c: bool, s: OpSize)
    requires |x| == |y| && Limbs(x, s) && Limbs(y, s)
    ensures var (limbs, top) := Borrows(x, y, c, s);
      Unsigned(limbs, s) - Worth(top, Weight(|x|, s)) == Unsigned(x, s) - Unsigned(y, s) - B2N(c)
  {
    if |x| == 0 {
    } else {
      var k, lo := x[0] < y[0] + B2N(c), Wrap(x[0] - y[0] - B2N(c), s);
      BorrowsExact(x[1..], y[1..], k, s);
      var rest := Borrows(x[1..], y[1..], k, s);
      assert ([lo] + rest.0)[1..] == rest.0;
      BorrowStep(s, x[0], y[0], B2N(c), lo, k, Unsigned(x[1..], s), Unsigned(y[1..], s), Unsigned(rest.0, s),
        Weight(|x| - 1, s), rest.1);
    }
  }

  lemma BorrowStep(s: OpSize, a: nat, b: nat, c: nat, lo: nat, k: bool, xs: nat, ys: nat, rs: nat, w: nat, top: bool)
    requires lo - Worth(k, Modulus(s)) == a - b - c
    requires rs - Worth(top, w) == xs - ys - B2N(k)
    ensures (lo + Raised(rs, s)) - Worth(top, Raised(w, s)) == (a + Raised(xs, s)) - (b + Raised(ys, s)) - c
  {
  }

  lemma ExactDifference(step: Stepper, x: seq<nat>, y: seq<nat>, plain: bool, f: RFlags, s: OpSize)
    requires |x| == |y| && Limbs(x, s) && Limbs(y, s) && (plain ==> |x| > 0) && BorrowsUp(step, s)
    ensures var r := SbbChain(step, x, y, plain, f, s);
      Unsigned(r.limbs, s) - Worth(r.flags.cf, Weight(|x|, s))
      == Unsigned(x, s) - Unsigned(y, s) - B2N(CarryIn(plain, f))
  {
    SbbChainIsBorrows(step, x, y, plain, f, s);
    BorrowsExact(x, y, CarryIn(plain, f), s);
  }

  /** On the lazy machine the chain computes the exact difference: limbs minus the final borrow. */
  lemma SubExact(x: seq<nat>, y: seq<nat>, plain: bool, f: RFlags, s: OpSize)
    requires |x| == |y| && Limbs(x, s) && Limbs(y, s) && (plain ==> |x| > 0)
    ensures var r := SbbChain(LazyDifference(s), x, y, plain, f, s);
      Unsigned(r.limbs, s) - Worth(r.flags.cf, Weight(|x|, s))
      == Unsigned(x, s) - Unsigned(y, s) - B2N(CarryIn(plain, f))
  {
    var step := LazyDifference(s);
    LazyDifferenceBorrows(s, step);
    ExactDifference(step, x, y, plain, f, s);
  }

  lemma {:induction false} UnsignedBelow(x: seq<nat>, s: OpSize)
    requires Limbs(x, s)
    ensures Unsigned(x, s) < Weight(|x|, s)
  {
    if |x| == 0 {
    } else {
      UnsignedBelow(x[1..], s);
    }
  }

  /** After CMP or SUB and then SBBs, condition B is the unsigned order of the whole numbers, whatever the flags
      were before. */
  lemma BelowIsUnsignedLess(x: seq<nat>, y: seq<nat>, f: RFlags, s: OpSize)
    requires |x| == |y| > 0 && Limbs(x, s) && Limbs(y, s)
    ensures CondHolds(B, SbbChain(LazyDifference(s), x, y, true, f, s).flags.Six()) <==> Unsigned(x, s) < Unsigned(y, s)
  {
    var r := SbbChain(LazyDifference(s), x, y, true, f, s);
    SubExact(x, y, true, f, s);
    UnsignedBelow(x, s);
    UnsignedBelow(y, s);
    UnsignedBelow(r.limbs, s);
    BorrowDecides(Unsigned(r.limbs, s), Weight(|x|, s), r.flags.cf, Unsigned(x, s) - Unsigned(y, s));
  }

  lemma BorrowDecides(low: nat, w: nat, borrow: bool, difference: int)
    requires low < w && low - Worth(borrow, w) == difference
    ensures borrow <==> difference < 0
  {
  }

  lemma {:induction false} SignOfChain(step: Stepper, x: seq<nat>, y: seq<nat>, plain: bool, f: RFlags, s: OpSize)
    requires |x| == |y| > 0 && Limbs(x, s) && Limbs(y, s) && BorrowsUp(step, s)
    ensures var g := SbbChain(step, x, y, plain, f, s).flags;
      g.sf != g.of <==> SignedValue(x, s) - SignedValue(y, s) - B2N(CarryIn(plain, f)) < 0
  {
    var c, g := CarryIn(plain, f), step(plain, x[0], y[0], f);
    if |x| == 1 {
      assert SbbChain(step, x, y, plain, f, s).flags == g;
    } else {
      SignOfChain(step, x[1..], y[1..], false, g, s);
      SignOfHigh(s, x[0], y[0], B2N(c), B2N(g.cf), SignedValue(x[1..], s), SignedValue(y[1..], s));
    }
  }

  /** ... and condition L is their signed order. */
  lemma LessIsSignedLess(x: seq<nat>, y: seq<nat>, f: RFlags, s: OpSize)
    requires |x| == |y| > 0 && Limbs(x, s) && Limbs(y, s)
    ensures CondHolds(L, SbbChain(LazyDifference(s), x, y, true, f, s).flags.Six())
       <==> SignedValue(x, s) < SignedValue(y, s)
  {
    var step := LazyDifference(s);
    LazyDifferenceBorrows(s, step);
    SignOfChain(step, x, y, true, f, s);
  }

  /** The low limbs only decide through the borrow they send up. */
  lemma SignOfHigh(s: OpSize, a: nat, b: nat, c: nat, k: nat, xs: int, ys: int)
    requires a < Modulus(s) && b < Modulus(s) && c <= 1 && k <= 1
    requires k == 1 <==> a - b - c < 0
    ensures (a + Raised(xs, s)) - (b + Raised(ys, s)) - c < 0 <==> xs - ys - k < 0
  {
  }
}
