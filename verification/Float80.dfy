/** The 80-bit extended format and its soft-float arithmetic, as the emulator performs it on
    64-bit halves.  The 16-bit sign-and-exponent field is kept as its two parts. */
module SoftFloat {
  import opened Words
  import opened Rounding
  import opened Magnitudes

  type u15 = x: int | 0 <= x < TWO15

  const EXP_MAX: u15 := 0x7FFF
  const BIAS: int := 0x3FFF

  datatype Float80 = Float80(sign: bool, rawExp: u15, sig: u64) {
    predicate IsZero() { rawExp == 0 && sig == 0 }
    predicate IsInf() { rawExp == EXP_MAX && sig == TWO63 }
    predicate IsNan() { rawExp == EXP_MAX && sig != TWO63 }
    predicate IsFinite() { rawExp != EXP_MAX }
    function Negated(): Float80 { this.(sign := !sign) }

    /** Not an unnormal: the integer bit may be clear only where the format calls for it. */
    predicate Canonical() { rawExp == 0 || rawExp == EXP_MAX || sig >= TWO63 }
  }

  function Zero(negative: bool): Float80 { Float80(negative, 0, 0) }
  function Inf(negative: bool): Float80 { Float80(negative, EXP_MAX, TWO63) }
  const QNAN: Float80 := Float80(false, EXP_MAX, 0xC000_0000_0000_0000)

  // ---- 128-bit values as two halves -------------------------------------------

  datatype U128 = U128(hi: u64, lo: u64) {
    function Val(): (v: nat)
      ensures v < TWO128
    {
      hi * TWO64 + lo
    }
  }

  function Shr64(x: u64, n: nat): (r: u64)
  {
    DivideShrinks(x, Pow2(n));
    x / Pow2(n)
  }

  function Shl64(x: u64, n: nat): (r: u64) {
    (x * Pow2(n)) % TWO64
  }

  /** A 128-bit right shift on halves: the bits leaving hi enter lo from above. */
  function MergedLow(v: U128, n: nat): (lo: u64)
    requires 0 < n < 64
    ensures Shr64(v.hi, n) * TWO64 + lo == v.Val() / Pow2(n)
    ensures v.Val() % Pow2(n) == v.lo % Pow2(n)
  {
    MergedLowValue(v, n);
    Or(Shr64(v.lo, n), Shl64(v.hi, 64 - n))
  }

  lemma MergedLowValue(v: U128, n: nat)
    requires 0 < n < 64
    ensures var lo := Or(Shr64(v.lo, n), Shl64(v.hi, 64 - n));
      && lo < TWO64
      && Shr64(v.hi, n) * TWO64 + lo == v.Val() / Pow2(n)
      && v.Val() % Pow2(n) == v.lo % Pow2(n)
  {
    PowersOfWord(n);
    MergedParts(v.hi, v.lo, Pow2(n), Pow2(64 - n));
    OrDisjoint(Shr64(v.lo, n), v.hi % Pow2(n), 64 - n);
  }

  lemma PowersOfWord(n: nat)
    requires n <= 64
    ensures Pow2(n) * Pow2(64 - n) == TWO64
  {
    Pow2Add(n, 64 - n);
    Pow2Values();
  }

  lemma MergedParts(hi: u64, lo: u64, p: nat, s: nat)
    requires p > 0 && s > 0 && p * s == TWO64
    ensures lo / p < s
    ensures (hi * s) % TWO64 == (hi % p) * s
    ensures lo / p + (hi % p) * s < TWO64
    ensures (hi / p) * TWO64 + lo / p + (hi % p) * s == (hi * TWO64 + lo) / p
    ensures (hi * TWO64 + lo) % p == lo % p
  {
    QuotientBelow(lo, p, s);
    ShiftedOut(hi, p, s);
    SplitShift(hi, lo, p, s);
  }

  lemma QuotientBelow(x: nat, p: nat, s: nat)
    requires p > 0 && x < p * s
    ensures x / p < s
  {
    var d := x / p - s;
    assert p * (x / p) <= x;
    assert p * (x / p) == p * s + p * d;
    if d >= 0 {
      MulNonNegative(p, d);
      assert false;
    }
  }

  lemma ShiftedOut(x: nat, p: nat, s: nat)
    requires p > 0 && s > 0
    ensures p * s > 0 && (x * s) % (p * s) == (x % p) * s
    ensures (x % p) * s <= p * s - s
  {
    var q, r := x / p, x % p;
    assert x * s == (p * s) * q + r * s by {
      assert x == p * q + r;
      assert (p * q) * s == (p * s) * q;
    }
    assert r * s <= (p - 1) * s;
    assert (p - 1) * s == p * s - s;
    DivModUnique(x * s, p * s, q, r * s);
  }

  lemma SplitShift(hi: nat, lo: nat, p: nat, s: nat)
    requires p > 0 && s > 0 && lo < p * s
    ensures (hi / p) * (p * s) + lo / p + (hi % p) * s == (hi * (p * s) + lo) / p
    ensures (hi * (p * s) + lo) % p == lo % p
  {
    var v := hi * (p * s) + lo;
    var q := hi * s + lo / p;
    assert v == p * q + lo % p by {
      assert hi * (p * s) == p * (hi * s);
      assert lo == p * (lo / p) + lo % p;
    }
    DivModUnique(v, p, q, lo % p);
    assert hi * s == (hi / p) * (p * s) + (hi % p) * s by {
      assert hi == p * (hi / p) + hi % p;
      assert (p * (hi / p)) * s == (hi / p) * (p * s);
    }
  }

  /** Right shift that ORs everything shifted out into the lowest bit. */
  function ShrSticky(v: U128, n: nat): U128 {
    if n == 0 then v
    else if n >= 128 then U128(0, if v.hi != 0 || v.lo != 0 then 1 else 0)
    else if n >= 64 then
      var k := n - 64;
      var lostHi := if k == 0 then 0 else v.hi % Pow2(k);
      var lo := if k == 0 then v.hi else Shr64(v.hi, k);
      U128(0, if v.lo != 0 || lostHi != 0 then SetBit0(lo) else lo)
    else
      var lost := v.lo % Pow2(n);
      var lo := MergedLow(v, n);
      U128(Shr64(v.hi, n), if lost != 0 then SetBit0(lo) else lo)
  }

  function SetBit0(x: u64): (r: u64)
    ensures r == if x % 2 == 0 then x + 1 else x
  {
    OrOne(x);
    Or(x, 1)
  }

  lemma ShrStickyIsJam(v: U128, n: nat)
    ensures ShrSticky(v, n).Val() == Jam(v.Val(), n)
  {
    JamClosed(v.Val(), n);
    if n == 0 {
    } else if n >= 128 {
      Pow2Values();
      Pow2Monotone(128, n);
      DivModUnique(v.Val(), Pow2(n), 0, v.Val());
    } else if n >= 64 {
      ShrStickyHigh(v, n - 64);
    } else {
      ShrStickyLow(v, n);
    }
  }

  lemma ShrStickyHigh(v: U128, k: nat)
    requires k < 64
    ensures ShrSticky(v, 64 + k).Val() == StickyQuotient(v.Val(), Pow2(64 + k))
  {
    HighPrefix(v, k);
    if k == 0 {
      assert v.hi % 1 == 0 && v.hi / 1 == v.hi;
    }
  }

  lemma ShrStickyLow(v: U128, n: nat)
    requires 0 < n < 64
    ensures ShrSticky(v, n).Val() == StickyQuotient(v.Val(), Pow2(n))
  {
    StickyHalves(Shr64(v.hi, n), MergedLow(v, n));
  }

  lemma StickyHalves(hi: u64, lo: u64)
    ensures (hi * TWO64 + lo) % 2 == lo % 2
    ensures hi * TWO64 + SetBit0(lo) == (hi * TWO64 + lo) + if lo % 2 == 0 then 1 else 0
  {
  }

  function Add128(a: U128, b: U128): (r: U128)
    ensures r.Val() == a.Val() + b.Val() - if a.Val() + b.Val() >= TWO128 then TWO128 else 0
  {
    var lo := (a.lo + b.lo) % TWO64;
    var carry := if lo < a.lo then 1 else 0;
    assert a.lo + b.lo == lo + carry * TWO64;
    U128((a.hi + b.hi + carry) % TWO64, lo)
  }

  function Sub128(a: U128, b: U128): (r: U128)
    ensures r.Val() == a.Val() - b.Val() + if a.Val() < b.Val() then TWO128 else 0
  {
    var lo := (a.lo - b.lo) % TWO64;
    var borrow := if a.lo < b.lo then 1 else 0;
    assert a.lo - b.lo == lo - borrow * TWO64;
    U128((a.hi - b.hi - borrow) % TWO64, lo)
  }

  function Cmp128(a: U128, b: U128): (c: int)
    ensures c > 0 <==> a.Val() > b.Val()
    ensures c < 0 <==> a.Val() < b.Val()
  {
    if a.hi != b.hi then (if a.hi > b.hi then 1 else -1)
    else if a.lo != b.lo then (if a.lo > b.lo then 1 else -1)
    else 0
  }

  /** Left shift by one across the halves, as the normalisation loops write it. */
  function Double128(v: U128): (r: U128)
    requires v.hi < TWO63
    ensures r.Val() == 2 * v.Val()
  {
    OrOne(2 * v.hi);
    assert Or(2 * v.hi, 0) == 2 * v.hi;
    U128(Or((2 * v.hi) % TWO64, v.lo / TWO63), (2 * v.lo) % TWO64)
  }

  /** Both halves of a 64 x 64 product. */
  function Mul64x64(a: u64, b: u64): (r: U128)
    ensures r.Val() == a * b
  {
    ProductFits(a, b);
    QuotientBelow(a * b, TWO64, TWO64);
    U128((a * b) / TWO64, (a * b) % TWO64)
  }

  lemma ProductFits(a: u64, b: u64)
    ensures 0 <= a * b < TWO64 * TWO64
  {
    MulNonNegative(a, b);
    MulNonNegative(TWO64 - 1 - a, b);
    assert (TWO64 - 1 - a) * b == (TWO64 - 1) * b - a * b;
  }

  /** The leading bits of a value, down to bit i. */
  ghost function Prefix(v: nat, i: nat): nat {
    DivideShrinks(v, Pow2(i));
    v / Pow2(i)
  }

  function BitOf(num: U128, i: nat): (bit: nat)
    requires i < 128
    ensures bit <= 1
  {
    (if i >= 64 then num.hi / Pow2(i - 64) else num.lo / Pow2(i)) % 2
  }

  /** rem << 1 | bit in 64 bits: the bit shifted out is lost. */
  function ShiftIn(rem: u64, bit: nat): (r: u64)
    requires bit <= 1
    ensures r == 2 * rem + bit - if rem >= TWO63 then TWO64 else 0
  {
    OrOne((2 * rem) % TWO64);
    OrZero((2 * rem) % TWO64);
    Or((2 * rem) % TWO64, bit)
  }

  /** Shift one dividend bit into the remainder and subtract the divisor if it fits.  When the
      shift loses a bit the 65-bit partial remainder exceeds any divisor, and the wrapped
      subtraction is still right. */
  function TrySubtract(rem: u64, bit: nat, den: u64): (r: (bool, u64))
    requires bit <= 1
    ensures var partial := 2 * rem + bit;
            rem < den ==> r == if partial >= den then (true, partial - den) else (false, partial)
  {
    var remTop := rem >= TWO63;
    var shifted := ShiftIn(rem, bit);
    if remTop || shifted >= den then (true, (shifted - den) % TWO64) else (false, shifted)
  }

  /** After the bits down to i have been consumed: quot and rem divide them by den. */
  ghost predicate Dividing(num: U128, den: u64, q: u64, quot: nat, rem: nat, i: nat) {
    && Prefix(num.Val(), i) == quot * den + rem
    && q == quot * Pow2(i)
  }

  /** Long division by shift and subtract, tracking the bit shifted out of the remainder. */
  method Div128By64(num: U128, den: u64) returns (q: u64, rem: u64)
    ensures num.hi < den ==> q * den + rem == num.Val() && rem < den
  {
    q, rem := 0, 0;
    var i := 127;
    ghost var quot: nat := 0;
    PrefixEnds(num.Val());
    while i >= 0
      invariant -1 <= i <= 127
      invariant num.hi < den ==> rem < den && Dividing(num, den, q, quot, rem, i + 1)
    {
      if num.hi < den {
        DivideStep(num, den, q, quot, rem, i);
      }
      var (fits, left) := TrySubtract(rem, BitOf(num, i), den);
      if fits && i < 64 {
        OrFits(q, i);
        q := Or(q, Pow2(i));
      }
      quot := 2 * quot + if fits then 1 else 0;
      rem := left;
      i := i - 1;
    }
  }

  lemma OrFits(q: u64, i: nat)
    requires i < 64
    ensures Or(q, Pow2(i)) < TWO64
  {
    Pow2Values();
    Pow2Monotone(i, 63);
    OrBelow(q, Pow2(i), 64);
  }

  /** One more dividend bit: the doubled remainder either fits the divisor once or not at all. */
  lemma DivideStep(num: U128, den: u64, q: u64, quot: nat, rem: u64, i: nat)
    requires num.hi < den && i < 128 && rem < den
    requires Dividing(num, den, q, quot, rem, i + 1)
    ensures var (fits, left) := TrySubtract(rem, BitOf(num, i), den);
      if fits then
        && i < 64
        && Or(q, Pow2(i)) < TWO64
        && Dividing(num, den, Or(q, Pow2(i)), 2 * quot + 1, left, i)
      else
        Dividing(num, den, q, 2 * quot, left, i)
  {
    NextBit(num, i);
    DoubleQuotient(quot, den, rem, Pow2(i));
    var (fits, left) := TrySubtract(rem, BitOf(num, i), den);
    if fits {
      NotInHighHalf(num, den, i, quot, left);
      SetQuotientBit(num, den, q, quot, i, left);
    }
  }

  lemma OrZero(x: nat)
    ensures Or(x, 0) == x
  {
  }

  lemma PrefixEnds(v: nat)
    requires v < TWO128
    ensures Prefix(v, 128) == 0
    ensures Prefix(v, 0) == v
    ensures Pow2(0) == 1
  {
    Pow2Values();
    assert v / 1 == v;
  }

  lemma DoubleQuotient(quot: nat, den: nat, rem: nat, p: nat)
    ensures 2 * (quot * den + rem) == (2 * quot) * den + 2 * rem
    ensures (2 * quot + 1) * den == (2 * quot) * den + den
    ensures quot * (2 * p) == (2 * quot) * p
  {
  }

  lemma QuotientOfSum(hi: nat, lo: nat, p: nat, s: nat)
    requires p > 0
    ensures (hi * (p * s) + lo) / p == hi * s + lo / p
  {
    assert hi * (p * s) == p * (hi * s);
    DivModUnique(hi * (p * s) + lo, p, hi * s + lo / p, lo % p);
  }

  lemma HighPrefix(num: U128, k: nat)
    ensures Prefix(num.Val(), 64 + k) == num.hi / Pow2(k)
    ensures num.Val() % Pow2(64 + k) == num.lo + TWO64 * (num.hi % Pow2(k))
  {
    Pow2Add(64, k);
    Pow2Values();
    DivModUnique(num.Val(), TWO64, num.hi, num.lo);
    DivDiv(num.Val(), TWO64, Pow2(k));
  }

  lemma SameParity(hi: nat, lo: nat, p: nat, h: nat)
    requires p > 0
    ensures ((hi * (p * (2 * h)) + lo) / p) % 2 == (lo / p) % 2
  {
    QuotientOfSum(hi, lo, p, 2 * h);
    var t := hi * h;
    assert hi * (2 * h) == 2 * t;
    assert (2 * t + lo / p) % 2 == (lo / p) % 2;
  }

  lemma LowPrefix(num: U128, i: nat)
    requires i < 64
    ensures Prefix(num.Val(), i) % 2 == (num.lo / Pow2(i)) % 2
  {
    var p, h := Pow2(i), Pow2(63 - i);
    Pow2Add(i, 64 - i);
    Pow2Values();
    assert Pow2(64 - i) == 2 * h;
    SameParity(num.hi, num.lo, p, h);
  }

  lemma PrefixHalves(v: nat, i: nat)
    ensures Prefix(v, i + 1) == Prefix(v, i) / 2
  {
    DivDiv(v, Pow2(i), 2);
  }

  lemma NextBit(num: U128, i: nat)
    requires i < 128
    ensures Prefix(num.Val(), i) == 2 * Prefix(num.Val(), i + 1) + BitOf(num, i)
  {
    PrefixHalves(num.Val(), i);
    if i >= 64 {
      HighPrefix(num, i - 64);
    } else {
      LowPrefix(num, i);
    }
  }

  /** While the high half is being consumed the partial dividend stays below the divisor. */
  lemma NotInHighHalf(num: U128, den: u64, i: nat, quot: nat, rem: nat)
    requires num.hi < den && i < 128
    requires Prefix(num.Val(), i) == (2 * quot) * den + (den + rem)
    ensures i < 64
  {
    if i >= 64 {
      HighPrefix(num, i - 64);
      DivideShrinks(num.hi, Pow2(i - 64));
      MulNonNegative(2 * quot, den);
    }
  }

  lemma SetQuotientBit(num: U128, den: u64, q: u64, quot: nat, i: nat, rem: nat)
    requires i < 64 && num.hi < den && rem < den
    requires q == quot * Pow2(i + 1)
    requires Prefix(num.Val(), i) == (2 * quot) * den + (den + rem)
    ensures Or(q, Pow2(i)) == (2 * quot + 1) * Pow2(i)
    ensures Or(q, Pow2(i)) < TWO64
  {
    NewBit(q, quot, i);
    Pow2Add(i, 64 - i);
    Pow2Values();
    QuotientFits(num, den, quot, rem, Pow2(i), Pow2(64 - i));
  }

  lemma NewBit(q: u64, quot: nat, i: nat)
    requires q == quot * Pow2(i + 1)
    ensures Or(q, Pow2(i)) == (2 * quot + 1) * Pow2(i)
  {
    OrSymmetric(q, Pow2(i));
    OrDisjoint(Pow2(i), quot, i + 1);
    OddMultiple(quot, Pow2(i));
  }

  lemma OddMultiple(x: nat, p: nat)
    ensures (2 * x + 1) * p == p + x * (2 * p)
  {
  }

  lemma QuotientFits(num: U128, den: u64, quot: nat, rem: nat, p: nat, s: nat)
    requires p > 0 && p * s == TWO64 && num.hi < den
    requires num.Val() / p == (2 * quot) * den + (den + rem)
    ensures (2 * quot + 1) * p < TWO64
  {
    PrefixBelow(num, den, p, s);
    assert (2 * quot + 1) * den == (2 * quot) * den + den;
    FactorBelow(2 * quot + 1, s, den, rem);
    StaysBelow(2 * quot + 1, s, p);
  }

  lemma PrefixBelow(num: U128, den: u64, p: nat, s: nat)
    requires p > 0 && p * s == TWO64 && num.hi < den
    ensures num.Val() / p < s * den
  {
    assert num.Val() < den * TWO64;
    assert den * (p * s) == p * (s * den);
    QuotientBelow(num.Val(), p, s * den);
  }

  lemma FactorBelow(x: nat, s: nat, den: nat, rem: nat)
    requires x * den + rem < s * den
    ensures x < s
  {
    var d := x - s;
    assert d * den == x * den - s * den;
    if d >= 0 {
      MulNonNegative(d, den);
    }
  }

  lemma StaysBelow(x: nat, s: nat, p: nat)
    requires x < s && p > 0
    ensures x * p < s * p
  {
    MulNonNegative(s - x - 1, p);
    assert (s - x - 1) * p == s * p - x * p - p;
  }

  lemma OrSymmetric(a: nat, b: nat)
    ensures Or(a, b) == Or(b, a)
    decreases a + b
  {
    if a != 0 && b != 0 {
      OrSymmetric(a / 2, b / 2);
    }
  }

  // ---- Packing and rounding ---------------------------------------------------

  function PackNormal(sign: bool, mant: u64, rawExp: int): Float80 {
    if rawExp >= 0x7FFF then Inf(sign)
    else if rawExp <= 0 then Zero(sign)
    else Float80(sign, rawExp, mant)
  }

  function RoundToNearestEven(m: U128, rawExp: int): (r: (u64, int))
    ensures r == RoundHalves(m.Val(), rawExp)
  {
    var inc := (m.hi + 1) % TWO64;
    var up := if inc == 0 then (TWO63, rawExp + 1) else (inc, rawExp);
    if m.lo < TWO63 then (m.hi, rawExp)
    else if m.lo > TWO63 then up
    else if m.hi % 2 == 0 then (m.hi, rawExp)
    else up
  }
}
