/** The four operations as closed formulas on whole numbers, defined for every pair of bit
    patterns.  Subtraction is by definition the addition of the negated operand. */
module FloatReference {
  import opened Words
  import opened Magnitudes
  import opened SoftFloat

  /** A denormal is shifted up to a full significand; any other pattern is taken as it is. */
  function Unpacked(f: Float80): (r: (u64, int)) {
    if f.rawExp == 0 && f.sig != 0 then
      var (m, e) := Normalized(f.sig, 0, TWO63);
      (m, e + 1)
    else (f.sig, f.rawExp)
  }

  function Max(a: int, b: int): int {
    if a < b then b else a
  }

  /** Sum of two magnitudes over a 64-bit guard field. */
  function SumOf(am: u64, ae: int, bm: u64, be: int): (r: (nat, int))
    ensures r.0 < TWO128
  {
    var e := Max(ae, be);
    var j := Jam(am * TWO64, e - ae) + Jam(bm * TWO64, e - be);
    if j >= TWO128 then (JamOnce(j), e + 1) else (j, e)
  }

  /** Normalised difference of two magnitudes over the guard field, and whether it is negative. */
  function DifferenceOf(am: u64, ae: int, bm: u64, be: int): (r: (bool, nat, int))
    ensures r.1 < TWO128
  {
    var e := Max(ae, be);
    var a, b := Jam(am * TWO64, e - ae), Jam(bm * TWO64, e - be);
    var (m, e') := Normalized(if a >= b then a - b else b - a, e, TWO127);
    (a < b, m, e')
  }

  function ProductOf(am: u64, ae: int, bm: u64, be: int): (r: (nat, int))
    ensures r.0 < TWO128
  {
    ProductFits(am, bm);
    var p, e := am * bm, ae + be - BIAS;
    if p >= TWO127 then (p, e + 1) else (2 * p, e)
  }

  /** The dividend, placed so that the quotient fills 64 bits. */
  function Numerator(am: u64, bm: u64): nat {
    if am < bm then am * TWO64 else am * TWO63
  }

  /** A quotient with a round bit and a sticky bit below it. */
  function Guarded(q: u64, rem: nat, den: nat): (j: nat)
    ensures j < TWO128
  {
    var round := 2 * rem >= den;
    var sticky := 2 * rem != if round then den else 0;
    q * TWO64 + (if round then TWO63 else 0) + (if sticky then 1 else 0)
  }

  lemma QuotientFits64(num: nat, den: nat)
    requires den > 0 && num < den * TWO64
    ensures 0 <= num / den < TWO64
    ensures 0 <= num % den < den
  {
    QuotientBelow(num, den, TWO64);
  }

  function QuotientOf(am: u64, ae: int, bm: u64, be: int): (r: (nat, int))
    requires bm >= TWO63
    ensures r.0 < TWO128
  {
    var num := Numerator(am, bm);
    QuotientFits64(num, bm);
    (Guarded(num / bm, num % bm, bm), ae - be + BIAS - if am < bm then 1 else 0)
  }

  function Delivered(sign: bool, j: nat, e: int): Float80
    requires j < TWO128
  {
    var (m, e') := RoundHalves(j, e);
    PackNormal(sign, m, e')
  }

  function Add(a: Float80, b: Float80): Float80 {
    if a.IsNan() || b.IsNan() then QNAN
    else if a.IsInf() && b.IsInf() then (if a.sign == b.sign then a else QNAN)
    else if a.IsInf() then a
    else if b.IsInf() then b
    else if a.sign == b.sign then
      if a.IsZero() then b
      else if b.IsZero() then a
      else
        var ((am, ae), (bm, be)) := (Unpacked(a), Unpacked(b));
        var (j, e) := SumOf(am, ae, bm, be);
        Delivered(a.sign, j, e)
    else
      if a.IsZero() && b.IsZero() then Zero(false)
      else if b.IsZero() then a
      else if a.IsZero() then b
      else
        var ((am, ae), (bm, be)) := (Unpacked(a), Unpacked(b));
        var (flip, j, e) := DifferenceOf(am, ae, bm, be);
        if j == 0 then Zero(false) else Delivered(a.sign != flip, j, e)
  }

  function Sub(a: Float80, b: Float80): Float80 {
    Add(a, b.Negated())
  }

  function Mul(a: Float80, b: Float80): Float80 {
    var sign := a.sign != b.sign;
    if a.IsNan() || b.IsNan() then QNAN
    else if a.IsInf() || b.IsInf() then (if a.IsZero() || b.IsZero() then QNAN else Inf(sign))
    else if a.IsZero() || b.IsZero() then Zero(sign)
    else
      var ((am, ae), (bm, be)) := (Unpacked(a), Unpacked(b));
      var (j, e) := ProductOf(am, ae, bm, be);
      Delivered(sign, j, e)
  }

  function Div(a: Float80, b: Float80): Float80
    requires b.Canonical()
  {
    var sign := a.sign != b.sign;
    if a.IsNan() || b.IsNan() || (a.IsInf() && b.IsInf()) || (a.IsZero() && b.IsZero()) then QNAN
    else if a.IsInf() || b.IsZero() then Inf(sign)
    else if a.IsZero() || b.IsInf() then Zero(sign)
    else
      var ((am, ae), (bm, be)) := (Unpacked(a), Unpacked(b));
      var (j, e) := QuotientOf(am, ae, bm, be);
      Delivered(sign, j, e)
  }
}
