/** Whole-number soft-float steps - the jamming shift, normalisation, and rounding a 128-bit value
    to its upper half - and why a jammed integer rounds like the real number it stands for. */
module Magnitudes {
  import opened Words
  import opened Rounding

  /** Halve, ORing the bit shifted out into the lowest bit. */
  function JamOnce(v: nat): (j: nat)
    ensures j <= v
  {
    v / 2 + if v % 4 == 1 then 1 else 0
  }

  lemma JamOnceTop(v: nat)
    requires v < TWO128
    ensures JamOnce(v) < TWO127
    ensures JamOnce(v + TWO128) == JamOnce(v) + TWO127
  {
  }

  /** n such halvings: v / 2^n with everything lost recorded in the lowest bit. */
  function Jam(v: nat, n: nat): (j: nat)
    ensures j <= v
  {
    if n == 0 then v else JamOnce(Jam(v, n - 1))
  }

  lemma {:induction false} JamSplit(v: nat, a: nat, b: nat)
    ensures Jam(v, a + b) == Jam(Jam(v, a), b)
  {
    if b == 0 {
    } else {
      JamSplit(v, a, b - 1);
      assert a + b - 1 == a + (b - 1);
    }
  }

  /** The quotient, with the lowest bit set when the remainder is not zero. */
  function StickyQuotient(v: nat, p: nat): nat
    requires p > 0
  {
    var q := v / p;
    if v % p != 0 && q % 2 == 0 then q + 1 else q
  }

  /** All halvings in one step. */
  lemma {:induction false} JamClosed(v: nat, n: nat)
    ensures Jam(v, n) == StickyQuotient(v, Pow2(n))
  {
    if n == 0 {
      assert v / 1 == v && v % 1 == 0;
    } else {
      JamClosed(v, n - 1);
      StickyStep(v, Pow2(n - 1));
    }
  }

  lemma StickyStep(v: nat, p: nat)
    requires p > 0
    ensures StickyQuotient(v, 2 * p) == JamOnce(StickyQuotient(v, p))
  {
    DivDiv(v, p, 2);
    var q1, r1 := v / p, v % p;
    assert v / (2 * p) == q1 / 2 && v % (2 * p) == r1 + p * (q1 % 2);
  }

  /** No bits are lost from a multiple of 2^n. */
  lemma {:induction false} JamExact(m: nat, k: nat, n: nat)
    requires n <= k
    ensures Jam(m * Pow2(k), n) == m * Pow2(k - n)
  {
    if n == 0 {
    } else {
      JamExact(m, k, n - 1);
      HalveProduct(m, Pow2(k - n));
    }
  }

  lemma HalveProduct(m: nat, p: nat)
    ensures m * (2 * p) == 2 * (m * p) && JamOnce(m * (2 * p)) == m * p
  {
  }

  /** Shift m up until it reaches top, lowering the exponent. */
  function Normalized(m: nat, e: int, top: nat): (r: (nat, int))
    ensures 0 < m < 2 * top ==> top <= r.0 < 2 * top
    ensures m < 2 * top ==> r.0 < 2 * top
    ensures m == 0 <==> r.0 == 0
    decreases top - m
  {
    if m == 0 || m >= top then (m, e) else Normalized(2 * m, e - 1, top)
  }

  /** Round j to j / 2^64, half to even. */
  function RoundHalves(j: nat, e: int): (r: (nat, int))
    requires j < TWO128
    ensures r.0 < TWO64
  {
    var q, rest := j / TWO64, j % TWO64;
    if rest < TWO63 || (rest == TWO63 && q % 2 == 0) then (q, e) else Successor(q, e)
  }

  // ---- When an integer decides rounding for a real ----------------------------

  function Boundary(k: int): int {
    k * TWO63
  }

  /** t and j compare alike with every multiple of 2^63, the only places a rounding can turn. */
  ghost predicate Decides(t: real, j: int) {
    forall k :: (t < Boundary(k) as real <==> j < Boundary(k)) && (t == Boundary(k) as real <==> j == Boundary(k))
  }

  /** j is t exactly, or an odd integer within one of it: a jammed value. */
  ghost predicate Jams(t: real, j: int) {
    t == j as real || (j % 2 == 1 && (j - 1) as real < t < (j + 1) as real)
  }

  lemma JamsDecidesAt(t: real, j: int, k: int)
    requires Jams(t, j)
    ensures t < Boundary(k) as real <==> j < Boundary(k)
    ensures t == Boundary(k) as real <==> j == Boundary(k)
    ensures 2.0 * t < Boundary(k) as real <==> 2 * j < Boundary(k)
    ensures 2.0 * t == Boundary(k) as real <==> 2 * j == Boundary(k)
  {
    var quarter := k * (TWO63 / 4);
    var half := 2 * quarter;
    JamsCompare(t, j, half);
    JamsCompare(t, j, 2 * half);
    assert Boundary(k) == 2 * half;
  }

  lemma JamsDecides(t: real, j: int)
    requires Jams(t, j)
    ensures Decides(t, j)
    ensures Decides(2.0 * t, 2 * j)
  {
    forall k
      ensures (t < Boundary(k) as real <==> j < Boundary(k)) && (t == Boundary(k) as real <==> j == Boundary(k))
    {
      JamsDecidesAt(t, j, k);
    }
    forall k
      ensures 2.0 * t < Boundary(k) as real <==> 2 * j < Boundary(k)
      ensures 2.0 * t == Boundary(k) as real <==> 2 * j == Boundary(k)
    {
      JamsDecidesAt(t, j, k);
    }
  }

  /** Comparing a jammed value with an even integer gives the comparison of the true value. */
  lemma JamsCompare(t: real, j: int, even: int)
    requires Jams(t, j) && even % 2 == 0
    ensures t < even as real <==> j < even
    ensures t == even as real <==> j == even
  {
  }

  /** Jamming a jammed value once more still jams. */
  lemma JamTwice(t: real, j: nat)
    requires Jams(t, j)
    ensures Jams(t / 2.0, JamOnce(j))
  {
  }

  /** The shifter jams. */
  lemma {:induction false} JamIsJams(v: nat, n: nat)
    ensures Jams(Shift(v as real, -(n as int)), Jam(v, n))
  {
    if n == 0 {
    } else {
      JamIsJams(v, n - 1);
      JamTwice(Shift(v as real, -(n as int) + 1), Jam(v, n - 1));
    }
  }

  lemma ShiftDown(q: int, n: nat)
    ensures Shift((q * Pow2(n)) as real, -(n as int)) == q as real
  {
    ShiftNat(q, n);
    ShiftShift(q as real, n, -(n as int));
  }

  /** An exact even number plus or minus a jammed one is jammed. */
  lemma JamsOffset(even: real, n: int, t: real, j: int)
    requires even == n as real && n % 2 == 0 && Jams(t, j)
    ensures Jams(even + t, n + j)
    ensures Jams(even - t, n - j)
    ensures Jams(t - even, j - n)
  {
  }

  /** Rounding the integer gives the nearest-even float of the real it decides for. */
  lemma RoundsCorrectly(t: real, j: nat, e: int)
    requires TWO127 <= j < TWO128 && Decides(t, j)
    ensures var (m, e') := RoundHalves(j, e); NearestEven(Shift(t, e - 64), m, e')
  {
    var q := j / TWO64;
    var x := Shift(t, e - 64);
    assert Boundary(2 * q) <= j < Boundary(2 * q + 2);
    BoundaryCompare(t, j, 2 * q, e);
    BoundaryCompare(t, j, 2 * q + 1, e);
    BoundaryCompare(t, j, 2 * q + 2, e);
    Halved(q, e);
    Halved(q + 1, e);
    RoundInUnitNearest(x, q, e);
  }

  lemma Halved(q: int, e: int)
    ensures Scaled(q, e) == Scaled(2 * q, e - 1)
  {
    ScaledShift(q, e - 1, 1);
    assert Pow2(1) == 2;
  }

  lemma BoundaryCompare(t: real, j: int, k: int, e: int)
    requires Decides(t, j)
    ensures Shift(t, e - 64) < Scaled(k, e - 1) <==> j < Boundary(k)
    ensures Shift(t, e - 64) == Scaled(k, e - 1) <==> j == Boundary(k)
  {
    ScaledShift(k, e - 64, 63);
    Pow2Values();
    ShiftMono(t, Boundary(k) as real, e - 64);
    ShiftMono(Boundary(k) as real, t, e - 64);
  }

  /** Normalisation keeps the value and multiplies by a power of two. */
  lemma {:induction false} NormalizedValue(m: nat, e: int, top: nat)
    ensures Scaled(Normalized(m, e, top).0, Normalized(m, e, top).1) == Scaled(m, e)
    decreases top - m
  {
    if 0 < m < top {
      NormalizedValue(2 * m, e - 1, top);
      Halved(m, e);
    }
  }

  /** A value at least half of top needs one doubling at most. */
  lemma NormalizedOnce(m: nat, e: int, top: nat)
    requires top <= 2 * m
    ensures Normalized(m, e, top) == if m >= top then (m, e) else (2 * m, e - 1)
  {
  }
}
