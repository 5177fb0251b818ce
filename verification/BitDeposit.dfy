/** PDEP and PEXT: bits scattered to, and gathered from, the places a mask selects. */
module BitDeposit {
  import opened Words
  import opened Base

  /** The low bits of x placed, in order, where m has ones. */
  function Deposited(x: nat, m: nat): nat
    decreases m
  {
    if m == 0 then 0
    else if m % 2 == 1 then x % 2 + 2 * Deposited(x / 2, m / 2)
    else 2 * Deposited(x, m / 2)
  }

  /** The bits of x where m has ones, packed in order. */
  function Extracted(x: nat, m: nat): nat
    decreases m
  {
    if m == 0 then 0
    else if m % 2 == 1 then x % 2 + 2 * Extracted(x / 2, m / 2)
    else Extracted(x / 2, m / 2)
  }

  function Popcount(m: nat): nat
    decreases m
  {
    if m == 0 then 0 else m % 2 + Popcount(m / 2)
  }

  // ---- What the two operations mean, bit by bit --------------------------------------------

  lemma {:induction false} LowMask(m: nat, k: nat)
    ensures (m % Pow2(k + 1)) % 2 == m % 2 && (m % Pow2(k + 1)) / 2 == (m / 2) % Pow2(k)
  {
    DivDiv(m, 2, Pow2(k));
  }

  lemma PopcountStep(m: nat, k: nat)
    ensures Popcount(m % Pow2(k + 1)) == m % 2 + Popcount((m / 2) % Pow2(k))
  {
    LowMask(m, k);
  }

  lemma LowestBits(x: nat)
    ensures Bit(x, 0) == (x % 2 == 1) && x % Pow2(0) == 0
  {
    assert Pow2(0) == 1 && x % 1 == 0;
  }

  /** Bit k of the deposit is the mask's bit k and the bit of x numbered by the mask bits below k. */
  lemma {:induction false} DepositedBit(x: nat, m: nat, k: nat)
    ensures Bit(Deposited(x, m), k) == (Bit(m, k) && Bit(x, Popcount(m % Pow2(k))))
    decreases k
  {
    if m == 0 {
      BitOfZero(k);
    } else if k == 0 {
      LowestBits(m);
      LowestBits(x);
      LowestBits(Deposited(x, m));
    } else {
      BitStep(m, k);
      DepositedBit(if m % 2 == 1 then x / 2 else x, m / 2, k - 1);
      DepositedStep(x, m, k, Popcount((m / 2) % Pow2(k - 1)));
    }
  }

  lemma DepositedStep(x: nat, m: nat, k: nat, j: nat)
    requires m > 0 && k > 0 && j == Popcount((m / 2) % Pow2(k - 1))
    ensures var y := if m % 2 == 1 then x / 2 else x;
      && Bit(Deposited(x, m), k) == Bit(Deposited(y, m / 2), k - 1)
      && Bit(x, Popcount(m % Pow2(k))) == Bit(y, j)
  {
    var r := Deposited(x, m);
    BitStep(r, k);
    PopcountStep(m, k - 1);
    if m % 2 == 1 {
      HalfOfOdd(r, Deposited(x / 2, m / 2), x % 2);
      BitStep(x, 1 + j);
    } else {
      HalfOfOdd(r, Deposited(x, m / 2), 0);
    }
  }

  /** Where the mask has bit k, the extract has bit k of x at the number of mask bits below k. */
  lemma {:induction false} ExtractedBit(x: nat, m: nat, k: nat)
    requires Bit(m, k)
    ensures Bit(Extracted(x, m), Popcount(m % Pow2(k))) == Bit(x, k)
    decreases k
  {
    if m == 0 {
      BitOfZero(k);
    } else if k == 0 {
      ExtractedLowest(x, m);
    } else {
      BitStep(m, k);
      ExtractedBit(x / 2, m / 2, k - 1);
      ExtractedStep(x, m, k, Popcount((m / 2) % Pow2(k - 1)));
    }
  }

  lemma ExtractedLowest(x: nat, m: nat)
    requires Bit(m, 0)
    ensures Bit(Extracted(x, m), Popcount(m % Pow2(0))) == Bit(x, 0)
  {
    LowestBits(m);
    LowestBits(x);
    LowestBits(Extracted(x, m));
    OddExtract(x, m);
  }

  lemma OddExtract(x: nat, m: nat)
    requires m % 2 == 1
    ensures Extracted(x, m) % 2 == x % 2
  {
    assert Extracted(x, m) == x % 2 + 2 * Extracted(x / 2, m / 2);
  }

  lemma ExtractedStep(x: nat, m: nat, k: nat, j: nat)
    requires m > 0 && k > 0 && j == Popcount((m / 2) % Pow2(k - 1))
    requires Bit(Extracted(x / 2, m / 2), j) == Bit(x / 2, k - 1)
    ensures Bit(Extracted(x, m), Popcount(m % Pow2(k))) == Bit(x, k)
  {
    BitStep(x, k);
    PopcountStep(m, k - 1);
    if m % 2 == 1 {
      ExtractedOdd(x, m, j);
    }
  }

  lemma ExtractedOdd(x: nat, m: nat, j: nat)
    requires m % 2 == 1
    ensures Bit(Extracted(x, m), j + 1) == Bit(Extracted(x / 2, m / 2), j)
  {
    var r, q := Extracted(x, m), Extracted(x / 2, m / 2);
    assert r == x % 2 + 2 * q;
    HalfOfOdd(r, q, x % 2);
    BitStep(r, j + 1);
  }

  lemma HalfOfOdd(r: nat, q: nat, b: nat)
    requires r == b + 2 * q && b < 2
    ensures r / 2 == q
  {
  }

  // ---- The two operations undo each other ---------------------------------------------------

  /** Gathering what was scattered gives the low bits back, as many as the mask has ones. */
  lemma {:induction false} ExtractAfterDeposit(x: nat, m: nat)
    ensures Extracted(Deposited(x, m), m) == x % Pow2(Popcount(m))
    decreases m
  {
    if m == 0 {
      assert x % 1 == 0;
    } else {
      var r := Deposited(x, m);
      if m % 2 == 1 {
        assert r % 2 == x % 2 && r / 2 == Deposited(x / 2, m / 2);
        ExtractAfterDeposit(x / 2, m / 2);
        LowMask(x, Popcount(m / 2));
      } else {
        assert r / 2 == Deposited(x, m / 2);
        ExtractAfterDeposit(x, m / 2);
      }
    }
  }

  /** Scattering what was gathered gives the masked word back. */
  lemma {:induction false} DepositAfterExtract(x: nat, m: nat)
    ensures Deposited(Extracted(x, m), m) == And(x, m)
    decreases m
  {
    if m == 0 {
    } else {
      var e := Extracted(x, m);
      DepositAfterExtract(x / 2, m / 2);
      AndHalves(x, m);
      if m % 2 == 1 {
        assert e % 2 == x % 2 && e / 2 == Extracted(x / 2, m / 2);
      }
    }
  }

  lemma AndHalves(x: nat, m: nat)
    ensures And(x, m) == (if x % 2 == 1 && m % 2 == 1 then 1 else 0) + 2 * And(x / 2, m / 2)
  {
    if x == 0 || m == 0 {
      assert And(x / 2, m / 2) == 0;
    }
  }

  /** No more bits than the mask has ones. */
  lemma {:induction false} ExtractedFits(x: nat, m: nat)
    ensures Extracted(x, m) < Pow2(Popcount(m))
    decreases m
  {
    if m == 0 {
    } else {
      ExtractedFits(x / 2, m / 2);
    }
  }

  /** A deposit stays below the mask, so inside the word. */
  lemma {:induction false} DepositedFits(x: nat, m: nat)
    ensures Deposited(x, m) <= m
    decreases m
  {
    if m == 0 {
    } else {
      DepositedFits(x / 2, m / 2);
      DepositedFits(x, m / 2);
    }
  }

  // ---- Taking the lowest one of the mask ----------------------------------------------------

  /** The place of the lowest one. */
  function LowPlace(m: nat): nat
    requires m > 0
    decreases m
  {
    if m % 2 == 1 then 0 else 1 + LowPlace(m / 2)
  }

  function Low(m: nat): nat
    requires m > 0
  {
    Pow2(LowPlace(m))
  }

  lemma {:induction false} LowDivides(m: nat)
    requires m > 0
    ensures Low(m) <= m && m % Low(m) == 0 && (m - Low(m)) % (2 * Low(m)) == 0
    decreases m
  {
    if m % 2 == 1 {
      assert Low(m) == 1 && m % 1 == 0;
    } else {
      var h := m / 2;
      LowDivides(h);
      var l := Low(h);
      assert Low(m) == 2 * l;
      DivDiv(m, 2, l);
      DivDiv(m - 2 * l, 2, 2 * l);
      assert (m - 2 * l) / 2 == h - l;
    }
  }

  /** Clearing the lowest one is m & (m - 1). */
  lemma {:induction false} ClearLow(m: nat)
    requires m > 0
    ensures Low(m) <= m && And(m, m - 1) == m - Low(m)
    decreases m
  {
    LowDivides(m);
    AndHalves(m, m - 1);
    if m % 2 == 1 {
      assert (m - 1) / 2 == m / 2;
      AndSelf(m / 2);
    } else {
      assert (m - 1) / 2 == m / 2 - 1 && Low(m) == 2 * Low(m / 2);
      ClearLow(m / 2);
    }
  }

  lemma {:induction false} AndSelf(m: nat)
    ensures And(m, m) == m
    decreases m
  {
    if m == 0 {
    } else {
      AndSelf(m / 2);
    }
  }

  /** Isolating the lowest one is m & -m, on any word width. */
  lemma {:induction false} IsolateLow(m: nat, w: nat)
    requires 0 < m < Pow2(w)
    ensures And(m, Pow2(w) - m) == Low(m)
    decreases m
  {
    var p := Pow2(w);
    AndHalves(m, p - m);
    assert w > 0;
    var h := Pow2(w - 1);
    if m % 2 == 1 {
      assert (p - m) / 2 == h - 1 - m / 2 && (p - m) % 2 == 1;
      AndComplement(m / 2, w - 1);
      assert And(m, p - m) == 1;
    } else {
      assert (p - m) / 2 == h - m / 2;
      IsolateLow(m / 2, w - 1);
      assert Low(m) == 2 * Low(m / 2);
    }
  }

  lemma {:induction false} AndComplement(a: nat, w: nat)
    requires a < Pow2(w)
    ensures And(a, Pow2(w) - 1 - a) == 0
    decreases w
  {
    if a == 0 {
    } else {
      var b := Pow2(w) - 1 - a;
      AndHalves(a, b);
      assert w > 0 && b / 2 == Pow2(w - 1) - 1 - a / 2 && b % 2 == 1 - a % 2;
      AndComplement(a / 2, w - 1);
    }
  }

  /** One round of PDEP: the next bit of x goes to the lowest one. */
  lemma {:induction false} DepositRound(x: nat, m: nat)
    requires m > 0
    ensures Low(m) <= m && Deposited(x, m) == (if x % 2 == 1 then Low(m) else 0) + Deposited(x / 2, m - Low(m))
    decreases m
  {
    LowDivides(m);
    if m % 2 == 0 {
      DepositRound(x, m / 2);
      assert Low(m) == 2 * Low(m / 2) && (m - Low(m)) / 2 == m / 2 - Low(m / 2);
    } else {
      assert Low(m) == 1 && (m - 1) / 2 == m / 2;
    }
  }

  /** One round of PEXT: the bit of x at the lowest one comes first. */
  lemma {:induction false} ExtractRound(x: nat, m: nat)
    requires m > 0
    ensures Low(m) <= m
    ensures Extracted(x, m) == (if Bit(x, LowPlace(m)) then 1 else 0) + 2 * Extracted(x, m - Low(m))
    decreases m
  {
    LowDivides(m);
    if m % 2 == 0 {
      ExtractRound(x / 2, m / 2);
      BitStep(x, LowPlace(m));
      assert Low(m) == 2 * Low(m / 2) && (m - Low(m)) / 2 == m / 2 - Low(m / 2);
    } else {
      assert Low(m) == 1 && (m - 1) / 2 == m / 2 && Pow2(0) == 1;
    }
  }

  lemma {:induction false} FewerOnes(m: nat)
    requires m > 0
    ensures Low(m) <= m && Popcount(m) == 1 + Popcount(m - Low(m))
    decreases m
  {
    LowDivides(m);
    if m % 2 == 0 {
      FewerOnes(m / 2);
      assert Low(m) == 2 * Low(m / 2) && (m - Low(m)) / 2 == m / 2 - Low(m / 2);
    } else {
      assert Low(m) == 1 && (m - 1) / 2 == m / 2;
    }
  }

  // ---- The loops ---------------------------------------------------------------------------

  /** A shift right by one more. */
  lemma ShiftOnce(x: nat, n: nat)
    ensures x / Pow2(n) / 2 == x / Pow2(n + 1)
  {
    DivDiv(x, Pow2(n), 2);
  }

  /** Setting a bit above all those of r adds it. */
  lemma SetAbove(r: nat, k: nat)
    requires r < Pow2(k)
    ensures Or(r, Pow2(k)) == r + Pow2(k) < Pow2(k + 1)
  {
    OrDisjoint(r, 1, k);
  }

  /** The ones left after clearing the lowest lie above it. */
  lemma {:induction false} NextLow(m: nat)
    requires m > 0 && Low(m) <= m
    ensures m > Low(m) ==> LowPlace(m - Low(m)) > LowPlace(m)
    decreases m
  {
    LowDivides(m);
    if m % 2 == 0 {
      LowDivides(m / 2);
      assert Low(m) == 2 * Low(m / 2) && (m - Low(m)) / 2 == m / 2 - Low(m / 2);
      NextLow(m / 2);
    } else {
      assert Low(m) == 1;
    }
  }

  lemma NextRoom(m: nat, r: nat)
    requires m > 0 && Low(m) < m && r < Pow2(LowPlace(m) + 1)
    ensures r < Low(m - Low(m))
  {
    NextLow(m);
    Pow2Monotone(LowPlace(m) + 1, LowPlace(m - Low(m)));
  }

  /** x & -x and x & (x - 1) on 64 bits. */
  lemma LowBits(m: u64)
    requires m > 0
    ensures 0 < TWO64 - m < TWO64
    ensures And(m, TWO64 - m) == Low(m) <= m
    ensures And(m, m - 1) == m - Low(m)
  {
    Pow2Values();
    IsolateLow(m, 64);
    ClearLow(m);
  }

  /** PDEP: the loop deposits bit after bit of src at the lowest one left in the mask. */
  method Pdep(src: u64, mask: u64) returns (r: nat)
    ensures r == Deposited(src, mask)
  {
    r := 0;
    var m, bit: nat := mask, 0;
    assert Pow2(0) == 1 && src / 1 == src;
    while m != 0
      invariant 0 <= m <= mask && Deposited(src, mask) == r + Deposited(src / Pow2(bit), m)
      invariant m != 0 ==> r < Low(m)
      decreases Popcount(m)
    {
      r, m, bit := PdepRound(src, m, r, bit);
    }
  }

  method PdepRound(src: u64, m: u64, was: nat, at: nat) returns (r: nat, rest: nat, bit: nat)
    requires m != 0 && was < Low(m)
    ensures bit == at + 1 && rest < m && Popcount(rest) < Popcount(m)
    ensures r + Deposited(src / Pow2(bit), rest) == was + Deposited(src / Pow2(at), m)
    ensures rest != 0 ==> r < Low(rest)
  {
    LowBits(m);
    var lo := And(m, TWO64 - m);
    DepositRound(src / Pow2(at), m);
    ShiftOnce(src, at);
    FewerOnes(m);
    SetAbove(was, LowPlace(m));
    r := if src / Pow2(at) % 2 == 1 then Or(was, lo) else was;
    rest := And(m, m - 1);
    bit := at + 1;
    if rest != 0 {
      NextRoom(m, r);
    }
  }

  /** PEXT: the loop packs the bits of src at the ones of the mask, lowest first. */
  method Pext(src: u64, mask: u64) returns (r: nat)
    ensures r == Extracted(src, mask)
  {
    r := 0;
    var m, bit: nat := mask, 0;
    assert Pow2(0) == 1;
    while m != 0
      invariant 0 <= m <= mask && Extracted(src, mask) == r + Pow2(bit) * Extracted(src, m)
      invariant r < Pow2(bit)
      decreases Popcount(m)
    {
      r, m, bit := PextRound(src, m, r, bit);
    }
  }

  lemma ScaleRound(p: nat, b: nat, e: nat)
    ensures p * (b + 2 * e) == p * b + (2 * p) * e
  {
  }

  method PextRound(src: u64, m: u64, was: nat, at: nat) returns (r: nat, rest: nat, bit: nat)
    requires m != 0 && was < Pow2(at)
    ensures bit == at + 1 && rest < m && Popcount(rest) < Popcount(m)
    ensures r + Pow2(bit) * Extracted(src, rest) == was + Pow2(at) * Extracted(src, m)
    ensures r < Pow2(bit)
  {
    LowBits(m);
    var lo := And(m, TWO64 - m);
    ExtractRound(src, m);
    AndPow2(src, LowPlace(m));
    FewerOnes(m);
    SetAbove(was, at);
    r := if And(src, lo) != 0 then Or(was, Pow2(at)) else was;
    rest := And(m, m - 1);
    bit := at + 1;
    ScaleRound(Pow2(at), if Bit(src, LowPlace(m)) then 1 else 0, Extracted(src, rest));
  }
}
