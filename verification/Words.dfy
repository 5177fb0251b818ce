/** Machine words as natural numbers: powers of two, single bits, and the bitwise
    operators, with the laws that connect them to arithmetic. */
module Words {

  const TWO15: nat := 0x8000
  const TWO32: nat := 0x1_0000_0000
  const TWO63: nat := 0x8000_0000_0000_0000
  const TWO64: nat := 0x1_0000_0000_0000_0000
  const TWO127: nat := 0x8000_0000_0000_0000_0000_0000_0000_0000
  const TWO128: nat := 0x1_0000_0000_0000_0000_0000_0000_0000_0000

  type u8 = x: int | 0 <= x < 256
  type u64 = x: int | 0 <= x < TWO64

  function Pow2(n: nat): (p: nat)
    ensures p >= 1
  {
    if n == 0 then 1 else 2 * Pow2(n - 1)
  }

  lemma {:induction false} Pow2Add(a: nat, b: nat)
    ensures Pow2(a + b) == Pow2(a) * Pow2(b)
  {
    if a == 0 {
    } else {
      Pow2Add(a - 1, b);
      assert (a + b) - 1 == (a - 1) + b;
      assert 2 * (Pow2(a - 1) * Pow2(b)) == (2 * Pow2(a - 1)) * Pow2(b);
    }
  }

  lemma {:induction false} Pow2Monotone(a: nat, b: nat)
    requires a <= b
    ensures Pow2(a) <= Pow2(b)
    decreases b
  {
    if a < b {
      Pow2Monotone(a, b - 1);
    }
  }

  lemma Pow2Values()
    ensures Pow2(8) == 0x100
    ensures Pow2(15) == TWO15
    ensures Pow2(16) == 0x1_0000
    ensures Pow2(31) == 0x8000_0000
    ensures Pow2(32) == TWO32
    ensures Pow2(63) == TWO63
    ensures Pow2(64) == TWO64
    ensures Pow2(127) == TWO127
    ensures Pow2(128) == TWO128
  {
    assert Pow2(4) == 16;
    assert Pow2(7) == 128;
    Pow2Add(8, 7);
    Pow2Add(8, 8);
    Pow2Add(16, 15);
    Pow2Add(16, 16);
    Pow2Add(32, 31);
    Pow2Add(32, 32);
    Pow2Add(64, 63);
    Pow2Add(64, 64);
  }

  /** Division by a power of two splits along the exponent. */
  lemma DivDiv(x: nat, a: nat, b: nat)
    requires a > 0 && b > 0
    ensures a * b > 0 && x / (a * b) == (x / a) / b
    ensures x % (a * b) == x % a + a * ((x / a) % b)
  {
    var q, r := x / a, x % a;
    DivDivAt(x, a, b, a * b, q, r, q / b, q % b);
  }

  lemma DivDivAt(x: nat, a: nat, b: nat, p: nat, q: nat, r: nat, q2: nat, r2: nat)
    requires a > 0 && r < a && r2 < b && p == a * b && x == a * q + r && q == b * q2 + r2
    ensures p > 0 && x / p == q2 && x % p == r + a * r2
  {
    TwoLevels(x, a, b, q2, r2, r);
    DivModUnique(x, p, q2, a * r2 + r);
  }

  lemma TwoLevels(x: nat, a: nat, b: nat, q: nat, s: nat, r: nat)
    requires a > 0 && s < b && r < a && x == a * (b * q + s) + r
    ensures a * b > 0 && 0 <= a * s + r < a * b
    ensures x == (a * b) * q + (a * s + r)
  {
    Distribute(a, b, q, s);
    BelowProduct(a, b, s);
  }

  lemma Distribute(a: nat, b: nat, q: nat, s: nat)
    ensures a * (b * q + s) == (a * b) * q + a * s
  {
  }

  lemma BelowProduct(a: nat, b: nat, s: nat)
    requires a > 0 && s < b
    ensures a * b >= a * s + a > 0
  {
    assert a * b == a * s + a * (b - s);
    MulAtLeast(a, b - s);
    MulNonNegative(a, s);
  }

  lemma MulAtLeast(d: int, k: int)
    requires d > 0 && k >= 1
    ensures d * k >= d
  {
    assert d * k == d + d * (k - 1);
  }

  lemma MulNonNegative(x: int, y: int)
    requires x >= 0 && y >= 0
    ensures x * y >= 0
  {
  }

  lemma DivideShrinks(x: nat, p: nat)
    requires p > 0
    ensures 0 <= x / p <= x
    ensures p > 1 && x > 0 ==> x / p < x
  {
    var q := x / p;
    assert x == p * q + x % p;
    assert p * q == q + q * (p - 1);
    MulNonNegative(q, p - 1);
    if p > 1 && q > 0 {
      MulAtLeast(q, p - 1);
    }
  }

  lemma DivModUnique(x: int, d: int, q: int, r: int)
    requires d > 0 && 0 <= r < d && x == d * q + r
    ensures x / d == q && x % d == r
  {
    var q', r' := x / d, x % d;
    var k := q - q';
    assert d * k == r' - r by {
      assert d * k == d * q - d * q';
    }
    if k > 0 {
      MulAtLeast(d, k);
      assert false;
    }
    if k < 0 {
      MulAtLeast(d, -k);
      assert false;
    }
  }

  // ---- Bitwise operators ------------------------------------------------------

  predicate Bit(x: nat, k: nat) {
    (x / Pow2(k)) % 2 == 1
  }

  function Or(a: nat, b: nat): nat
    decreases a + b
  {
    if a == 0 then b else if b == 0 then a
    else (if a % 2 == 1 || b % 2 == 1 then 1 else 0) + 2 * Or(a / 2, b / 2)
  }

  function And(a: nat, b: nat): nat
    decreases a + b
  {
    if a == 0 || b == 0 then 0
    else (if a % 2 == 1 && b % 2 == 1 then 1 else 0) + 2 * And(a / 2, b / 2)
  }

  function Xor(a: nat, b: nat): nat
    decreases a + b
  {
    if a == 0 then b else if b == 0 then a
    else (if a % 2 != b % 2 then 1 else 0) + 2 * Xor(a / 2, b / 2)
  }

  lemma BitStep(x: nat, k: nat)
    requires k > 0
    ensures Bit(x, k) == Bit(x / 2, k - 1)
  {
    DivDiv(x, 2, Pow2(k - 1));
  }

  lemma {:induction false} BitOfZero(k: nat)
    ensures !Bit(0, k)
  {
    assert 0 / Pow2(k) == 0;
  }

  lemma {:induction false} BitOr(a: nat, b: nat, k: nat)
    ensures Bit(Or(a, b), k) == (Bit(a, k) || Bit(b, k))
    decreases k
  {
    if a == 0 || b == 0 {
      BitOfZero(k);
    } else if k > 0 {
      BitStep(a, k);
      BitStep(b, k);
      BitStep(Or(a, b), k);
      assert Or(a, b) / 2 == Or(a / 2, b / 2);
      BitOr(a / 2, b / 2, k - 1);
    }
  }

  lemma {:induction false} BitAnd(a: nat, b: nat, k: nat)
    ensures Bit(And(a, b), k) == (Bit(a, k) && Bit(b, k))
    decreases k
  {
    if a == 0 || b == 0 {
      BitOfZero(k);
    } else if k > 0 {
      BitStep(a, k);
      BitStep(b, k);
      BitStep(And(a, b), k);
      assert And(a, b) / 2 == And(a / 2, b / 2);
      BitAnd(a / 2, b / 2, k - 1);
    }
  }

  lemma {:induction false} BitXor(a: nat, b: nat, k: nat)
    ensures Bit(Xor(a, b), k) == (Bit(a, k) != Bit(b, k))
    decreases k
  {
    if a == 0 || b == 0 {
      BitOfZero(k);
    } else if k > 0 {
      BitStep(a, k);
      BitStep(b, k);
      BitStep(Xor(a, b), k);
      assert Xor(a, b) / 2 == Xor(a / 2, b / 2);
      BitXor(a / 2, b / 2, k - 1);
    }
  }

  /** OR of words with disjoint bits is addition: how the code glues a shifted-down
      word to the bits shifted in from its neighbour. */
  lemma {:induction false} OrDisjoint(a: nat, c: nat, k: nat)
    requires a < Pow2(k)
    ensures Or(a, c * Pow2(k)) == a + c * Pow2(k)
    decreases k
  {
    var b := c * Pow2(k);
    if a != 0 && b != 0 {
      assert k > 0;
      var p := Pow2(k - 1);
      assert b == 2 * (c * p);
      assert b / 2 == c * p && b % 2 == 0;
      OrDisjoint(a / 2, c, k - 1);
    }
  }

  lemma {:induction false} OrBelow(a: nat, b: nat, k: nat)
    requires a < Pow2(k) && b < Pow2(k)
    ensures Or(a, b) < Pow2(k)
    decreases k
  {
    if a != 0 && b != 0 {
      assert k > 0;
      OrBelow(a / 2, b / 2, k - 1);
    }
  }

  /** `x | 1` sets the lowest bit. */
  lemma OrOne(x: nat)
    ensures Or(x, 1) == if x % 2 == 0 then x + 1 else x
  {
    if x != 0 {
      assert Or(x / 2, 0) == x / 2;
    }
  }

  /** Masking with a power of two isolates that bit. */
  lemma {:induction false} AndPow2(x: nat, k: nat)
    ensures And(x, Pow2(k)) == if Bit(x, k) then Pow2(k) else 0
    decreases k
  {
    if x == 0 {
      BitOfZero(k);
    } else if k == 0 {
      assert And(x / 2, 0) == 0;
    } else {
      BitStep(x, k);
      assert Pow2(k) % 2 == 0 && Pow2(k) / 2 == Pow2(k - 1);
      AndPow2(x / 2, k - 1);
    }
  }

  lemma AndOdd(x: nat, m: nat)
    requires m % 2 == 1
    ensures And(x, m) == x % 2 + 2 * And(x / 2, m / 2)
  {
  }

  /** Masking with 2^k - 1 is reduction modulo 2^k. */
  lemma {:induction false} AndMask(x: nat, k: nat)
    ensures And(x, Pow2(k) - 1) == x % Pow2(k)
    decreases k
  {
    if k == 0 {
      assert x % 1 == 0;
    } else {
      AndMask(x / 2, k - 1);
      MaskDoubled(x, Pow2(k - 1));
    }
  }

  lemma MaskDoubled(x: nat, p: nat)
    requires p > 0 && And(x / 2, p - 1) == (x / 2) % p
    ensures And(x, 2 * p - 1) == x % (2 * p)
  {
    MaskStep(x, p, 2 * p - 1);
    DivDiv(x, 2, p);
  }

  lemma MaskStep(x: nat, p: nat, m: nat)
    requires p > 0 && m == 2 * p - 1
    ensures And(x, m) == x % 2 + 2 * And(x / 2, p - 1)
  {
    AndOdd(x, m);
    assert m / 2 == p - 1;
  }

  /** The top bit of a k+1-bit word. */
  lemma TopBit(x: nat, k: nat)
    requires x < Pow2(k + 1)
    ensures Bit(x, k) <==> x >= Pow2(k)
  {
    var p := Pow2(k);
    if x >= p {
      DivModUnique(x, p, 1, x - p);
    } else {
      DivModUnique(x, p, 0, x);
    }
  }
}
