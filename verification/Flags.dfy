/** RFLAGS, what each arithmetic flag means, and the formulas the emulator computes them with.
    Flag meanings follow the Intel SDM, volume 1, section 3.4.3.1. */
module EFlags {
  import opened Words

  /** Operand width in bytes. */
  type OpSize = s: nat | s == 1 || s == 2 || s == 4 || s == 8 witness 4

  function Modulus(s: OpSize): int {
    if s == 1 then 0x100 else if s == 2 then 0x1_0000 else if s == 4 then TWO32 else TWO64
  }

  function Half(s: OpSize): int {
    Modulus(s) / 2
  }

  /** x reduced to s bytes, as unsigned arithmetic masked with mask_for(s) leaves it. */
  function Wrap(x: int, s: OpSize): (r: nat)
    ensures r < Modulus(s)
    ensures -Modulus(s) <= x < 2 * Modulus(s) ==>
      r == if x < 0 then x + Modulus(s) else if x >= Modulus(s) then x - Modulus(s) else x
  {
    if s == 1 then x % 0x100 else if s == 2 then x % 0x1_0000 else if s == 4 then x % TWO32 else x % TWO64
  }

  /** x & mask_for(s). */
  function Masked(x: u64, s: OpSize): (r: u64)
    ensures r < Modulus(s)
  {
    Wrap(x, s)
  }

  lemma MaskedIsAnd(x: u64, s: OpSize)
    ensures And(x, Modulus(s) - 1) == Masked(x, s)
  {
    Pow2Values();
    AndMask(x, 8 * s);
  }

  /** Two's complement value of an s-byte word. */
  function Signed(x: nat, s: OpSize): int
    requires x < Modulus(s)
  {
    if x >= Half(s) then x - Modulus(s) else x
  }

  function Ones(x: nat): nat {
    if x == 0 then 0 else x % 2 + Ones(x / 2)
  }

  predicate EvenParity(x: nat) {
    Ones(x % 256) % 2 == 0
  }

  // ---- RFLAGS as named bits ---------------------------------------------------

  /** The register by named bits; `one` is the reserved bit 1 and `rest` every other bit. */
  datatype RFlags = RFlags(cf: bool, pf: bool, af: bool, zf: bool, sf: bool, of: bool, one: bool, df: bool, rest: nat) {
    function Six(): Arith { Arith(cf, pf, af, zf, sf, of) }

    /** Replace the six arithmetic flags, keeping every other bit. */
    function With(x: Arith): RFlags {
      RFlags(x.cf, x.pf, x.af, x.zf, x.sf, x.of, true, df, rest)
    }
  }

  datatype Arith = Arith(cf: bool, pf: bool, af: bool, zf: bool, sf: bool, of: bool)

  // ---- What the flags mean ----------------------------------------------------

  function B2N(b: bool): nat { if b then 1 else 0 }

  predicate InSignedRange(v: int, s: OpSize) {
    0 <= v + Half(s) < Modulus(s)
  }

  /** a + b + c: carry and adjust are carries out of the top and out of bit 3, overflow is a signed
      sum outside the range. */
  function AddMeaning(s: OpSize, a: nat, b: nat, c: bool): Arith
    requires a < Modulus(s) && b < Modulus(s)
  {
    var r := Wrap(a + b + B2N(c), s);
    Arith(a + b + B2N(c) >= Modulus(s),
          EvenParity(r),
          a % 16 + b % 16 + B2N(c) >= 16,
          r == 0,
          Signed(r, s) < 0,
          !InSignedRange(Signed(a, s) + Signed(b, s) + B2N(c), s))
  }

  /** a - b - c: borrows instead of carries. */
  function SubMeaning(s: OpSize, a: nat, b: nat, c: bool): Arith
    requires a < Modulus(s) && b < Modulus(s)
  {
    var r := Wrap(a - b - B2N(c), s);
    Arith(a < b + B2N(c),
          EvenParity(r),
          a % 16 < b % 16 + B2N(c),
          r == 0,
          Signed(r, s) < 0,
          !InSignedRange(Signed(a, s) - Signed(b, s) - B2N(c), s))
  }

  function LogicMeaning(s: OpSize, r: nat): Arith
    requires r < Modulus(s)
  {
    Arith(false, EvenParity(r), false, r == 0, Signed(r, s) < 0, false)
  }

  // ---- The formulas the emulator evaluates ------------------------------------

  function SignMask(s: OpSize): (m: nat)
    ensures m == Half(s)
  {
    Half(s)
  }

  /** x & sign_mask(s), tested against zero. */
  predicate SignSet(x: nat, s: OpSize) {
    if s == 1 then x / 0x80 % 2 == 1 else if s == 2 then x / 0x8000 % 2 == 1
    else if s == 4 then x / 0x8000_0000 % 2 == 1 else x / TWO63 % 2 == 1
  }

  /** The bit below the sign. */
  predicate SecondSet(x: nat, s: OpSize) {
    if s == 1 then x / 0x40 % 2 == 1 else if s == 2 then x / 0x4000 % 2 == 1
    else if s == 4 then x / 0x4000_0000 % 2 == 1 else x / 0x4000_0000_0000_0000 % 2 == 1
  }

  /** x & 0x10, tested against zero. */
  predicate AdjustSet(x: nat) {
    x / 0x10 % 2 == 1
  }

  const FRESH: RFlags := RFlags(false, false, false, false, false, false, true, false, 0)

  function ApplyZsp(f: RFlags, s: OpSize, result: u64): RFlags {
    var mr := Masked(result, s);
    f.(zf := mr == 0, sf := SignSet(mr, s), pf := EvenParity(mr))
  }

  function ComputeLogic(s: OpSize, dst: u64): RFlags {
    ApplyZsp(FRESH, s, dst)
  }

  /** Overflow and adjust after an addition, from both operands and the result. */
  function AddBits(s: OpSize, a: nat, b: nat, r: nat, cf: bool): RFlags
    requires r < Modulus(s)
  {
    ApplyZsp(FRESH, s, r).(
      cf := cf,
      of := SignSet(And(Xor(a, r), Xor(b, r)), s),
      af := AdjustSet(Xor(Xor(a, b), r)))
  }

  /** The same after a subtraction. */
  function SubBits(s: OpSize, a: nat, b: nat, r: nat, cf: bool): RFlags
    requires r < Modulus(s)
  {
    ApplyZsp(FRESH, s, r).(
      cf := cf,
      of := SignSet(And(Xor(a, b), Xor(a, r)), s),
      af := AdjustSet(Xor(Xor(a, b), r)))
  }

  function ComputeAdd(s: OpSize, src: u64, dst: u64): RFlags {
    var b, r := Masked(src, s), Masked(dst, s);
    AddBits(s, Wrap(r - b, s), b, r, r < b)
  }

  function ComputeAdc(s: OpSize, src: u64, dst: u64, cin: bool): RFlags {
    var b, r := Masked(src, s), Masked(dst, s);
    AddBits(s, Wrap(r - b - B2N(cin), s), b, r, if cin then r <= b else r < b)
  }

  function ComputeSub(s: OpSize, src: u64, dst: u64): RFlags {
    var b, r := Masked(src, s), Masked(dst, s);
    var a := Wrap(r + b, s);
    SubBits(s, a, b, r, a < b)
  }

  function ComputeSbb(s: OpSize, src: u64, dst: u64, bin: bool): RFlags {
    var b, r := Masked(src, s), Masked(dst, s);
    var a := Wrap(r + b + B2N(bin), s);
    SubBits(s, a, b, r, if bin then a <= b else a < b)
  }

  function IncFlags(s: OpSize, prev: nat, r: nat, cf: bool): RFlags
    requires r < Modulus(s)
  {
    ApplyZsp(FRESH, s, r).(
      cf := cf,
      of := prev == SignMask(s) - 1 && SignSet(r, s),
      af := AdjustSet(Xor(prev, r)))
  }

  function DecFlags(s: OpSize, prev: nat, r: nat, cf: bool): RFlags
    requires r < Modulus(s)
  {
    ApplyZsp(FRESH, s, r).(
      cf := cf,
      of := prev == SignMask(s) && !SignSet(r, s),
      af := AdjustSet(Xor(prev, r)))
  }

  function ComputeInc(s: OpSize, savedCf: bool, dst: u64): RFlags {
    var r := Masked(dst, s);
    IncFlags(s, Wrap(r - 1, s), r, savedCf)
  }

  function ComputeDec(s: OpSize, savedCf: bool, dst: u64): RFlags {
    var r := Masked(dst, s);
    DecFlags(s, Wrap(r + 1, s), r, savedCf)
  }

  function ComputeNeg(s: OpSize, src: u64, dst: u64): RFlags {
    var a, r := Masked(src, s), Masked(dst, s);
    ApplyZsp(FRESH, s, r).(cf := a != 0, of := a == SignMask(s), af := AdjustSet(Or(a, r)))
  }

  /** (x >> k) & 1 for a 64-bit word. */
  predicate BitAt(x: u64, k: nat) {
    Bit(x, k)
  }

  function ComputeShl(s: OpSize, original: u64, dst: u64, count: nat): RFlags {
    var z := ApplyZsp(FRESH, s, dst);
    if count == 0 then z
    else
      var cf := count <= 8 * s && BitAt(original, 8 * s - count);
      z.(cf := cf, of := if count == 1 then SignSet(dst, s) != cf else false)
  }

  function ComputeShr(s: OpSize, original: u64, dst: u64, count: nat): RFlags {
    var z := ApplyZsp(FRESH, s, dst);
    if count == 0 then z
    else
      z.(cf := count <= 8 * s && BitAt(original, count - 1),
         of := if count == 1 then SignSet(original, s) else false)
  }

  function ComputeSar(s: OpSize, original: u64, dst: u64, count: nat): RFlags {
    var z := ApplyZsp(FRESH, s, dst);
    if count == 0 then z
    else
      z.(cf := if count <= 8 * s then BitAt(original, count - 1) else SignSet(original, s))
  }

  function ComputeRol(s: OpSize, dst: u64, count: nat, preserved: RFlags): RFlags {
    if count == 0 then preserved.(one := true)
    else
      var cf := dst % 2 == 1;
      preserved.(cf := cf, of := if count == 1 then SignSet(dst, s) != cf else preserved.of, one := true)
  }

  function ComputeRor(s: OpSize, dst: u64, count: nat, preserved: RFlags): RFlags {
    if count == 0 then preserved.(one := true)
    else
      var cf := SignSet(dst, s);
      var second := SecondSet(dst, s);
      preserved.(cf := cf, of := if count == 1 then cf != second else preserved.of, one := true)
  }

  function ComputeMulOv(preserved: RFlags, overflow: bool): RFlags {
    preserved.(cf := overflow, of := overflow, one := true)
  }

  // ---- The formulas mean what they should --------------------------------------

  lemma SignMaskIsPower(s: OpSize)
    ensures SignMask(s) == Pow2(8 * s - 1) && Modulus(s) == Pow2(8 * s)
  {
    Pow2Values();
    assert Pow2(7) == 128;
  }

  lemma SignSetIsBit(x: nat, s: OpSize)
    ensures SignSet(x, s) <==> Bit(x, 8 * s - 1)
  {
    Pow2Values();
    assert Pow2(7) == 128;
  }

  lemma SecondSetIsMask(x: nat, s: OpSize)
    ensures SecondSet(x, s) <==> And(x, SignMask(s) / 2) != 0
  {
    var k := 8 * s - 2;
    SignMaskIsPower(s);
    assert Pow2(k + 1) == 2 * Pow2(k);
    AndPow2(x, k);
  }

  /** The three tests are the masked ones the emulator writes. */
  lemma TestsAreMasks(x: nat, s: OpSize)
    ensures SignSet(x, s) <==> And(x, SignMask(s)) != 0
    ensures SecondSet(x, s) <==> And(x, SignMask(s) / 2) != 0
    ensures AdjustSet(x) <==> And(x, 0x10) != 0
  {
    SignMaskIsPower(s);
    SignSetIsBit(x, s);
    AndPow2(x, 8 * s - 1);
    SecondSetIsMask(x, s);
    assert Pow2(4) == 0x10;
    AndPow2(x, 4);
  }

  lemma SignSetMeaning(x: nat, s: OpSize)
    requires x < Modulus(s)
    ensures SignSet(x, s) <==> Signed(x, s) < 0
  {
    SignSetIsBit(x, s);
    SignMaskIsPower(s);
    TopBit(x, 8 * s - 1);
  }

  lemma SignOfXors(s: OpSize, a: nat, b: nat, c: nat, d: nat)
    requires a < Modulus(s) && b < Modulus(s) && c < Modulus(s) && d < Modulus(s)
    ensures SignSet(And(Xor(a, b), Xor(c, d)), s)
       <==> (Signed(a, s) < 0) != (Signed(b, s) < 0) && (Signed(c, s) < 0) != (Signed(d, s) < 0)
  {
    var k := 8 * s - 1;
    SignMaskIsPower(s);
    SignSetIsBit(And(Xor(a, b), Xor(c, d)), s);
    BitAnd(Xor(a, b), Xor(c, d), k);
    BitXor(a, b, k);
    BitXor(c, d, k);
    TopBit(a, k);
    TopBit(b, k);
    TopBit(c, k);
    TopBit(d, k);
  }

  lemma BitFour(x: nat)
    ensures Bit(x, 4) <==> x % 32 >= 16
  {
    assert Pow2(4) == 16;
  }

  lemma AdjustOfXors(a: nat, b: nat, r: nat)
    ensures AdjustSet(Xor(Xor(a, b), r)) <==> ((a % 32 >= 16) != (b % 32 >= 16)) != (r % 32 >= 16)
  {
    assert Pow2(4) == 0x10;
    BitXor(Xor(a, b), r, 4);
    BitXor(a, b, 4);
    BitFour(a);
    BitFour(b);
    BitFour(r);
  }

  lemma SameLowBits(x: int, y: int, k: int)
    requires x == y + 32 * k
    ensures x % 32 == y % 32
  {
    DivModUnique(x, 32, y / 32 + k, y % 32);
  }

  lemma LowBitsOfWrap(x: int, s: OpSize)
    ensures Wrap(x, s) % 32 == x % 32
  {
    var q := if s == 1 then 8 * (x / 0x100) else if s == 2 then 2048 * (x / 0x1_0000)
             else if s == 4 then (TWO32 / 32) * (x / TWO32) else (TWO64 / 32) * (x / TWO64);
    SameLowBits(x, Wrap(x, s), q);
  }

  lemma HalfOf(s: OpSize)
    ensures Modulus(s) == 2 * Half(s) && Half(s) >= 128
  {
  }

  lemma AddCarryOverflow(s: OpSize, a: nat, b: nat, c: bool, r: nat)
    requires a < Modulus(s) && b < Modulus(s) && r == Wrap(a + b + B2N(c), s)
    ensures Wrap(r - b - B2N(c), s) == a
    ensures (if c then r <= b else r < b) <==> a + b + B2N(c) >= Modulus(s)
    ensures (Signed(a, s) < 0) != (Signed(r, s) < 0) && (Signed(b, s) < 0) != (Signed(r, s) < 0)
       <==> !InSignedRange(Signed(a, s) + Signed(b, s) + B2N(c), s)
  {
    HalfOf(s);
  }

  lemma SubBorrowOverflow(s: OpSize, a: nat, b: nat, c: bool, r: nat)
    requires a < Modulus(s) && b < Modulus(s) && r == Wrap(a - b - B2N(c), s)
    ensures Wrap(r + b + B2N(c), s) == a
    ensures (Signed(a, s) < 0) != (Signed(b, s) < 0) && (Signed(a, s) < 0) != (Signed(r, s) < 0)
       <==> !InSignedRange(Signed(a, s) - Signed(b, s) - B2N(c), s)
  {
    HalfOf(s);
  }

  /** The low four bits of a five-bit number. */
  function Nibble(x: nat): int {
    if x >= 16 then x - 16 else x
  }

  lemma AdjustFive(x: nat, y: nat, c: nat)
    requires x < 32 && y < 32 && c <= 1
    ensures ((x >= 16) != (y >= 16)) != ((x + y + c) % 32 >= 16) <==> Nibble(x) + Nibble(y) + c >= 16
    ensures ((x >= 16) != (y >= 16)) != ((x - y - c) % 32 >= 16) <==> Nibble(x) < Nibble(y) + c
  {
  }

  /** Bit 4 of the result shows the carry or borrow out of bit 3. */
  lemma AdjustAdd(a: nat, b: nat, c: nat, r: nat)
    requires c <= 1 && r % 32 == (a + b + c) % 32
    ensures ((a % 32 >= 16) != (b % 32 >= 16)) != (r % 32 >= 16) <==> a % 16 + b % 16 + c >= 16
  {
    SameLowBits(a + b + c, a % 32 + b % 32 + c, a / 32 + b / 32);
    LowNibble(a);
    LowNibble(b);
    AdjustFive(a % 32, b % 32, c);
  }

  lemma AdjustSub(a: nat, b: nat, c: nat, r: nat)
    requires c <= 1 && r % 32 == (a - b - c) % 32
    ensures ((a % 32 >= 16) != (b % 32 >= 16)) != (r % 32 >= 16) <==> a % 16 < b % 16 + c
  {
    SameLowBits(a - b - c, a % 32 - b % 32 - c, a / 32 - b / 32);
    LowNibble(a);
    LowNibble(b);
    AdjustFive(a % 32, b % 32, c);
  }

  lemma LowNibble(a: nat)
    ensures a % 16 == Nibble(a % 32)
  {
    var x := a % 32;
    DivModUnique(a, 16, 2 * (a / 32) + if x >= 16 then 1 else 0, if x >= 16 then x - 16 else x);
  }

  lemma AddAdjust(s: OpSize, a: nat, b: nat, c: bool, r: nat)
    requires r == Wrap(a + b + B2N(c), s)
    ensures AdjustSet(Xor(Xor(a, b), r)) <==> a % 16 + b % 16 + B2N(c) >= 16
  {
    AdjustOfXors(a, b, r);
    LowBitsOfWrap(a + b + B2N(c), s);
    AdjustAdd(a, b, B2N(c), r);
  }

  lemma SubAdjust(s: OpSize, a: nat, b: nat, c: bool, r: nat)
    requires r == Wrap(a - b - B2N(c), s)
    ensures AdjustSet(Xor(Xor(a, b), r)) <==> a % 16 < b % 16 + B2N(c)
  {
    AdjustOfXors(a, b, r);
    LowBitsOfWrap(a - b - B2N(c), s);
    AdjustSub(a, b, B2N(c), r);
  }

  lemma AddCarryBit(s: OpSize, a: nat, b: nat, c: bool, r: nat)
    requires a < Modulus(s) && b < Modulus(s) && r == Wrap(a + b + B2N(c), s)
    ensures (if c then r <= b else r < b) <==> a + b + B2N(c) >= Modulus(s)
    ensures SignSet(And(Xor(a, r), Xor(b, r)), s) <==> !InSignedRange(Signed(a, s) + Signed(b, s) + B2N(c), s)
  {
    AddCarryOverflow(s, a, b, c, r);
    SignOfXors(s, a, r, b, r);
  }

  lemma AddBitsMeaning(s: OpSize, a: nat, b: nat, c: bool, r: nat)
    requires a < Modulus(s) && b < Modulus(s) && r == Wrap(a + b + B2N(c), s)
    ensures AddBits(s, a, b, r, if c then r <= b else r < b).Six() == AddMeaning(s, a, b, c)
  {
    AddCarryBit(s, a, b, c, r);
    SignSetMeaning(r, s);
    AddAdjust(s, a, b, c, r);
  }

  lemma SubBorrowBit(s: OpSize, a: nat, b: nat, c: bool, r: nat)
    requires a < Modulus(s) && b < Modulus(s) && r == Wrap(a - b - B2N(c), s)
    ensures SignSet(And(Xor(a, b), Xor(a, r)), s) <==> !InSignedRange(Signed(a, s) - Signed(b, s) - B2N(c), s)
  {
    SubBorrowOverflow(s, a, b, c, r);
    SignOfXors(s, a, b, a, r);
  }

  lemma SubBitsMeaning(s: OpSize, a: nat, b: nat, c: bool, r: nat)
    requires a < Modulus(s) && b < Modulus(s) && r == Wrap(a - b - B2N(c), s)
    ensures SubBits(s, a, b, r, if c then a <= b else a < b).Six() == SubMeaning(s, a, b, c)
  {
    SubBorrowBit(s, a, b, c, r);
    SignSetMeaning(r, s);
    SubAdjust(s, a, b, c, r);
  }

  /** ADC recovers its first operand from the result, and with it all six flags. */
  lemma ComputeAdcMeaning(s: OpSize, a: nat, b: nat, c: bool, src: u64, dst: u64)
    requires a < Modulus(s) && b == Masked(src, s) && Masked(dst, s) == Wrap(a + b + B2N(c), s)
    ensures ComputeAdc(s, src, dst, c).Six() == AddMeaning(s, a, b, c)
  {
    AddCarryOverflow(s, a, b, c, Masked(dst, s));
    AddBitsMeaning(s, a, b, c, Masked(dst, s));
  }

  lemma PlainBack(s: OpSize, a: nat, b: nat)
    requires a < Modulus(s) && b < Modulus(s)
    ensures Wrap(Wrap(a + b, s) - b, s) == a && Wrap(Wrap(a - b, s) + b, s) == a
  {
  }

  lemma SumBits(s: OpSize, a: nat, b: nat, r: nat)
    requires a < Modulus(s) && b < Modulus(s) && r == Wrap(a + b, s)
    ensures AddBits(s, a, b, r, r < b).Six() == AddMeaning(s, a, b, false)
  {
    assert a + b + B2N(false) == a + b;
    AddBitsMeaning(s, a, b, false, r);
  }

  lemma DifferenceBits(s: OpSize, a: nat, b: nat, r: nat)
    requires a < Modulus(s) && b < Modulus(s) && r == Wrap(a - b, s)
    ensures SubBits(s, a, b, r, a < b).Six() == SubMeaning(s, a, b, false)
  {
    assert a - b - B2N(false) == a - b;
    SubBitsMeaning(s, a, b, false, r);
  }

  lemma ComputeAddMeaning(s: OpSize, a: nat, b: nat, src: u64, dst: u64)
    requires a < Modulus(s) && b == Masked(src, s) && Masked(dst, s) == Wrap(a + b, s)
    ensures ComputeAdd(s, src, dst).Six() == AddMeaning(s, a, b, false)
  {
    var r := Masked(dst, s);
    PlainBack(s, a, b);
    assert Wrap(r - b, s) == a;
    SumBits(s, a, b, r);
  }

  lemma ComputeSbbMeaning(s: OpSize, a: nat, b: nat, c: bool, src: u64, dst: u64)
    requires a < Modulus(s) && b == Masked(src, s) && Masked(dst, s) == Wrap(a - b - B2N(c), s)
    ensures ComputeSbb(s, src, dst, c).Six() == SubMeaning(s, a, b, c)
  {
    var r := Masked(dst, s);
    BorrowBack(s, a, b, c, r);
    SubBitsMeaning(s, a, b, c, r);
  }

  /** SBB's first operand comes back from the result. */
  lemma BorrowBack(s: OpSize, a: nat, b: nat, c: bool, r: nat)
    requires a < Modulus(s) && b < Modulus(s) && r == Wrap(a - b - B2N(c), s)
    ensures Wrap(r + b + B2N(c), s) == a
  {
    SubBorrowOverflow(s, a, b, c, r);
  }

  lemma ComputeSubMeaning(s: OpSize, a: nat, b: nat, src: u64, dst: u64)
    requires a < Modulus(s) && b == Masked(src, s) && Masked(dst, s) == Wrap(a - b, s)
    ensures ComputeSub(s, src, dst).Six() == SubMeaning(s, a, b, false)
  {
    var r := Masked(dst, s);
    PlainBack(s, a, b);
    assert Wrap(r + b, s) == a;
    DifferenceBits(s, a, b, r);
  }

  lemma AdjustOfXor(a: nat, r: nat)
    ensures AdjustSet(Xor(a, r)) <==> (a % 32 >= 16) != (r % 32 >= 16)
  {
    assert Pow2(4) == 0x10;
    BitXor(a, r, 4);
    BitFour(a);
    BitFour(r);
  }

  /** Stepping up crosses into the negatives exactly at the largest positive word. */
  lemma StepOverflow(s: OpSize, a: nat)
    requires a < Modulus(s)
    ensures a == Half(s) - 1 <==> !InSignedRange(Signed(a, s) + 1, s)
    ensures a == Half(s) <==> !InSignedRange(Signed(a, s) - 1, s)
    ensures a == Half(s) - 1 ==> Signed(Wrap(a + 1, s), s) < 0
    ensures a == Half(s) ==> Signed(Wrap(a - 1, s), s) >= 0
    ensures Signed(1, s) == 1
  {
    HalfOf(s);
  }

  lemma IncAdjust(s: OpSize, a: nat)
    ensures AdjustSet(Xor(a, Wrap(a + 1, s))) <==> a % 16 + 1 >= 16
  {
    AdjustOfXor(a, Wrap(a + 1, s));
    LowBitsOfWrap(a + 1, s);
    AdjustAdd(a, 1, 0, Wrap(a + 1, s));
  }

  lemma DecAdjust(s: OpSize, a: nat)
    ensures AdjustSet(Xor(a, Wrap(a - 1, s))) <==> a % 16 < 1
  {
    AdjustOfXor(a, Wrap(a - 1, s));
    LowBitsOfWrap(a - 1, s);
    AdjustSub(a, 1, 0, Wrap(a - 1, s));
  }

  lemma StepBack(s: OpSize, a: nat)
    requires a < Modulus(s)
    ensures Wrap(Wrap(a + 1, s) - 1, s) == a && Wrap(Wrap(a - 1, s) + 1, s) == a
  {
  }

  /** INC is an addition of one that keeps the carry flag. */
  lemma ComputeIncMeaning(s: OpSize, a: nat, cf: bool, dst: u64)
    requires a < Modulus(s) && Masked(dst, s) == Wrap(a + 1, s)
    ensures ComputeInc(s, cf, dst).Six() == AddMeaning(s, a, 1, false).(cf := cf)
  {
    var r := Masked(dst, s);
    IncFormula(s, a, r, cf, dst);
    IncBits(s, a, r);
    AddOne(s, a, r);
  }

  lemma IncFormula(s: OpSize, a: nat, r: nat, cf: bool, dst: u64)
    requires a < Modulus(s) && r == Masked(dst, s) && r == Wrap(a + 1, s)
    ensures ComputeInc(s, cf, dst).Six()
         == Arith(cf, EvenParity(r), AdjustSet(Xor(a, r)), r == 0, Signed(r, s) < 0,
                  a == SignMask(s) - 1 && SignSet(r, s))
  {
    StepBack(s, a);
    ZspMeaning(s, r, cf, a == SignMask(s) - 1 && SignSet(r, s), AdjustSet(Xor(a, r)));
  }

  lemma IncBits(s: OpSize, a: nat, r: nat)
    requires a < Modulus(s) && r == Wrap(a + 1, s)
    ensures (a == SignMask(s) - 1 && SignSet(r, s)) == !InSignedRange(Signed(a, s) + 1, s)
    ensures (AdjustSet(Xor(a, r))) == (a % 16 + 1 >= 16)
  {
    StepOverflow(s, a);
    SignSetMeaning(r, s);
    IncAdjust(s, a);
  }

  lemma AddOne(s: OpSize, a: nat, r: nat)
    requires a < Modulus(s) && r == Wrap(a + 1, s)
    ensures AddMeaning(s, a, 1, false)
         == Arith(a + 1 >= Modulus(s), EvenParity(r), a % 16 + 1 >= 16, r == 0, Signed(r, s) < 0,
                  !InSignedRange(Signed(a, s) + 1, s))
  {
  }

  /** DEC is a subtraction of one that keeps the carry flag. */
  lemma ComputeDecMeaning(s: OpSize, a: nat, cf: bool, dst: u64)
    requires a < Modulus(s) && Masked(dst, s) == Wrap(a - 1, s)
    ensures ComputeDec(s, cf, dst).Six() == SubMeaning(s, a, 1, false).(cf := cf)
  {
    var r := Masked(dst, s);
    DecFormula(s, a, r, cf, dst);
    DecBits(s, a, r);
    SubOne(s, a, r);
  }

  lemma DecFormula(s: OpSize, a: nat, r: nat, cf: bool, dst: u64)
    requires a < Modulus(s) && r == Masked(dst, s) && r == Wrap(a - 1, s)
    ensures ComputeDec(s, cf, dst).Six()
         == Arith(cf, EvenParity(r), AdjustSet(Xor(a, r)), r == 0, Signed(r, s) < 0, a == SignMask(s) && !SignSet(r, s))
  {
    StepBack(s, a);
    ZspMeaning(s, r, cf, a == SignMask(s) && !SignSet(r, s), AdjustSet(Xor(a, r)));
  }

  lemma ZspMeaning(s: OpSize, r: nat, cf: bool, of: bool, af: bool)
    requires r < Modulus(s)
    ensures ApplyZsp(FRESH, s, r).(cf := cf, of := of, af := af).Six()
         == Arith(cf, EvenParity(r), af, r == 0, Signed(r, s) < 0, of)
  {
    SignSetMeaning(r, s);
  }

  lemma DecBits(s: OpSize, a: nat, r: nat)
    requires a < Modulus(s) && r == Wrap(a - 1, s)
    ensures (a == SignMask(s) && !SignSet(r, s)) == !InSignedRange(Signed(a, s) - 1, s)
    ensures (AdjustSet(Xor(a, r))) == (a % 16 < 1)
  {
    StepOverflow(s, a);
    SignSetMeaning(r, s);
    DecAdjust(s, a);
  }

  lemma SubOne(s: OpSize, a: nat, r: nat)
    requires a < Modulus(s) && r == Wrap(a - 1, s)
    ensures SubMeaning(s, a, 1, false)
         == Arith(a < 1, EvenParity(r), a % 16 < 1, r == 0, Signed(r, s) < 0, !InSignedRange(Signed(a, s) - 1, s))
  {
  }

  lemma AdjustOfOr(a: nat, r: nat)
    ensures AdjustSet(Or(a, r)) <==> AdjustSet(a) || AdjustSet(r)
  {
    assert Pow2(4) == 0x10;
    BitOr(a, r, 4);
  }

  lemma NegOverflow(s: OpSize, a: nat)
    requires a < Modulus(s)
    ensures SubMeaning(s, 0, a, false).cf == (a != 0)
    ensures SubMeaning(s, 0, a, false).of == (a == SignMask(s))
  {
    HalfOf(s);
  }

  lemma NegFormula(s: OpSize, a: u64, dst: u64)
    requires a < Modulus(s)
    ensures var r := Masked(dst, s);
      ComputeNeg(s, a, dst).Six()
      == Arith(a != 0, EvenParity(r), AdjustSet(a) || AdjustSet(r), r == 0, Signed(r, s) < 0, a == SignMask(s))
  {
    var r := Masked(dst, s);
    AdjustOfOr(a, r);
    ZspMeaning(s, r, a != 0, a == SignMask(s), AdjustSet(Or(a, r)));
  }

  lemma NegSix(s: OpSize, a: nat, r: nat)
    requires a < Modulus(s) && r == Wrap(0 - a, s)
    ensures SubMeaning(s, 0, a, false).(af := AdjustSet(a) || AdjustSet(r))
      == Arith(a != 0, EvenParity(r), AdjustSet(a) || AdjustSet(r), r == 0, Signed(r, s) < 0, a == SignMask(s))
  {
    NegOverflow(s, a);
    NegRest(s, a, r);
  }

  /** NEG is a subtraction from zero in every flag but the adjust flag. */
  lemma ComputeNegMeaning(s: OpSize, a: u64, dst: u64)
    requires a < Modulus(s) && Masked(dst, s) == Wrap(0 - a, s)
    ensures ComputeNeg(s, a, dst).Six() == SubMeaning(s, 0, a, false).(af := AdjustSet(a) || AdjustSet(Wrap(0 - a, s)))
  {
    NegFormula(s, a, dst);
    NegSix(s, a, Masked(dst, s));
  }

  lemma NegRest(s: OpSize, a: nat, r: nat)
    requires a < Modulus(s) && r == Wrap(0 - a, s)
    ensures var f := SubMeaning(s, 0, a, false); f.pf == EvenParity(r) && f.zf == (r == 0) && f.sf == (Signed(r, s) < 0)
  {
    assert 0 - a - B2N(false) == 0 - a;
  }

  lemma ComputeLogicMeaning(s: OpSize, dst: u64)
    ensures ComputeLogic(s, dst).Six() == LogicMeaning(s, Masked(dst, s))
  {
    SignSetMeaning(Masked(dst, s), s);
  }

  // ---- Conditions (Intel SDM, volume 1, appendix B) ----------------------------

  datatype Cc = O | NO | B | NB | Z | NZ | BE | NBE | S | NS | P | NP | L | NL | LE | NLE | Always

  function CondHolds(cc: Cc, f: Arith): bool {
    match cc
    case O => f.of
    case NO => !f.of
    case B => f.cf
    case NB => !f.cf
    case Z => f.zf
    case NZ => !f.zf
    case BE => f.cf || f.zf
    case NBE => !f.cf && !f.zf
    case S => f.sf
    case NS => !f.sf
    case P => f.pf
    case NP => !f.pf
    case L => f.sf != f.of
    case NL => f.sf == f.of
    case LE => f.zf || f.sf != f.of
    case NLE => !f.zf && f.sf == f.of
    case Always => true
  }

  /** After a borrow-in subtraction the sign and overflow flags together order the signed operands. */
  lemma SignedBorrow(s: OpSize, a: nat, b: nat, c: bool)
    requires a < Modulus(s) && b < Modulus(s)
    ensures var f := SubMeaning(s, a, b, c);
            f.sf != f.of <==> Signed(a, s) - Signed(b, s) - B2N(c) < 0
  {
    HalfOf(s);
  }

  /** CMP a, b: every ordering condition is the comparison it is named for. */
  lemma CompareConditions(s: OpSize, a: nat, b: nat)
    requires a < Modulus(s) && b < Modulus(s)
    ensures var f := SubMeaning(s, a, b, false);
      && (CondHolds(Z, f) <==> a == b) && (CondHolds(NZ, f) <==> a != b)
      && (CondHolds(B, f) <==> a < b) && (CondHolds(NB, f) <==> a >= b)
      && (CondHolds(BE, f) <==> a <= b) && (CondHolds(NBE, f) <==> a > b)
      && (CondHolds(L, f) <==> Signed(a, s) < Signed(b, s)) && (CondHolds(NL, f) <==> Signed(a, s) >= Signed(b, s))
      && (CondHolds(LE, f) <==> Signed(a, s) <= Signed(b, s)) && (CondHolds(NLE, f) <==> Signed(a, s) > Signed(b, s))
  {
    HalfOf(s);
    SignedBorrow(s, a, b, false);
  }
}
