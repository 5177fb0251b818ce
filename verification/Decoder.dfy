/** The instruction decoder on the modelled subset. Every reader takes the bytes, a position and the
    status its source reports past the end, and says where it stopped. */
module Decoder {
  import opened Words
  import opened Base
  import opened EFlags
  import opened Insns

  datatype Parse<T> = Got(value: T, next: nat) | Fail(status: Status) {
    predicate IsFailure() {
      Fail?
    }

    function PropagateFailure<U>(): Parse<U>
      requires Fail?
    {
      Fail(status)
    }

    function Extract(): Parse<T>
      requires Got?
    {
      this
    }
  }

  // ---- Reading ---------------------------------------------------------------------

  function ReadByte(b: seq<u8>, at: nat, end: Status): (r: Parse<u8>)
    ensures r.Got? ==> r.next == at + 1 <= |b|
  {
    if at < |b| then Got(b[at], at + 1) else Fail(end)
  }

  /** n bytes, least significant first. */
  function ReadLe(b: seq<u8>, at: nat, n: nat, end: Status): (r: Parse<nat>)
    requires at <= |b|
    ensures r.Got? ==> r.next == at + n <= |b| && r.value < Span(n)
    decreases n
  {
    if n == 0 then Got(0, at)
    else
      var low :- ReadByte(b, at, end);
      var high :- ReadLe(b, low.next, n - 1, end);
      Got(low.value + 256 * high.value, high.next)
  }

  /** Two's complement widening to 64 bits. */
  function SignExtend(v: nat, n: OpSize): u64
    requires v < Modulus(n)
  {
    if v >= Half(n) then v + TWO64 - Modulus(n) else v
  }

  lemma SpanIsModulus(n: OpSize)
    ensures Span(n) == Modulus(n)
  {
    assert Span(4) == TWO32;
    assert Span(8) == TWO64;
  }

  function ReadImmSx(b: seq<u8>, at: nat, n: OpSize, end: Status): (r: Parse<u64>)
    requires at <= |b|
    ensures r.Got? ==> r.next == at + n <= |b|
  {
    SpanIsModulus(n);
    var v :- ReadLe(b, at, n, end);
    Got(SignExtend(v.value, n), v.next)
  }

  // ---- Prefixes --------------------------------------------------------------------

  datatype Prefixes = Prefixes(opsize: bool, addrsize: bool, lock: bool, rep: bool, repne: bool,
                               hasSeg: bool, seg: Seg, hasRex: bool, rex: u8) {
    predicate RexW() { rex / 8 % 2 == 1 }
    predicate RexR() { rex / 4 % 2 == 1 }
    predicate RexX() { rex / 2 % 2 == 1 }
    predicate RexB() { rex % 2 == 1 }
  }

  const NO_PREFIXES: Prefixes := Prefixes(false, false, false, false, false, false, DS, false, 0)

  predicate LegacyPrefix(x: u8) {
    x == 0x66 || x == 0x67 || x == 0xF0 || x == 0xF2 || x == 0xF3 ||
    x == 0x26 || x == 0x2E || x == 0x36 || x == 0x3E || x == 0x64 || x == 0x65
  }

  function Prefixed(px: Prefixes, x: u8): Prefixes
    requires LegacyPrefix(x)
  {
    if x == 0x66 then px.(opsize := true)
    else if x == 0x67 then px.(addrsize := true)
    else if x == 0xF0 then px.(lock := true)
    else if x == 0xF2 then px.(repne := true)
    else if x == 0xF3 then px.(rep := true)
    else if x == 0x26 then px.(seg := ES, hasSeg := true)
    else if x == 0x2E then px.(seg := CS, hasSeg := true)
    else if x == 0x36 then px.(seg := SS, hasSeg := true)
    else if x == 0x3E then px.(seg := DS, hasSeg := true)
    else if x == 0x64 then px.(seg := FS, hasSeg := true)
    else px.(seg := GS, hasSeg := true)
  }

  /** What follows the legacy prefixes: a REX byte, a vector prefix, or the opcode itself. */
  function AfterLegacy(b: seq<u8>, at: nat, px: Prefixes): (r: Parse<Prefixes>)
    requires at < |b|
    ensures r.Got? ==> at <= r.next <= at + 1
  {
    var x := b[at];
    if x == 0xC5 || x == 0x62 || x == 0xC4 then Fail(NotModelled)
    else if 0x40 <= x <= 0x4F then Got(px.(rex := x, hasRex := true), at + 1)
    else Got(px, at)
  }

  function ScanPrefixes(b: seq<u8>, at: nat, px: Prefixes, end: Status): (r: Parse<Prefixes>)
    requires at <= |b|
    ensures r.Got? ==> at <= r.next <= |b|
    decreases |b| - at
  {
    if at == |b| then Fail(end)
    else if LegacyPrefix(b[at]) then ScanPrefixes(b, at + 1, Prefixed(px, b[at]), end)
    else AfterLegacy(b, at, px)
  }

  // ---- ModRM and SIB -----------------------------------------------------------------

  type u2 = x: int | 0 <= x < 4
  type u3 = x: int | 0 <= x < 8

  datatype ModRm = ModRm(mod: u2, reg: u3, rm: u3)

  function SplitModRm(x: u8): ModRm {
    ModRm(x / 64, x / 8 % 8, x % 8)
  }

  function CombineReg(ext: bool, low: u3): (r: nat)
    ensures r < 16
  {
    if ext then 8 + low else low
  }

  /** Without REX, byte registers 4 to 7 are AH, CH, DH and BH. */
  function RegField(px: Prefixes, ext: bool, low: u3, size: OpSize): (r: RegId)
    ensures r >= 16 ==> size == 1
  {
    if size == 1 && !px.hasRex && low >= 4 then 16 + (low - 4) else CombineReg(ext, low)
  }

  function RegOperand(px: Prefixes, m: ModRm, size: OpSize): Operand {
    Reg(RegField(px, px.RexR(), m.reg, size))
  }

  /** disp8 or disp32 as mod says, sign-extended; none for mod 0. */
  function Displacement(b: seq<u8>, at: nat, mod: u2, end: Status): (r: Parse<u64>)
    requires at <= |b|
    ensures r.Got? ==> at <= r.next <= |b|
  {
    if mod == 1 then ReadImmSx(b, at, 1, end)
    else if mod == 2 then ReadImmSx(b, at, 4, end)
    else Got(0, at)
  }

  function SegOf(px: Prefixes): Seg {
    if px.hasSeg then px.seg else DS
  }

  /** Base 5 under mod 0 stands for no base and a disp32. */
  function SibDisplacement(b: seq<u8>, at: nat, sib: u8, mod: u2, end: Status): (r: Parse<u64>)
    requires at <= |b|
    ensures r.Got? ==> at <= r.next <= |b|
  {
    Displacement(b, at, if sib % 8 == 5 && mod == 0 then 2 else mod, end)
  }

  function SibAddress(px: Prefixes, sib: u8, mod: u2, disp: u64): Operand {
    var scale: u8 := if sib / 64 == 0 then 1 else if sib / 64 == 1 then 2 else if sib / 64 == 2 then 4 else 8;
    var index: BaseReg := if sib / 8 % 8 == 4 && !px.RexX() then NONE else CombineReg(px.RexX(), sib / 8 % 8);
    var base: BaseReg := if sib % 8 == 5 && mod == 0 then NONE else CombineReg(px.RexB(), sib % 8);
    Mem(base, index, scale, SegOf(px), disp)
  }

  function SibOperand(b: seq<u8>, at: nat, px: Prefixes, mod: u2, end: Status): (r: Parse<Operand>)
    requires at <= |b|
    ensures r.Got? ==> at <= r.next <= |b|
  {
    var sib :- ReadByte(b, at, end);
    var disp :- SibDisplacement(b, sib.next, sib.value, mod, end);
    Got(SibAddress(px, sib.value, mod, disp.value), disp.next)
  }

  /** No SIB byte: RIP-relative under mod 0 with r/m 5, else base plus displacement. */
  function PlainAddress(px: Prefixes, m: ModRm, disp: u64): Operand {
    if m.mod == 0 && m.rm == 5 then RipRelMem(SegOf(px), disp)
    else Mem(CombineReg(px.RexB(), m.rm), NONE, 0, SegOf(px), disp)
  }

  /** RIP-relative operands have mod 0 but a disp32. */
  function DispMod(m: ModRm): u2 {
    if m.mod == 0 && m.rm == 5 then 2 else m.mod
  }

  function PlainOperand(b: seq<u8>, at: nat, px: Prefixes, m: ModRm, end: Status): (r: Parse<Operand>)
    requires at <= |b|
    ensures r.Got? ==> at <= r.next <= |b|
  {
    var disp :- Displacement(b, at, DispMod(m), end);
    Got(PlainAddress(px, m, disp.value), disp.next)
  }

  function RmOperand(b: seq<u8>, at: nat, px: Prefixes, m: ModRm, size: OpSize, end: Status): (r: Parse<Operand>)
    requires at <= |b|
    ensures r.Got? ==> at <= r.next <= |b|
    ensures r.Got? && r.value.HighByte() ==> size == 1
  {
    if m.mod == 3 then Got(Reg(RegField(px, px.RexB(), m.rm, size)), at)
    else if m.rm == 4 then SibOperand(b, at, px, m.mod, end)
    else PlainOperand(b, at, px, m, end)
  }

  // ---- Opcodes -----------------------------------------------------------------------

  /** The fields an opcode fills in. */
  datatype Body = Body(kind: OpKind, opSize: nat, cond: Cc, controlFlow: bool, dst: Operand, src: Operand)

  predicate SoundBody(y: Body) {
    && (y.kind == Nop || y.opSize == 1 || y.opSize == 2 || y.opSize == 4 || y.opSize == 8)
    && !(y.dst.InMemory() && y.src.InMemory())
    && (y.opSize != 1 ==> !y.dst.HighByte() && !y.src.HighByte())
    && (y.kind == Jcc ==> y.dst.Rel?)
  }

  function Plain(kind: OpKind, size: OpSize, dst: Operand, src: Operand): Body {
    Body(kind, size, Always, false, dst, src)
  }

  function Branch(kind: OpKind, size: OpSize, cond: Cc, dst: Operand): Body {
    Body(kind, size, cond, true, dst, NoOperand)
  }

  function GprSize(px: Prefixes): OpSize {
    if px.RexW() then 8 else if px.opsize then 2 else 4
  }

  function AluOf(n: u3): (k: OpKind)
    ensures k != Jcc
  {
    match n
    case 0 => Add
    case 1 => Or
    case 2 => Adc
    case 3 => Sbb
    case 4 => And
    case 5 => Sub
    case 6 => Xor
    case _ => Cmp
  }

  function CcOf(n: nat): Cc {
    match n
    case 0 => O
    case 1 => NO
    case 2 => B
    case 3 => NB
    case 4 => Z
    case 5 => NZ
    case 6 => BE
    case 7 => NBE
    case 8 => S
    case 9 => NS
    case 10 => P
    case 11 => NP
    case 12 => L
    case 13 => NL
    case 14 => LE
    case _ => NLE
  }

  /** r/m, r. */
  function RmReg(b: seq<u8>, at: nat, px: Prefixes, kind: OpKind, size: OpSize, end: Status): (r: Parse<Body>)
    requires at <= |b| && kind != Jcc
    ensures r.Got? ==> at <= r.next <= |b| && SoundBody(r.value)
  {
    var mb :- ReadByte(b, at, end);
    var m := SplitModRm(mb.value);
    var rm :- RmOperand(b, mb.next, px, m, size, end);
    Got(Plain(kind, size, rm.value, RegOperand(px, m, size)), rm.next)
  }

  /** r, r/m. */
  function RegRm(b: seq<u8>, at: nat, px: Prefixes, kind: OpKind, size: OpSize, end: Status): (r: Parse<Body>)
    requires at <= |b| && kind != Jcc
    ensures r.Got? ==> at <= r.next <= |b| && SoundBody(r.value)
  {
    var mb :- ReadByte(b, at, end);
    var m := SplitModRm(mb.value);
    var rm :- RmOperand(b, mb.next, px, m, size, end);
    Got(Plain(kind, size, RegOperand(px, m, size), rm.value), rm.next)
  }

  /** A fixed register and an immediate of n bytes. */
  function RegImm(b: seq<u8>, at: nat, kind: OpKind, size: OpSize, reg: RegId, n: OpSize, end: Status): (r: Parse<Body>)
    requires at <= |b| && reg < 16 && kind != Jcc
    ensures r.Got? ==> at <= r.next <= |b| && SoundBody(r.value)
  {
    var imm :- ReadImmSx(b, at, n, end);
    Got(Plain(kind, size, Reg(reg), Imm(imm.value)), imm.next)
  }

  /** Immediates never exceed four bytes here. */
  function ImmSize(size: OpSize): OpSize {
    if size == 8 then 4 else size
  }

  function AluPrimary(b: seq<u8>, at: nat, px: Prefixes, family: u3, variant: nat, end: Status): (r: Parse<Body>)
    requires at <= |b| && variant < 6
    ensures r.Got? ==> at <= r.next <= |b| && SoundBody(r.value)
  {
    var kind, size := AluOf(family), if variant % 2 == 0 then 1 else GprSize(px);
    if variant < 2 then RmReg(b, at, px, kind, size, end)
    else if variant < 4 then RegRm(b, at, px, kind, size, end)
    else RegImm(b, at, kind, size, 0, ImmSize(size), end)
  }

  /** r/m, imm with the operation already chosen; n is the immediate's width. */
  function RmImm(b: seq<u8>, at: nat, px: Prefixes, m: ModRm, kind: OpKind, size: OpSize, n: OpSize, end: Status)
    : (r: Parse<Body>)
    requires at <= |b| && kind != Jcc
    ensures r.Got? ==> at <= r.next <= |b| && SoundBody(r.value)
  {
    var rm :- RmOperand(b, at, px, m, size, end);
    var imm :- ReadImmSx(b, rm.next, n, end);
    Got(Plain(kind, size, rm.value, Imm(imm.value)), imm.next)
  }

  function Group1(b: seq<u8>, at: nat, px: Prefixes, opc: u8, end: Status): (r: Parse<Body>)
    requires at <= |b|
    ensures r.Got? ==> at <= r.next <= |b| && SoundBody(r.value)
  {
    var mb :- ReadByte(b, at, end);
    var m := SplitModRm(mb.value);
    var size: OpSize := if opc == 0x80 then 1 else GprSize(px);
    RmImm(b, mb.next, px, m, AluOf(m.reg), size, if opc == 0x81 then ImmSize(size) else 1, end)
  }

  function Group3Unary(reg: u3, size: OpSize, rm: Operand, next: nat): (r: Parse<Body>)
    requires rm.HighByte() ==> size == 1
    ensures r.Got? ==> r.next == next && SoundBody(r.value)
  {
    if reg == 2 then Got(Plain(Not, size, rm, NoOperand), next)
    else if reg == 3 then Got(Plain(Neg, size, rm, NoOperand), next)
    else Fail(NotModelled)
  }

  /** TEST, NOT and NEG; the multiplications and divisions are outside the subset. */
  function Group3Body(b: seq<u8>, at: nat, px: Prefixes, m: ModRm, size: OpSize, end: Status): (r: Parse<Body>)
    requires at <= |b|
    ensures r.Got? ==> at <= r.next <= |b| && SoundBody(r.value)
  {
    if m.reg < 2 then RmImm(b, at, px, m, Test, size, ImmSize(size), end)
    else
      var rm :- RmOperand(b, at, px, m, size, end);
      Group3Unary(m.reg, size, rm.value, rm.next)
  }

  function Group3(b: seq<u8>, at: nat, px: Prefixes, opc: u8, end: Status): (r: Parse<Body>)
    requires at <= |b|
    ensures r.Got? ==> at <= r.next <= |b| && SoundBody(r.value)
  {
    var mb :- ReadByte(b, at, end);
    Group3Body(b, mb.next, px, SplitModRm(mb.value), if opc == 0xF6 then 1 else GprSize(px), end)
  }

  /** INC and DEC; for 0xFF also the indirect CALL and JMP, and PUSH. */
  function Group45Unary(opc: u8, reg: u3, size: OpSize, rm: Operand, next: nat): (r: Parse<Body>)
    requires (rm.HighByte() ==> size == 1) && (opc == 0xFF ==> size != 1)
    ensures r.Got? ==> r.next == next && SoundBody(r.value)
  {
    if reg == 0 then Got(Plain(Inc, size, rm, NoOperand), next)
    else if reg == 1 then Got(Plain(Dec, size, rm, NoOperand), next)
    else if opc == 0xFF && reg == 2 then Got(Branch(Call, 8, Always, rm), next)
    else if opc == 0xFF && reg == 4 then Got(Branch(Jmp, 8, Always, rm), next)
    else if opc == 0xFF && reg == 6 then Got(Plain(Push, 8, rm, NoOperand), next)
    else Fail(UnsupportedOpcode)
  }

  function Group45(b: seq<u8>, at: nat, px: Prefixes, opc: u8, end: Status): (r: Parse<Body>)
    requires at <= |b|
    ensures r.Got? ==> at <= r.next <= |b| && SoundBody(r.value)
  {
    var mb :- ReadByte(b, at, end);
    var m := SplitModRm(mb.value);
    var size: OpSize := if opc == 0xFE then 1 else GprSize(px);
    var rm :- RmOperand(b, mb.next, px, m, size, end);
    Group45Unary(opc, m.reg, size, rm.value, rm.next)
  }

  function MovImm(b: seq<u8>, at: nat, px: Prefixes, size: OpSize, end: Status): (r: Parse<Body>)
    requires at <= |b|
    ensures r.Got? ==> at <= r.next <= |b| && SoundBody(r.value)
  {
    var mb :- ReadByte(b, at, end);
    var m := SplitModRm(mb.value);
    if m.reg != 0 then Fail(UnsupportedOpcode)
    else RmImm(b, mb.next, px, m, Mov, size, ImmSize(size), end)
  }

  function LeaBody(b: seq<u8>, at: nat, px: Prefixes, end: Status): (r: Parse<Body>)
    requires at <= |b|
    ensures r.Got? ==> at <= r.next <= |b| && SoundBody(r.value)
  {
    var mb :- ReadByte(b, at, end);
    if SplitModRm(mb.value).mod == 3 then Fail(InvalidInstruction)
    else RegRm(b, at, px, Lea, GprSize(px), end)
  }

  /** PUSH imm. */
  function PushImm(b: seq<u8>, at: nat, n: OpSize, end: Status): (r: Parse<Body>)
    requires at <= |b|
    ensures r.Got? ==> at <= r.next <= |b| && SoundBody(r.value)
  {
    var imm :- ReadImmSx(b, at, n, end);
    Got(Plain(Push, 8, Imm(imm.value), NoOperand), imm.next)
  }

  /** A relative branch with an n-byte offset. */
  function RelBranch(b: seq<u8>, at: nat, kind: OpKind, cond: Cc, n: OpSize, end: Status): (r: Parse<Body>)
    requires at <= |b|
    ensures r.Got? ==> at <= r.next <= |b| && SoundBody(r.value)
  {
    var rel :- ReadImmSx(b, at, n, end);
    Got(Branch(kind, n, cond, Rel(rel.value)), rel.next)
  }

  /** RET imm16; the immediate is unsigned. */
  function RetImm(b: seq<u8>, at: nat, end: Status): (r: Parse<Body>)
    requires at <= |b|
    ensures r.Got? ==> at <= r.next <= |b| && SoundBody(r.value)
  {
    var imm :- ReadLe(b, at, 2, end);
    assert Span(2) == 0x1_0000;
    Got(Branch(Ret, 8, Always, Imm(imm.value)), imm.next)
  }

  function TwoByte(b: seq<u8>, at: nat, end: Status): (r: Parse<Body>)
    requires at <= |b|
    ensures r.Got? ==> at <= r.next <= |b| && SoundBody(r.value)
  {
    var sec :- ReadByte(b, at, end);
    if 0x80 <= sec.value <= 0x8F then RelBranch(b, sec.next, Jcc, CcOf(sec.value - 0x80), 4, end)
    else Fail(NotModelled)
  }

  /** One-byte opcodes the full decoder accepts and this model leaves out. */
  predicate LeftOut(opc: u8) {
    opc == 0x63 || opc == 0x69 || opc == 0x6B || opc == 0x98 || opc == 0x99 || 0x9C <= opc <= 0x9F ||
    0xA4 <= opc <= 0xA7 || 0xAA <= opc <= 0xAF || opc == 0xC0 || opc == 0xC1 || opc == 0xCC || opc == 0xCD ||
    0xD0 <= opc <= 0xD3 || 0xD8 <= opc <= 0xDF || 0xE0 <= opc <= 0xE3 || opc == 0xF4
  }

  /** The second half of the opcode map. */
  function HighOpcode(b: seq<u8>, at: nat, px: Prefixes, opc: u8, end: Status): (r: Parse<Body>)
    requires at <= |b|
    ensures r.Got? ==> at <= r.next <= |b| && SoundBody(r.value)
  {
    if opc == 0xA8 || opc == 0xA9 then
      var size: OpSize := if opc == 0xA8 then 1 else GprSize(px);
      RegImm(b, at, Test, size, 0, ImmSize(size), end)
    else if 0xB0 <= opc <= 0xB7 then RegImm(b, at, Mov, 1, CombineReg(px.RexB(), opc - 0xB0), 1, end)
    else if 0xB8 <= opc <= 0xBF then
      RegImm(b, at, Mov, GprSize(px), CombineReg(px.RexB(), opc - 0xB8), GprSize(px), end)
    else if opc == 0xC2 then RetImm(b, at, end)
    else if opc == 0xC3 then Got(Branch(Ret, 8, Always, NoOperand), at)
    else if opc == 0xC6 then MovImm(b, at, px, 1, end)
    else if opc == 0xC7 then MovImm(b, at, px, GprSize(px), end)
    else if opc == 0xE8 then RelBranch(b, at, Call, Always, 4, end)
    else if opc == 0xE9 then RelBranch(b, at, Jmp, Always, 4, end)
    else if opc == 0xEB then RelBranch(b, at, Jmp, Always, 1, end)
    else if opc == 0xF6 || opc == 0xF7 then Group3(b, at, px, opc, end)
    else if opc == 0xFE || opc == 0xFF then Group45(b, at, px, opc, end)
    else if LeftOut(opc) then Fail(NotModelled)
    else Fail(UnsupportedOpcode)
  }

  /** TEST, XCHG, MOV and LEA with a ModRM byte. */
  function MoveOpcode(b: seq<u8>, at: nat, px: Prefixes, opc: u8, end: Status): (r: Parse<Body>)
    requires at <= |b| && 0x84 <= opc <= 0x8D
    ensures r.Got? ==> at <= r.next <= |b| && SoundBody(r.value)
  {
    var size: OpSize := if opc % 2 == 0 then 1 else GprSize(px);
    if opc < 0x86 then RmReg(b, at, px, Test, size, end)
    else if opc < 0x88 then RmReg(b, at, px, Xchg, size, end)
    else if opc < 0x8A then RmReg(b, at, px, Mov, size, end)
    else if opc < 0x8C then RegRm(b, at, px, Mov, size, end)
    else if opc == 0x8D then LeaBody(b, at, px, end)
    else Fail(UnsupportedOpcode)
  }

  /** Opcodes below 0xA0. */
  function LowOpcode(b: seq<u8>, at: nat, px: Prefixes, opc: u8, end: Status): (r: Parse<Body>)
    requires at <= |b|
    ensures r.Got? ==> at <= r.next <= |b| && SoundBody(r.value)
  {
    if opc <= 0x3D && opc % 8 < 6 then AluPrimary(b, at, px, opc / 8, opc % 8, end)
    else if opc == 0x0F then TwoByte(b, at, end)
    else if 0x50 <= opc <= 0x57 then Got(Plain(Push, 8, Reg(CombineReg(px.RexB(), opc - 0x50)), NoOperand), at)
    else if 0x58 <= opc <= 0x5F then Got(Plain(Pop, 8, Reg(CombineReg(px.RexB(), opc - 0x58)), NoOperand), at)
    else if opc == 0x68 then PushImm(b, at, 4, end)
    else if opc == 0x6A then PushImm(b, at, 1, end)
    else if 0x70 <= opc <= 0x7F then RelBranch(b, at, Jcc, CcOf(opc - 0x70), 1, end)
    else if opc == 0x80 || opc == 0x81 || opc == 0x83 then Group1(b, at, px, opc, end)
    else if 0x84 <= opc <= 0x8D then MoveOpcode(b, at, px, opc, end)
    else if opc == 0x90 then Got(Body(Nop, 0, Always, false, NoOperand, NoOperand), at)
    else if LeftOut(opc) then Fail(NotModelled)
    else Fail(UnsupportedOpcode)
  }

  function AfterPrefixes(b: seq<u8>, at: nat, px: Prefixes, end: Status): (r: Parse<Body>)
    requires at <= |b|
    ensures r.Got? ==> at < r.next <= |b| && SoundBody(r.value)
  {
    var opc :- ReadByte(b, at, end);
    if opc.value < 0xA0 then LowOpcode(b, opc.next, px, opc.value, end)
    else HighOpcode(b, opc.next, px, opc.value, end)
  }

  /** A whole instruction at the start of b. */
  function DecodeBody(b: seq<u8>, end: Status): (r: Parse<(Prefixes, Body)>)
    ensures r.Got? ==> 0 < r.next <= |b| && SoundBody(r.value.1)
  {
    var px :- ScanPrefixes(b, 0, NO_PREFIXES, end);
    var y :- AfterPrefixes(b, px.next, px.value, end);
    Got((px.value, y.value), y.next)
  }

  function Assemble(px: Prefixes, y: Body, rip: u64, len: u8): Insn {
    Insn(y.kind, y.opSize, len, y.cond,
         InsnFlags(y.controlFlow, px.lock, px.rep, px.repne, px.hasSeg, px.opsize, px.addrsize), rip, y.dst, y.src)
  }

  datatype Decoded = Ready(insn: Insn) | Failed(status: Status)

  /** decode_with_source: the instruction's length is where reading stopped. */
  function DecodeWithSource(b: seq<u8>, rip: u64, end: Status): (r: Decoded)
    requires |b| < 256
    ensures r.Ready? ==> 0 < r.insn.len <= |b| && r.insn.rip == rip && r.insn.WellFormed()
  {
    var p := DecodeBody(b, end);
    if p.Fail? then Failed(p.status) else Ready(Assemble(p.value.0, p.value.1, rip, p.next))
  }

  /** decode_bytes: at most 15 bytes are looked at. */
  function DecodeBytes(b: seq<u8>, rip: u64): (r: Decoded)
    ensures r.Ready? ==> 0 < r.insn.len <= 15 && r.insn.len <= |b|
  {
    if |b| == 0 then Failed(TruncatedInstruction)
    else DecodeWithSource(if |b| > 15 then b[..15] else b, rip, TruncatedInstruction)
  }
}
