/** What one instruction does to registers, flags and memory: the meaning the handlers are proved
    against, on values. */
module Semantics {
  import opened Words
  import opened Base
  import opened EFlags
  import LazyFlags
  import opened Insns
  import opened Processor
  import opened FlatMemory

  datatype Option<T> = None | Some(value: T)

  datatype Machine = Machine(cpu: Arch, mem: Space)

  type Word = s: seq<u8> | |s| <= 8 witness []

  /** A store that took place. */
  datatype Write = Write(addr: u64, data: Word)

  /** The state after an access or an instruction; ok is false once a fault has stopped it. */
  datatype Effect = Effect(m: Machine, ok: bool, wrote: Option<Write>)

  datatype Value = Value(v: u64) | Fault(cpu: Arch)

  // ---- Operands --------------------------------------------------------------------

  function SegBase(cpu: Arch, seg: Seg): u64 {
    match seg
    case FS => cpu.fsBase
    case GS => cpu.gsBase
    case _ => 0
  }

  function BaseValue(cpu: Arch, r: BaseReg): u64 {
    if r == NONE then 0 else cpu.gpr[r]
  }

  /** x * scale as 64-bit multiplication; scale is 0, 1, 2, 4 or 8. */
  function Times(x: u64, scale: u8): u64 {
    if scale == 0 then 0
    else if scale == 1 then x
    else if scale == 2 then Plus(x, x)
    else if scale == 4 then Plus(Plus(x, x), Plus(x, x))
    else Plus(Plus(Plus(x, x), Plus(x, x)), Plus(Plus(x, x), Plus(x, x)))
  }

  /** Effective address; the segment base does not apply to RIP-relative operands. */
  function Ea(cpu: Arch, insn: Insn, op: Operand): u64
    requires op.InMemory()
  {
    match op
    case RipRelMem(_, disp) => Plus(insn.NextRip(), disp)
    case Mem(base, index, scale, seg, disp) =>
      var indexed := if index == NONE then 0 else Times(cpu.gpr[index], scale);
      Plus(Plus(Plus(BaseValue(cpu, base), indexed), disp), SegBase(cpu, seg))
  }

  predicate OpSized(n: nat) {
    n == 1 || n == 2 || n == 4 || n == 8
  }

  /** n bytes of memory as a number, or a page fault. */
  ghost function LoadValue(m: Machine, addr: u64, n: OpSize): (r: Value)
    ensures r.Value? ==> r.v < Modulus(n)
  {
    if Readable(m.mem.bytes, addr, n) then
      FromLeBound(Loaded(m.mem.bytes, addr, n));
      Value(FromLe(Loaded(m.mem.bytes, addr, n)))
    else Value.Fault(m.cpu.Faulted(PageFault, addr, UnmappedRead))
  }

  lemma FromLeBound(s: seq<u8>)
    requires OpSized(|s|)
    ensures FromLe(s) < Modulus(|s|)
  {
    assert Span(2) == 0x1_0000 && Span(4) == TWO32;
    assert Span(8) == TWO64;
  }

  /** The low n bytes of v stored at addr, or a protection fault. */
  ghost function StoreValue(m: Machine, addr: u64, n: OpSize, v: u64): Effect {
    if MayWrite(m.mem, addr, n) then
      Effect(m.(mem := m.mem.(bytes := Stored(m.mem.bytes, addr, ToLe(v, n)))), true, Some(Write(addr, ToLe(v, n))))
    else Effect(m.(cpu := m.cpu.Faulted(GeneralProtection, addr, ProtectionViolation)), false, None)
  }

  ghost function OperandValue(m: Machine, insn: Insn, op: Operand, size: OpSize): Value {
    match op
    case NoOperand => Value(0)
    case Reg(r) => Value(RegValue(m.cpu.gpr, r, size))
    case Imm(v) => Value(Masked(v, size))
    case Rel(d) => Value(d)
    case _ => LoadValue(m, Ea(m.cpu, insn, op), size)
  }

  ghost function OperandWritten(m: Machine, insn: Insn, op: Operand, size: OpSize, v: u64): Effect {
    match op
    case Reg(r) => Effect(m.(cpu := m.cpu.(gpr := RegWritten(m.cpu.gpr, r, size, v))), true, None)
    case Mem(_, _, _, _, _) => StoreValue(m, Ea(m.cpu, insn, op), size, v)
    case RipRelMem(_, _) => StoreValue(m, Ea(m.cpu, insn, op), size, v)
    case _ => Effect(m.(cpu := m.cpu.Faulted(InternalError, m.cpu.rip, Internal)), false, None)
  }

  // ---- Arithmetic and logic ------------------------------------------------------------

  predicate TwoOperandAlu(k: OpKind) {
    k == Add || k == Or || k == Adc || k == Sbb || k == And || k == Sub || k == Xor || k == Cmp || k == Test
  }

  /** CMP and TEST store nothing. */
  predicate FlagsOnly(k: OpKind) {
    k == Cmp || k == Test
  }

  predicate OneOperandAlu(k: OpKind) {
    k == Inc || k == Dec || k == Neg
  }

  function AluResult(k: OpKind, s: OpSize, a: nat, b: nat, cf: bool): (r: u64)
    requires TwoOperandAlu(k)
    ensures r < Modulus(s)
  {
    if k == Add then Wrap(a + b, s)
    else if k == Adc then Wrap(a + b + B2N(cf), s)
    else if k == Sub || k == Cmp then Wrap(a - b, s)
    else if k == Sbb then Wrap(a - b - B2N(cf), s)
    else if k == And || k == Test then Wrap(Words.And(a, b), s)
    else if k == Or then Wrap(Words.Or(a, b), s)
    else Wrap(Words.Xor(a, b), s)
  }

  /** The flags by their meaning. */
  function AluFlags(k: OpKind, s: OpSize, a: nat, b: nat, cf: bool): Arith
    requires TwoOperandAlu(k) && a < Modulus(s) && b < Modulus(s)
  {
    if k == Add then AddMeaning(s, a, b, false)
    else if k == Adc then AddMeaning(s, a, b, cf)
    else if k == Sub || k == Cmp then SubMeaning(s, a, b, false)
    else if k == Sbb then SubMeaning(s, a, b, cf)
    else LogicMeaning(s, AluResult(k, s, a, b, cf))
  }

  function UnaryResult(k: OpKind, s: OpSize, a: nat): (r: u64)
    requires OneOperandAlu(k)
    ensures r < Modulus(s)
  {
    if k == Inc then Wrap(a + 1, s) else if k == Dec then Wrap(a - 1, s) else Wrap(0 - a, s)
  }

  /** INC and DEC keep the carry flag. NEG is a subtraction from zero except for its adjust flag. */
  function UnaryFlags(k: OpKind, s: OpSize, a: nat, cf: bool): Arith
    requires OneOperandAlu(k) && a < Modulus(s)
  {
    if k == Inc then AddMeaning(s, a, 1, false).(cf := cf)
    else if k == Dec then SubMeaning(s, a, 1, false).(cf := cf)
    else SubMeaning(s, 0, a, false).(af := AdjustSet(a) || AdjustSet(UnaryResult(k, s, a)))
  }

  function WithFlags(m: Machine, x: Arith): Machine {
    m.(cpu := m.cpu.(flags := m.cpu.flags.With(x)))
  }

  function Stopped(m: Machine, cpu: Arch): Effect {
    Effect(m.(cpu := cpu), false, None)
  }

  datatype Pair = Pair(a: u64, b: u64) | PairFault(cpu: Arch)

  /** Both operands, destination first, reduced to the operand size. */
  ghost function OperandPair(m: Machine, insn: Insn, s: OpSize): (p: Pair)
    ensures p.Pair? ==> p.a < Modulus(s) && p.b < Modulus(s)
  {
    var a := OperandValue(m, insn, insn.dst, s);
    if a.Fault? then PairFault(a.cpu) else
    var b := OperandValue(m, insn, insn.src, s);
    if b.Fault? then PairFault(b.cpu) else Pair(Masked(a.v, s), Masked(b.v, s))
  }

  /** The result stored and, if that did not fault, the flags. */
  ghost function AluStore(m: Machine, insn: Insn, s: OpSize, a: u64, b: u64, cf: bool): Effect
    requires TwoOperandAlu(insn.kind) && a < Modulus(s) && b < Modulus(s)
  {
    var w := OperandWritten(m, insn, insn.dst, s, AluResult(insn.kind, s, a, b, cf));
    if w.ok then w.(m := WithFlags(w.m, AluFlags(insn.kind, s, a, b, cf))) else w
  }

  ghost function ExecuteCompare(m: Machine, insn: Insn): Effect
    requires FlagsOnly(insn.kind) && OpSized(insn.opSize)
  {
    var p := OperandPair(m, insn, insn.opSize);
    if p.PairFault? then Stopped(m, p.cpu)
    else Effect(WithFlags(m, AluFlags(insn.kind, insn.opSize, p.a, p.b, false)), true, None)
  }

  ghost function ExecuteAlu(m: Machine, insn: Insn): Effect
    requires TwoOperandAlu(insn.kind) && OpSized(insn.opSize)
  {
    var p := OperandPair(m, insn, insn.opSize);
    if p.PairFault? then Stopped(m, p.cpu)
    else AluStore(m, insn, insn.opSize, p.a, p.b, m.cpu.flags.cf)
  }

  ghost function UnaryStore(m: Machine, insn: Insn, s: OpSize, a: u64, cf: bool): Effect
    requires OneOperandAlu(insn.kind) && a < Modulus(s)
  {
    var w := OperandWritten(m, insn, insn.dst, s, UnaryResult(insn.kind, s, a));
    if w.ok then w.(m := WithFlags(w.m, UnaryFlags(insn.kind, s, a, cf))) else w
  }

  ghost function ExecuteUnary(m: Machine, insn: Insn): Effect
    requires OneOperandAlu(insn.kind) && OpSized(insn.opSize)
  {
    var s: OpSize := insn.opSize;
    var a := OperandValue(m, insn, insn.dst, s);
    if a.Fault? then Stopped(m, a.cpu) else UnaryStore(m, insn, s, Masked(a.v, s), m.cpu.flags.cf)
  }

  /** ~a within s bytes. */
  function NotResult(s: OpSize, a: u64): u64 {
    Modulus(s) - 1 - Masked(a, s)
  }

  ghost function ExecuteNot(m: Machine, insn: Insn): Effect
    requires OpSized(insn.opSize)
  {
    var s: OpSize := insn.opSize;
    var a := OperandValue(m, insn, insn.dst, s);
    if a.Fault? then Stopped(m, a.cpu)
    else OperandWritten(m, insn, insn.dst, s, NotResult(s, a.v))
  }

  // ---- Data movement -------------------------------------------------------------------

  ghost function ExecuteMov(m: Machine, insn: Insn): Effect
    requires OpSized(insn.opSize)
  {
    var v := OperandValue(m, insn, insn.src, insn.opSize);
    if v.Fault? then Stopped(m, v.cpu) else OperandWritten(m, insn, insn.dst, insn.opSize, v.v)
  }

  ghost function ExecuteLea(m: Machine, insn: Insn): Effect
    requires OpSized(insn.opSize)
  {
    if !insn.src.InMemory() then
      Stopped(m, m.cpu.Faulted(InvalidOpcode, m.cpu.rip, InvalidInstruction))
    else OperandWritten(m, insn, insn.dst, insn.opSize, Ea(m.cpu, insn, insn.src))
  }

  /** The destination takes b, then the source takes a. */
  ghost function Exchanged(m: Machine, insn: Insn, s: OpSize, a: u64, b: u64): Effect {
    var w := OperandWritten(m, insn, insn.dst, s, b);
    if !w.ok then w
    else
      var z := OperandWritten(w.m, insn, insn.src, s, a);
      z.(wrote := if z.wrote.Some? then z.wrote else w.wrote)
  }

  /** Both operands are read before either is written. */
  ghost function ExecuteXchg(m: Machine, insn: Insn): Effect
    requires OpSized(insn.opSize)
  {
    var p := OperandPair(m, insn, insn.opSize);
    if p.PairFault? then Stopped(m, p.cpu) else Exchanged(m, insn, insn.opSize, p.a, p.b)
  }

  function Minus(a: u64, b: u64): u64 {
    if a >= b then a - b else a - b + TWO64
  }

  ghost function ExecutePush(m: Machine, insn: Insn): Effect
    requires OpSized(insn.opSize)
  {
    var v := OperandValue(m, insn, insn.dst, insn.opSize);
    if v.Fault? then Stopped(m, v.cpu) else
    var sp := Minus(m.cpu.gpr[RSP], insn.opSize);
    var w := StoreValue(m, sp, insn.opSize, v.v);
    if w.ok then w.(m := w.m.(cpu := w.m.cpu.WithReg(RSP, sp))) else w
  }

  /** The destination is written before the stack pointer moves. */
  ghost function ExecutePop(m: Machine, insn: Insn): Effect
    requires OpSized(insn.opSize)
  {
    var sp := m.cpu.gpr[RSP];
    var v := LoadValue(m, sp, insn.opSize);
    if v.Fault? then Stopped(m, v.cpu) else
    var w := OperandWritten(m, insn, insn.dst, insn.opSize, v.v);
    w.(m := w.m.(cpu := w.m.cpu.WithReg(RSP, Plus(sp, insn.opSize))))
  }

  // ---- Control flow --------------------------------------------------------------------

  /** The branch target, and the processor after finding it; a fault leaves target 0. */
  ghost function Target(m: Machine, insn: Insn): (Arch, u64) {
    match insn.dst
    case Rel(d) => (m.cpu, Plus(insn.NextRip(), d))
    case Reg(r) => (m.cpu, RegValue(m.cpu.gpr, r, 8))
    case Mem(_, _, _, _, _) =>
      var v := OperandValue(m, insn, insn.dst, 8); if v.Value? then (m.cpu, v.v) else (v.cpu, 0)
    case RipRelMem(_, _) =>
      var v := OperandValue(m, insn, insn.dst, 8); if v.Value? then (m.cpu, v.v) else (v.cpu, 0)
    case _ => (m.cpu.Faulted(InvalidOpcode, m.cpu.rip, InvalidInstruction), 0)
  }

  function Branched(cpu: Arch, target: u64): Arch {
    cpu.(rip := target, branched := true)
  }

  ghost function ExecuteJmp(m: Machine, insn: Insn): Effect {
    var t := Target(m, insn);
    if t.0.halted then Stopped(m, t.0) else Effect(m.(cpu := Branched(t.0, t.1)), true, None)
  }

  ghost function ExecuteJcc(m: Machine, insn: Insn): Effect {
    if CondHolds(insn.cond, m.cpu.flags.Six()) then
      var d := if insn.dst.Rel? || insn.dst.Mem? || insn.dst.RipRelMem? then insn.dst.disp else 0;
      Effect(m.(cpu := Branched(m.cpu, Plus(insn.NextRip(), d))), true, None)
    else Effect(m, true, None)
  }

  /** The return address is pushed and the stack pointer moved before the target is looked up; the branch
      is taken even when that lookup faults. */
  ghost function ExecuteCall(m: Machine, insn: Insn): Effect {
    var sp := Minus(m.cpu.gpr[RSP], 8);
    var w := StoreValue(m, sp, 8, insn.NextRip());
    if !w.ok then w
    else
      var pushed := w.m.(cpu := w.m.cpu.WithReg(RSP, sp));
      var t := Target(pushed, insn);
      Effect(pushed.(cpu := Branched(t.0, t.1)), !t.0.halted, w.wrote)
  }

  ghost function ExecuteRet(m: Machine, insn: Insn): Effect {
    var sp := m.cpu.gpr[RSP];
    var v := LoadValue(m, sp, 8);
    if v.Fault? then Stopped(m, v.cpu)
    else
      var extra := if insn.dst.Imm? then insn.dst.imm % 0x1_0000 else 0;
      var cpu := m.cpu.WithReg(RSP, Plus(Plus(sp, 8), extra));
      Effect(m.(cpu := Branched(cpu, v.v)), true, None)
  }

  predicate ControlFlow(k: OpKind) {
    k == Jmp || k == Jcc || k == Call || k == Ret
  }

  ghost function ExecuteBranch(m: Machine, insn: Insn): Effect
    requires ControlFlow(insn.kind)
  {
    if insn.kind == Jmp then ExecuteJmp(m, insn)
    else if insn.kind == Jcc then ExecuteJcc(m, insn)
    else if insn.kind == Call then ExecuteCall(m, insn)
    else ExecuteRet(m, insn)
  }

  ghost function ExecuteData(m: Machine, insn: Insn): Effect
    requires !ControlFlow(insn.kind) && insn.kind != Nop && OpSized(insn.opSize)
  {
    if FlagsOnly(insn.kind) then ExecuteCompare(m, insn)
    else if TwoOperandAlu(insn.kind) then ExecuteAlu(m, insn)
    else if OneOperandAlu(insn.kind) then ExecuteUnary(m, insn)
    else if insn.kind == Not then ExecuteNot(m, insn)
    else if insn.kind == Mov then ExecuteMov(m, insn)
    else if insn.kind == Lea then ExecuteLea(m, insn)
    else if insn.kind == Xchg then ExecuteXchg(m, insn)
    else if insn.kind == Push then ExecutePush(m, insn)
    else ExecutePop(m, insn)
  }

  /** One instruction. */
  ghost function Execute(m: Machine, insn: Insn): Effect
    requires insn.WellFormed()
  {
    if insn.kind == Nop then Effect(m, true, None)
    else if ControlFlow(insn.kind) then ExecuteBranch(m, insn)
    else ExecuteData(m, insn)
  }

  // ---- Memory changes only through the reported store ----------------------------------------

  ghost function MemAfter(mem: Space, wrote: Option<Write>): Space {
    if wrote.None? then mem else mem.(bytes := Stored(mem.bytes, wrote.value.addr, wrote.value.data))
  }

  ghost predicate Reports(m: Machine, e: Effect) {
    e.m.mem == MemAfter(m.mem, e.wrote) && (e.wrote.Some? ==> |e.wrote.value.data| > 0)
  }

  lemma OperandWrittenReports(m: Machine, insn: Insn, op: Operand, s: OpSize, v: u64)
    ensures Reports(m, OperandWritten(m, insn, op, s, v))
    ensures !op.InMemory() ==> OperandWritten(m, insn, op, s, v).wrote.None?
  {
  }

  lemma XchgReports(m: Machine, insn: Insn, s: OpSize, a: u64, b: u64)
    requires !(insn.dst.InMemory() && insn.src.InMemory())
    ensures Reports(m, Exchanged(m, insn, s, a, b))
  {
    OperandWrittenReports(m, insn, insn.dst, s, b);
    OperandWrittenReports(OperandWritten(m, insn, insn.dst, s, b).m, insn, insn.src, s, a);
  }

  lemma StackReports(m: Machine, insn: Insn)
    requires OpSized(insn.opSize)
    ensures Reports(m, ExecutePush(m, insn)) && Reports(m, ExecutePop(m, insn)) && Reports(m, ExecuteCall(m, insn))
  {
    var v := LoadValue(m, m.cpu.gpr[RSP], insn.opSize);
    if v.Value? {
      OperandWrittenReports(m, insn, insn.dst, insn.opSize, v.v);
    }
  }

  lemma AluReports(m: Machine, insn: Insn, s: OpSize, a: u64, b: u64, cf: bool)
    requires TwoOperandAlu(insn.kind) && a < Modulus(s) && b < Modulus(s)
    ensures Reports(m, AluStore(m, insn, s, a, b, cf))
  {
    OperandWrittenReports(m, insn, insn.dst, s, AluResult(insn.kind, s, a, b, cf));
  }

  lemma UnaryReports(m: Machine, insn: Insn, s: OpSize, a: u64, cf: bool)
    requires OneOperandAlu(insn.kind) && a < Modulus(s)
    ensures Reports(m, UnaryStore(m, insn, s, a, cf))
  {
    OperandWrittenReports(m, insn, insn.dst, s, UnaryResult(insn.kind, s, a));
  }

  lemma MoveReports(m: Machine, insn: Insn)
    requires OpSized(insn.opSize)
    ensures Reports(m, ExecuteMov(m, insn)) && Reports(m, ExecuteNot(m, insn)) && Reports(m, ExecuteLea(m, insn))
  {
    var s: OpSize := insn.opSize;
    var v, x := OperandValue(m, insn, insn.src, s), OperandValue(m, insn, insn.dst, s);
    if v.Value? {
      OperandWrittenReports(m, insn, insn.dst, s, v.v);
    }
    if x.Value? {
      OperandWrittenReports(m, insn, insn.dst, s, NotResult(s, x.v));
    }
    if insn.src.InMemory() {
      OperandWrittenReports(m, insn, insn.dst, s, Ea(m.cpu, insn, insn.src));
    }
  }

  lemma ExecuteAluReports(m: Machine, insn: Insn)
    requires TwoOperandAlu(insn.kind) && OpSized(insn.opSize)
    ensures Reports(m, ExecuteAlu(m, insn))
  {
    var p := OperandPair(m, insn, insn.opSize);
    if p.Pair? {
      AluReports(m, insn, insn.opSize, p.a, p.b, m.cpu.flags.cf);
    }
  }

  lemma ExecuteUnaryReports(m: Machine, insn: Insn)
    requires OneOperandAlu(insn.kind) && OpSized(insn.opSize)
    ensures Reports(m, ExecuteUnary(m, insn))
  {
    var x := OperandValue(m, insn, insn.dst, insn.opSize);
    if x.Value? {
      UnaryReports(m, insn, insn.opSize, Masked(x.v, insn.opSize), m.cpu.flags.cf);
    }
  }

  lemma ExecuteXchgReports(m: Machine, insn: Insn)
    requires OpSized(insn.opSize) && insn.WellFormed()
    ensures Reports(m, ExecuteXchg(m, insn))
  {
    var p := OperandPair(m, insn, insn.opSize);
    if p.Pair? {
      XchgReports(m, insn, insn.opSize, p.a, p.b);
    }
  }

  lemma DataReports(m: Machine, insn: Insn)
    requires insn.WellFormed() && !ControlFlow(insn.kind) && insn.kind != Nop
    ensures Reports(m, ExecuteData(m, insn))
  {
    if FlagsOnly(insn.kind) {
    } else if TwoOperandAlu(insn.kind) {
      ExecuteAluReports(m, insn);
    } else if OneOperandAlu(insn.kind) {
      ExecuteUnaryReports(m, insn);
    } else if insn.kind == Xchg {
      ExecuteXchgReports(m, insn);
    } else if insn.kind == Push || insn.kind == Pop {
      StackReports(m, insn);
    } else {
      MoveReports(m, insn);
    }
  }

  lemma BranchReports(m: Machine, insn: Insn)
    requires insn.WellFormed() && ControlFlow(insn.kind)
    ensures Reports(m, ExecuteBranch(m, insn))
  {
    StackReports(m, insn);
  }

  /** An instruction changes memory by at most one store, the one its effect reports. */
  lemma ExecuteReports(m: Machine, insn: Insn)
    requires insn.WellFormed()
    ensures Reports(m, Execute(m, insn))
  {
    if ControlFlow(insn.kind) {
      BranchReports(m, insn);
    } else if insn.kind != Nop {
      DataReports(m, insn);
    }
  }
}
