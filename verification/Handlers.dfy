/** The instruction handlers on the lazy processor and the page store, proved against the meaning of
    each instruction. */
module Handlers {
  import opened Words
  import opened Base
  import opened EFlags
  import LazyFlags
  import opened Insns
  import opened Processor
  import opened FlatMemory
  import opened Blocks
  import opened Shadow
  import opened MemoryPort
  import opened Semantics

  /** The machine a processor and a memory amount to: flags as shown, memory as read. */
  ghost function Of(cpu: Cpu, mem: Port): Machine
    requires mem.shadow.Valid()
    reads cpu, mem.shadow
  {
    Machine(cpu.State(), mem.Flat())
  }

  /** The cached blocks after an instruction that stored what wrote says. */
  function CacheAfter(blocks: map<u64, DecodedBlock>, codes: seq<Range>, wrote: Option<Write>): map<u64, DecodedBlock> {
    if wrote.None? then blocks else AfterWrite(blocks, codes, wrote.value.addr, |wrote.value.data|)
  }

  // ---- Operands --------------------------------------------------------------------

  /** mp->read of size bytes, faulting with the given kind. */
  method LoadOrFault(cpu: Cpu, mem: Port, addr: u64, size: OpSize) returns (ok: bool, v: u64)
    requires mem.Valid()
    modifies cpu`fault, cpu`halted, mem.l1, mem.l2, mem.l3
    ensures mem.Valid()
    ensures var r := LoadValue(old(Of(cpu, mem)), addr, size);
      ok == r.Value? && (if ok then v == r.v && cpu.State() == old(cpu.State()) else cpu.State() == r.cpu)
  {
    var r := mem.Read(addr, size);
    if r.ReadFailed? {
      cpu.SetFault(PageFault, addr, r.status);
      return false, 0;
    }
    FromLeBound(r.data);
    ok, v := true, FromLe(r.data);
  }

  method ReadOperand(cpu: Cpu, mem: Port, insn: Insn, op: Operand, size: OpSize) returns (ok: bool, v: u64)
    requires mem.Valid()
    modifies cpu`fault, cpu`halted, mem.l1, mem.l2, mem.l3
    ensures mem.Valid()
    ensures var r := OperandValue(old(Of(cpu, mem)), insn, op, size);
      ok == r.Value? && (if ok then v == r.v && cpu.State() == old(cpu.State()) else cpu.State() == r.cpu)
  {
    match op
    case NoOperand => ok, v := true, 0;
    case Reg(r) =>
      ok := true;
      v := cpu.ReadReg(r, size);
    case Imm(x) => ok, v := true, Masked(x, size);
    case Rel(d) => ok, v := true, d;
    case Mem(base, index, scale, seg, disp) =>
      var addr := EffectiveAddress(cpu, insn, op);
      ok, v := LoadOrFault(cpu, mem, addr, size);
    case RipRelMem(seg, disp) =>
      var addr := EffectiveAddress(cpu, insn, op);
      ok, v := LoadOrFault(cpu, mem, addr, size);
  }

  method EffectiveAddress(cpu: Cpu, insn: Insn, op: Operand) returns (addr: u64)
    requires op.InMemory()
    ensures addr == Ea(cpu.State(), insn, op)
  {
    match op
    case RipRelMem(seg, disp) => addr := Plus(insn.NextRip(), disp);
    case Mem(base, index, scale, seg, disp) =>
      addr := 0;
      if base != NONE {
        addr := Plus(addr, cpu.gpr[base]);
      }
      if index != NONE {
        addr := Plus(addr, Times(cpu.gpr[index], scale));
      }
      addr := Plus(addr, disp);
      if seg == FS {
        addr := Plus(addr, cpu.fsBase);
      } else if seg == GS {
        addr := Plus(addr, cpu.gsBase);
      }
  }

  method StoreOrFault(cpu: Cpu, mem: Port, addr: u64, size: OpSize, v: u64) returns (ok: bool)
    requires mem.Valid()
    modifies cpu`fault, cpu`halted, mem.l1, mem.l2, mem.l3, mem.shadow`pages, mem.listener
    ensures mem.Valid()
    ensures var e := StoreValue(old(Of(cpu, mem)), addr, size, v);
      ok == e.ok && Of(cpu, mem) == e.m
      && mem.listener.blocks == CacheAfter(old(mem.listener.blocks), mem.shadow.codes, e.wrote)
  {
    var s := mem.Write(addr, ToLe(v, size));
    ok := s == Ok;
    if !ok {
      cpu.SetFault(KindFromStatus(s), addr, s);
    }
  }

  method WriteOperand(cpu: Cpu, mem: Port, insn: Insn, op: Operand, size: OpSize, v: u64) returns (ok: bool)
    requires mem.Valid()
    modifies cpu`gpr, cpu`fault, cpu`halted, mem.l1, mem.l2, mem.l3, mem.shadow`pages, mem.listener
    ensures mem.Valid()
    ensures var e := OperandWritten(old(Of(cpu, mem)), insn, op, size, v);
      ok == e.ok && Of(cpu, mem) == e.m
      && mem.listener.blocks == CacheAfter(old(mem.listener.blocks), mem.shadow.codes, e.wrote)
  {
    if op.Reg? {
      cpu.WriteReg(op.reg, size, v);
      ok := true;
    } else if op.InMemory() {
      var addr := EffectiveAddress(cpu, insn, op);
      ok := StoreOrFault(cpu, mem, addr, size, v);
    } else {
      cpu.SetFault(InternalError, cpu.rip, Internal);
      ok := false;
    }
  }

  // ---- Arithmetic and logic ----------------------------------------------------------

  method StashCarrySum(cpu: Cpu, s: OpSize, a: u64, b: u64, cin: bool, r: u64)
    requires a < Modulus(s) && b < Modulus(s) && r == Wrap(a + b + B2N(cin), s)
    modifies cpu`ccOp, cpu`ccSize, cpu`ccDst, cpu`ccSrc, cpu`ccSrc2
    ensures cpu.Shown() == old(cpu.Shown()).With(AddMeaning(s, a, b, cin))
  {
    ComputeAdcMeaning(s, a, b, cin, b, r);
    cpu.StashAdc(s, b, cin, r);
  }

  method StashSum(cpu: Cpu, s: OpSize, a: u64, b: u64, r: u64)
    requires a < Modulus(s) && b < Modulus(s) && r == Wrap(a + b, s)
    modifies cpu`ccOp, cpu`ccSize, cpu`ccDst, cpu`ccSrc, cpu`ccSrc2
    ensures cpu.Shown() == old(cpu.Shown()).With(AddMeaning(s, a, b, false))
  {
    ComputeAddMeaning(s, a, b, b, r);
    cpu.StashAdd(s, b, r);
  }

  method StashBorrowDifference(cpu: Cpu, s: OpSize, a: u64, b: u64, bin: bool, r: u64)
    requires a < Modulus(s) && b < Modulus(s) && r == Wrap(a - b - B2N(bin), s)
    modifies cpu`ccOp, cpu`ccSize, cpu`ccDst, cpu`ccSrc, cpu`ccSrc2
    ensures cpu.Shown() == old(cpu.Shown()).With(SubMeaning(s, a, b, bin))
  {
    ComputeSbbMeaning(s, a, b, bin, b, r);
    cpu.StashSbb(s, b, bin, r);
  }

  method StashDifference(cpu: Cpu, s: OpSize, a: u64, b: u64, r: u64)
    requires a < Modulus(s) && b < Modulus(s) && r == Wrap(a - b, s)
    modifies cpu`ccOp, cpu`ccSize, cpu`ccDst, cpu`ccSrc, cpu`ccSrc2
    ensures cpu.Shown() == old(cpu.Shown()).With(SubMeaning(s, a, b, false))
  {
    ComputeSubMeaning(s, a, b, b, r);
    cpu.StashSub(s, b, r);
  }

  method StashBits(cpu: Cpu, s: OpSize, r: u64)
    requires r < Modulus(s)
    modifies cpu`ccOp, cpu`ccSize, cpu`ccDst, cpu`ccSrc, cpu`ccSrc2
    ensures cpu.Shown() == old(cpu.Shown()).With(LogicMeaning(s, r))
  {
    ComputeLogicMeaning(s, r);
    cpu.StashLogic(s, r);
  }

  /** The pending record each operation leaves shows the flags the operation means. */
  method StashAlu(cpu: Cpu, k: OpKind, s: OpSize, a: u64, b: u64, cin: bool, r: u64)
    requires TwoOperandAlu(k) && a < Modulus(s) && b < Modulus(s) && r == AluResult(k, s, a, b, cin)
    modifies cpu`ccOp, cpu`ccSize, cpu`ccDst, cpu`ccSrc, cpu`ccSrc2
    ensures cpu.Shown() == old(cpu.Shown()).With(AluFlags(k, s, a, b, cin))
  {
    if k == Add {
      StashSum(cpu, s, a, b, r);
    } else if k == Adc {
      StashCarrySum(cpu, s, a, b, cin, r);
    } else if k == Sub || k == Cmp {
      StashDifference(cpu, s, a, b, r);
    } else if k == Sbb {
      StashBorrowDifference(cpu, s, a, b, cin, r);
    } else {
      StashBits(cpu, s, r);
    }
  }

  /** ... and nothing else of the processor changes. */
  method LeaveAluFlags(cpu: Cpu, k: OpKind, s: OpSize, a: u64, b: u64, cin: bool, r: u64)
    requires TwoOperandAlu(k) && a < Modulus(s) && b < Modulus(s) && r == AluResult(k, s, a, b, cin)
    modifies cpu`ccOp, cpu`ccSize, cpu`ccDst, cpu`ccSrc, cpu`ccSrc2
    ensures cpu.State() == old(cpu.State()).(flags := old(cpu.Shown()).With(AluFlags(k, s, a, b, cin)))
  {
    StashAlu(cpu, k, s, a, b, cin, r);
  }

  method ReadPair(cpu: Cpu, mem: Port, insn: Insn, s: OpSize) returns (ok: bool, a: u64, b: u64)
    requires mem.Valid()
    modifies cpu`fault, cpu`halted, mem.l1, mem.l2, mem.l3
    ensures mem.Valid()
    ensures var p := OperandPair(old(Of(cpu, mem)), insn, s);
      ok == p.Pair? && (if ok then a == p.a && b == p.b && cpu.State() == old(cpu.State()) else cpu.State() == p.cpu)
  {
    b := 0;
    ok, a := ReadOperand(cpu, mem, insn, insn.dst, s);
    if ok {
      ok, b := ReadOperand(cpu, mem, insn, insn.src, s);
    }
    a, b := Masked(a, s), Masked(b, s);
  }

  method StoreAlu(cpu: Cpu, mem: Port, insn: Insn, s: OpSize, a: u64, b: u64, cin: bool)
    requires mem.Valid() && TwoOperandAlu(insn.kind) && a < Modulus(s) && b < Modulus(s)
    modifies cpu, mem.l1, mem.l2, mem.l3, mem.shadow`pages, mem.listener
    ensures mem.Valid()
    ensures var e := AluStore(old(Of(cpu, mem)), insn, s, a, b, cin);
      Of(cpu, mem) == e.m
      && mem.listener.blocks == CacheAfter(old(mem.listener.blocks), mem.shadow.codes, e.wrote)
  {
    var r := AluResult(insn.kind, s, a, b, cin);
    var ok := WriteOperand(cpu, mem, insn, insn.dst, s, r);
    if ok {
      LeaveAluFlags(cpu, insn.kind, s, a, b, cin, r);
    }
  }

  /** CMP and TEST. */
  method OpCompare(cpu: Cpu, mem: Port, insn: Insn)
    requires mem.Valid() && FlagsOnly(insn.kind) && OpSized(insn.opSize)
    modifies cpu, mem.l1, mem.l2, mem.l3
    ensures mem.Valid()
    ensures var e := ExecuteCompare(old(Of(cpu, mem)), insn);
      Of(cpu, mem) == e.m
      && mem.listener.blocks == CacheAfter(old(mem.listener.blocks), mem.shadow.codes, e.wrote)
  {
    var ok, a, b := ReadPair(cpu, mem, insn, insn.opSize);
    if ok {
      LeaveAluFlags(cpu, insn.kind, insn.opSize, a, b, false, AluResult(insn.kind, insn.opSize, a, b, false));
    }
  }

  /** Only ADC and SBB look at the carry. */
  lemma CarryUnused(m: Machine, insn: Insn, s: OpSize, a: u64, b: u64, cin: bool)
    requires TwoOperandAlu(insn.kind) && a < Modulus(s) && b < Modulus(s)
    ensures insn.kind != Adc && insn.kind != Sbb ==>
      AluStore(m, insn, s, a, b, cin) == AluStore(m, insn, s, a, b, m.cpu.flags.cf)
  {
    if insn.kind != Adc && insn.kind != Sbb {
      assert AluResult(insn.kind, s, a, b, cin) == AluResult(insn.kind, s, a, b, m.cpu.flags.cf);
      assert AluFlags(insn.kind, s, a, b, cin) == AluFlags(insn.kind, s, a, b, m.cpu.flags.cf);
    }
  }

  /** ADD, OR, ADC, SBB, AND, SUB and XOR; the others leave the pending flags unread. */
  method OpAlu(cpu: Cpu, mem: Port, insn: Insn)
    requires mem.Valid() && TwoOperandAlu(insn.kind) && OpSized(insn.opSize)
    modifies cpu, mem.l1, mem.l2, mem.l3, mem.shadow`pages, mem.listener
    ensures mem.Valid()
    ensures var e := ExecuteAlu(old(Of(cpu, mem)), insn);
      Of(cpu, mem) == e.m
      && mem.listener.blocks == CacheAfter(old(mem.listener.blocks), mem.shadow.codes, e.wrote)
  {
    var ok, a, b := ReadPair(cpu, mem, insn, insn.opSize);
    if ok {
      Combine(cpu, mem, insn, insn.opSize, a, b);
    }
  }

  /** The operation on two operands; only ADC and SBB read the carry flag, and so fold in pending flags. */
  method Combine(cpu: Cpu, mem: Port, insn: Insn, s: OpSize, a: u64, b: u64)
    requires mem.Valid() && TwoOperandAlu(insn.kind) && a < Modulus(s) && b < Modulus(s)
    modifies cpu, mem.l1, mem.l2, mem.l3, mem.shadow`pages, mem.listener
    ensures mem.Valid()
    ensures var e := AluStore(old(Of(cpu, mem)), insn, s, a, b, old(cpu.Shown().cf));
      Of(cpu, mem) == e.m
      && mem.listener.blocks == CacheAfter(old(mem.listener.blocks), mem.shadow.codes, e.wrote)
  {
    CarryUnused(Of(cpu, mem), insn, s, a, b, false);
    if insn.kind == Adc || insn.kind == Sbb {
      var cin := cpu.Cf();
      StoreAlu(cpu, mem, insn, s, a, b, cin);
    } else {
      StoreAlu(cpu, mem, insn, s, a, b, false);
    }
  }

  method StashIncrement(cpu: Cpu, s: OpSize, a: u64, r: u64, ghost cf: bool)
    requires a < Modulus(s) && r == UnaryResult(Inc, s, a) && cf == cpu.Shown().cf
    modifies cpu`rflags, cpu`ccOp, cpu`ccSize, cpu`ccDst, cpu`ccSrc, cpu`ccSrc2
    ensures cpu.Shown() == old(cpu.Shown()).With(UnaryFlags(Inc, s, a, cf))
  {
    ComputeIncMeaning(s, a, cf, r);
    cpu.StashInc(s, r);
  }

  method StashDecrement(cpu: Cpu, s: OpSize, a: u64, r: u64, ghost cf: bool)
    requires a < Modulus(s) && r == UnaryResult(Dec, s, a) && cf == cpu.Shown().cf
    modifies cpu`rflags, cpu`ccOp, cpu`ccSize, cpu`ccDst, cpu`ccSrc, cpu`ccSrc2
    ensures cpu.Shown() == old(cpu.Shown()).With(UnaryFlags(Dec, s, a, cf))
  {
    ComputeDecMeaning(s, a, cf, r);
    cpu.StashDec(s, r);
  }

  method StashNegation(cpu: Cpu, s: OpSize, a: u64, r: u64, ghost cf: bool)
    requires a < Modulus(s) && r == UnaryResult(Neg, s, a) && cf == cpu.Shown().cf
    modifies cpu`rflags, cpu`ccOp, cpu`ccSize, cpu`ccDst, cpu`ccSrc, cpu`ccSrc2
    ensures cpu.Shown() == old(cpu.Shown()).With(UnaryFlags(Neg, s, a, cf))
  {
    ComputeNegMeaning(s, a, r);
    cpu.StashNeg(s, a, r);
  }

  method StashUnary(cpu: Cpu, k: OpKind, s: OpSize, a: u64, r: u64, ghost cf: bool)
    requires OneOperandAlu(k) && a < Modulus(s) && r == UnaryResult(k, s, a) && cf == cpu.Shown().cf
    modifies cpu`rflags, cpu`ccOp, cpu`ccSize, cpu`ccDst, cpu`ccSrc, cpu`ccSrc2
    ensures cpu.Shown() == old(cpu.Shown()).With(UnaryFlags(k, s, a, cf))
  {
    if k == Inc {
      StashIncrement(cpu, s, a, r, cf);
    } else if k == Dec {
      StashDecrement(cpu, s, a, r, cf);
    } else {
      StashNegation(cpu, s, a, r, cf);
    }
  }

  method LeaveUnaryFlags(cpu: Cpu, k: OpKind, s: OpSize, a: u64, r: u64, ghost cf: bool)
    requires OneOperandAlu(k) && a < Modulus(s) && r == UnaryResult(k, s, a) && cf == cpu.Shown().cf
    modifies cpu`rflags, cpu`ccOp, cpu`ccSize, cpu`ccDst, cpu`ccSrc, cpu`ccSrc2
    ensures cpu.State() == old(cpu.State()).(flags := old(cpu.Shown()).With(UnaryFlags(k, s, a, cf)))
  {
    StashUnary(cpu, k, s, a, r, cf);
  }

  method StoreUnary(cpu: Cpu, mem: Port, insn: Insn, s: OpSize, a: u64, ghost cf: bool)
    requires mem.Valid() && OneOperandAlu(insn.kind) && a < Modulus(s) && cf == cpu.Shown().cf
    modifies cpu, mem.l1, mem.l2, mem.l3, mem.shadow`pages, mem.listener
    ensures mem.Valid()
    ensures var e := UnaryStore(old(Of(cpu, mem)), insn, s, a, cf);
      Of(cpu, mem) == e.m
      && mem.listener.blocks == CacheAfter(old(mem.listener.blocks), mem.shadow.codes, e.wrote)
  {
    var r := UnaryResult(insn.kind, s, a);
    var ok := WriteOperand(cpu, mem, insn, insn.dst, s, r);
    if ok {
      LeaveUnaryFlags(cpu, insn.kind, s, a, r, cf);
    }
  }

  /** INC, DEC and NEG. */
  method OpUnary(cpu: Cpu, mem: Port, insn: Insn)
    requires mem.Valid() && OneOperandAlu(insn.kind) && OpSized(insn.opSize)
    modifies cpu, mem.l1, mem.l2, mem.l3, mem.shadow`pages, mem.listener
    ensures mem.Valid()
    ensures var e := ExecuteUnary(old(Of(cpu, mem)), insn);
      Of(cpu, mem) == e.m
      && mem.listener.blocks == CacheAfter(old(mem.listener.blocks), mem.shadow.codes, e.wrote)
  {
    var s: OpSize := insn.opSize;
    var ok, a := ReadOperand(cpu, mem, insn, insn.dst, s);
    if !ok {
      return;
    }
    a := Masked(a, s);
    ghost var cf := cpu.Shown().cf;
    StoreUnary(cpu, mem, insn, s, a, cf);
  }

  /** NOT leaves the flags alone. */
  method OpNot(cpu: Cpu, mem: Port, insn: Insn)
    requires mem.Valid() && OpSized(insn.opSize)
    modifies cpu, mem.l1, mem.l2, mem.l3, mem.shadow`pages, mem.listener
    ensures mem.Valid()
    ensures var e := ExecuteNot(old(Of(cpu, mem)), insn);
      Of(cpu, mem) == e.m
      && mem.listener.blocks == CacheAfter(old(mem.listener.blocks), mem.shadow.codes, e.wrote)
  {
    var s: OpSize := insn.opSize;
    var ok, a := ReadOperand(cpu, mem, insn, insn.dst, s);
    if ok {
      ok := WriteOperand(cpu, mem, insn, insn.dst, s, NotResult(s, a));
    }
  }

  // ---- Data movement -------------------------------------------------------------------

  method OpMov(cpu: Cpu, mem: Port, insn: Insn)
    requires mem.Valid() && OpSized(insn.opSize)
    modifies cpu, mem.l1, mem.l2, mem.l3, mem.shadow`pages, mem.listener
    ensures mem.Valid()
    ensures var e := ExecuteMov(old(Of(cpu, mem)), insn);
      Of(cpu, mem) == e.m
      && mem.listener.blocks == CacheAfter(old(mem.listener.blocks), mem.shadow.codes, e.wrote)
  {
    var ok, v := ReadOperand(cpu, mem, insn, insn.src, insn.opSize);
    if ok {
      ok := WriteOperand(cpu, mem, insn, insn.dst, insn.opSize, v);
    }
  }

  method OpLea(cpu: Cpu, mem: Port, insn: Insn)
    requires mem.Valid() && OpSized(insn.opSize)
    modifies cpu, mem.l1, mem.l2, mem.l3, mem.shadow`pages, mem.listener
    ensures mem.Valid()
    ensures var e := ExecuteLea(old(Of(cpu, mem)), insn);
      Of(cpu, mem) == e.m
      && mem.listener.blocks == CacheAfter(old(mem.listener.blocks), mem.shadow.codes, e.wrote)
  {
    if !insn.src.InMemory() {
      cpu.SetFault(InvalidOpcode, cpu.rip, InvalidInstruction);
      return;
    }
    var addr := EffectiveAddress(cpu, insn, insn.src);
    var ok := WriteOperand(cpu, mem, insn, insn.dst, insn.opSize, addr);
  }

  method Exchange(cpu: Cpu, mem: Port, insn: Insn, s: OpSize, a: u64, b: u64)
    requires mem.Valid() && !(insn.dst.InMemory() && insn.src.InMemory())
    modifies cpu, mem.l1, mem.l2, mem.l3, mem.shadow`pages, mem.listener
    ensures mem.Valid()
    ensures var e := Exchanged(old(Of(cpu, mem)), insn, s, a, b);
      Of(cpu, mem) == e.m
      && mem.listener.blocks == CacheAfter(old(mem.listener.blocks), mem.shadow.codes, e.wrote)
  {
    var ok := WriteOperand(cpu, mem, insn, insn.dst, s, b);
    if ok {
      ok := WriteOperand(cpu, mem, insn, insn.src, s, a);
    }
  }

  method OpXchg(cpu: Cpu, mem: Port, insn: Insn)
    requires mem.Valid() && OpSized(insn.opSize) && insn.WellFormed()
    modifies cpu, mem.l1, mem.l2, mem.l3, mem.shadow`pages, mem.listener
    ensures mem.Valid()
    ensures var e := ExecuteXchg(old(Of(cpu, mem)), insn);
      Of(cpu, mem) == e.m
      && mem.listener.blocks == CacheAfter(old(mem.listener.blocks), mem.shadow.codes, e.wrote)
  {
    var ok, a, b := ReadPair(cpu, mem, insn, insn.opSize);
    if ok {
      Exchange(cpu, mem, insn, insn.opSize, a, b);
    }
  }

  method MoveStack(cpu: Cpu, sp: u64)
    modifies cpu`gpr
    ensures cpu.State() == old(cpu.State()).WithReg(RSP, sp)
  {
    cpu.WriteReg(RSP, 8, sp);
  }

  method OpPush(cpu: Cpu, mem: Port, insn: Insn)
    requires mem.Valid() && OpSized(insn.opSize)
    modifies cpu, mem.l1, mem.l2, mem.l3, mem.shadow`pages, mem.listener
    ensures mem.Valid()
    ensures var e := ExecutePush(old(Of(cpu, mem)), insn);
      Of(cpu, mem) == e.m
      && mem.listener.blocks == CacheAfter(old(mem.listener.blocks), mem.shadow.codes, e.wrote)
  {
    var ok, v := ReadOperand(cpu, mem, insn, insn.dst, insn.opSize);
    if !ok {
      return;
    }
    var sp := Minus(cpu.gpr[RSP], insn.opSize);
    ok := StoreOrFault(cpu, mem, sp, insn.opSize, v);
    if ok {
      MoveStack(cpu, sp);
    }
  }

  method OpPop(cpu: Cpu, mem: Port, insn: Insn)
    requires mem.Valid() && OpSized(insn.opSize)
    modifies cpu, mem.l1, mem.l2, mem.l3, mem.shadow`pages, mem.listener
    ensures mem.Valid()
    ensures var e := ExecutePop(old(Of(cpu, mem)), insn);
      Of(cpu, mem) == e.m
      && mem.listener.blocks == CacheAfter(old(mem.listener.blocks), mem.shadow.codes, e.wrote)
  {
    var sp := cpu.gpr[RSP];
    var ok, v := LoadOrFault(cpu, mem, sp, insn.opSize);
    if !ok {
      return;
    }
    PopInto(cpu, mem, insn, v, Plus(sp, insn.opSize));
  }

  /** The destination is written before the stack pointer moves, which it does even if that faulted. */
  method PopInto(cpu: Cpu, mem: Port, insn: Insn, v: u64, sp: u64)
    requires mem.Valid() && OpSized(insn.opSize)
    modifies cpu, mem.l1, mem.l2, mem.l3, mem.shadow`pages, mem.listener
    ensures mem.Valid()
    ensures var w := OperandWritten(old(Of(cpu, mem)), insn, insn.dst, insn.opSize, v);
      Of(cpu, mem) == w.m.(cpu := w.m.cpu.WithReg(RSP, sp))
      && mem.listener.blocks == CacheAfter(old(mem.listener.blocks), mem.shadow.codes, w.wrote)
  {
    var _ := WriteOperand(cpu, mem, insn, insn.dst, insn.opSize, v);
    MoveStack(cpu, sp);
  }

  // ---- Control flow --------------------------------------------------------------------

  method BranchTarget(cpu: Cpu, mem: Port, insn: Insn) returns (target: u64)
    requires mem.Valid()
    modifies cpu`fault, cpu`halted, mem.l1, mem.l2, mem.l3
    ensures mem.Valid()
    ensures (cpu.State(), target) == Target(old(Of(cpu, mem)), insn)
  {
    if insn.dst.Rel? {
      return Plus(insn.NextRip(), insn.dst.disp);
    }
    if insn.dst.Reg? {
      target := cpu.ReadReg(insn.dst.reg, 8);
      return;
    }
    if insn.dst.InMemory() {
      var ok;
      ok, target := ReadOperand(cpu, mem, insn, insn.dst, 8);
      if !ok {
        target := 0;
      }
      return;
    }
    cpu.SetFault(InvalidOpcode, cpu.rip, InvalidInstruction);
    target := 0;
  }

  method OpJmp(cpu: Cpu, mem: Port, insn: Insn)
    requires mem.Valid()
    modifies cpu, mem.l1, mem.l2, mem.l3
    ensures mem.Valid()
    ensures var e := ExecuteJmp(old(Of(cpu, mem)), insn);
      Of(cpu, mem) == e.m
      && mem.listener.blocks == CacheAfter(old(mem.listener.blocks), mem.shadow.codes, e.wrote)
  {
    var target := BranchTarget(cpu, mem, insn);
    if !cpu.halted {
      cpu.TakeBranch(target);
    }
  }

  method OpJcc(cpu: Cpu, mem: Port, insn: Insn)
    requires mem.Valid()
    modifies cpu, mem.l1, mem.l2, mem.l3
    ensures mem.Valid()
    ensures var e := ExecuteJcc(old(Of(cpu, mem)), insn);
      Of(cpu, mem) == e.m
      && mem.listener.blocks == CacheAfter(old(mem.listener.blocks), mem.shadow.codes, e.wrote)
  {
    var taken := cpu.CondHolds(insn.cond);
    if taken {
      var d := if insn.dst.Rel? || insn.dst.InMemory() then insn.dst.disp else 0;
      cpu.TakeBranch(Plus(insn.NextRip(), d));
    }
  }

  method OpCall(cpu: Cpu, mem: Port, insn: Insn)
    requires mem.Valid()
    modifies cpu, mem.l1, mem.l2, mem.l3, mem.shadow`pages, mem.listener
    ensures mem.Valid()
    ensures var e := ExecuteCall(old(Of(cpu, mem)), insn);
      Of(cpu, mem) == e.m
      && mem.listener.blocks == CacheAfter(old(mem.listener.blocks), mem.shadow.codes, e.wrote)
  {
    var sp := Minus(cpu.gpr[RSP], 8);
    var ok := StoreOrFault(cpu, mem, sp, 8, insn.NextRip());
    if !ok {
      return;
    }
    MoveStack(cpu, sp);
    var target := BranchTarget(cpu, mem, insn);
    cpu.TakeBranch(target);
  }

  method OpRet(cpu: Cpu, mem: Port, insn: Insn)
    requires mem.Valid()
    modifies cpu, mem.l1, mem.l2, mem.l3
    ensures mem.Valid()
    ensures var e := ExecuteRet(old(Of(cpu, mem)), insn);
      Of(cpu, mem) == e.m
      && mem.listener.blocks == CacheAfter(old(mem.listener.blocks), mem.shadow.codes, e.wrote)
  {
    var sp := cpu.gpr[RSP];
    var ok, v := LoadOrFault(cpu, mem, sp, 8);
    if !ok {
      return;
    }
    var extra := if insn.dst.Imm? then insn.dst.imm % 0x1_0000 else 0;
    MoveStack(cpu, Plus(Plus(sp, 8), extra));
    cpu.TakeBranch(v);
  }

  // ---- The handler an instruction is bound to ---------------------------------------------

  method HandleData(cpu: Cpu, mem: Port, insn: Insn)
    requires mem.Valid() && insn.WellFormed() && insn.kind != Nop && !ControlFlow(insn.kind)
    modifies cpu, mem.l1, mem.l2, mem.l3, mem.shadow`pages, mem.listener
    ensures mem.Valid()
    ensures var e := ExecuteData(old(Of(cpu, mem)), insn);
      Of(cpu, mem) == e.m
      && mem.listener.blocks == CacheAfter(old(mem.listener.blocks), mem.shadow.codes, e.wrote)
  {
    if FlagsOnly(insn.kind) {
      OpCompare(cpu, mem, insn);
    } else if TwoOperandAlu(insn.kind) {
      OpAlu(cpu, mem, insn);
    } else if OneOperandAlu(insn.kind) {
      OpUnary(cpu, mem, insn);
    } else if insn.kind == Not {
      OpNot(cpu, mem, insn);
    } else if insn.kind == Mov {
      OpMov(cpu, mem, insn);
    } else if insn.kind == Lea {
      OpLea(cpu, mem, insn);
    } else if insn.kind == Xchg {
      OpXchg(cpu, mem, insn);
    } else if insn.kind == Push {
      OpPush(cpu, mem, insn);
    } else {
      OpPop(cpu, mem, insn);
    }
  }

  method HandleBranch(cpu: Cpu, mem: Port, insn: Insn)
    requires mem.Valid() && insn.WellFormed() && ControlFlow(insn.kind)
    modifies cpu, mem.l1, mem.l2, mem.l3, mem.shadow`pages, mem.listener
    ensures mem.Valid()
    ensures var e := ExecuteBranch(old(Of(cpu, mem)), insn);
      Of(cpu, mem) == e.m
      && mem.listener.blocks == CacheAfter(old(mem.listener.blocks), mem.shadow.codes, e.wrote)
  {
    if insn.kind == Jmp {
      OpJmp(cpu, mem, insn);
    } else if insn.kind == Jcc {
      OpJcc(cpu, mem, insn);
    } else if insn.kind == Call {
      OpCall(cpu, mem, insn);
    } else {
      OpRet(cpu, mem, insn);
    }
  }

  /** Whatever flags were pending, one handler call is one instruction. */
  method Handle(cpu: Cpu, mem: Port, insn: Insn)
    requires mem.Valid() && insn.WellFormed()
    modifies cpu, mem.l1, mem.l2, mem.l3, mem.shadow`pages, mem.listener
    ensures mem.Valid()
    ensures var e := Execute(old(Of(cpu, mem)), insn);
      Of(cpu, mem) == e.m
      && mem.listener.blocks == CacheAfter(old(mem.listener.blocks), mem.shadow.codes, e.wrote)
  {
    if insn.kind == Nop {
    } else if ControlFlow(insn.kind) {
      HandleBranch(cpu, mem, insn);
    } else {
      HandleData(cpu, mem, insn);
    }
  }
}
