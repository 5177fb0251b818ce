/** The processor state: sized registers, the instruction pointer, and the lazily computed flags. */
module Processor {
  import opened Words
  import opened Base
  import opened EFlags
  import opened LazyFlags

  type Gprs = s: seq<u64> | |s| == 16 witness [0, 0, 0, 0, 0, 0, 0, 0, 0, 0, 0, 0, 0, 0, 0, 0]

  const RAX: nat := 0
  const RSP: nat := 4

  /** The state a program can observe; the flags are those a reader would be shown. */
  datatype Arch = Arch(gpr: Gprs, rip: u64, flags: RFlags, fsBase: u64, gsBase: u64,
                       halted: bool, branched: bool, fault: Fault) {
    function Faulted(kind: FaultKind, at: u64, reason: Status): Arch {
      this.(fault := Fault(kind, rip, at, reason), halted := true)
    }

    function WithReg(i: nat, v: u64): Arch
      requires i < 16
    {
      this.(gpr := gpr[i := v])
    }
  }

  /** The size-byte register i, zero-extended. */
  function RegValue(g: Gprs, i: RegId, size: OpSize): (v: nat)
    ensures v < Modulus(size)
  {
    if i >= 16 then (g[i - 16] / 256) % 256 else Masked(g[i], size)
  }

  /** x with its second byte replaced. */
  function SecondByte(x: u64, v: u64): u64 {
    0x1_0000 * (x / 0x1_0000) + 0x100 * (v % 0x100) + x % 0x100
  }

  /** x with its low byte, or its low two bytes, replaced. */
  function LowByte(x: u64, v: u64): u64 {
    0x100 * (x / 0x100) + v % 0x100
  }

  function LowWord(x: u64, v: u64): u64 {
    0x1_0000 * (x / 0x1_0000) + v % 0x1_0000
  }

  /** Writing a register: 8- and 16-bit writes keep the other bits, a 32-bit write clears the upper half. */
  function RegWritten(g: Gprs, i: RegId, size: OpSize, v: u64): Gprs {
    if i >= 16 then g[i - 16 := SecondByte(g[i - 16], v)]
    else if size == 1 then g[i := LowByte(g[i], v)]
    else if size == 2 then g[i := LowWord(g[i], v)]
    else if size == 4 then g[i := v % TWO32]
    else g[i := v]
  }

  lemma LowBack(x: u64, v: u64)
    ensures LowByte(x, v) % 0x100 == v % 0x100 && LowByte(x, v) / 0x100 == x / 0x100
    ensures LowWord(x, v) % 0x1_0000 == v % 0x1_0000 && LowWord(x, v) / 0x1_0000 == x / 0x1_0000
  {
  }

  lemma HighByteBack(x: u64, v: u64)
    ensures (SecondByte(x, v) / 256) % 256 == v % 256 && SecondByte(x, v) % 256 == x % 256
    ensures SecondByte(x, v) / 0x1_0000 == x / 0x1_0000
  {
    var q := 256 * (x / 0x1_0000) + v % 256;
    DivModUnique(SecondByte(x, v), 256, q, x % 256);
    DivModUnique(q, 256, x / 0x1_0000, v % 256);
    DivModUnique(SecondByte(x, v), 0x1_0000, x / 0x1_0000, 256 * (v % 256) + x % 256);
  }

  /** What is written is read back. High-byte registers are one byte. */
  lemma ReadBack(g: Gprs, d: RegId, s: OpSize, v: u64)
    requires d >= 16 ==> s == 1
    ensures RegValue(RegWritten(g, d, s, v), d, s) == Masked(v, s)
  {
    if d >= 16 {
      HighByteBack(g[d - 16], v);
    } else if s <= 2 {
      LowBack(g[d], v);
    } else {
    }
  }

  /** The 64-bit register that holds register d. */
  function Home(d: RegId): nat {
    if d >= 16 then d - 16 else d
  }

  /** A write changes no other register, and of its own only the bits it names: those above a byte or a word,
      and those beside a high byte, stay, while a 32-bit write clears the upper half. */
  lemma WriteKeeps(g: Gprs, d: RegId, s: OpSize, v: u64)
    requires d >= 16 ==> s == 1
    ensures var g', h := RegWritten(g, d, s, v), Home(d);
      && (forall e: RegId, z: OpSize :: Home(e) != h ==> RegValue(g', e, z) == RegValue(g, e, z))
      && (s == 1 && d < 16 ==> g'[h] / 0x100 == g[h] / 0x100)
      && (s == 2 || d >= 16 ==> g'[h] / 0x1_0000 == g[h] / 0x1_0000)
      && (d >= 16 ==> RegValue(g', h, 1) == RegValue(g, h, 1))
      && (s == 4 ==> g'[h] < TWO32)
  {
    LowBack(g[Home(d)], v);
    HighByteBack(g[Home(d)], v);
  }

  datatype Saved = Saved(state: Arch, raw: RFlags, op: CcOp, size: OpSize, dst: u64, src: u64, src2: u64)

  class Cpu {
    var gpr: Gprs
    var rip: u64
    var rflags: RFlags
    var fsBase: u64
    var gsBase: u64
    var fault: Fault
    var ccOp: CcOp
    var ccSize: OpSize
    var ccDst: u64
    var ccSrc: u64
    var ccSrc2: u64
    var halted: bool
    var branchTaken: bool

    constructor ()
      ensures State() == Arch([0, 0, 0, 0, 0, 0, 0, 0, 0, 0, 0, 0, 0, 0, 0, 0], 0, FRESH, 0, 0, false, false, CLEAR)
    {
      gpr := [0, 0, 0, 0, 0, 0, 0, 0, 0, 0, 0, 0, 0, 0, 0, 0];
      rip, fsBase, gsBase := 0, 0, 0;
      rflags := FRESH;
      fault := CLEAR;
      ccOp, ccSize, ccDst, ccSrc, ccSrc2 := Eflags, 4, 0, 0, 0;
      halted, branchTaken := false, false;
    }

    /** The flags any reader would be shown. */
    ghost function Shown(): RFlags
      reads this
    {
      Synced(ccOp, ccSize, ccDst, ccSrc, ccSrc2, rflags)
    }

    ghost function State(): Arch
      reads this
    {
      Arch(gpr, rip, Shown(), fsBase, gsBase, halted, branchTaken, fault)
    }

    // ---- Registers -------------------------------------------------------------

    method ReadReg(i: RegId, size: OpSize) returns (v: u64)
      ensures v == RegValue(gpr, i, size)
    {
      if i >= 16 {
        v := (gpr[i - 16] / 256) % 256;
      } else {
        v := Masked(gpr[i], size);
      }
    }

    method WriteReg(i: RegId, size: OpSize, v: u64)
      modifies `gpr
      ensures gpr == RegWritten(old(gpr), i, size, v)
    {
      if i >= 16 {
        gpr := gpr[i - 16 := SecondByte(gpr[i - 16], v)];
      } else if size == 1 {
        gpr := gpr[i := LowByte(gpr[i], v)];
      } else if size == 2 {
        gpr := gpr[i := LowWord(gpr[i], v)];
      } else if size == 4 {
        gpr := gpr[i := v % TWO32];
      } else {
        gpr := gpr[i := v];
      }
    }

    // ---- Run state ---------------------------------------------------------------

    method SetFault(kind: FaultKind, at: u64, reason: Status)
      modifies `fault, `halted
      ensures State() == old(State()).Faulted(kind, at, reason)
    {
      fault := Fault(kind, rip, at, reason);
      halted := true;
    }

    method TakeBranch(target: u64)
      modifies `rip, `branchTaken
      ensures State() == old(State()).(rip := target, branched := true)
    {
      rip := target;
      branchTaken := true;
    }

    // ---- Flags: readers and direct writers -----------------------------------------

    /** Fold the pending operation into the register; nothing a reader sees changes. */
    method SyncFlags()
      modifies `rflags, `ccOp
      ensures ccOp == Eflags && rflags == Shown() == old(Shown())
    {
      if ccOp == Eflags {
        return;
      }
      var bits := Bits(ccOp, ccSize, ccDst, ccSrc, ccSrc2, rflags);
      rflags := rflags.With(bits.Six());
      ccOp := Eflags;
    }

    method Rflags() returns (f: RFlags)
      modifies `rflags, `ccOp
      ensures f == Shown().(one := true) && Shown() == old(Shown())
    {
      SyncFlags();
      f := rflags.(one := true);
    }

    method SetRflags(f: RFlags)
      modifies `rflags, `ccOp
      ensures Shown() == f
    {
      rflags := f;
      ccOp := Eflags;
    }

    method Cf() returns (b: bool)
      modifies `rflags, `ccOp
      ensures ccOp == Eflags && b == rflags.cf && rflags == Shown() == old(Shown())
    {
      SyncFlags();
      b := rflags.cf;
    }

    /** The condition test reads through the same synchronisation. */
    method CondHolds(cc: Cc) returns (b: bool)
      modifies `rflags, `ccOp
      ensures b == EFlags.CondHolds(cc, Shown().Six()) && Shown() == old(Shown())
    {
      SyncFlags();
      b := EFlags.CondHolds(cc, rflags.Six());
    }

    method SetCf(v: bool)
      modifies `rflags, `ccOp
      ensures ccOp == Eflags && rflags == Shown() == old(Shown()).(cf := v)
    {
      SyncFlags();
      rflags := rflags.(cf := v);
    }

    method SetPf(v: bool)
      modifies `rflags, `ccOp
      ensures Shown() == old(Shown()).(pf := v)
    {
      SyncFlags();
      rflags := rflags.(pf := v);
    }

    method SetAf(v: bool)
      modifies `rflags, `ccOp
      ensures Shown() == old(Shown()).(af := v)
    {
      SyncFlags();
      rflags := rflags.(af := v);
    }

    method SetZf(v: bool)
      modifies `rflags, `ccOp
      ensures Shown() == old(Shown()).(zf := v)
    {
      SyncFlags();
      rflags := rflags.(zf := v);
    }

    method SetSf(v: bool)
      modifies `rflags, `ccOp
      ensures Shown() == old(Shown()).(sf := v)
    {
      SyncFlags();
      rflags := rflags.(sf := v);
    }

    method SetOf(v: bool)
      modifies `rflags, `ccOp
      ensures ccOp == Eflags && rflags == Shown() == old(Shown()).(of := v)
    {
      SyncFlags();
      rflags := rflags.(of := v);
    }

    /** The direction flag is written without synchronising. */
    method SetDf(v: bool)
      modifies `rflags
      ensures Shown() == old(Shown()).(df := v)
    {
      BitsDependOnSix(ccOp, ccSize, ccDst, ccSrc, ccSrc2, rflags, rflags.(df := v));
      rflags := rflags.(df := v);
    }

    // ---- Flags: deferred operations --------------------------------------------------

    method StashLogic(size: OpSize, r: u64)
      modifies `ccOp, `ccSize, `ccDst, `ccSrc, `ccSrc2
      ensures Shown() == old(Shown()).With(ComputeLogic(size, r).Six())
    {
      ccOp, ccSize, ccSrc, ccDst, ccSrc2 := CcOp.Logic, size, 0, r, 0;
    }

    method StashAdd(size: OpSize, b: u64, r: u64)
      modifies `ccOp, `ccSize, `ccDst, `ccSrc, `ccSrc2
      ensures Shown() == old(Shown()).With(ComputeAdd(size, b, r).Six())
    {
      ccOp, ccSize, ccSrc, ccDst, ccSrc2 := CcOp.Add, size, b, r, 0;
    }

    method StashAdc(size: OpSize, b: u64, cin: bool, r: u64)
      modifies `ccOp, `ccSize, `ccDst, `ccSrc, `ccSrc2
      ensures Shown() == old(Shown()).With(ComputeAdc(size, b, r, cin).Six())
    {
      ccOp, ccSize, ccSrc, ccDst, ccSrc2 := CcOp.Adc, size, b, r, if cin then 1 else 0;
    }

    method StashSub(size: OpSize, b: u64, r: u64)
      modifies `ccOp, `ccSize, `ccDst, `ccSrc, `ccSrc2
      ensures Shown() == old(Shown()).With(ComputeSub(size, b, r).Six())
    {
      ccOp, ccSize, ccSrc, ccDst, ccSrc2 := CcOp.Sub, size, b, r, 0;
    }

    method StashSbb(size: OpSize, b: u64, bin: bool, r: u64)
      modifies `ccOp, `ccSize, `ccDst, `ccSrc, `ccSrc2
      ensures Shown() == old(Shown()).With(ComputeSbb(size, b, r, bin).Six())
    {
      ccOp, ccSize, ccSrc, ccDst, ccSrc2 := CcOp.Sbb, size, b, r, if bin then 1 else 0;
    }

    method StashNeg(size: OpSize, a: u64, r: u64)
      modifies `ccOp, `ccSize, `ccDst, `ccSrc, `ccSrc2
      ensures Shown() == old(Shown()).With(ComputeNeg(size, a, r).Six())
    {
      ccOp, ccSize, ccSrc, ccDst, ccSrc2 := CcOp.Neg, size, a, r, 0;
    }

    /** The carry flag survives, so the pending work is folded in first. */
    method StashInc(size: OpSize, r: u64)
      modifies `rflags, `ccOp, `ccSize, `ccDst, `ccSrc, `ccSrc2
      ensures Shown() == old(Shown()).With(ComputeInc(size, old(Shown()).cf, r).Six())
    {
      SyncFlags();
      DeferInc(size, r);
    }

    method DeferInc(size: OpSize, r: u64)
      requires ccOp == Eflags
      modifies `ccOp, `ccSize, `ccDst, `ccSrc, `ccSrc2
      ensures Shown() == old(Shown()).With(ComputeInc(size, old(Shown()).cf, r).Six())
    {
      SavedCarry(size, r, rflags.cf, rflags);
      ccOp, ccSize, ccSrc, ccDst, ccSrc2 := CcOp.Inc, size, if rflags.cf then 1 else 0, r, 0;
    }

    /** The carry flag survives, so the pending work is folded in first. */
    method StashDec(size: OpSize, r: u64)
      modifies `rflags, `ccOp, `ccSize, `ccDst, `ccSrc, `ccSrc2
      ensures Shown() == old(Shown()).With(ComputeDec(size, old(Shown()).cf, r).Six())
    {
      SyncFlags();
      DeferDec(size, r);
    }

    method DeferDec(size: OpSize, r: u64)
      requires ccOp == Eflags
      modifies `ccOp, `ccSize, `ccDst, `ccSrc, `ccSrc2
      ensures Shown() == old(Shown()).With(ComputeDec(size, old(Shown()).cf, r).Six())
    {
      SavedCarry(size, r, rflags.cf, rflags);
      ccOp, ccSize, ccSrc, ccDst, ccSrc2 := CcOp.Dec, size, if rflags.cf then 1 else 0, r, 0;
    }

    method StashShl(size: OpSize, original: u64, count: u8, r: u64)
      modifies `ccOp, `ccSize, `ccDst, `ccSrc, `ccSrc2
      ensures Shown() ==
        if count == 0 then old(Shown()) else old(Shown()).With(ComputeShl(size, original, r, count).Six())
    {
      if count == 0 {
        return;
      }
      assert count % 256 == count;
      ccOp, ccSize, ccSrc, ccDst, ccSrc2 := CcOp.Shl, size, original, r, count;
    }

    method StashShr(size: OpSize, original: u64, count: u8, r: u64)
      modifies `ccOp, `ccSize, `ccDst, `ccSrc, `ccSrc2
      ensures Shown() ==
        if count == 0 then old(Shown()) else old(Shown()).With(ComputeShr(size, original, r, count).Six())
    {
      if count == 0 {
        return;
      }
      assert count % 256 == count;
      ccOp, ccSize, ccSrc, ccDst, ccSrc2 := CcOp.Shr, size, original, r, count;
    }

    method StashSar(size: OpSize, original: u64, count: u8, r: u64)
      modifies `ccOp, `ccSize, `ccDst, `ccSrc, `ccSrc2
      ensures Shown() ==
        if count == 0 then old(Shown()) else old(Shown()).With(ComputeSar(size, original, r, count).Six())
    {
      if count == 0 {
        return;
      }
      ghost var six := ComputeSar(size, original, r, count).Six();
      OverwriteDropsPending(ccOp, ccSize, ccDst, ccSrc, ccSrc2, rflags, six);
      ccOp, ccSize, ccSrc, ccDst, ccSrc2 := CcOp.Sar, size, original, r, count;
      assert Shown() == rflags.With(six) by {
        assert count % 256 == count;
      }
    }

    method StashRol(size: OpSize, original: u64, count: u8, r: u64)
      modifies `rflags, `ccOp, `ccSize, `ccDst, `ccSrc, `ccSrc2
      ensures Shown() ==
        if count == 0 then old(Shown()) else old(Shown()).With(ComputeRol(size, r, count, old(Shown())).Six())
    {
      if InWidth(count, size) == 0 && count == 0 {
        return;
      }
      SyncFlags();
      DeferRol(size, original, count, r);
    }

    method DeferRol(size: OpSize, original: u64, count: u8, r: u64)
      requires ccOp == Eflags && count != 0
      modifies `ccOp, `ccSize, `ccDst, `ccSrc, `ccSrc2
      ensures Shown() == old(Shown()).With(ComputeRol(size, r, count, old(Shown())).Six())
    {
      assert count % 256 == count;
      ccOp, ccSize, ccSrc, ccDst, ccSrc2 := CcOp.Rol, size, original, r, count;
    }

    method StashRor(size: OpSize, original: u64, count: u8, r: u64)
      modifies `rflags, `ccOp, `ccSize, `ccDst, `ccSrc, `ccSrc2
      ensures Shown() ==
        if count == 0 then old(Shown()) else old(Shown()).With(ComputeRor(size, r, count, old(Shown())).Six())
    {
      if InWidth(count, size) == 0 && count == 0 {
        return;
      }
      SyncFlags();
      DeferRor(size, original, count, r);
    }

    method DeferRor(size: OpSize, original: u64, count: u8, r: u64)
      requires ccOp == Eflags && count != 0
      modifies `ccOp, `ccSize, `ccDst, `ccSrc, `ccSrc2
      ensures Shown() == old(Shown()).With(ComputeRor(size, r, count, old(Shown())).Six())
    {
      assert count % 256 == count;
      ccOp, ccSize, ccSrc, ccDst, ccSrc2 := CcOp.Ror, size, original, r, count;
    }

    method StashMulOv(overflow: bool)
      modifies `rflags, `ccOp, `ccSize, `ccDst, `ccSrc, `ccSrc2
      ensures Shown() == old(Shown()).With(ComputeMulOv(old(Shown()), overflow).Six())
    {
      SyncFlags();
      ccOp, ccSize, ccSrc, ccDst, ccSrc2 := CcOp.MulOv, 8, if overflow then 1 else 0, 0, 0;
    }

    // ---- One flag operation, and saving and restoring ----------------------------------

    method AddWithCarry(s: OpSize, a: u64, b: u64)
      requires a < Modulus(s) && b < Modulus(s)
      modifies `rflags, `ccOp, `ccSize, `ccDst, `ccSrc, `ccSrc2
      ensures Shown() == old(Shown()).With(LazyAlu(old(Shown()), DoAdc, s, a, b).Six())
    {
      var cin := Cf();
      CarryRead(Shown(), s, a, b, cin);
      StashAdc(s, b, cin, Wrap(a + b + B2N(cin), s));
    }

    method SubWithBorrow(s: OpSize, a: u64, b: u64)
      requires a < Modulus(s) && b < Modulus(s)
      modifies `rflags, `ccOp, `ccSize, `ccDst, `ccSrc, `ccSrc2
      ensures Shown() == old(Shown()).With(LazyAlu(old(Shown()), DoSbb, s, a, b).Six())
    {
      var bin := Cf();
      CarryRead(Shown(), s, a, b, bin);
      StashSbb(s, b, bin, Wrap(a - b - B2N(bin), s));
    }

    method PerformAlu(k: AluKind, s: OpSize, a: u64, b: u64)
      requires a < Modulus(s) && b < Modulus(s)
      modifies `rflags, `ccOp, `ccSize, `ccDst, `ccSrc, `ccSrc2
      ensures Shown() == old(Shown()).With(LazyAlu(old(Shown()), k, s, a, b).Six())
    {
      match k
      case DoAdd => StashAdd(s, b, Wrap(a + b, s));
      case DoAdc => AddWithCarry(s, a, b);
      case DoSub => StashSub(s, b, Wrap(a - b, s));
      case DoSbb => SubWithBorrow(s, a, b);
      case DoInc => StashInc(s, Wrap(a + 1, s));
      case DoDec => StashDec(s, Wrap(a - 1, s));
      case DoNeg => StashNeg(s, a, Wrap(-(a as int), s));
    }

    method PerformShift(k: ShiftKind, s: OpSize, x: u64, count: u8, r: u64)
      modifies `rflags, `ccOp, `ccSize, `ccDst, `ccSrc, `ccSrc2
      ensures Shown() == LazyStep(old(Shown()), FlagOp.Shift(k, s, x, count, r))
    {
      match k
      case DoShl => StashShl(s, x, count, r);
      case DoShr => StashShr(s, x, count, r);
      case DoSar => StashSar(s, x, count, r);
      case DoRol => StashRol(s, x, count, r);
      case DoRor => StashRor(s, x, count, r);
    }

    method Put(which: FlagName, v: bool)
      modifies `rflags, `ccOp
      ensures Shown() == PutFlag(old(Shown()), which, v)
    {
      match which
      case CfBit => SetCf(v);
      case PfBit => SetPf(v);
      case AfBit => SetAf(v);
      case ZfBit => SetZf(v);
      case SfBit => SetSf(v);
      case OfBit => SetOf(v);
      case DfBit => SetDf(v);
    }

    /** Whatever was pending, the flags shown afterwards are the lazy machine's step, and the eager one's
        wherever the two agree. */
    method Perform(op: FlagOp)
      requires Fits(op)
      modifies `rflags, `ccOp, `ccSize, `ccDst, `ccSrc, `ccSrc2
      ensures Shown() == LazyStep(old(Shown()), op)
      ensures Shown() == EagerStep(old(Shown()), op) <==> Agrees(old(Shown()), op)
    {
      LazyMeetsEager(Shown(), op);
      match op
      case Alu(k, s, a, b) => PerformAlu(k, s, a, b);
      case Shift(k, s, x, count, r) => PerformShift(k, s, x, count, r);
      case Logic(s, r) => StashLogic(s, r);
      case MulOv(overflow) => StashMulOv(overflow);
      case Put(which, v) => Put(which, v);
      case PutAll(all) => SetRflags(all);
      case Observe => SyncFlags();
    }

    /** The saved copy carries the flags in synchronised form. */
    method Snapshot() returns (s: Saved)
      modifies `rflags, `ccOp
      ensures s.state == State() == old(State())
      ensures s.op == Eflags && s.raw == Shown()
    {
      SyncFlags();
      var state := Arch(gpr, rip, rflags, fsBase, gsBase, halted, branchTaken, fault);
      s := Saved(state, rflags, ccOp, ccSize, ccDst, ccSrc, ccSrc2);
    }

    /** Restoring brings back exactly the state that was saved, whatever was pending in between. */
    method Restore(s: Saved)
      requires s.op == Eflags && s.raw == s.state.flags
      modifies this
      ensures State() == s.state
    {
      gpr, rip, rflags := s.state.gpr, s.state.rip, s.raw;
      fsBase, gsBase, fault := s.state.fsBase, s.state.gsBase, s.state.fault;
      halted, branchTaken := s.state.halted, s.state.branched;
      ccOp, ccSize, ccDst, ccSrc, ccSrc2 := s.op, s.size, s.dst, s.src, s.src2;
    }
  }
}
