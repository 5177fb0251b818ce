/** Deferred flag computation against the eager reference. A pending record stands in for the six
    arithmetic flags; what a reader would be shown is a function of the record and the raw register. */
module LazyFlags {
  import opened Words
  import opened EFlags

  datatype CcOp =
    | Eflags | Add | Adc | Sub | Sbb | Inc | Dec | Neg | Logic | Shl | Shr | Sar | Rol | Ror | MulOv

  function Bits(op: CcOp, s: OpSize, dst: u64, src: u64, src2: u64, preserved: RFlags): RFlags {
    match op
    case Eflags => preserved
    case Logic => ComputeLogic(s, dst)
    case Add => ComputeAdd(s, src, dst)
    case Adc => ComputeAdc(s, src, dst, src2 != 0)
    case Sub => ComputeSub(s, src, dst)
    case Sbb => ComputeSbb(s, src, dst, src2 != 0)
    case Inc => ComputeInc(s, src != 0, dst)
    case Dec => ComputeDec(s, src != 0, dst)
    case Neg => ComputeNeg(s, src, dst)
    case Shl => ComputeShl(s, src, dst, src2 % 256)
    case Shr => ComputeShr(s, src, dst, src2 % 256)
    case Sar => ComputeSar(s, src, dst, src2 % 256)
    case Rol => ComputeRol(s, dst, src2 % 256, preserved)
    case Ror => ComputeRor(s, dst, src2 % 256, preserved)
    case MulOv => ComputeMulOv(preserved, src != 0)
  }

  /** The register after the pending operation, if any, has been folded in. */
  function Synced(op: CcOp, s: OpSize, dst: u64, src: u64, src2: u64, raw: RFlags): RFlags {
    if op == Eflags then raw else raw.With(Bits(op, s, dst, src, src2, raw).Six())
  }

  lemma RolBitsDependOnSix(s: OpSize, dst: u64, count: nat, f: RFlags, g: RFlags)
    requires f.Six() == g.Six()
    ensures ComputeRol(s, dst, count, f).Six() == ComputeRol(s, dst, count, g).Six()
  {
    if count == 0 {
    } else if count == 1 {
    } else {
    }
  }

  lemma RorBitsDependOnSix(s: OpSize, dst: u64, count: nat, f: RFlags, g: RFlags)
    requires f.Six() == g.Six()
    ensures ComputeRor(s, dst, count, f).Six() == ComputeRor(s, dst, count, g).Six()
  {
    if count == 0 {
    } else if count == 1 {
    } else {
    }
  }

  /** Pending work never looks at the bits outside the arithmetic six. */
  lemma BitsDependOnSix(op: CcOp, s: OpSize, dst: u64, src: u64, src2: u64, f: RFlags, g: RFlags)
    requires f.Six() == g.Six()
    ensures Bits(op, s, dst, src, src2, f).Six() == Bits(op, s, dst, src, src2, g).Six()
  {
    RolBitsDependOnSix(s, dst, src2 % 256, f, g);
    RorBitsDependOnSix(s, dst, src2 % 256, f, g);
  }

  /** Overwriting all six flags makes pending work irrelevant. */
  lemma OverwriteDropsPending(op: CcOp, s: OpSize, dst: u64, src: u64, src2: u64, raw: RFlags, x: Arith)
    ensures Synced(op, s, dst, src, src2, raw).With(x) == raw.With(x)
  {
  }

  /** INC and DEC carry the old carry flag along as a number. */
  lemma SavedCarry(s: OpSize, dst: u64, cf: bool, raw: RFlags)
    ensures var src := if cf then 1 else 0;
      && Synced(Inc, s, dst, src, 0, raw) == raw.With(ComputeInc(s, cf, dst).Six())
      && Synced(Dec, s, dst, src, 0, raw) == raw.With(ComputeDec(s, cf, dst).Six())
  {
    if cf {
    } else {
    }
  }

  // ---- Why some operations synchronise first ---------------------------------------------

  /** What is shown after an operation that keeps flags is stashed over the register f; arg is its operand. */
  function StashedOver(op: CcOp, s: OpSize, dst: u64, arg: u8, f: RFlags): RFlags {
    match op
    case Rol => Synced(op, s, dst, 0, arg, f)
    case Ror => Synced(op, s, dst, 0, arg, f)
    case MulOv => Synced(op, s, dst, arg, 0, f)
    case _ => Synced(op, s, dst, B2N(f.cf), 0, f)
  }

  predicate KeepsFlags(op: CcOp) {
    op.Inc? || op.Dec? || op.Rol? || op.Ror? || op.MulOv?
  }

  /** f and g agree on the flags the operation keeps. */
  predicate KeptAlike(op: CcOp, arg: u8, f: RFlags, g: RFlags) {
    if op.Inc? || op.Dec? then f.cf == g.cf
    else
      && f.pf == g.pf && f.af == g.af && f.zf == g.zf && f.sf == g.sf
      && (!op.MulOv? && arg != 1 ==> f.of == g.of)
  }

  lemma CountersKeep(op: CcOp, s: OpSize, dst: u64, f: RFlags, g: RFlags)
    requires (op.Inc? || op.Dec?) && f.df == g.df && f.rest == g.rest
    ensures StashedOver(op, s, dst, 0, f) == StashedOver(op, s, dst, 0, g) <==> f.cf == g.cf
  {
    if f.cf {
    } else {
    }
  }

  /** What a rotate leaves of f: it writes CF, and OF when it turns by one. */
  function Rotated(f: RFlags, once: bool, cf: bool, top: bool): RFlags {
    f.(cf := cf, of := if once then top else f.of, one := true)
  }

  lemma RotatedIff(f: RFlags, g: RFlags, once: bool, cf: bool, top: bool)
    requires f.df == g.df && f.rest == g.rest
    ensures Rotated(f, once, cf, top) == Rotated(g, once, cf, top)
       <==> f.pf == g.pf && f.af == g.af && f.zf == g.zf && f.sf == g.sf && (once || f.of == g.of)
  {
    if once {
    } else {
    }
  }

  lemma RolIs(s: OpSize, dst: u64, arg: u8, f: RFlags, cf: bool, top: bool)
    requires arg != 0 && cf == (dst % 2 == 1) && top == (SignSet(dst, s) != cf)
    ensures StashedOver(Rol, s, dst, arg, f) == Rotated(f, arg == 1, cf, top)
  {
  }

  lemma RolKeeps(s: OpSize, dst: u64, arg: u8, f: RFlags, g: RFlags)
    requires arg != 0 && f.df == g.df && f.rest == g.rest
    ensures StashedOver(Rol, s, dst, arg, f) == StashedOver(Rol, s, dst, arg, g) <==> KeptAlike(Rol, arg, f, g)
  {
    var cf := dst % 2 == 1;
    var top := SignSet(dst, s) != cf;
    RolIs(s, dst, arg, f, cf, top);
    RolIs(s, dst, arg, g, cf, top);
    RotatedIff(f, g, arg == 1, cf, top);
  }

  lemma RorIs(s: OpSize, dst: u64, arg: u8, f: RFlags, cf: bool, top: bool)
    requires arg != 0 && cf == (SignSet(dst, s)) && top == (cf != SecondSet(dst, s))
    ensures StashedOver(Ror, s, dst, arg, f) == Rotated(f, arg == 1, cf, top)
  {
  }

  lemma RorKeeps(s: OpSize, dst: u64, arg: u8, f: RFlags, g: RFlags)
    requires arg != 0 && f.df == g.df && f.rest == g.rest
    ensures StashedOver(Ror, s, dst, arg, f) == StashedOver(Ror, s, dst, arg, g) <==> KeptAlike(Ror, arg, f, g)
  {
    var cf := SignSet(dst, s);
    var top := cf != SecondSet(dst, s);
    RorIs(s, dst, arg, f, cf, top);
    RorIs(s, dst, arg, g, cf, top);
    RotatedIff(f, g, arg == 1, cf, top);
  }

  lemma MulOvIs(s: OpSize, dst: u64, arg: u8, f: RFlags)
    requires arg != 0
    ensures StashedOver(CcOp.MulOv, s, dst, arg, f) == f.(cf := true, of := true, one := true)
  {
  }

  lemma MulOvKeeps(s: OpSize, dst: u64, arg: u8, f: RFlags, g: RFlags)
    requires arg != 0 && f.df == g.df && f.rest == g.rest
    ensures StashedOver(CcOp.MulOv, s, dst, arg, f) == StashedOver(CcOp.MulOv, s, dst, arg, g)
       <==> KeptAlike(CcOp.MulOv, arg, f, g)
  {
    MulOvIs(s, dst, arg, f);
    MulOvIs(s, dst, arg, g);
  }

  /** With work pending, stashing such an operation without synchronising is harmless exactly when the raw
      register already agrees with what is shown on the flags it keeps. */
  lemma SkippedSyncIff(op: CcOp, s: OpSize, dst: u64, arg: u8, pending: CcOp, size: OpSize, last: u64, src: u64,
                       src2: u64, raw: RFlags)
    requires KeepsFlags(op) && arg != 0
    ensures var shown := Synced(pending, size, last, src, src2, raw);
      StashedOver(op, s, dst, arg, raw) == StashedOver(op, s, dst, arg, shown) <==> KeptAlike(op, arg, raw, shown)
  {
    var shown := Synced(pending, size, last, src, src2, raw);
    match op
    case Rol => RolKeeps(s, dst, arg, raw, shown);
    case Ror => RorKeeps(s, dst, arg, raw, shown);
    case MulOv => MulOvKeeps(s, dst, arg, raw, shown);
    case _ => CountersKeep(op, s, dst, raw, shown);
  }

  lemma CarriedOut(raw: RFlags)
    requires raw == FRESH
    ensures var shown := Synced(Add, 1, 0, 1, 0, raw); shown.cf && shown.zf
  {
  }

  /** It is not always: after 0xFF + 1 the register still holds the flags of before, and each of the five
      would show a flag of that time. */
  lemma SkippedSyncShows(op: CcOp, s: OpSize, dst: u64, arg: u8)
    requires KeepsFlags(op) && arg != 0
    ensures var shown := Synced(Add, 1, 0, 1, 0, FRESH);
      StashedOver(op, s, dst, arg, FRESH) != StashedOver(op, s, dst, arg, shown)
  {
    CarriedOut(FRESH);
    SkippedSyncIff(op, s, dst, arg, Add, 1, 0, 1, 0, FRESH);
  }

  // ---- The eager reference ------------------------------------------------------

  function EagerLogic(f: RFlags, s: OpSize, r: u64): RFlags {
    f.With(ApplyZsp(FRESH, s, r).Six())
  }

  function EagerAdd(f: RFlags, s: OpSize, a: u64, b: u64, r: u64): RFlags {
    var ma, mb, mr := Masked(a, s), Masked(b, s), Masked(r, s);
    f.With(AddBits(s, ma, mb, mr, mr < ma).Six())
  }

  function EagerAdc(f: RFlags, s: OpSize, a: u64, b: u64, cin: bool, r: u64): RFlags {
    var ma, mb, mr := Masked(a, s), Masked(b, s), Masked(r, s);
    f.With(AddBits(s, ma, mb, mr, if cin then mr <= ma else mr < ma).Six())
  }

  function EagerSub(f: RFlags, s: OpSize, a: u64, b: u64, r: u64): RFlags {
    var ma, mb, mr := Masked(a, s), Masked(b, s), Masked(r, s);
    f.With(SubBits(s, ma, mb, mr, ma < mb).Six())
  }

  function EagerSbb(f: RFlags, s: OpSize, a: u64, b: u64, bin: bool, r: u64): RFlags {
    var ma, mb, mr := Masked(a, s), Masked(b, s), Masked(r, s);
    f.With(SubBits(s, ma, mb, mr, if bin then ma <= mb else ma < mb).Six())
  }

  function EagerInc(f: RFlags, s: OpSize, prev: u64, r: u64): RFlags {
    f.With(IncFlags(s, Masked(prev, s), Masked(r, s), f.cf).Six())
  }

  function EagerDec(f: RFlags, s: OpSize, prev: u64, r: u64): RFlags {
    f.With(DecFlags(s, Masked(prev, s), Masked(r, s), f.cf).Six())
  }

  function EagerNeg(f: RFlags, s: OpSize, a: u64, r: u64): RFlags {
    f.With(ComputeNeg(s, a, r).Six())
  }

  function EagerShl(f: RFlags, s: OpSize, x: u64, count: u8, r: u64): (g: RFlags)
  {
    if count == 0 then f
    else
      var cf := count <= 8 * s && BitAt(x, 8 * s - count);
      ApplyZsp(f, s, r).(cf := cf, of := if count == 1 then SignSet(r, s) != cf else f.of, af := false, one := true)
  }

  function EagerShr(f: RFlags, s: OpSize, x: u64, count: u8, r: u64): (g: RFlags)
  {
    if count == 0 then f
    else
      ApplyZsp(f, s, r).(cf := count <= 8 * s && BitAt(x, count - 1),
        of := if count == 1 then SignSet(x, s) else f.of, af := false, one := true)
  }

  function EagerSar(f: RFlags, s: OpSize, x: u64, count: u8, r: u64): (g: RFlags)
  {
    if count == 0 then f
    else
      ApplyZsp(f, s, r).(cf := if count <= 8 * s then BitAt(x, count - 1) else SignSet(x, s),
        of := if count == 1 then false else f.of, af := false, one := true)
  }

  /** count & (width - 1). */
  function InWidth(count: u8, s: OpSize): nat {
    if s == 1 then count % 8 else if s == 2 then count % 16 else if s == 4 then count % 32 else count % 64
  }

  function EagerRol(f: RFlags, s: OpSize, count: u8, r: u64): (g: RFlags)
  {
    if InWidth(count, s) == 0 then f
    else
      var cf := r % 2 == 1;
      f.(cf := cf, of := if count == 1 then SignSet(r, s) != cf else f.of, one := true)
  }

  function EagerRor(f: RFlags, s: OpSize, count: u8, r: u64): (g: RFlags)
  {
    if InWidth(count, s) == 0 then f
    else
      var cf := SignSet(r, s);
      f.(cf := cf, of := if count == 1 then cf != SecondSet(r, s) else f.of, one := true)
  }

  // ---- One operation of either machine --------------------------------------------

  datatype AluKind = DoAdd | DoAdc | DoSub | DoSbb | DoInc | DoDec | DoNeg
  datatype ShiftKind = DoShl | DoShr | DoSar | DoRol | DoRor
  datatype FlagName = CfBit | PfBit | AfBit | ZfBit | SfBit | OfBit | DfBit

  /** What a handler asks of the flags. Arithmetic operands arrive masked; the shift, rotate and logical
      results are whatever the handler computed. */
  datatype FlagOp =
    | Alu(alu: AluKind, s: OpSize, a: u64, b: u64)
    | Shift(shift: ShiftKind, s: OpSize, x: u64, count: u8, r: u64)
    | Logic(s: OpSize, r: u64)
    | MulOv(overflow: bool)
    | Put(flag: FlagName, v: bool)
    | PutAll(all: RFlags)
    | Observe

  predicate Fits(op: FlagOp) {
    op.Alu? ==> op.a < Modulus(op.s) && op.b < Modulus(op.s)
  }

  function EagerAlu(f: RFlags, k: AluKind, s: OpSize, a: u64, b: u64): (g: RFlags)
    requires a < Modulus(s) && b < Modulus(s)
  {
    match k
    case DoAdd => EagerAdd(f, s, a, b, Wrap(a + b, s))
    case DoAdc => EagerAdc(f, s, a, b, f.cf, Wrap(a + b + B2N(f.cf), s))
    case DoSub => EagerSub(f, s, a, b, Wrap(a - b, s))
    case DoSbb => EagerSbb(f, s, a, b, f.cf, Wrap(a - b - B2N(f.cf), s))
    case DoInc => EagerInc(f, s, a, Wrap(a + 1, s))
    case DoDec => EagerDec(f, s, a, Wrap(a - 1, s))
    case DoNeg => EagerNeg(f, s, a, Wrap(-(a as int), s))
  }

  function EagerShift(f: RFlags, k: ShiftKind, s: OpSize, x: u64, count: u8, r: u64): (g: RFlags)
  {
    match k
    case DoShl => EagerShl(f, s, x, count, r)
    case DoShr => EagerShr(f, s, x, count, r)
    case DoSar => EagerSar(f, s, x, count, r)
    case DoRol => EagerRol(f, s, count, r)
    case DoRor => EagerRor(f, s, count, r)
  }

  function PutFlag(f: RFlags, which: FlagName, v: bool): (g: RFlags)
  {
    match which
    case CfBit => f.(cf := v)
    case PfBit => f.(pf := v)
    case AfBit => f.(af := v)
    case ZfBit => f.(zf := v)
    case SfBit => f.(sf := v)
    case OfBit => f.(of := v)
    case DfBit => f.(df := v)
  }

  /** The eager machine. It has no helper for a multiplication's overflow; both flags take it. */
  function EagerStep(f: RFlags, op: FlagOp): (g: RFlags)
    requires Fits(op)
  {
    match op
    case Alu(k, s, a, b) => EagerAlu(f, k, s, a, b)
    case Shift(k, s, x, count, r) => EagerShift(f, k, s, x, count, r)
    case Logic(s, r) => EagerLogic(f, s, r)
    case MulOv(overflow) => f.(cf := overflow, of := overflow, one := true)
    case Put(which, v) => PutFlag(f, which, v)
    case PutAll(all) => all
    case Observe => f
  }

  /** The six flags the lazy machine will compute for an arithmetic operation. */
  function LazyAlu(f: RFlags, k: AluKind, s: OpSize, a: u64, b: u64): RFlags
    requires a < Modulus(s) && b < Modulus(s)
  {
    match k
    case DoAdd => ComputeAdd(s, b, Wrap(a + b, s))
    case DoAdc => ComputeAdc(s, b, Wrap(a + b + B2N(f.cf), s), f.cf)
    case DoSub => ComputeSub(s, b, Wrap(a - b, s))
    case DoSbb => ComputeSbb(s, b, Wrap(a - b - B2N(f.cf), s), f.cf)
    case DoInc => ComputeInc(s, f.cf, Wrap(a + 1, s))
    case DoDec => ComputeDec(s, f.cf, Wrap(a - 1, s))
    case DoNeg => ComputeNeg(s, a, Wrap(-(a as int), s))
  }

  lemma CarryRead(f: RFlags, s: OpSize, a: u64, b: u64, c: bool)
    requires a < Modulus(s) && b < Modulus(s) && c == f.cf
    ensures LazyAlu(f, DoAdc, s, a, b) == ComputeAdc(s, b, Wrap(a + b + B2N(c), s), c)
    ensures LazyAlu(f, DoSbb, s, a, b) == ComputeSbb(s, b, Wrap(a - b - B2N(c), s), c)
  {
    if c {
    } else {
    }
  }

  function LazyShift(f: RFlags, k: ShiftKind, s: OpSize, x: u64, count: u8, r: u64): RFlags {
    match k
    case DoShl => ComputeShl(s, x, r, count)
    case DoShr => ComputeShr(s, x, r, count)
    case DoSar => ComputeSar(s, x, r, count)
    case DoRol => ComputeRol(s, r, count, f)
    case DoRor => ComputeRor(s, r, count, f)
  }

  /** What the lazy machine shows after the operation, given what it showed before. */
  function LazyStep(f: RFlags, op: FlagOp): RFlags
    requires Fits(op)
  {
    match op
    case Alu(k, s, a, b) => f.With(LazyAlu(f, k, s, a, b).Six())
    case Shift(k, s, x, count, r) => if count == 0 then f else f.With(LazyShift(f, k, s, x, count, r).Six())
    case Logic(s, r) => f.With(ComputeLogic(s, r).Six())
    case MulOv(overflow) => f.With(ComputeMulOv(f, overflow).Six())
    case Put(which, v) => PutFlag(f, which, v)
    case PutAll(all) => all
    case Observe => f
  }

  /** Where the two machines part: a shift by more than one clears the lazy overflow flag, and a rotate
      by a non-zero multiple of the width writes the lazy carry flag and the bit that is always one. */
  predicate Agrees(f: RFlags, op: FlagOp) {
    op.Shift? ==> ShiftAgrees(f, op.shift, op.s, op.count, op.r)
  }

  predicate ShiftAgrees(f: RFlags, k: ShiftKind, s: OpSize, count: u8, r: u64) {
    match k
    case DoRol => count == 0 || InWidth(count, s) != 0 || (f.one && f.cf == (r % 2 == 1))
    case DoRor => count == 0 || InWidth(count, s) != 0 || (f.one && f.cf == SignSet(r, s))
    case _ => count <= 1 || !f.of
  }

  /** The first operand comes back from the result, and the carry test may be made against either. */
  lemma AddRecovers(s: OpSize, a: u64, b: u64, c: bool)
    requires a < Modulus(s) && b < Modulus(s)
    ensures var r := Wrap(a + b + B2N(c), s);
      && Masked(a, s) == a && Masked(b, s) == b && Masked(r, s) == r && Wrap(r - b - B2N(c), s) == a
      && (if c then r <= b else r < b) == (if c then r <= a else r < a)
  {
    HalfOf(s);
  }

  lemma SubRecovers(s: OpSize, a: u64, b: u64, c: bool)
    requires a < Modulus(s) && b < Modulus(s)
    ensures var r := Wrap(a - b - B2N(c), s);
      && Masked(a, s) == a && Masked(b, s) == b && Masked(r, s) == r && Wrap(r + b + B2N(c), s) == a
  {
    SubBorrowOverflow(s, a, b, c, Wrap(a - b - B2N(c), s));
  }

  lemma AdditionsAgree(f: RFlags, s: OpSize, a: u64, b: u64, c: bool, r: u64)
    requires a < Modulus(s) && b < Modulus(s) && r == Wrap(a + b + B2N(c), s)
    ensures f.With(ComputeAdc(s, b, r, c).Six()) == EagerAdc(f, s, a, b, c, r)
  {
    AddRecovers(s, a, b, c);
  }

  lemma PlainAdditionsAgree(f: RFlags, s: OpSize, a: u64, b: u64, r: u64)
    requires a < Modulus(s) && b < Modulus(s) && r == Wrap(a + b, s)
    ensures f.With(ComputeAdd(s, b, r).Six()) == EagerAdd(f, s, a, b, r)
  {
    AddRecovers(s, a, b, false);
  }

  lemma SubtractionsAgree(f: RFlags, s: OpSize, a: u64, b: u64, c: bool, r: u64)
    requires a < Modulus(s) && b < Modulus(s) && r == Wrap(a - b - B2N(c), s)
    ensures f.With(ComputeSbb(s, b, r, c).Six()) == EagerSbb(f, s, a, b, c, r)
  {
    SubRecovers(s, a, b, c);
  }

  lemma PlainSubtractionsAgree(f: RFlags, s: OpSize, a: u64, b: u64, r: u64)
    requires a < Modulus(s) && b < Modulus(s) && r == Wrap(a - b, s)
    ensures f.With(ComputeSub(s, b, r).Six()) == EagerSub(f, s, a, b, r)
  {
    SubRecovers(s, a, b, false);
  }

  lemma IncrementsAgree(f: RFlags, s: OpSize, a: u64)
    requires a < Modulus(s)
    ensures f.With(ComputeInc(s, f.cf, Wrap(a + 1, s)).Six()) == EagerInc(f, s, a, Wrap(a + 1, s))
  {
    StepBack(s, a);
  }

  lemma DecrementsAgree(f: RFlags, s: OpSize, a: u64)
    requires a < Modulus(s)
    ensures f.With(ComputeDec(s, f.cf, Wrap(a - 1, s)).Six()) == EagerDec(f, s, a, Wrap(a - 1, s))
  {
    StepBack(s, a);
  }

  lemma AddAgrees(f: RFlags, s: OpSize, a: u64, b: u64)
    requires a < Modulus(s) && b < Modulus(s)
    ensures f.With(LazyAlu(f, DoAdd, s, a, b).Six()) == EagerAlu(f, DoAdd, s, a, b)
  {
    PlainAdditionsAgree(f, s, a, b, Wrap(a + b, s));
  }

  lemma AdcAgrees(f: RFlags, s: OpSize, a: u64, b: u64)
    requires a < Modulus(s) && b < Modulus(s)
    ensures f.With(LazyAlu(f, DoAdc, s, a, b).Six()) == EagerAlu(f, DoAdc, s, a, b)
  {
    AdditionsAgree(f, s, a, b, f.cf, Wrap(a + b + B2N(f.cf), s));
  }

  lemma SubAgrees(f: RFlags, s: OpSize, a: u64, b: u64)
    requires a < Modulus(s) && b < Modulus(s)
    ensures f.With(LazyAlu(f, DoSub, s, a, b).Six()) == EagerAlu(f, DoSub, s, a, b)
  {
    PlainSubtractionsAgree(f, s, a, b, Wrap(a - b, s));
  }

  lemma SbbAgrees(f: RFlags, s: OpSize, a: u64, b: u64)
    requires a < Modulus(s) && b < Modulus(s)
    ensures f.With(LazyAlu(f, DoSbb, s, a, b).Six()) == EagerAlu(f, DoSbb, s, a, b)
  {
    SubtractionsAgree(f, s, a, b, f.cf, Wrap(a - b - B2N(f.cf), s));
  }

  lemma AluAgrees(f: RFlags, k: AluKind, s: OpSize, a: u64, b: u64)
    requires a < Modulus(s) && b < Modulus(s)
    ensures f.With(LazyAlu(f, k, s, a, b).Six()) == EagerAlu(f, k, s, a, b)
  {
    match k
    case DoAdd => AddAgrees(f, s, a, b);
    case DoAdc => AdcAgrees(f, s, a, b);
    case DoSub => SubAgrees(f, s, a, b);
    case DoSbb => SbbAgrees(f, s, a, b);
    case DoInc => IncrementsAgree(f, s, a);
    case DoDec => DecrementsAgree(f, s, a);
    case DoNeg =>
  }

  lemma ShlAgrees(f: RFlags, s: OpSize, x: u64, count: u8, r: u64)
    requires count != 0
    ensures f.With(ComputeShl(s, x, r, count).Six()) == EagerShl(f, s, x, count, r) <==> count == 1 || !f.of
  {
    if count == 1 {
    } else {
      assert !ComputeShl(s, x, r, count).of;
    }
  }

  lemma ShrAgrees(f: RFlags, s: OpSize, x: u64, count: u8, r: u64)
    requires count != 0
    ensures f.With(ComputeShr(s, x, r, count).Six()) == EagerShr(f, s, x, count, r) <==> count == 1 || !f.of
  {
    if count == 1 {
    } else {
      assert !ComputeShr(s, x, r, count).of;
    }
  }

  lemma SarAgrees(f: RFlags, s: OpSize, x: u64, count: u8, r: u64)
    requires count != 0
    ensures f.With(ComputeSar(s, x, r, count).Six()) == EagerSar(f, s, x, count, r) <==> count == 1 || !f.of
  {
    if count == 1 {
    } else {
      assert !ComputeSar(s, x, r, count).of;
    }
  }

  lemma RolAgrees(f: RFlags, s: OpSize, count: u8, r: u64)
    requires count != 0
    ensures f.With(ComputeRol(s, r, count, f).Six()) == EagerRol(f, s, count, r)
       <==> InWidth(count, s) != 0 || (f.one && f.cf == (r % 2 == 1))
  {
    if count == 1 {
    } else {
    }
  }

  lemma RorAgrees(f: RFlags, s: OpSize, count: u8, r: u64)
    requires count != 0
    ensures f.With(ComputeRor(s, r, count, f).Six()) == EagerRor(f, s, count, r)
       <==> InWidth(count, s) != 0 || (f.one && f.cf == SignSet(r, s))
  {
    if count == 1 {
    } else {
    }
  }

  lemma ShiftsAgree(f: RFlags, k: ShiftKind, s: OpSize, x: u64, count: u8, r: u64)
    requires count != 0
    ensures f.With(LazyShift(f, k, s, x, count, r).Six()) == EagerShift(f, k, s, x, count, r)
       <==> ShiftAgrees(f, k, s, count, r)
  {
    match k
    case DoShl => ShlAgrees(f, s, x, count, r);
    case DoShr => ShrAgrees(f, s, x, count, r);
    case DoSar => SarAgrees(f, s, x, count, r);
    case DoRol => RolAgrees(f, s, count, r);
    case DoRor => RorAgrees(f, s, count, r);
  }

  /** One step: the lazy machine shows what the eager one holds exactly when Agrees says so. */
  lemma LazyMeetsEager(f: RFlags, op: FlagOp)
    requires Fits(op)
    ensures LazyStep(f, op) == EagerStep(f, op) <==> Agrees(f, op)
  {
    match op
    case Alu(k, s, a, b) => AluAgrees(f, k, s, a, b);
    case Shift(k, s, x, count, r) =>
      if count != 0 {
        ShiftsAgree(f, k, s, x, count, r);
      }
    case _ =>
  }

  /** Both differences are real: SHL by 2 clears a set OF that the eager machine keeps, and ROL of a byte by 8
      sets a CF that it leaves clear. */
  lemma MachinesPart(shifted: FlagOp, rotated: FlagOp, f: RFlags)
    requires shifted == Shift(DoShl, 1, 1, 2, 4) && rotated == Shift(DoRol, 1, 1, 8, 1)
    requires f == FRESH.(of := true)
    ensures !LazyStep(f, shifted).of && EagerStep(f, shifted).of
    ensures LazyStep(f, rotated).cf && !EagerStep(f, rotated).cf
  {
  }

  /** The bits that are neither flags of an operation nor the one always set. */
  predicate SameOthers(f: RFlags, g: RFlags) {
    f.df == g.df && f.rest == g.rest
  }

  lemma EagerAluOthers(f: RFlags, k: AluKind, s: OpSize, a: u64, b: u64)
    requires a < Modulus(s) && b < Modulus(s)
    ensures SameOthers(EagerAlu(f, k, s, a, b), f)
  {
    match k
    case _ =>
  }

  lemma EagerShiftOthers(f: RFlags, k: ShiftKind, s: OpSize, x: u64, count: u8, r: u64)
    ensures SameOthers(EagerShift(f, k, s, x, count, r), f)
  {
    match k
    case _ =>
  }

  lemma EagerOthers(f: RFlags, op: FlagOp)
    requires Fits(op) && !op.Put? && !op.PutAll?
    ensures SameOthers(EagerStep(f, op), f)
  {
    match op
    case Alu(k, s, a, b) => EagerAluOthers(f, k, s, a, b);
    case Shift(k, s, x, count, r) => EagerShiftOthers(f, k, s, x, count, r);
    case _ =>
  }

  lemma LazyOthers(f: RFlags, op: FlagOp)
    requires Fits(op) && !op.Put? && !op.PutAll?
    ensures SameOthers(LazyStep(f, op), f)
  {
  }

  lemma PutFlagOthers(f: RFlags, g: RFlags, which: FlagName, v: bool)
    requires SameOthers(f, g)
    ensures SameOthers(PutFlag(f, which, v), PutFlag(g, which, v))
  {
    match which
    case _ =>
  }

  lemma OthersBetween(l: RFlags, f: RFlags, g: RFlags, e: RFlags)
    requires SameOthers(l, f) && SameOthers(f, g) && SameOthers(e, g)
    ensures SameOthers(l, e)
  {
  }

  lemma OthersStep(f: RFlags, g: RFlags, op: FlagOp)
    requires Fits(op) && SameOthers(f, g)
    ensures SameOthers(LazyStep(f, op), EagerStep(g, op))
  {
    match op
    case Put(which, v) => PutFlagOthers(f, g, which, v);
    case PutAll(_) =>
    case _ =>
      LazyOthers(f, op);
      EagerOthers(g, op);
      OthersBetween(LazyStep(f, op), f, g, EagerStep(g, op));
  }

  // ---- Whole runs -------------------------------------------------------------------

  function LazyRun(f: RFlags, ops: seq<FlagOp>): RFlags
    requires forall i :: 0 <= i < |ops| ==> Fits(ops[i])
    decreases ops
  {
    if |ops| == 0 then f else LazyRun(LazyStep(f, ops[0]), ops[1..])
  }

  function EagerRun(f: RFlags, ops: seq<FlagOp>): RFlags
    requires forall i :: 0 <= i < |ops| ==> Fits(ops[i])
    decreases ops
  {
    if |ops| == 0 then f else EagerRun(EagerStep(f, ops[0]), ops[1..])
  }

  /** Every step of the eager run is one on which the machines agree. */
  predicate AgreesThroughout(f: RFlags, ops: seq<FlagOp>)
    requires forall i :: 0 <= i < |ops| ==> Fits(ops[i])
    decreases ops
  {
    |ops| == 0 || (Agrees(f, ops[0]) && AgreesThroughout(EagerStep(f, ops[0]), ops[1..]))
  }

  lemma {:induction false} LazyRunMeetsEager(f: RFlags, ops: seq<FlagOp>)
    requires (forall i :: 0 <= i < |ops| ==> Fits(ops[i])) && AgreesThroughout(f, ops)
    ensures LazyRun(f, ops) == EagerRun(f, ops)
    decreases ops
  {
    if |ops| == 0 {
    } else {
      LazyMeetsEager(f, ops[0]);
      LazyRunMeetsEager(EagerStep(f, ops[0]), ops[1..]);
    }
  }

  predicate AllFit(ops: seq<FlagOp>) {
    forall i :: 0 <= i < |ops| ==> Fits(ops[i])
  }

  /** After every prefix of the run both machines show the same flags. */
  ghost predicate SamePrefixes(f: RFlags, ops: seq<FlagOp>)
    requires AllFit(ops)
  {
    forall k: nat :: k <= |ops| ==> LazyRun(f, ops[..k]) == EagerRun(f, ops[..k])
  }

  lemma RunStep(f: RFlags, ops: seq<FlagOp>, k: nat)
    requires AllFit(ops) && 0 < k <= |ops|
    ensures AllFit(ops[1..]) && Fits(ops[0])
    ensures LazyRun(f, ops[..k]) == LazyRun(LazyStep(f, ops[0]), ops[1..][..k - 1])
    ensures EagerRun(f, ops[..k]) == EagerRun(EagerStep(f, ops[0]), ops[1..][..k - 1])
  {
    assert ops[..k][0] == ops[0] && ops[..k][1..] == ops[1..][..k - 1];
  }

  lemma PrefixesShift(f: RFlags, ops: seq<FlagOp>)
    requires AllFit(ops) && |ops| > 0 && Fits(ops[0]) && LazyStep(f, ops[0]) == EagerStep(f, ops[0])
    ensures AllFit(ops[1..]) && (SamePrefixes(f, ops) <==> SamePrefixes(EagerStep(f, ops[0]), ops[1..]))
  {
    var g, rest := EagerStep(f, ops[0]), ops[1..];
    forall k: nat | k <= |rest|
      ensures LazyRun(f, ops[..k + 1]) == LazyRun(g, rest[..k]) && EagerRun(f, ops[..k + 1]) == EagerRun(g, rest[..k])
    {
      RunStep(f, ops, k + 1);
    }
    if SamePrefixes(g, rest) {
      forall k: nat | k <= |ops|
        ensures LazyRun(f, ops[..k]) == EagerRun(f, ops[..k])
      {
        if k > 0 {
          assert LazyRun(g, rest[..k - 1]) == EagerRun(g, rest[..k - 1]);
          RunStep(f, ops, k);
        }
      }
    }
    if SamePrefixes(f, ops) {
      forall k: nat | k <= |rest|
        ensures LazyRun(g, rest[..k]) == EagerRun(g, rest[..k])
      {
        RunStep(f, ops, k + 1);
        assert LazyRun(f, ops[..k + 1]) == EagerRun(f, ops[..k + 1]);
      }
    }
  }

  /** Over any run, the two machines show the same flags all the way exactly when every step is one of those
      on which they agree. */
  lemma {:induction false} RunsAgreeIff(f: RFlags, ops: seq<FlagOp>)
    requires AllFit(ops)
    ensures SamePrefixes(f, ops) <==> AgreesThroughout(f, ops)
    decreases ops
  {
    if |ops| == 0 {
    } else {
      LazyMeetsEager(f, ops[0]);
      if Agrees(f, ops[0]) {
        PrefixesShift(f, ops);
        RunsAgreeIff(EagerStep(f, ops[0]), ops[1..]);
      } else {
        RunStep(f, ops, 1);
        assert LazyRun(f, ops[..1]) != EagerRun(f, ops[..1]);
      }
    }
  }

  /** Over any run, agreeing or not, the bits outside the six stay alike in both machines. */
  lemma {:induction false} OthersAgree(f: RFlags, g: RFlags, ops: seq<FlagOp>)
    requires AllFit(ops) && SameOthers(f, g)
    ensures SameOthers(LazyRun(f, ops), EagerRun(g, ops))
    decreases ops
  {
    if |ops| == 0 {
    } else {
      OthersStep(f, g, ops[0]);
      OthersAgree(LazyStep(f, ops[0]), EagerStep(g, ops[0]), ops[1..]);
    }
  }
}
