/** The peephole rewrite against the meaning of the instructions it touches. */
module PeepholeMeaning {
  import opened Words
  import opened Base
  import opened EFlags
  import opened Insns
  import opened Processor
  import opened FlatMemory
  import opened Blocks
  import opened Semantics
  import opened Reference

  // ---- Self-moves ------------------------------------------------------------------------

  lemma SecondByteSelf(x: u64)
    ensures SecondByte(x, x / 256 % 256) == x
  {
    var q := x / 256;
    DivDiv(x, 256, 256);
    DivModUnique(q % 256, 256, 0, q % 256);
    assert x == 256 * (256 * (q / 256) + q % 256) + x % 256;
  }

  lemma SpliceSelf(x: u64)
    ensures LowByte(x, x % 0x100) == x && LowWord(x, x % 0x1_0000) == x
    ensures SecondByte(x, x / 256 % 256) == x
  {
    SecondByteSelf(x);
    DivModUnique(x % 0x100, 0x100, 0, x % 0x100);
    DivModUnique(x % 0x1_0000, 0x1_0000, 0, x % 0x1_0000);
  }

  /** Writing a register back to itself changes it only at 32 bits, and then only a non-zero upper half. */
  lemma RewriteSelf(g: Gprs, i: RegId, s: OpSize)
    requires i >= 16 ==> s == 1
    ensures RegWritten(g, i, s, RegValue(g, i, s)) == g <==> (s == 4 ==> g[i] < TWO32)
  {
    if i >= 16 {
      SpliceSelf(g[i - 16]);
      assert g[i - 16 := g[i - 16]] == g;
    } else {
      SpliceSelf(g[i]);
      assert g[i := g[i]] == g;
      if s == 4 && g[i] >= TWO32 {
        assert RegWritten(g, i, s, RegValue(g, i, s))[i] < TWO32;
      }
    }
  }

  lemma RewriteTwice(g: Gprs, i: RegId, s: OpSize)
    requires i >= 16 ==> s == 1
    ensures var g' := RegWritten(g, i, s, RegValue(g, i, s)); RegWritten(g', i, s, RegValue(g, i, s)) == g'
  {
    if i >= 16 {
      SpliceSelf(g[i - 16]);
    } else {
      SpliceSelf(g[i]);
    }
  }

  lemma SelfMoveEffect(m: Machine, insn: Insn)
    requires insn.WellFormed() && SelfMove(insn)
    ensures var g, s := m.cpu.gpr, insn.opSize;
      var same := RegWritten(g, insn.dst.reg, s, RegValue(g, insn.dst.reg, s));
      Execute(m, insn) == Effect(m.(cpu := m.cpu.(gpr := same)), true, None)
  {
    RewriteTwice(m.cpu.gpr, insn.dst.reg, insn.opSize);
  }

  /** MOV and XCHG of a register with itself are NOPs exactly when the fold is harmless. */
  lemma SelfMoveFold(m: Machine, insn: Insn)
    requires insn.WellFormed() && SelfMove(insn)
    ensures Execute(m, FoldSelf(insn)) == Execute(m, insn) <==> FoldHarmless(m.cpu, insn)
  {
    SelfMoveEffect(m, insn);
    RewriteSelf(m.cpu.gpr, insn.dst.reg, insn.opSize);
  }

  // ---- Self-LEA ------------------------------------------------------------------------------

  lemma LowByteFixed(x: u64, v: u64)
    ensures LowByte(x, v) == x <==> v % 0x100 == x % 0x100
  {
  }

  lemma LowWordFixed(x: u64, v: u64)
    ensures LowWord(x, v) == x <==> v % 0x1_0000 == x % 0x1_0000
  {
  }

  /** Adding a base leaves the low k bytes alone exactly when the base has none there. */
  lemma BaseVanishes(v: u64, base: u64)
    ensures Plus(v, base) % 0x100 == v % 0x100 <==> base % 0x100 == 0
    ensures Plus(v, base) % 0x1_0000 == v % 0x1_0000 <==> base % 0x1_0000 == 0
    ensures Plus(v, base) == v <==> base == 0
  {
    BaseVanishesByte(v, base);
    BaseVanishesWord(v, base);
  }

  lemma BaseVanishesByte(v: u64, base: u64)
    ensures Plus(v, base) % 0x100 == v % 0x100 <==> base % 0x100 == 0
  {
    ModOfSum(v, base, 0x100, TWO64 / 0x100);
  }

  lemma BaseVanishesWord(v: u64, base: u64)
    ensures Plus(v, base) % 0x1_0000 == v % 0x1_0000 <==> base % 0x1_0000 == 0
  {
    ModOfSum(v, base, 0x1_0000, TWO64 / 0x1_0000);
  }

  lemma ModOfSum(v: u64, base: u64, d: nat, k: nat)
    requires d > 0 && d * k == TWO64
    ensures Plus(v, base) % d == v % d <==> base % d == 0
  {
    var sum := v % d + base % d;
    var whole := v / d + base / d;
    var carry := if sum >= d then 1 else 0;
    var wrap := if v + base >= TWO64 then k else 0;
    assert Plus(v, base) == d * (whole + carry - wrap) + (sum - d * carry) by {
      assert v + base == d * whole + sum;
      assert d * (whole + carry - wrap) == d * whole + d * carry - d * wrap;
    }
    DivModUnique(Plus(v, base), d, whole + carry - wrap, sum - d * carry);
  }

  lemma SelfLeaAddress(cpu: Arch, insn: Insn)
    requires SelfLea(insn) && insn.dst.reg < 16
    ensures Ea(cpu, insn, insn.src) == Plus(cpu.gpr[insn.dst.reg], SegBase(cpu, insn.src.seg))
  {
  }

  lemma LeaWrites(g: Gprs, i: nat, s: OpSize, base: u64)
    requires i < 16
    ensures RegWritten(g, i, s, Plus(g[i], base)) == g
      <==> if s == 8 then base == 0 else if s == 4 then Plus(g[i], base) % TWO32 == g[i]
           else if s == 2 then base % 0x1_0000 == 0 else base % 0x100 == 0
  {
    var v := Plus(g[i], base);
    LowByteFixed(g[i], v);
    LowWordFixed(g[i], v);
    BaseVanishes(g[i], base);
    var g' := RegWritten(g, i, s, v);
    assert g'[i] == g[i] ==> g' == g;
  }

  /** LEA of a register's own value is a NOP exactly when the fold is harmless. */
  lemma SelfLeaFold(m: Machine, insn: Insn)
    requires insn.WellFormed() && SelfLea(insn) && insn.dst.reg < 16
    ensures Execute(m, FoldSelf(insn)) == Execute(m, insn) <==> FoldHarmless(m.cpu, insn)
  {
    SelfLeaAddress(m.cpu, insn);
    LeaWrites(m.cpu.gpr, insn.dst.reg, insn.opSize, SegBase(m.cpu, insn.src.seg));
    assert Execute(m, insn) == ExecuteLea(m, insn);
  }

  // ---- Opaque jumps ----------------------------------------------------------------------------

  lemma {:induction false} XorItself(x: nat)
    ensures Words.Xor(x, x) == 0
    decreases x
  {
    if x == 0 {
    } else {
      XorItself(x / 2);
    }
  }

  /** The flags an XOR of a register with itself leaves. */
  predicate AfterXorSelf(f: RFlags) {
    f.zf && !f.cf && !f.sf && !f.of
  }

  /** All six of them: ZF and PF set, the others clear. */
  const XOR_SELF: Arith := Arith(false, true, false, true, false, false)

  /** Of the conditions that hold after an XOR of a register with itself, the fold takes all but P, the parity
      of zero being even. */
  lemma FoldedConditions(cc: Cc)
    ensures CondHolds(cc, XOR_SELF) <==> AlwaysTaken(cc) || cc == P || cc == Always
    ensures !AlwaysTaken(P)
  {
    match cc
    case _ =>
  }

  lemma {:induction false} ZeroIsEven(n: nat)
    requires n == 0
    ensures EvenParity(n)
  {
    assert Ones(0) == 0;
  }

  /** An XOR of a register with itself cannot fault, stores nothing, and leaves exactly those flags. */
  lemma XorSelfFlags(m: Machine, insn: Insn)
    requires insn.WellFormed() && XorSelf(insn)
    ensures var e := Execute(m, insn);
      e.ok && e.wrote.None? && e.m.cpu.flags.Six() == XOR_SELF && AfterXorSelf(e.m.cpu.flags)
      && e.m.cpu.halted == m.cpu.halted && e.m.cpu.branched == m.cpu.branched
  {
    var s: OpSize := insn.opSize;
    var v := RegValue(m.cpu.gpr, insn.dst.reg, s);
    XorItself(v);
    ZeroIsEven(0);
    assert OperandPair(m, insn, s) == Pair(v, v);
    assert AluResult(Xor, s, v, v, m.cpu.flags.cf) == 0;
    assert Execute(m, insn) == AluStore(m, insn, s, v, v, m.cpu.flags.cf);
  }

  /** A folded conditional jump goes where the original would have gone. */
  lemma JccFold(m: Machine, a: Insn, b: Insn)
    requires b.WellFormed() && !m.cpu.halted && (XorSelf(a) ==> AfterXorSelf(m.cpu.flags))
    ensures FoldJcc(a, b).WellFormed() && Execute(m, FoldJcc(a, b)) == Execute(m, b)
  {
    if XorSelf(a) && b.kind == Jcc && AlwaysTaken(b.cond) {
      assert CondHolds(b.cond, m.cpu.flags.Six());
      assert Execute(m, b) == ExecuteJcc(m, b);
      assert Execute(m, FoldJcc(a, b)) == ExecuteJmp(m, FoldJcc(a, b));
    }
  }

  /** Any instruction of a rewritten block does what the original does. */
  lemma FoldAtHarmless(m: Machine, raw: seq<Insn>, k: nat)
    requires k < |raw| && raw[k].WellFormed() && !m.cpu.halted && FoldHarmless(m.cpu, raw[k])
    requires k > 0 && XorSelf(raw[k - 1]) ==> AfterXorSelf(m.cpu.flags)
    ensures FoldAt(raw, k).WellFormed() && Execute(m, FoldAt(raw, k)) == Execute(m, raw[k])
  {
    var i := raw[k];
    if SelfMove(i) {
      SelfMoveFold(m, i);
    } else if SelfLea(i) {
      SelfLeaFold(m, i);
    }
    if k > 0 {
      JccFold(m, raw[k - 1], FoldSelf(i));
    }
  }

  // ---- Whole blocks ------------------------------------------------------------------------------

  /** Run a block from instruction k on: each is executed with the branch flag cleared, and a branch or a
      fault ends the block. */
  ghost function Replay(m: Machine, insns: seq<Insn>, k: nat): Machine
    requires forall i :: 0 <= i < |insns| ==> insns[i].WellFormed()
    decreases |insns| - k
  {
    if k >= |insns| then m
    else
      var e := Execute(Cleared(m), insns[k]);
      if e.m.cpu.halted || e.m.cpu.branched then e.m else Replay(Advanced(e.m, insns[k]), insns, k + 1)
  }

  /** Every fold met along the way is harmless. */
  ghost predicate HarmlessAlong(m: Machine, raw: seq<Insn>, k: nat)
    requires forall i :: 0 <= i < |raw| ==> raw[i].WellFormed()
    decreases |raw| - k
  {
    k >= |raw| || (
      FoldHarmless(m.cpu, raw[k]) &&
      var e := Execute(Cleared(m), raw[k]);
      e.m.cpu.halted || e.m.cpu.branched || HarmlessAlong(Advanced(e.m, raw[k]), raw, k + 1))
  }

  /** The rewritten block reaches the same state as the original. */
  lemma {:induction false} PeepholePreserves(m: Machine, raw: seq<Insn>, k: nat)
    requires forall i :: 0 <= i < |raw| ==> raw[i].WellFormed()
    requires !m.cpu.halted && HarmlessAlong(m, raw, k)
    requires 0 < k < |raw| && XorSelf(raw[k - 1]) ==> AfterXorSelf(m.cpu.flags)
    ensures forall i :: 0 <= i < |raw| ==> Peephole(raw)[i].WellFormed()
    ensures Replay(m, Peephole(raw), k) == Replay(m, raw, k)
    decreases |raw| - k
  {
    forall i | 0 <= i < |raw|
      ensures Peephole(raw)[i].WellFormed()
    {
      assert Peephole(raw)[i] == FoldAt(raw, i);
    }
    if k < |raw| {
      FoldAtHarmless(Cleared(m), raw, k);
      var e := Execute(Cleared(m), raw[k]);
      if !e.m.cpu.halted && !e.m.cpu.branched {
        if XorSelf(raw[k]) {
          XorSelfFlags(Cleared(m), raw[k]);
        }
        assert Advanced(e.m, Peephole(raw)[k]) == Advanced(e.m, raw[k]);
        PeepholePreserves(Advanced(e.m, raw[k]), raw, k + 1);
      }
    }
  }

  /** The 32-bit self-move is the fold's counterexample: MOV EAX, EAX clears the upper half of RAX. */
  lemma SelfMoveCounterexample(m: Machine, insn: Insn)
    requires insn.WellFormed() && insn.kind == Mov && insn.opSize == 4
    requires insn.dst == Reg(RAX) && insn.src == Reg(RAX) && m.cpu.gpr[RAX] == TWO32
    ensures Execute(m, insn).m.cpu.gpr[RAX] == 0 && Execute(m, FoldSelf(insn)).m.cpu.gpr[RAX] == TWO32
  {
    SelfMoveEffect(m, insn);
  }

  /** So is LEA of a register's own value: LEA RAX, [FS:RAX] adds the segment base, and LEA EAX, [RAX] clears
      the upper half. */
  lemma SelfLeaCounterexample(m: Machine, insn: Insn)
    requires insn.WellFormed() && SelfLea(insn) && insn.dst == Reg(RAX) && m.cpu.gpr[RAX] == TWO32
    requires (insn.opSize == 8 && insn.src.seg == FS && m.cpu.fsBase == 1) || (insn.opSize == 4 && insn.src.seg == DS)
    ensures Execute(m, insn).m.cpu.gpr[RAX] == if insn.opSize == 8 then TWO32 + 1 else 0
    ensures Execute(m, FoldSelf(insn)).m.cpu.gpr[RAX] == TWO32
  {
    SelfLeaAddress(m.cpu, insn);
    assert Execute(m, insn) == ExecuteLea(m, insn);
  }
}
