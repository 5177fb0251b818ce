/** Rotates through the carry flag: RCL and RCR turn one ring made of the carry and the operand. */
module CarryRing {
  import opened Words
  import opened Base
  import opened EFlags
  import opened LazyFlags
  import opened Processor

  /** The low n bits of x, highest first. */
  function BitsOf(x: nat, n: nat): (b: seq<bool>)
    ensures |b| == n
  {
    if n == 0 then [] else BitsOf(x / 2, n - 1) + [x % 2 == 1]
  }

  /** The carry followed by the operand. */
  function Ring(v: nat, cf: bool, n: nat): (r: seq<bool>)
    ensures |r| == n + 1
  {
    [cf] + BitsOf(v, n)
  }

  /** The ring turned left by j places. */
  function Turn(r: seq<bool>, j: nat): (t: seq<bool>)
    requires j <= |r|
    ensures |t| == |r|
  {
    r[j..] + r[..j]
  }

  function Left(r: seq<bool>, count: nat): seq<bool>
    requires |r| > 0
  {
    Turn(r, count % |r|)
  }

  function Right(r: seq<bool>, count: nat): seq<bool>
    requires |r| > 0
  {
    Turn(r, |r| - count % |r|)
  }

  /** Turning back restores the ring. */
  lemma RightUndoesLeft(r: seq<bool>, count: nat)
    requires |r| > 0
    ensures |Left(r, count)| == |r| && Right(Left(r, count), count) == r && Left(Right(r, count), count) == r
  {
    var j := count % |r|;
    assert Turn(Turn(r, j), |r| - j) == r;
    assert Turn(Turn(r, |r| - j), j) == r;
  }

  lemma TurnAt(r: seq<bool>, j: nat, i: nat)
    requires j <= |r| && i < |r|
    ensures Turn(r, j)[i] == r[if i + j < |r| then i + j else i + j - |r|]
  {
  }

  /** Turns add up. */
  lemma TurnTwice(r: seq<bool>, j: nat, k: nat)
    requires j < |r| && k < |r|
    ensures Turn(Turn(r, j), k) == Turn(r, if j + k < |r| then j + k else j + k - |r|)
  {
    var both := if j + k < |r| then j + k else j + k - |r|;
    forall i | 0 <= i < |r|
      ensures Turn(Turn(r, j), k)[i] == Turn(r, both)[i]
    {
      TurnAt(Turn(r, j), k, i);
      TurnAt(r, both, i);
      TurnAt(r, j, if i + k < |r| then i + k else i + k - |r|);
    }
  }

  /** Two rotates are one by the sum of their counts. */
  lemma LeftTwice(r: seq<bool>, a: nat, b: nat)
    requires |r| > 0
    ensures Left(Left(r, a), b) == Left(r, a + b)
  {
    var j, k := a % |r|, b % |r|;
    TurnTwice(r, j, k);
    SumMod(a, b, |r|);
  }

  lemma SumMod(a: nat, b: nat, n: nat)
    requires n > 0
    ensures (a + b) % n == if a % n + b % n < n then a % n + b % n else a % n + b % n - n
  {
    SumModAt(a, b, n, a / n, b / n, if a % n + b % n < n then 0 else 1);
  }

  lemma SumModAt(a: nat, b: nat, n: nat, p: nat, q: nat, c: nat)
    requires n > 0 && p == a / n && q == b / n && c == (if a % n + b % n < n then 0 else 1)
    ensures (a + b) % n == a % n + b % n - if c == 0 then 0 else n
  {
    assert (p + q + c) * n == p * n + q * n + if c == 0 then 0 else n;
    DivModUnique(a + b, n, p + q + c, a % n + b % n - if c == 0 then 0 else n);
  }

  // ---- Numbers and their bits ------------------------------------------------------------

  /** The top bit taken off. */
  lemma {:induction false} BitsSplit(x: nat, n: nat)
    requires x < Pow2(n + 1)
    ensures var top := x >= Pow2(n);
      BitsOf(x, n + 1) == [top] + BitsOf(if top then x - Pow2(n) else x, n)
  {
    if n > 0 {
      var half := Pow2(n - 1);
      var top := x >= Pow2(n);
      assert (x / 2 >= half) == top;
      var low := if top then x - Pow2(n) else x;
      BitsSplit(x / 2, n - 1);
      assert low / 2 == (if top then x / 2 - half else x / 2) && low % 2 == x % 2;
      assert BitsOf(x, n + 1) == [top] + (BitsOf(low / 2, n - 1) + [x % 2 == 1]);
    } else {
      assert Pow2(0) == 1;
      assert BitsOf(x, 1) == BitsOf(x / 2, 0) + [x % 2 == 1];
    }
  }

  /** The bits determine the number. */
  lemma {:induction false} BitsInjective(x: nat, y: nat, n: nat)
    requires x < Pow2(n) && y < Pow2(n) && BitsOf(x, n) == BitsOf(y, n)
    ensures x == y
  {
    if n == 0 {
    } else {
      var p, q := BitsOf(x, n), BitsOf(y, n);
      assert p[..n - 1] == BitsOf(x / 2, n - 1) && q[..n - 1] == BitsOf(y / 2, n - 1);
      assert p[n - 1] == (x % 2 == 1) && q[n - 1] == (y % 2 == 1);
      BitsInjective(x / 2, y / 2, n - 1);
    }
  }

  lemma RingInjective(v: nat, cf: bool, w: nat, cg: bool, n: nat)
    requires v < Pow2(n) && w < Pow2(n) && Ring(v, cf, n) == Ring(w, cg, n)
    ensures v == w && cf == cg
  {
    assert Ring(v, cf, n)[0] == cf && Ring(w, cg, n)[0] == cg;
    assert Ring(v, cf, n)[1..] == BitsOf(v, n) && Ring(w, cg, n)[1..] == BitsOf(w, n);
    BitsInjective(v, w, n);
  }

  function Width(s: OpSize): nat {
    8 * s
  }

  lemma WidthIsPower(s: OpSize)
    ensures Pow2(Width(s)) == Modulus(s) && Pow2(Width(s) - 1) == Half(s)
  {
    Pow2Values();
    SignMaskIsPower(s);
  }

  /** One step left: the operand doubled with the carry shifted in. */
  function StepLeft(v: nat, cf: bool, half: nat): (r: (nat, bool))
    requires v < 2 * half
  {
    (2 * (if v >= half then v - half else v) + B2N(cf), v >= half)
  }

  lemma StepLeftTurns(v: nat, cf: bool, n: nat)
    requires v < Pow2(n + 1)
    ensures var (w, c) := StepLeft(v, cf, Pow2(n));
      w < Pow2(n + 1) && Ring(w, c, n + 1) == Turn(Ring(v, cf, n + 1), 1)
  {
    var (w, c) := StepLeft(v, cf, Pow2(n));
    BitsSplit(v, n);
    assert w / 2 == (if v >= Pow2(n) then v - Pow2(n) else v) && w % 2 == B2N(cf);
    assert BitsOf(w, n + 1) == BitsOf(w / 2, n) + [cf];
    assert Ring(w, c, n + 1) == BitsOf(v, n + 1) + [cf];
  }

  /** One step right: the operand halved with the carry put on top. */
  function StepRight(v: nat, cf: bool, half: nat): (r: (nat, bool)) {
    (v / 2 + (if cf then half else 0), v % 2 == 1)
  }

  lemma StepRightTurns(v: nat, cf: bool, n: nat)
    requires v < Pow2(n + 1)
    ensures var (w, c) := StepRight(v, cf, Pow2(n));
      w < Pow2(n + 1) && Ring(w, c, n + 1) == Turn(Ring(v, cf, n + 1), n + 1)
  {
    var (w, c) := StepRight(v, cf, Pow2(n));
    BitsSplit(w, n);
    assert BitsOf(w, n + 1) == [cf] + BitsOf(v / 2, n);
    var r := Ring(v, cf, n + 1);
    assert BitsOf(v, n + 1) == BitsOf(v / 2, n) + [c];
    assert r == [cf] + (BitsOf(v / 2, n) + [c]);
    assert r[n + 1..] == [c] && r[..n + 1] == [cf] + BitsOf(v / 2, n);
  }

  lemma TurnNone(r: seq<bool>)
    ensures Turn(r, 0) == r && Turn(r, |r|) == r
  {
  }

  lemma TurnOnce(r: seq<bool>, j: nat)
    requires j < |r|
    ensures Turn(Turn(r, j), 1) == Turn(r, j + 1)
    ensures Turn(Turn(r, j + 1), |r| - 1) == Turn(r, j)
  {
  }

  /** What the loop of RCL does to the operand in one round, on 64-bit arithmetic. */
  lemma ShiftInIsStep(v: nat, cf: bool, s: OpSize)
    requires v < Modulus(s)
    ensures StepLeft(v, cf, Half(s)) == (Wrap(2 * v + B2N(cf), s), SignSet(v, s))
  {
    SignSetMeaning(v, s);
    HalfOf(s);
    var m := Modulus(s);
    if v >= Half(s) {
      DivModUnique(2 * v + B2N(cf), m, 1, 2 * v + B2N(cf) - m);
    } else {
      DivModUnique(2 * v + B2N(cf), m, 0, 2 * v + B2N(cf));
    }
  }

  lemma RclRound(v: nat, cf: bool, s: OpSize)
    requires v < Modulus(s)
    ensures Ring(Wrap(2 * v + B2N(cf), s), SignSet(v, s), Width(s)) == Turn(Ring(v, cf, Width(s)), 1)
  {
    WidthIsPower(s);
    ShiftInIsStep(v, cf, s);
    StepLeftTurns(v, cf, Width(s) - 1);
  }

  lemma RcrRound(v: nat, cf: bool, s: OpSize)
    requires v < Modulus(s)
    ensures v / 2 + (if cf then Half(s) else 0) < Modulus(s)
    ensures Ring(v / 2 + (if cf then Half(s) else 0), v % 2 == 1, Width(s)) == Turn(Ring(v, cf, Width(s)), Width(s))
  {
    WidthIsPower(s);
    StepRightTurns(v, cf, Width(s) - 1);
  }

  // ---- The handlers, on a register -------------------------------------------------------

  /** The ring a register and the carry flag make. */
  function RegRing(g: Gprs, f: RFlags, d: RegId, s: OpSize): seq<bool> {
    Ring(RegValue(g, d, s), f.cf, Width(s))
  }

  method RclRoundOnce(a: u64, carry: bool, s: OpSize) returns (v: u64, cf: bool)
    requires a < Modulus(s)
    ensures v < Modulus(s) && Ring(v, cf, Width(s)) == Turn(Ring(a, carry, Width(s)), 1)
  {
    RclRound(a, carry, s);
    v, cf := Wrap(2 * a + B2N(carry), s), SignSet(a, s);
  }

  method RcrRoundOnce(a: u64, carry: bool, s: OpSize) returns (v: u64, cf: bool)
    requires a < Modulus(s)
    ensures v < Modulus(s) && Ring(v, cf, Width(s)) == Turn(Ring(a, carry, Width(s)), Width(s))
  {
    RcrRound(a, carry, s);
    v, cf := a / 2 + (if carry then SignMask(s) else 0), a % 2 == 1;
  }

  /** count rounds of RCL turn the ring left by count places. */
  method RclRounds(a: u64, carry: bool, s: OpSize, count: nat) returns (v: u64, cf: bool)
    requires a < Modulus(s) && count <= Width(s)
    ensures v < Modulus(s) && Ring(v, cf, Width(s)) == Turn(Ring(a, carry, Width(s)), count)
  {
    v, cf := a, carry;
    ghost var r := Ring(a, carry, Width(s));
    assert Turn(r, 0) == r;
    for i := 0 to count
      invariant v < Modulus(s) && Ring(v, cf, Width(s)) == Turn(r, i)
    {
      TurnOnce(r, i);
      v, cf := RclRoundOnce(v, cf, s);
    }
  }

  /** count rounds of RCR turn it right. */
  method RcrRounds(a: u64, carry: bool, s: OpSize, count: nat) returns (v: u64, cf: bool)
    requires a < Modulus(s) && count <= Width(s)
    ensures v < Modulus(s) && Ring(v, cf, Width(s)) == Turn(Ring(a, carry, Width(s)), Width(s) + 1 - count)
  {
    v, cf := a, carry;
    ghost var r := Ring(a, carry, Width(s));
    assert Turn(r, |r|) == r;
    for i := 0 to count
      invariant v < Modulus(s) && Ring(v, cf, Width(s)) == Turn(r, |r| - i)
    {
      TurnOnce(r, |r| - i - 1);
      v, cf := RcrRoundOnce(v, cf, s);
    }
  }

  /** The count reduced to the ring's length. */
  function Places(c: u8, s: OpSize): (n: nat)
    ensures n <= Width(s) && (c == 1 ==> n == 1)
  {
    c % (Width(s) + 1)
  }

  lemma TurnsByPlaces(r: seq<bool>, c: u8, s: OpSize)
    requires |r| == Width(s) + 1
    ensures Left(r, c) == Turn(r, Places(c, s)) && Right(r, c) == Turn(r, Width(s) + 1 - Places(c, s))
    ensures Places(c, s) == 0 ==> Left(r, c) == r && Right(r, c) == r
  {
    TurnNone(r);
  }

  /** Turn the ring of a register left by mod places; only the carry flag changes. */
  method TurnRegLeft(cpu: Cpu, d: RegId, s: OpSize, mod: nat)
    requires cpu.ccOp == Eflags && (d >= 16 ==> s == 1) && mod <= Width(s)
    modifies cpu`gpr, cpu`rflags, cpu`ccOp
    ensures cpu.ccOp == Eflags
    ensures RegRing(cpu.gpr, cpu.rflags, d, s) == Turn(old(RegRing(cpu.gpr, cpu.rflags, d, s)), mod)
    ensures cpu.gpr == RegWritten(old(cpu.gpr), d, s, RegValue(cpu.gpr, d, s))
    ensures cpu.rflags == old(cpu.rflags).(cf := cpu.rflags.cf)
  {
    var a := cpu.ReadReg(d, s);
    var cf := cpu.Cf();
    var val, after := RclRounds(a, cf, s, mod);
    ReadBack(cpu.gpr, d, s, val);
    cpu.WriteReg(d, s, val);
    cpu.SetCf(after);
  }

  /** Turn it right. */
  method TurnRegRight(cpu: Cpu, d: RegId, s: OpSize, mod: nat)
    requires cpu.ccOp == Eflags && (d >= 16 ==> s == 1) && mod <= Width(s)
    modifies cpu`gpr, cpu`rflags, cpu`ccOp
    ensures cpu.ccOp == Eflags
    ensures RegRing(cpu.gpr, cpu.rflags, d, s) == Turn(old(RegRing(cpu.gpr, cpu.rflags, d, s)), Width(s) + 1 - mod)
    ensures cpu.gpr == RegWritten(old(cpu.gpr), d, s, RegValue(cpu.gpr, d, s))
    ensures cpu.rflags == old(cpu.rflags).(cf := cpu.rflags.cf)
  {
    var a := cpu.ReadReg(d, s);
    var cf := cpu.Cf();
    var val, after := RcrRounds(a, cf, s, mod);
    ReadBack(cpu.gpr, d, s, val);
    cpu.WriteReg(d, s, val);
    cpu.SetCf(after);
  }

  /** What RCL does once the flags are up to date. */
  method RclSynced(cpu: Cpu, d: RegId, s: OpSize, c: u8, mod: nat)
    requires cpu.ccOp == Eflags && (d >= 16 ==> s == 1) && mod <= Width(s)
    modifies cpu`gpr, cpu`rflags, cpu`ccOp
    ensures cpu.ccOp == Eflags
    ensures RegRing(cpu.gpr, cpu.rflags, d, s) == Turn(old(RegRing(cpu.gpr, cpu.rflags, d, s)), mod)
    ensures cpu.gpr == RegWritten(old(cpu.gpr), d, s, RegValue(cpu.gpr, d, s))
    ensures cpu.rflags == old(cpu.rflags).(cf := cpu.rflags.cf, of := cpu.rflags.of)
    ensures cpu.rflags.of == if c == 1 then SignSet(RegValue(cpu.gpr, d, s), s) != cpu.rflags.cf else old(cpu.rflags).of
  {
    TurnRegLeft(cpu, d, s, mod);
    if c == 1 {
      var val := cpu.ReadReg(d, s);
      cpu.SetOf(SignSet(val, s) != cpu.rflags.cf);
    }
  }

  /** What RCR does once the flags are up to date. */
  method RcrSynced(cpu: Cpu, d: RegId, s: OpSize, c: u8, mod: nat, top: bool)
    requires cpu.ccOp == Eflags && (d >= 16 ==> s == 1) && mod <= Width(s)
    modifies cpu`gpr, cpu`rflags, cpu`ccOp
    ensures cpu.ccOp == Eflags
    ensures RegRing(cpu.gpr, cpu.rflags, d, s) == Turn(old(RegRing(cpu.gpr, cpu.rflags, d, s)), Width(s) + 1 - mod)
    ensures cpu.gpr == RegWritten(old(cpu.gpr), d, s, RegValue(cpu.gpr, d, s))
    ensures cpu.rflags == old(cpu.rflags).(cf := cpu.rflags.cf, of := cpu.rflags.of)
    ensures cpu.rflags.of == if c == 1 then top != old(cpu.rflags).cf else old(cpu.rflags).of
  {
    if c == 1 {
      cpu.SetOf(top != cpu.rflags.cf);
    }
    TurnRegRight(cpu, d, s, mod);
  }

  /** RCL by a number of places, whatever flags are pending. */
  method RclPlaces(cpu: Cpu, d: RegId, s: OpSize, c: u8, mod: nat)
    requires (d >= 16 ==> s == 1) && mod <= Width(s)
    modifies cpu`gpr, cpu`rflags, cpu`ccOp
    ensures RegRing(cpu.gpr, cpu.Shown(), d, s) == Turn(old(RegRing(cpu.gpr, cpu.Shown(), d, s)), mod)
    ensures cpu.gpr == RegWritten(old(cpu.gpr), d, s, RegValue(cpu.gpr, d, s))
    ensures cpu.Shown() == old(cpu.Shown()).(cf := cpu.Shown().cf, of := cpu.Shown().of)
    ensures cpu.Shown().of
      == if c == 1 then SignSet(RegValue(cpu.gpr, d, s), s) != cpu.Shown().cf else old(cpu.Shown()).of
  {
    cpu.SyncFlags();
    RclSynced(cpu, d, s, c, mod);
    assert cpu.Shown() == cpu.rflags;
  }

  /** RCL d by c, c already masked: the ring of the register and the carry turns left, OF is written for a
      count of one, and nothing else moves. */
  method OpRcl(cpu: Cpu, d: RegId, s: OpSize, c: u8)
    requires d >= 16 ==> s == 1
    modifies cpu`gpr, cpu`rflags, cpu`ccOp
    ensures RegRing(cpu.gpr, cpu.Shown(), d, s) == Left(old(RegRing(cpu.gpr, cpu.Shown(), d, s)), c)
    ensures cpu.gpr
      == if Places(c, s) == 0 then old(cpu.gpr) else RegWritten(old(cpu.gpr), d, s, RegValue(cpu.gpr, d, s))
    ensures cpu.Shown() == old(cpu.Shown()).(cf := cpu.Shown().cf, of := cpu.Shown().of)
    ensures cpu.Shown().of
      == if c == 1 then SignSet(RegValue(cpu.gpr, d, s), s) != cpu.Shown().cf else old(cpu.Shown()).of
  {
    var mod := Places(c, s);
    TurnsByPlaces(RegRing(cpu.gpr, cpu.Shown(), d, s), c, s);
    if mod != 0 {
      RclPlaces(cpu, d, s, c, mod);
    }
  }

  /** RCR by a number of places, whatever flags are pending. */
  method RcrPlaces(cpu: Cpu, d: RegId, s: OpSize, c: u8, mod: nat)
    requires (d >= 16 ==> s == 1) && mod <= Width(s)
    modifies cpu`gpr, cpu`rflags, cpu`ccOp
    ensures RegRing(cpu.gpr, cpu.Shown(), d, s)
      == Turn(old(RegRing(cpu.gpr, cpu.Shown(), d, s)), Width(s) + 1 - mod)
    ensures cpu.gpr == RegWritten(old(cpu.gpr), d, s, RegValue(cpu.gpr, d, s))
    ensures cpu.Shown() == old(cpu.Shown()).(cf := cpu.Shown().cf, of := cpu.Shown().of)
    ensures cpu.Shown().of
      == if c == 1 then SignSet(old(RegValue(cpu.gpr, d, s)), s) != old(cpu.Shown()).cf else old(cpu.Shown()).of
  {
    var a := cpu.ReadReg(d, s);
    cpu.SyncFlags();
    RcrSynced(cpu, d, s, c, mod, SignSet(a, s));
    assert cpu.Shown() == cpu.rflags;
  }

  /** RCR d by c: the ring turns right; for a count of one OF compares the old sign with the old carry. */
  method OpRcr(cpu: Cpu, d: RegId, s: OpSize, c: u8)
    requires d >= 16 ==> s == 1
    modifies cpu`gpr, cpu`rflags, cpu`ccOp
    ensures RegRing(cpu.gpr, cpu.Shown(), d, s) == Right(old(RegRing(cpu.gpr, cpu.Shown(), d, s)), c)
    ensures cpu.gpr
      == if Places(c, s) == 0 then old(cpu.gpr) else RegWritten(old(cpu.gpr), d, s, RegValue(cpu.gpr, d, s))
    ensures cpu.Shown() == old(cpu.Shown()).(cf := cpu.Shown().cf, of := cpu.Shown().of)
    ensures cpu.Shown().of
      == if c == 1 then SignSet(old(RegValue(cpu.gpr, d, s)), s) != old(cpu.Shown()).cf else old(cpu.Shown()).of
  {
    var mod := Places(c, s);
    TurnsByPlaces(RegRing(cpu.gpr, cpu.Shown(), d, s), c, s);
    if mod != 0 {
      RcrPlaces(cpu, d, s, c, mod);
    }
  }

  /** RCL then RCR by the same count restores operand and carry, whatever the size and the count. */
  lemma RclRcrRestores(a: nat, cf: bool, b: nat, cg: bool, v: nat, ch: bool, s: OpSize, c: u8)
    requires a < Modulus(s) && v < Modulus(s)
    requires Ring(b, cg, Width(s)) == Left(Ring(a, cf, Width(s)), c)
    requires Ring(v, ch, Width(s)) == Right(Ring(b, cg, Width(s)), c)
    ensures v == a && ch == cf
  {
    WidthIsPower(s);
    RightUndoesLeft(Ring(a, cf, Width(s)), c);
    RingInjective(v, ch, a, cf, Width(s));
  }

  /** Doing both to a register. */
  method RclThenRcr(cpu: Cpu, d: RegId, s: OpSize, c: u8)
    requires d >= 16 ==> s == 1
    modifies cpu`gpr, cpu`rflags, cpu`ccOp
    ensures RegValue(cpu.gpr, d, s) == old(RegValue(cpu.gpr, d, s)) && cpu.Shown().cf == old(cpu.Shown().cf)
  {
    ghost var a, f := RegValue(cpu.gpr, d, s), cpu.Shown();
    OpRcl(cpu, d, s, c);
    ghost var b, g := RegValue(cpu.gpr, d, s), cpu.Shown();
    OpRcr(cpu, d, s, c);
    RclRcrRestores(a, f.cf, b, g.cf, RegValue(cpu.gpr, d, s), cpu.Shown().cf, s, c);
  }
}
