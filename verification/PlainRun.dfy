/** The reference machine: decode one instruction, execute it, and repeat. With it, the conditions under
    which a cached, rewritten block may stand in for fresh decoding. */
module Reference {
  import opened Words
  import opened Base
  import opened EFlags
  import opened Insns
  import opened Processor
  import opened Decoder
  import opened FlatMemory
  import opened Blocks
  import opened Semantics

  datatype RunResult = RunResult(status: Status, finalRip: u64, finalRax: u64, executed: nat)

  function Ended(m: Machine, status: Status, executed: nat): RunResult {
    RunResult(status, m.cpu.rip, m.cpu.gpr[RAX], executed)
  }

  /** The status a halted processor reports. */
  function FaultStatus(f: Fault): Status {
    if f.kind == NoFault then Ok else if f.reason != Ok then f.reason else Internal
  }

  function Cleared(m: Machine): Machine {
    m.(cpu := m.cpu.(branched := false))
  }

  /** Past a straight-line instruction; a branch has already moved the instruction pointer. */
  function Advanced(m: Machine, insn: Insn): Machine {
    if m.cpu.branched then m else m.(cpu := m.cpu.(rip := insn.NextRip()))
  }

  /** Decode one, execute one, until the budget is spent, a stop address is reached, decoding fails or the
      processor halts. */
  ghost function PlainRun(m: Machine, stops: seq<u64>, executed: nat, limit: nat): (Machine, RunResult)
    decreases limit - executed
  {
    if executed >= limit || m.cpu.halted then (m, Ended(m, Ok, executed))
    else match DecodeOne(m.mem.bytes, m.cpu.rip)
      case Failed(s) => (m, Ended(m, s, executed))
      case Ready(insn) =>
        var e := Execute(Cleared(m), insn);
        if e.m.cpu.halted then (e.m, Ended(e.m, FaultStatus(e.m.cpu.fault), executed + 1))
        else
          var next := Advanced(e.m, insn);
          if next.cpu.rip in stops then (next, Ended(next, Ok, executed + 1))
          else PlainRun(next, stops, executed + 1, limit)
  }

  // ---- Conditions on the plain run ------------------------------------------------------

  /** The bytes the straight-line code ahead of pc occupies. */
  function Ahead(m: map<u64, u8>, pc: u64): nat {
    TotalLen(Straight(m, pc, MAX_BLOCK))
  }

  /** The stretches of straight-line code met so far and not stored into since, by where they start and end; and
      the start of the one control is in, if it has not just come to its end or branched. */
  datatype Track = Track(ends: map<u64, nat>, at: Option<u64>) {
    predicate Inside() {
      at.Some? && at.value in ends
    }
  }

  /** Control at rip: it is in the stretch it was in, or begins the one met before or, if new, ending at end. */
  function EnteredAt(rip: u64, end: nat, t: Track): (here: Track)
    ensures here.at.Some? && (t.at.Some? ==> here == t)
    ensures t.at.None? && rip !in t.ends ==> here.at == Some(rip) && here.ends == t.ends[rip := end]
  {
    if t.at.Some? then t else Track(if rip in t.ends then t.ends else t.ends[rip := end], Some(rip))
  }

  function Entered(m: map<u64, u8>, rip: u64, t: Track): (here: Track)
    ensures here.at.Some? && (t.at.Some? ==> here == t)
  {
    EnteredAt(rip, rip + Ahead(m, rip), t)
  }

  /** A store stays clear of the stretch it is made from. It does not go round the address space. */
  predicate StoreClear(wrote: Option<Write>, t: Track) {
    wrote.Some? ==>
      var w := wrote.value;
      && w.addr + |w.data| < TWO64
      && (t.Inside() ==> !Meets(t.at.value, t.ends[t.at.value], w.addr, |w.data|))
  }

  /** A store into another stretch reaches the write listener. */
  predicate StoreHeard(codes: seq<Range>, wrote: Option<Write>, t: Track) {
    wrote.Some? ==> Heard(codes, t.ends, wrote.value.addr, |wrote.value.data|)
  }

  /** What a store leaves of the stretches. */
  function Written(t: Track, wrote: Option<Write>): Track {
    if wrote.None? then t else t.(ends := Untouched(t.ends, wrote.value.addr, |wrote.value.data|))
  }

  /** A branch leaves the stretch, and so does coming to its end. */
  function Moved(t: Track, after: Machine, insn: Insn): Track {
    if after.cpu.branched || (t.Inside() && Advanced(after, insn).cpu.rip == t.ends[t.at.value]) then t.(at := None)
    else t
  }

  /** A folded self-move or self-LEA would have changed nothing. */
  predicate FoldHarmless(cpu: Arch, insn: Insn) {
    && (SelfMove(insn) && insn.opSize == 4 ==> insn.dst.reg < 16 && cpu.gpr[insn.dst.reg] < TWO32)
    && (SelfLea(insn) ==> LeaKeeps(cpu, insn))
  }

  /** LEA of a register into itself: the segment base must vanish at the operand size, and a 32-bit
      destination must have a clear upper half. */
  predicate LeaKeeps(cpu: Arch, insn: Insn)
    requires SelfLea(insn)
  {
    insn.dst.reg < 16 &&
    var v, base := cpu.gpr[insn.dst.reg], SegBase(cpu, insn.src.seg);
    if insn.opSize == 8 then base == 0
    else if insn.opSize == 4 then Plus(v, base) % TWO32 == v
    else if insn.opSize == 2 then base % 0x1_0000 == 0
    else base % 0x100 == 0
  }

  /** Along the plain run a store stays clear of the stretch of straight-line code being executed, a store into
      another stretch met before is heard of, and folded instructions are ones that change nothing. */
  ghost predicate Benign(m: Machine, stops: seq<u64>, executed: nat, limit: nat, t: Track)
    decreases limit - executed, 1
  {
    executed >= limit || m.cpu.halted || BenignIn(m, stops, executed, limit, Entered(m.mem.bytes, m.cpu.rip, t))
  }

  /** The same from an instruction in the stretch here. */
  ghost predicate BenignIn(m: Machine, stops: seq<u64>, executed: nat, limit: nat, here: Track)
    requires executed < limit
    decreases limit - executed, 0
  {
    match DecodeOne(m.mem.bytes, m.cpu.rip)
    case Failed(_) => true
    case Ready(insn) =>
      var e := Execute(Cleared(m), insn);
      && here.Inside() && here.ends[here.at.value] < TWO64
      && StoreClear(e.wrote, here) && StoreHeard(m.mem.codes, e.wrote, here)
      && FoldHarmless(m.cpu, insn)
      && var next := Advanced(e.m, insn);
        e.m.cpu.halted || next.cpu.rip in stops ||
        Benign(next, stops, executed + 1, limit, Moved(Written(here, e.wrote), e.m, insn))
  }
}
