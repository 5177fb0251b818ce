/** The dispatcher: blocks decoded once, rewritten, replayed from the cache and dropped when written to,
    refining the plain decode-one, execute-one machine. */
module Dispatcher {
  import opened Words
  import opened Base
  import opened EFlags
  import opened Insns
  import opened Processor
  import opened Decoder
  import opened FlatMemory
  import opened Blocks
  import opened Shadow
  import opened MemoryPort
  import opened Semantics
  import opened Handlers
  import opened Reference
  import opened PeepholeMeaning

  /** One instruction of the plain run: what it leaves is either the end or the rest of the run. */
  lemma PlainStep(m: Machine, stops: seq<u64>, executed: nat, limit: nat, insn: Insn, e: Effect)
    requires executed < limit && !m.cpu.halted && DecodeOne(m.mem.bytes, m.cpu.rip) == Ready(insn)
    requires e == Execute(Cleared(m), insn)
    ensures PlainRun(m, stops, executed, limit)
      == if e.m.cpu.halted then (e.m, Ended(e.m, FaultStatus(e.m.cpu.fault), executed + 1))
         else var next := Advanced(e.m, insn);
           if next.cpu.rip in stops then (next, Ended(next, Ok, executed + 1))
           else PlainRun(next, stops, executed + 1, limit)
  {
  }

  /** What Benign says about the next instruction, and what it leaves for the rest. */
  lemma BenignStep(m: Machine, stops: seq<u64>, executed: nat, limit: nat, t: Track, insn: Insn, e: Effect)
    requires executed < limit && !m.cpu.halted && DecodeOne(m.mem.bytes, m.cpu.rip) == Ready(insn)
    requires e == Execute(Cleared(m), insn) && Benign(m, stops, executed, limit, t)
    ensures var here := Entered(m.mem.bytes, m.cpu.rip, t);
      && here.Inside() && here.ends[here.at.value] < TWO64
      && StoreClear(e.wrote, here) && StoreHeard(m.mem.codes, e.wrote, here) && FoldHarmless(m.cpu, insn)
      && var next := Advanced(e.m, insn);
      e.m.cpu.halted || next.cpu.rip in stops ||
      Benign(next, stops, executed + 1, limit, Moved(Written(here, e.wrote), e.m, insn))
  {
  }

  /** The straight-line code a block was decoded from. */
  function Raw(b: DecodedBlock, m: map<u64, u8>): seq<Insn> {
    Straight(m, b.pc, |b.insns|)
  }

  /** A store clear of the block being replayed leaves it in the cache, decoded as before. */
  lemma BlockKept(blocks: map<u64, DecodedBlock>, m: map<u64, u8>, codes: seq<Range>, pc: u64, t: Track,
                  wrote: Option<Write>)
    requires CacheOk(blocks, m) && pc in blocks && Kept(blocks, pc, m) && t == Track(Extents(blocks), Some(pc))
    requires (wrote.Some? ==> |wrote.value.data| > 0) && StoreHeard(codes, wrote, t) && StoreClear(wrote, t)
    ensures wrote.Some? ==>
      var m' := Stored(m, wrote.value.addr, wrote.value.data);
      var after := AfterWrite(blocks, codes, wrote.value.addr, |wrote.value.data|);
      && CacheOk(after, m') && pc in after && after[pc] == blocks[pc]
      && Raw(blocks[pc], m') == Raw(blocks[pc], m) && Extents(after) == Written(t, wrote).ends
  {
    if wrote.Some? {
      assert Kept(blocks, pc, m);
      var w, b := wrote.value, blocks[pc];
      WriteKeepsCache(blocks, m, codes, w.addr, w.data);
      ExtentsAfter(blocks, m, codes, w.addr, |w.data|);
      OverlapMeets(b, pc, w.addr, |w.data|);
      DisjointStore(m, w.addr, w.data, pc, b.byteSize);
      StraightStable(m, Stored(m, w.addr, w.data), pc, |b.insns|);
    }
  }

  // ---- Decoding a block ------------------------------------------------------------------------

  lemma {:induction false} WindowGrows(m: map<u64, u8>, a: u64, n: nat, w: seq<u8>)
    requires |w| < n && |w| < TWO64 && w <= Window(m, a, n)
    ensures |w| < |Window(m, a, n)| <==> Plus(a, |w|) in m
    ensures |w| < |Window(m, a, n)| ==> Window(m, a, n)[|w|] == m[Plus(a, |w|)]
    decreases n
  {
    if |w| == 0 {
    } else {
      assert Plus(Plus(a, 1), |w| - 1) == Plus(a, |w|);
      assert w[1..] <= Window(m, Plus(a, 1), n - 1);
      WindowGrows(m, Plus(a, 1), n - 1, w[1..]);
    }
  }

  datatype MaybeByte = TheByte(v: u8) | NoByte

  method FetchByte(mem: Port, a: u64) returns (b: MaybeByte)
    requires mem.Valid()
    modifies mem.l1, mem.l2, mem.l3
    ensures mem.Valid()
    ensures b == if a in mem.Bytes() then TheByte(mem.Bytes()[a]) else NoByte
  {
    var r := mem.Read(a, 1);
    assert Plus(a, 0) == a;
    b := if r.ReadOk? then TheByte(r.data[0]) else NoByte;
  }

  /** The readable bytes at a, at most n of them, one read at a time. */
  method FetchWindow(mem: Port, a: u64, n: nat) returns (w: seq<u8>)
    requires mem.Valid() && n < TWO64
    modifies mem.l1, mem.l2, mem.l3
    ensures mem.Valid()
    ensures w == Window(mem.Bytes(), a, n)
  {
    ghost var m := mem.Bytes();
    w := [];
    while |w| < n
      invariant mem.Valid() && mem.Bytes() == m && |w| <= n && w <= Window(m, a, n)
    {
      var b := FetchByte(mem, Plus(a, |w|));
      WindowGrows(m, a, n, w);
      if b.NoByte? {
        break;
      }
      w := w + [b.v];
    }
  }

  /** decode_one fetching through the memory. */
  method DecodeOneAt(mem: Port, rip: u64) returns (d: Decoded)
    requires mem.Valid()
    modifies mem.l1, mem.l2, mem.l3
    ensures mem.Valid()
    ensures d == DecodeOne(mem.Bytes(), rip)
  {
    var w := FetchWindow(mem, rip, WINDOW);
    d := DecodeWithSource(w, rip, UnmappedRead);
  }

  datatype BlockResult = Block(block: DecodedBlock) | NoBlock(status: Status)

  /** The block decoded at pc, rewritten, or the status of an instruction that does not decode there. */
  function BlockAt(m: map<u64, u8>, pc: u64): BlockResult {
    if DecodeOne(m, pc).Failed? then NoBlock(DecodeOne(m, pc).status)
    else
      var raw := Straight(m, pc, MAX_BLOCK);
      Block(DecodedBlock(pc, Len64(raw), Peephole(raw)))
  }

  function Len64(s: seq<Insn>): u64 {
    if TotalLen(s) < TWO64 then TotalLen(s) else 0
  }

  lemma {:induction false} LenBound(s: seq<Insn>)
    ensures TotalLen(s) <= 255 * |s|
  {
    if |s| == 0 {
    } else {
      LenBound(s[1..]);
    }
  }

  /** One more instruction of a run whose beginning is raw. */
  lemma FollowMore(d: u64 -> Decoded, whole: seq<Insn>, raw: seq<Insn>, cur: u64, left: nat)
    requires left > 0 && raw + Follow(d, cur, left) == whole
    ensures d(cur).Failed? ==> raw == whole
    ensures d(cur).Ready? ==> var i := d(cur).insn;
      if i.EndsBlock() then raw + [i] == whole else (raw + [i]) + Follow(d, i.NextRip(), left - 1) == whole
  {
    if d(cur).Ready? {
      var i := d(cur).insn;
      assert raw + ([i] + Follow(d, i.NextRip(), left - 1)) == (raw + [i]) + Follow(d, i.NextRip(), left - 1);
    }
  }

  /** d answers as decode_one does on m. */
  ghost predicate Decodes(d: u64 -> Decoded, m: map<u64, u8>) {
    forall rip: u64 {:trigger DecodeOne(m, rip)} :: d(rip) == DecodeOne(m, rip)
  }

  method FetchOne(mem: Port, rip: u64, ghost d: u64 -> Decoded) returns (one: Decoded)
    requires mem.Valid() && Decodes(d, mem.Bytes())
    modifies mem.l1, mem.l2, mem.l3
    ensures mem.Valid()
    ensures one == d(rip)
  {
    one := DecodeOneAt(mem, rip);
  }

  /** f gives the run from any address on. */
  ghost predicate Follows(f: (u64, nat) -> seq<Insn>, d: u64 -> Decoded) {
    forall pc: u64, n: nat {:trigger Follow(d, pc, n)} :: f(pc, n) == Follow(d, pc, n)
  }

  /** The next instruction of a run whose beginning is raw, and what it leaves. */
  method DecodeNext(mem: Port, raw: seq<Insn>, cur: u64, left: nat, ghost d: u64 -> Decoded,
                    ghost f: (u64, nat) -> seq<Insn>, ghost whole: seq<Insn>)
    returns (one: Decoded)
    requires mem.Valid() && Decodes(d, mem.Bytes()) && Follows(f, d) && left > 0 && raw + f(cur, left) == whole
    modifies mem.l1, mem.l2, mem.l3
    ensures mem.Valid() && one == d(cur)
    ensures one.Failed? ==> raw == whole
    ensures one.Ready? && one.insn.EndsBlock() ==> raw + [one.insn] == whole
    ensures one.Ready? && !one.insn.EndsBlock() ==> (raw + [one.insn]) + f(one.insn.NextRip(), left - 1) == whole
  {
    one := FetchOne(mem, cur, d);
    assert f(cur, left) == Follow(d, cur, left);
    FollowMore(d, whole, raw, cur, left);
    assert one.Ready? ==> f(one.insn.NextRip(), left - 1) == Follow(d, one.insn.NextRip(), left - 1);
  }

  /** The decoding loop: instructions up to the block's end, at most max of them, or the status of the first if
      it fails. */
  method DecodeStraight(mem: Port, pc: u64, max: nat, ghost d: u64 -> Decoded, ghost f: (u64, nat) -> seq<Insn>)
    returns (raw: seq<Insn>, status: Status)
    requires mem.Valid() && Decodes(d, mem.Bytes()) && Follows(f, d) && max > 0
    modifies mem.l1, mem.l2, mem.l3
    ensures mem.Valid()
    ensures raw == f(pc, max)
    ensures |raw| == 0 ==> d(pc) == Failed(status)
    ensures |raw| > 0 ==> d(pc).Ready?
  {
    ghost var m, whole := mem.Bytes(), f(pc, max);
    raw, status := [], Ok;
    var cur, left := pc, max;
    while left > 0
      invariant mem.Valid() && mem.Bytes() == m && 0 <= left && left + |raw| == max
      invariant raw + f(cur, left) == whole
      invariant if |raw| == 0 then cur == pc else d(pc).Ready?
    {
      var one := DecodeNext(mem, raw, cur, left, d, f, whole);
      if one.Failed? {
        status := one.status;
        return;
      }
      raw, cur, left := raw + [one.insn], one.insn.NextRip(), left - 1;
      if one.insn.EndsBlock() {
        return;
      }
    }
    assert f(cur, 0) == Follow(d, cur, 0);
  }

  method DecodeBlock(mem: Port, pc: u64) returns (r: BlockResult)
    requires mem.Valid()
    modifies mem.l1, mem.l2, mem.l3
    ensures mem.Valid()
    ensures r == BlockAt(mem.Bytes(), pc)
  {
    ghost var d := Fetch(mem.Bytes());
    ghost var f := (at: u64, n: nat) => Follow(d, at, n);
    var raw, status := DecodeStraight(mem, pc, MAX_BLOCK, d, f);
    if |raw| == 0 {
      return NoBlock(status);
    }
    var s := PeepholeBlock(raw);
    r := Block(DecodedBlock(pc, Len64(raw), s));
  }

  /** The plain run and its conditions from any state on, for fixed stop addresses and budget. */
  datatype Plan = Plan(rest: (Machine, nat) -> (Machine, RunResult), benign: (Machine, nat, Track) -> bool)

  ghost predicate Describes(plan: Plan, stops: seq<u64>, limit: nat) {
    && (forall m, n: nat {:trigger PlainRun(m, stops, n, limit)} :: plan.rest(m, n) == PlainRun(m, stops, n, limit))
    && (forall m, n: nat, t: Track {:trigger Benign(m, stops, n, limit, t)} ::
          plan.benign(m, n, t) == Benign(m, stops, n, limit, t))
  }

  /** run is the plain run still to go once m has been reached by executing insn in the stretch t is in. */
  ghost predicate Continues(plan: Plan, run: (Machine, RunResult), m: Machine, insn: Insn, stops: seq<u64>,
                            executed: nat, t: Track)
  {
    var next := Advanced(m, insn);
    if m.cpu.halted then run == (m, Ended(m, FaultStatus(m.cpu.fault), executed))
    else if next.cpu.rip in stops then run == (next, Ended(next, Ok, executed))
    else run == plan.rest(next, executed) && plan.benign(next, executed, Moved(t, m, insn))
  }

  /** raw is the straight-line code at pc, as long as it goes. */
  ghost predicate RawIs(m: map<u64, u8>, pc: u64, raw: seq<Insn>) {
    forall n: nat {:trigger Straight(m, pc, n)} :: n == |raw| ==> Straight(m, pc, n) == raw
  }

  lemma FollowInsn(b: DecodedBlock, m: map<u64, u8>, k: nat)
    requires BlockOk(b, m) && k < |b.insns|
    ensures var raw := Raw(b, m);
      DecodeOne(m, raw[k].rip) == Ready(raw[k]) && b.insns[k] == FoldAt(raw, k) && raw[k].WellFormed()
  {
    FetchSane(m);
    FollowAt(Fetch(m), b.pc, |b.insns|, k);
  }

  /** Folding moves no instruction: the next one starts where this one ends, and the last ends with the block. */
  lemma NextInsn(b: DecodedBlock, m: map<u64, u8>, k: nat, raw: seq<Insn>)
    requires BlockOk(b, m) && k < |b.insns| == |raw| && RawIs(m, b.pc, raw) && b.pc + b.byteSize < TWO64
    ensures b.insns[k].NextRip() == raw[k].NextRip()
    ensures k + 1 < |raw| ==> raw[k + 1].rip == raw[k].NextRip() < b.pc + b.byteSize
    ensures k + 1 == |raw| ==> raw[k].NextRip() == b.pc + b.byteSize
  {
    assert Raw(b, m) == raw;
    FetchSane(m);
    if k + 1 < |b.insns| {
      FollowNext(Fetch(m), b.pc, |b.insns|, k);
    } else {
      FollowLast(Fetch(m), b.pc, |b.insns|);
    }
  }

  lemma NextCached(blocks: map<u64, DecodedBlock>, m: map<u64, u8>, pc: u64, k: nat, raw: seq<Insn>)
    requires CacheOk(blocks, m) && pc in blocks && k < |blocks[pc].insns| == |raw| && RawIs(m, pc, raw)
    ensures var end := pc + blocks[pc].byteSize;
      && blocks[pc].insns[k].NextRip() == raw[k].NextRip()
      && (k + 1 < |raw| ==> raw[k + 1].rip == raw[k].NextRip() < end)
      && (k + 1 == |raw| ==> raw[k].NextRip() == end)
  {
    assert Kept(blocks, pc, m);
    NextInsn(blocks[pc], m, k, raw);
  }

  lemma FollowNext(d: u64 -> Decoded, pc: u64, n: nat, k: nat)
    requires Sane(d) && |Follow(d, pc, n)| == n && k + 1 < n && pc + TotalLen(Follow(d, pc, n)) < TWO64
    ensures var s := Follow(d, pc, n); s[k + 1].rip == s[k].NextRip() < pc + TotalLen(s)
  {
    var s := Follow(d, pc, n);
    FollowAt(d, pc, n, k + 1);
    FollowAddress(d, pc, n, k + 1);
    assert d(s[k + 1].rip) == Ready(s[k + 1]);
  }

  lemma FollowLast(d: u64 -> Decoded, pc: u64, n: nat)
    requires Sane(d) && |Follow(d, pc, n)| == n > 0 && pc + TotalLen(Follow(d, pc, n)) < TWO64
    ensures var s := Follow(d, pc, n); s[n - 1].NextRip() == pc + TotalLen(s)
  {
    FollowAddress(d, pc, n, n - 1);
    LastInsn(Follow(d, pc, n), n - 1);
  }

  lemma LastInsn(raw: seq<Insn>, k: nat)
    requires |raw| == k + 1
    ensures TotalLen(raw[k..]) == raw[k].len
  {
    assert raw[k..] == [raw[k]] && [raw[k]][1..] == [];
  }

  /** The plain machine's next step, from instruction k of a cached block. */
  lemma PlainReplay(m: Machine, b: DecodedBlock, k: nat, stops: seq<u64>, executed: nat, limit: nat, t: Track,
                    plan: Plan)
    requires BlockOk(b, m.mem.bytes) && k < |b.insns| && m.cpu.rip == Raw(b, m.mem.bytes)[k].rip && t.at.Some?
    requires !m.cpu.halted && executed < limit && Describes(plan, stops, limit) && plan.benign(m, executed, t)
    ensures var raw := Raw(b, m.mem.bytes);
      raw[k].WellFormed() &&
      var e := Execute(Cleared(m), raw[k]);
      && Continues(plan, plan.rest(m, executed), e.m, raw[k], stops, executed + 1, Written(t, e.wrote))
      && FoldHarmless(m.cpu, raw[k]) && StoreClear(e.wrote, t) && StoreHeard(m.mem.codes, e.wrote, t)
  {
    FollowInsn(b, m.mem.bytes, k);
    var insn := Raw(b, m.mem.bytes)[k];
    var e := Execute(Cleared(m), insn);
    assert Benign(m, stops, executed, limit, t);
    PlainStep(m, stops, executed, limit, insn, e);
    BenignStep(m, stops, executed, limit, t, insn, e);
  }

  lemma XorSelfLeaves(m: Machine, insn: Insn, e: Effect)
    requires insn.WellFormed() && e == Execute(m, insn)
    ensures XorSelf(insn) ==> AfterXorSelf(e.m.cpu.flags)
  {
    if XorSelf(insn) {
      XorSelfFlags(m, insn);
    }
  }

  lemma FoldedStep(m: Machine, b: DecodedBlock, k: nat, e: Effect)
    requires BlockOk(b, m.mem.bytes) && k < |b.insns| && Raw(b, m.mem.bytes)[k].WellFormed()
    requires k > 0 && XorSelf(Raw(b, m.mem.bytes)[k - 1]) ==> AfterXorSelf(m.cpu.flags)
    requires FoldHarmless(m.cpu, Raw(b, m.mem.bytes)[k]) && !m.cpu.halted
    requires e == Execute(Cleared(m), Raw(b, m.mem.bytes)[k])
    ensures b.insns[k].WellFormed() && Execute(Cleared(m), b.insns[k]) == e
  {
    FollowInsn(b, m.mem.bytes, k);
    FoldAtHarmless(Cleared(m), Raw(b, m.mem.bytes), k);
  }

  /** Replaying the rewritten instruction is that step, and leaves the block and the cache intact. */
  lemma ReplayStep(m: Machine, blocks: map<u64, DecodedBlock>, pc: u64, k: nat, stops: seq<u64>, executed: nat,
                   limit: nat, t: Track, plan: Plan)
    requires CacheOk(blocks, m.mem.bytes) && pc in blocks && Kept(blocks, pc, m.mem.bytes)
    requires k < |blocks[pc].insns| && m.cpu.rip == Raw(blocks[pc], m.mem.bytes)[k].rip
    requires k > 0 && XorSelf(Raw(blocks[pc], m.mem.bytes)[k - 1]) ==> AfterXorSelf(m.cpu.flags)
    requires !m.cpu.halted && executed < limit && Describes(plan, stops, limit) && plan.benign(m, executed, t)
    requires t == Track(Extents(blocks), Some(pc))
    ensures var raw, folded := Raw(blocks[pc], m.mem.bytes), blocks[pc].insns[k];
      folded.WellFormed() &&
      var e := Execute(Cleared(m), folded);
      var left := CacheAfter(blocks, m.mem.codes, e.wrote);
      && Continues(plan, plan.rest(m, executed), e.m, raw[k], stops, executed + 1, Track(Extents(left), Some(pc)))
      && CacheOk(left, e.m.mem.bytes) && pc in left && left[pc] == blocks[pc]
      && Raw(blocks[pc], e.m.mem.bytes) == raw
      && (XorSelf(raw[k]) ==> AfterXorSelf(e.m.cpu.flags))
  {
    var raw := Raw(blocks[pc], m.mem.bytes);
    PlainReplay(m, blocks[pc], k, stops, executed, limit, t, plan);
    var e := Execute(Cleared(m), raw[k]);
    FoldedStep(m, blocks[pc], k, e);
    StepKeepsBlock(m, blocks, pc, k, t, e);
    XorSelfLeaves(Cleared(m), raw[k], e);
  }

  /** The same with the raw code named, as the replay loop knows it. */
  lemma ReplayRaw(m: Machine, blocks: map<u64, DecodedBlock>, pc: u64, k: nat, raw: seq<Insn>, stops: seq<u64>,
                  executed: nat, limit: nat, plan: Plan, folded: Insn)
    requires CacheOk(blocks, m.mem.bytes) && pc in blocks && |blocks[pc].insns| == |raw|
    requires RawIs(m.mem.bytes, pc, raw) && k < |raw| && folded == blocks[pc].insns[k]
    requires m.cpu.rip == raw[k].rip && (k > 0 && XorSelf(raw[k - 1]) ==> AfterXorSelf(m.cpu.flags))
    requires !m.cpu.halted && executed < limit && Describes(plan, stops, limit)
    requires plan.benign(m, executed, Track(Extents(blocks), Some(pc)))
    ensures folded.WellFormed() &&
      var e := Execute(Cleared(m), folded);
      var left := CacheAfter(blocks, m.mem.codes, e.wrote);
      && Continues(plan, plan.rest(m, executed), e.m, raw[k], stops, executed + 1, Track(Extents(left), Some(pc)))
      && CacheOk(left, e.m.mem.bytes) && pc in left && left[pc] == blocks[pc]
      && RawIs(e.m.mem.bytes, pc, raw) && (XorSelf(raw[k]) ==> AfterXorSelf(e.m.cpu.flags))
  {
    assert Kept(blocks, pc, m.mem.bytes);
    assert Raw(blocks[pc], m.mem.bytes) == raw;
    ReplayStep(m, blocks, pc, k, stops, executed, limit, Track(Extents(blocks), Some(pc)), plan);
    assert Raw(blocks[pc], Execute(Cleared(m), folded).m.mem.bytes) == raw;
  }

  lemma StepKeepsBlock(m: Machine, blocks: map<u64, DecodedBlock>, pc: u64, k: nat, t: Track, e: Effect)
    requires CacheOk(blocks, m.mem.bytes) && pc in blocks && Kept(blocks, pc, m.mem.bytes)
    requires k < |blocks[pc].insns| && Raw(blocks[pc], m.mem.bytes)[k].WellFormed()
    requires e == Execute(Cleared(m), Raw(blocks[pc], m.mem.bytes)[k]) && t == Track(Extents(blocks), Some(pc))
    requires StoreClear(e.wrote, t) && StoreHeard(m.mem.codes, e.wrote, t)
    ensures var left := CacheAfter(blocks, m.mem.codes, e.wrote);
      && CacheOk(left, e.m.mem.bytes) && pc in left && left[pc] == blocks[pc]
      && Track(Extents(left), Some(pc)) == Written(t, e.wrote)
    ensures Raw(blocks[pc], e.m.mem.bytes) == Raw(blocks[pc], m.mem.bytes)
  {
    ExecuteReports(Cleared(m), Raw(blocks[pc], m.mem.bytes)[k]);
    BlockKept(blocks, m.mem.bytes, m.mem.codes, pc, t, e.wrote);
  }

  lemma {:induction false} FollowTrim(d: u64 -> Decoded, pc: u64, n: nat)
    ensures Follow(d, pc, |Follow(d, pc, n)|) == Follow(d, pc, n)
    decreases n
  {
    if n > 0 && d(pc).Ready? && !d(pc).insn.EndsBlock() {
      FollowTrim(d, d(pc).insn.NextRip(), n - 1);
    }
  }

  /** A freshly decoded block may enter the cache. */
  lemma NewBlock(m: map<u64, u8>, pc: u64)
    requires DecodeOne(m, pc).Ready? && pc + Ahead(m, pc) < TWO64
    ensures var r := BlockAt(m, pc);
      r.Block? && r.block.pc == pc && BlockOk(r.block, m) && r.block.byteSize == Ahead(m, pc)
  {
    FollowTrim(Fetch(m), pc, MAX_BLOCK);
    assert |Follow(Fetch(m), pc, MAX_BLOCK)| > 0;
  }

  // ---- The dispatcher --------------------------------------------------------------------------

  datatype Outcome = Going | Branched | Spent | Finished(result: RunResult)

  class Emulator {
    const cpu: Cpu
    const mem: Port
    var stops: seq<u64>

    /** The block cache is the memory's write listener. */
    constructor (cpu: Cpu, mem: Port)
      ensures this.cpu == cpu && this.mem == mem && stops == []
    {
      this.cpu, this.mem := cpu, mem;
      stops := [];
    }

    method AddStopAddr(addr: u64)
      modifies this
      ensures stops == old(stops) + [addr]
    {
      stops := stops + [addr];
    }

    /** Every cached block is the folded decode of memory. */
    ghost predicate Sound()
      reads mem.l1, mem.l1.next, mem.l1.next.next, mem.l1.next.next.next, mem.shadow, mem.listener
    {
      mem.Valid() && CacheOk(mem.listener.blocks, mem.Bytes())
    }

    ghost function Now(): Machine
      requires mem.shadow.Valid()
      reads this, cpu, mem.shadow
    {
      Of(cpu, mem)
    }

    /** The block at pc is cached, decoded from raw. */
    ghost predicate Holds(pc: u64, raw: seq<Insn>)
      reads mem.l1, mem.l1.next, mem.l1.next.next, mem.l1.next.next.next, mem.shadow, mem.listener
    {
      && Sound() && pc in mem.listener.blocks && 0 < |mem.listener.blocks[pc].insns| == |raw|
      && RawIs(mem.Bytes(), pc, raw)
    }

    /** Control is at instruction k of it, or past its end. */
    ghost predicate InBlock(pc: u64, k: nat, raw: seq<Insn>)
      reads this, cpu, mem.l1, mem.l1.next, mem.l1.next.next, mem.l1.next.next.next, mem.shadow, mem.listener
    {
      && Holds(pc, raw)
      && (k < |raw| ==> cpu.rip == raw[k].rip && (k > 0 && XorSelf(raw[k - 1]) ==> AfterXorSelf(cpu.Shown())))
    }

    /** The plain run still to go after executed instructions, with control in the stretch at at, if in any. */
    ghost predicate Remaining(plan: Plan, run: (Machine, RunResult), executed: nat, at: Option<u64>)
      requires mem.shadow.Valid()
      reads this, cpu, mem.shadow, mem.listener
    {
      && !cpu.halted && run == plan.rest(Now(), executed)
      && plan.benign(Now(), executed, Track(Extents(mem.listener.blocks), at))
    }

    /** Both, with executed instructions behind: control is in the block's stretch until its end. */
    ghost predicate Midway(pc: u64, k: nat, raw: seq<Insn>, plan: Plan, run: (Machine, RunResult), executed: nat)
      reads this, cpu, mem.l1, mem.l1.next, mem.l1.next.next, mem.l1.next.next.next, mem.shadow, mem.listener
    {
      InBlock(pc, k, raw) && Remaining(plan, run, executed, if k < |raw| then Some(pc) else None)
    }

    /** Replay instruction k of the cached block: it does to the machine what the plain machine's next step
        does, and the block stays in the cache. */
    method Replay(pc: u64, k: nat, ghost raw: seq<Insn>, ghost executed: nat, ghost limit: nat,
                  ghost plan: Plan, ghost run: (Machine, RunResult))
      requires InBlock(pc, k, raw) && k < |raw| && Describes(plan, stops, limit)
      requires executed < limit && Remaining(plan, run, executed, Some(pc))
      modifies cpu, mem.l1, mem.l2, mem.l3, mem.shadow`pages, mem.listener
      ensures Holds(pc, raw) && mem.listener.blocks[pc] == old(mem.listener.blocks[pc])
      ensures XorSelf(raw[k]) ==> AfterXorSelf(cpu.Shown())
      ensures Continues(plan, run, Now(), raw[k], stops, executed + 1, Track(Extents(mem.listener.blocks), Some(pc)))
    {
      ghost var m := Now();
      var folded := mem.listener.blocks[pc].insns[k];
      ReplayRaw(m, mem.listener.blocks, pc, k, raw, stops, executed, limit, plan, folded);
      cpu.branchTaken := false;
      assert Now() == Cleared(m);
      Handle(cpu, mem, folded);
    }

    /** One trip round the replay loop, after the instruction itself: halt, branch, stop address or budget. */
    method AfterInsn(folded: Insn, executed: nat, limit: nat, ghost insn: Insn, ghost pc: u64, ghost end: nat,
                     ghost plan: Plan, ghost run: (Machine, RunResult))
      returns (outcome: Outcome, ghost at: Option<u64>)
      requires mem.shadow.Valid() && folded.NextRip() == insn.NextRip()
      requires pc in mem.listener.blocks && end == pc + mem.listener.blocks[pc].byteSize
      requires Continues(plan, run, Now(), insn, stops, executed, Track(Extents(mem.listener.blocks), Some(pc)))
      modifies cpu`rip
      ensures outcome.Finished? ==> run == (Now(), outcome.result)
      ensures !outcome.Finished? ==> Remaining(plan, run, executed, at)
      ensures (outcome.Branched? ==> at == None) && (outcome.Spent? ==> executed >= limit)
      ensures outcome.Going? ==>
        executed < limit && cpu.rip == insn.NextRip() && at == if insn.NextRip() == end then None else Some(pc)
    {
      ghost var t := Track(Extents(mem.listener.blocks), Some(pc));
      assert t.ends[pc] == end;
      at := None;
      if cpu.halted {
        return Finished(RunResult(FaultStatus(cpu.fault), cpu.rip, cpu.gpr[RAX], executed)), at;
      }
      at := Moved(t, Now(), insn).at;
      if !cpu.branchTaken {
        cpu.rip := folded.NextRip();
      }
      if cpu.rip in stops {
        return Finished(RunResult(Ok, cpu.rip, cpu.gpr[RAX], executed)), at;
      }
      outcome := if cpu.branchTaken then Outcome.Branched else if executed >= limit then Spent else Going;
    }

    /** Instruction k of the block, and what the loop does next. */
    method Turn(pc: u64, k: nat, ghost raw: seq<Insn>, executed: nat, limit: nat,
                ghost plan: Plan, ghost run: (Machine, RunResult))
      returns (outcome: Outcome, ghost at: Option<u64>)
      requires k < |raw| && Midway(pc, k, raw, plan, run, executed) && Describes(plan, stops, limit) && executed < limit
      modifies cpu, mem.l1, mem.l2, mem.l3, mem.shadow`pages, mem.listener
      ensures Sound()
      ensures outcome.Finished? ==> run == (Now(), outcome.result)
      ensures !outcome.Finished? ==> Remaining(plan, run, executed + 1, at)
      ensures (outcome.Branched? ==> at == None) && (outcome.Spent? ==> executed + 1 >= limit)
      ensures outcome.Going? ==> executed + 1 < limit && Midway(pc, k + 1, raw, plan, run, executed + 1)
    {
      var folded := mem.listener.blocks[pc].insns[k];
      NextCached(mem.listener.blocks, mem.Bytes(), pc, k, raw);
      ghost var end: nat := pc + mem.listener.blocks[pc].byteSize;
      Replay(pc, k, raw, executed, limit, plan, run);
      outcome, at := AfterInsn(folded, executed + 1, limit, raw[k], pc, end, plan, run);
    }

    /** Replay the cached block at pc until it ends, branches, stops, faults or spends the budget. */
    method ReplayBlock(pc: u64, ghost raw: seq<Insn>, already: nat, limit: nat,
                       ghost plan: Plan, ghost run: (Machine, RunResult))
      returns (executed: nat, outcome: Outcome, ghost at: Option<u64>)
      requires Midway(pc, 0, raw, plan, run, already) && Describes(plan, stops, limit) && already < limit
      modifies cpu, mem.l1, mem.l2, mem.l3, mem.shadow`pages, mem.listener
      ensures Sound()
      ensures outcome.Finished? ==> run == (Now(), outcome.result)
      ensures !outcome.Finished? ==> already < executed && Remaining(plan, run, executed, at)
      ensures !outcome.Finished? && executed < limit ==> at == None
    {
      var k := 0;
      while k < |mem.listener.blocks[pc].insns|
        invariant k <= |raw| && already + k < limit
        invariant Midway(pc, k, raw, plan, run, already + k)
        decreases |raw| - k
      {
        outcome, at := Turn(pc, k, raw, already + k, limit, plan, run);
        k := k + 1;
        if !outcome.Going? {
          return already + k, outcome, at;
        }
      }
      return already + k, Going, None;
    }

    /** A miss: the block for pc is decoded into the cache, or the run ends with the status. */
    method DecodeInto(pc: u64, executed: nat, limit: nat, ghost plan: Plan, ghost run: (Machine, RunResult))
      returns (found: bool, status: Status)
      requires Sound() && Describes(plan, stops, limit) && Remaining(plan, run, executed, None)
      requires executed < limit && cpu.rip == pc && pc !in mem.listener.blocks
      modifies mem.l1, mem.l2, mem.l3, mem.listener
      ensures Sound() && Now() == old(Now())
      ensures found ==> pc in mem.listener.blocks && Remaining(plan, run, executed, Some(pc))
      ensures !found ==> run == (Now(), Ended(Now(), status, executed))
    {
      ghost var m := Now();
      var r := DecodeBlock(mem, pc);
      if r.NoBlock? {
        NothingDecoded(m, stops, executed, limit, plan);
        return false, r.status;
      }
      FreshBlock(m, stops, executed, limit, mem.listener.blocks, plan, r.block);
      mem.listener.Insert(pc, r.block);
      return true, Ok;
    }

    /** The block for pc, from the cache or freshly decoded into it; or the status that ends the run. */
    method FindBlock(pc: u64, executed: nat, limit: nat, ghost plan: Plan, ghost run: (Machine, RunResult))
      returns (found: bool, status: Status, ghost raw: seq<Insn>)
      requires Sound() && Describes(plan, stops, limit) && Remaining(plan, run, executed, None)
      requires executed < limit && cpu.rip == pc
      modifies mem.l1, mem.l2, mem.l3, mem.listener
      ensures Sound()
      ensures found ==> Midway(pc, 0, raw, plan, run, executed)
      ensures !found ==> run == (Now(), Ended(Now(), status, executed))
    {
      raw, status := [], Ok;
      found := mem.listener.Lookup(pc);
      if found {
        CachedBlock(Now(), stops, executed, limit, mem.listener.blocks, plan);
      } else {
        found, status := DecodeInto(pc, executed, limit, plan, run);
        if !found {
          return;
        }
      }
      raw := CachedRaw(Now(), mem.listener.blocks);
    }

    /** The outer loop: find the block where control stands, replay it, until something ends the run. */
    method Drive(limit: nat, ghost plan: Plan, ghost run: (Machine, RunResult)) returns (result: RunResult)
      requires Sound() && Describes(plan, stops, limit) && Remaining(plan, run, 0, None)
      modifies cpu, mem.l1, mem.l2, mem.l3, mem.shadow`pages, mem.listener
      ensures Sound() && run == (Now(), result)
    {
      ghost var at: Option<u64> := None;
      var executed: nat := 0;
      while executed < limit
        invariant Sound() && Describes(plan, stops, limit) && Remaining(plan, run, executed, at)
        invariant executed < limit ==> at == None
        decreases limit - executed
      {
        ghost var raw;
        var pc := cpu.rip;
        var found, status;
        found, status, raw := FindBlock(pc, executed, limit, plan, run);
        if !found {
          return RunResult(status, cpu.rip, cpu.gpr[RAX], executed);
        }
        var outcome;
        executed, outcome, at := ReplayBlock(pc, raw, executed, limit, plan, run);
        if outcome.Finished? {
          return outcome.result;
        }
      }
      BudgetSpent(plan, stops, limit, executed, Now());
      result := RunResult(Ok, cpu.rip, cpu.gpr[RAX], executed);
    }

    method Reset(entry: u64)
      requires mem.shadow.Valid()
      modifies cpu`halted, cpu`branchTaken, cpu`rip
      ensures Now() == Started(old(Now()), entry)
    {
      cpu.halted, cpu.branchTaken, cpu.rip := false, false, entry;
    }

    method Begin(entry: u64, limit: nat) returns (ghost plan: Plan, ghost run: (Machine, RunResult))
      requires mem.shadow.Valid() && Benign(Started(Now(), entry), stops, 0, limit, Cached())
      modifies cpu
      ensures Describes(plan, stops, limit) && Remaining(plan, run, 0, None)
      ensures run == PlainRun(Started(old(Now()), entry), stops, 0, limit)
    {
      Reset(entry);
      plan := PlanFor(stops, limit);
      run := PlainRun(Now(), stops, 0, limit);
      assert Benign(Now(), stops, 0, limit, Cached());
    }

    /** The stretches cached already, control being in none of them. */
    ghost function Cached(): Track
      reads this, mem.listener
    {
      Track(Extents(mem.listener.blocks), None)
    }

    /** Run from entry until the budget is spent, a stop address is reached, decoding fails or the processor
        halts: the registers, flags, memory, status and count are the plain machine's. The cache may hold blocks
        from earlier runs. */
    method Run(entry: u64, limit: nat) returns (result: RunResult)
      requires Sound() && Benign(Started(Now(), entry), stops, 0, limit, Cached())
      modifies cpu, mem.l1, mem.l2, mem.l3, mem.shadow`pages, mem.listener
      ensures Sound()
      ensures (Now(), result) == PlainRun(Started(old(Now()), entry), stops, 0, limit)
    {
      ghost var plan, run := Begin(entry, limit);
      result := Drive(limit, plan, run);
    }
  }

  lemma BudgetSpent(plan: Plan, stops: seq<u64>, limit: nat, executed: nat, m: Machine)
    requires Describes(plan, stops, limit) && executed >= limit
    ensures plan.rest(m, executed) == (m, Ended(m, Ok, executed))
  {
    assert PlainRun(m, stops, executed, limit) == (m, Ended(m, Ok, executed));
  }

  function Started(m: Machine, entry: u64): Machine {
    m.(cpu := m.cpu.(halted := false, branched := false, rip := entry))
  }

  lemma PlanFor(stops: seq<u64>, limit: nat) returns (plan: Plan)
    ensures Describes(plan, stops, limit)
  {
    plan := Plan((m: Machine, n: nat) => PlainRun(m, stops, n, limit),
                 (m: Machine, n: nat, t: Track) => Benign(m, stops, n, limit, t));
  }

  lemma BenignOpens(m: Machine, stops: seq<u64>, executed: nat, limit: nat, t: Track, here: Track)
    requires executed < limit && !m.cpu.halted && here == Entered(m.mem.bytes, m.cpu.rip, t)
    ensures Benign(m, stops, executed, limit, t) <==> BenignIn(m, stops, executed, limit, here)
  {
  }

  lemma EnteredTwice(m: Machine, stops: seq<u64>, executed: nat, limit: nat, t: Track, here: Track)
    requires Benign(m, stops, executed, limit, t) && here == Entered(m.mem.bytes, m.cpu.rip, t)
    ensures Benign(m, stops, executed, limit, here)
  {
    if executed < limit && !m.cpu.halted {
      BenignOpens(m, stops, executed, limit, t, here);
      BenignOpens(m, stops, executed, limit, here, here);
    }
  }

  /** The stretch control comes to counts as entered already. */
  lemma EnteredBenign(m: Machine, stops: seq<u64>, executed: nat, limit: nat, t: Track, plan: Plan)
    requires Describes(plan, stops, limit) && plan.benign(m, executed, t)
    ensures plan.benign(m, executed, Entered(m.mem.bytes, m.cpu.rip, t))
  {
    var here := Entered(m.mem.bytes, m.cpu.rip, t);
    assert plan.benign(m, executed, t) == Benign(m, stops, executed, limit, t);
    EnteredTwice(m, stops, executed, limit, t, here);
    assert plan.benign(m, executed, here) == Benign(m, stops, executed, limit, here);
  }

  lemma EntryBound(m: Machine, stops: seq<u64>, executed: nat, limit: nat, t: Track, insn: Insn)
    requires Benign(m, stops, executed, limit, t) && executed < limit && !m.cpu.halted
    requires DecodeOne(m.mem.bytes, m.cpu.rip) == Ready(insn)
    ensures var here := Entered(m.mem.bytes, m.cpu.rip, t); here.Inside() && here.ends[here.at.value] < TWO64
  {
    BenignStep(m, stops, executed, limit, t, insn, Execute(Cleared(m), insn));
  }

  /** A new stretch stays clear of the end of the address space. */
  lemma StretchBound(m: Machine, stops: seq<u64>, executed: nat, limit: nat, ends: map<u64, nat>, insn: Insn)
    requires executed < limit && !m.cpu.halted && DecodeOne(m.mem.bytes, m.cpu.rip) == Ready(insn) && m.cpu.rip !in ends
    requires Benign(m, stops, executed, limit, Track(ends, None))
    ensures m.cpu.rip + Ahead(m.mem.bytes, m.cpu.rip) < TWO64
  {
    EnteredNew(m.mem.bytes, m.cpu.rip, ends);
    EntryBound(m, stops, executed, limit, Track(ends, None), insn);
  }

  /** Where nothing decodes the plain run ends. */
  lemma NothingDecoded(m: Machine, stops: seq<u64>, executed: nat, limit: nat, plan: Plan)
    requires Describes(plan, stops, limit) && executed < limit && !m.cpu.halted
    requires BlockAt(m.mem.bytes, m.cpu.rip).NoBlock?
    ensures plan.rest(m, executed) == (m, Ended(m, BlockAt(m.mem.bytes, m.cpu.rip).status, executed))
  {
    assert plan.rest(m, executed) == PlainRun(m, stops, executed, limit);
  }

  lemma EnteredNew(m: map<u64, u8>, rip: u64, ends: map<u64, nat>)
    requires rip !in ends
    ensures Entered(m, rip, Track(ends, None)) == Track(ends[rip := rip + Ahead(m, rip)], Some(rip))
  {
  }

  lemma EnteredOld(m: map<u64, u8>, rip: u64, ends: map<u64, nat>)
    requires rip in ends
    ensures Entered(m, rip, Track(ends, None)) == Track(ends, Some(rip))
  {
  }

  /** A block decoded where the plain run is benign may be cached. */
  lemma FreshSound(m: Machine, stops: seq<u64>, executed: nat, limit: nat, blocks: map<u64, DecodedBlock>, plan: Plan,
                   b: DecodedBlock)
    requires CacheOk(blocks, m.mem.bytes) && executed < limit && !m.cpu.halted && Describes(plan, stops, limit)
    requires plan.benign(m, executed, Track(Extents(blocks), None)) && BlockAt(m.mem.bytes, m.cpu.rip) == Block(b)
    requires m.cpu.rip !in blocks
    ensures CacheOk(blocks[m.cpu.rip := b], m.mem.bytes) && b.byteSize == Ahead(m.mem.bytes, m.cpu.rip)
  {
    assert Benign(m, stops, executed, limit, Track(Extents(blocks), None));
    StretchBound(m, stops, executed, limit, Extents(blocks), DecodeOne(m.mem.bytes, m.cpu.rip).insn);
    NewBlock(m.mem.bytes, m.cpu.rip);
    BlockAdded(blocks, m.mem.bytes, m.cpu.rip, b);
  }

  /** Control is then in it. */
  lemma FreshTrack(here: Track, blocks: map<u64, DecodedBlock>, rip: u64, n: nat, b: DecodedBlock)
    requires here == Track(Extents(blocks)[rip := rip + n], Some(rip)) && n == b.byteSize
    ensures here == Track(Extents(blocks[rip := b]), Some(rip))
  {
    ExtentsAdded(blocks, rip, b);
  }

  lemma EntryEnd(m: map<u64, u8>, rip: u64, ends: map<u64, nat>)
    requires rip !in ends
    ensures var here := Entered(m, rip, Track(ends, None)); here.at == Some(rip) && rip in here.ends
    ensures Entered(m, rip, Track(ends, None)).ends[rip] == rip + Ahead(m, rip)
  {
  }

  lemma EntryRest(m: map<u64, u8>, rip: u64, ends: map<u64, nat>)
    requires rip !in ends
    ensures var here := Entered(m, rip, Track(ends, None)); rip in here.ends && here.ends == ends[rip := here.ends[rip]]
  {
  }

  /** The plain run stays benign with control in the new stretch it comes to. */
  lemma NewStretch(m: Machine, stops: seq<u64>, executed: nat, limit: nat, ends: map<u64, nat>, plan: Plan)
    returns (here: Track)
    requires Describes(plan, stops, limit) && plan.benign(m, executed, Track(ends, None)) && m.cpu.rip !in ends
    ensures plan.benign(m, executed, here) && here.at == Some(m.cpu.rip) && m.cpu.rip in here.ends
    ensures here.ends[m.cpu.rip] == m.cpu.rip + Ahead(m.mem.bytes, m.cpu.rip)
    ensures here.ends == ends[m.cpu.rip := here.ends[m.cpu.rip]]
  {
    here := Entered(m.mem.bytes, m.cpu.rip, Track(ends, None));
    EnteredBenign(m, stops, executed, limit, Track(ends, None), plan);
    EntryEnd(m.mem.bytes, m.cpu.rip, ends);
    EntryRest(m.mem.bytes, m.cpu.rip, ends);
  }

  lemma FreshAt(here: Track, rip: u64, blocks: map<u64, DecodedBlock>, b: DecodedBlock)
    requires here.at == Some(rip) && rip in here.ends && here.ends == Extents(blocks)[rip := here.ends[rip]]
    requires here.ends[rip] == rip + b.byteSize
    ensures here == Track(Extents(blocks[rip := b]), Some(rip))
  {
    FreshTrack(here, blocks, rip, b.byteSize, b);
  }

  lemma FreshNext(m: Machine, stops: seq<u64>, executed: nat, limit: nat, blocks: map<u64, DecodedBlock>, plan: Plan,
                  b: DecodedBlock)
    requires Describes(plan, stops, limit) && plan.benign(m, executed, Track(Extents(blocks), None))
    requires m.cpu.rip !in blocks && Ahead(m.mem.bytes, m.cpu.rip) == b.byteSize
    ensures plan.benign(m, executed, Track(Extents(blocks[m.cpu.rip := b]), Some(m.cpu.rip)))
  {
    var here := NewStretch(m, stops, executed, limit, Extents(blocks), plan);
    FreshAt(here, m.cpu.rip, blocks, b);
  }

  lemma FreshBlock(m: Machine, stops: seq<u64>, executed: nat, limit: nat, blocks: map<u64, DecodedBlock>, plan: Plan,
                   b: DecodedBlock)
    requires CacheOk(blocks, m.mem.bytes) && executed < limit && !m.cpu.halted && Describes(plan, stops, limit)
    requires plan.benign(m, executed, Track(Extents(blocks), None)) && BlockAt(m.mem.bytes, m.cpu.rip) == Block(b)
    requires m.cpu.rip !in blocks
    ensures CacheOk(blocks[m.cpu.rip := b], m.mem.bytes)
    ensures plan.benign(m, executed, Track(Extents(blocks[m.cpu.rip := b]), Some(m.cpu.rip)))
  {
    FreshSound(m, stops, executed, limit, blocks, plan, b);
    FreshNext(m, stops, executed, limit, blocks, plan, b);
  }

  lemma ExtentsAdded(blocks: map<u64, DecodedBlock>, pc: u64, b: DecodedBlock)
    ensures Extents(blocks[pc := b]) == Extents(blocks)[pc := pc + b.byteSize]
  {
  }

  /** Control may be in a block cached already. */
  lemma CachedBlock(m: Machine, stops: seq<u64>, executed: nat, limit: nat, blocks: map<u64, DecodedBlock>, plan: Plan)
    requires m.cpu.rip in blocks && executed < limit && !m.cpu.halted && Describes(plan, stops, limit)
    requires plan.benign(m, executed, Track(Extents(blocks), None))
    ensures plan.benign(m, executed, Track(Extents(blocks), Some(m.cpu.rip)))
  {
    EnteredBenign(m, stops, executed, limit, Track(Extents(blocks), None), plan);
    EnteredOld(m.mem.bytes, m.cpu.rip, Extents(blocks));
  }

  lemma BlockAdded(blocks: map<u64, DecodedBlock>, m: map<u64, u8>, pc: u64, b: DecodedBlock)
    requires CacheOk(blocks, m) && b.pc == pc && BlockOk(b, m) && pc + b.byteSize < TWO64
    ensures CacheOk(blocks[pc := b], m)
  {
    var blocks' := blocks[pc := b];
    forall p | p in blocks'
      ensures Kept(blocks', p, m)
    {
      if p != pc {
        assert Kept(blocks, p, m);
      }
    }
  }

  /** A cached block begins with the instruction at its address. */
  lemma CachedRaw(m: Machine, blocks: map<u64, DecodedBlock>) returns (raw: seq<Insn>)
    requires CacheOk(blocks, m.mem.bytes) && m.cpu.rip in blocks
    ensures 0 < |blocks[m.cpu.rip].insns| == |raw| && RawIs(m.mem.bytes, m.cpu.rip, raw)
    ensures raw[0].rip == m.cpu.rip
  {
    var pc := m.cpu.rip;
    assert Kept(blocks, pc, m.mem.bytes);
    raw := Raw(blocks[pc], m.mem.bytes);
    FetchSane(m.mem.bytes);
    FollowAt(Fetch(m.mem.bytes), pc, |raw|, 0);
  }
}
