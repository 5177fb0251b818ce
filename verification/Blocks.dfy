/** Decoded blocks: straight-line decoding, the peephole rewrite, and the cache that keeps blocks by
    their start address and drops those a write overlaps. */
module Blocks {
  import opened Words
  import opened Base
  import opened EFlags
  import opened Insns
  import opened Decoder
  import opened PrefixFree
  import opened FlatMemory

  // ---- Decoding from memory ----------------------------------------------------------

  /** decode_one counts the bytes it has read in one byte. */
  const WINDOW: nat := 255

  /** The readable bytes from a on, at most n. */
  function Window(m: map<u64, u8>, a: u64, n: nat): (w: seq<u8>)
    ensures |w| <= n
    decreases n
  {
    if n == 0 || a !in m then [] else [m[a]] + Window(m, Plus(a, 1), n - 1)
  }

  function DecodeOne(m: map<u64, u8>, rip: u64): (d: Decoded)
    ensures d.Ready? ==> 0 < d.insn.len && d.insn.rip == rip && d.insn.WellFormed()
  {
    DecodeWithSource(Window(m, rip, WINDOW), rip, UnmappedRead)
  }

  /** m' holds the n bytes at a exactly as m does. */
  predicate SameBytes(m: map<u64, u8>, m': map<u64, u8>, a: u64, n: nat) {
    forall i: u64 :: i < n ==> Plus(a, i) in m ==> Plus(a, i) in m' && m'[Plus(a, i)] == m[Plus(a, i)]
  }

  /** Keeping the n bytes at a keeps the first n bytes of the window. */
  lemma {:induction false} WindowShares(m: map<u64, u8>, m': map<u64, u8>, a: u64, n: nat, size: nat)
    requires n <= size < TWO64 && SameBytes(m, m', a, n) && n <= |Window(m, a, size)|
    ensures n <= |Window(m', a, size)| && Shares(Window(m, a, size), Window(m', a, size), n)
    decreases size
  {
    if n == 0 {
    } else {
      assert Plus(a, 0) == a;
      forall i: u64 | i < n - 1 ensures Plus(Plus(a, 1), i) == Plus(a, i + 1) {
      }
      WindowShares(m, m', Plus(a, 1), n - 1, size - 1);
    }
  }

  /** A decoded instruction depends on its own bytes only. */
  lemma DecodeOneStable(m: map<u64, u8>, m': map<u64, u8>, rip: u64)
    requires DecodeOne(m, rip).Ready? && SameBytes(m, m', rip, DecodeOne(m, rip).insn.len)
    ensures DecodeOne(m', rip) == DecodeOne(m, rip)
  {
    WindowShares(m, m', rip, DecodeOne(m, rip).insn.len, WINDOW);
    DecodedByOwnBytes(Window(m, rip, WINDOW), Window(m', rip, WINDOW), rip, UnmappedRead, UnmappedRead);
  }

  /** What decode_one answers at each address. */
  function Fetch(m: map<u64, u8>): u64 -> Decoded {
    (rip: u64) => DecodeOne(m, rip)
  }

  /** Decoded instructions are non-empty, carry the address they were decoded at, and are well formed. */
  ghost predicate Sane(d: u64 -> Decoded) {
    forall rip: u64 :: d(rip).Ready? ==>
      0 < d(rip).insn.len && d(rip).insn.rip == rip && d(rip).insn.WellFormed()
  }

  lemma FetchSane(m: map<u64, u8>)
    ensures Sane(Fetch(m))
  {
  }

  /** Up to n instructions from pc under the decoder d, ending after control flow or before the first that
      does not decode. */
  function Follow(d: u64 -> Decoded, pc: u64, n: nat): (s: seq<Insn>)
    ensures |s| <= n
    decreases n, pc
  {
    if n == 0 || d(pc).Failed? then []
    else
      var i := d(pc).insn;
      [i] + if i.EndsBlock() then [] else Follow(d, i.NextRip(), n - 1)
  }

  function Straight(m: map<u64, u8>, pc: u64, n: nat): (s: seq<Insn>)
    ensures |s| <= n
  {
    Follow(Fetch(m), pc, n)
  }

  function TotalLen(s: seq<Insn>): nat {
    if |s| == 0 then 0 else s[0].len + TotalLen(s[1..])
  }

  // ---- Peephole ------------------------------------------------------------------------

  predicate SelfMove(i: Insn) {
    (i.kind == Mov || i.kind == Xchg) && i.dst.Reg? && i.src.Reg? && i.dst.reg == i.src.reg
  }

  predicate SelfLea(i: Insn) {
    i.kind == Lea && i.dst.Reg? && i.src.Mem? && i.src.base == i.dst.reg && i.src.index == NONE && i.src.disp == 0
  }

  function FoldSelf(i: Insn): Insn {
    if SelfMove(i) || SelfLea(i) then i.(kind := Nop) else i
  }

  predicate XorSelf(i: Insn) {
    i.kind == Xor && i.dst.Reg? && i.src.Reg? && i.dst.reg == i.src.reg
  }

  /** Conditions that hold once a register has been XORed with itself. */
  predicate AlwaysTaken(cc: Cc) {
    cc == Z || cc == BE || cc == LE || cc == NB || cc == NS || cc == NO || cc == NL
  }

  function FoldJcc(a: Insn, b: Insn): Insn {
    if XorSelf(a) && b.kind == Jcc && AlwaysTaken(b.cond) then b.(kind := Jmp, cond := Always) else b
  }

  function FoldAt(raw: seq<Insn>, k: nat): Insn
    requires k < |raw|
  {
    if k == 0 then FoldSelf(raw[0]) else FoldJcc(raw[k - 1], FoldSelf(raw[k]))
  }

  function Peephole(raw: seq<Insn>): (s: seq<Insn>)
    ensures |s| == |raw| && forall k :: 0 <= k < |raw| ==> s[k] == FoldAt(raw, k)
  {
    seq(|raw|, k requires 0 <= k < |raw| => FoldAt(raw, k))
  }

  method NopPass(raw: seq<Insn>) returns (s: seq<Insn>)
    ensures |s| == |raw| && forall j :: 0 <= j < |raw| ==> s[j] == FoldSelf(raw[j])
  {
    s := raw;
    for k := 0 to |raw|
      invariant |s| == |raw|
      invariant forall j :: 0 <= j < k ==> s[j] == FoldSelf(raw[j])
      invariant forall j :: k <= j < |raw| ==> s[j] == raw[j]
    {
      if SelfMove(s[k]) || SelfLea(s[k]) {
        s := s[k := s[k].(kind := Nop)];
      }
    }
  }

  /** Looking at the already folded predecessor gives the same answer as looking at the original. */
  lemma FoldsStep(raw: seq<Insn>, k: nat)
    requires k + 1 < |raw|
    ensures FoldAt(raw, k + 1) == FoldJcc(FoldAt(raw, k), FoldSelf(raw[k + 1]))
  {
    assert XorSelf(FoldAt(raw, k)) == XorSelf(raw[k]);
  }

  method FoldPair(a: Insn, b: Insn) returns (b': Insn)
    ensures b' == FoldJcc(a, b)
  {
    b' := b;
    if XorSelf(a) && b.kind == Jcc && AlwaysTaken(b.cond) {
      b' := b.(kind := Jmp, cond := Always);
    }
  }

  method JccPass(raw: seq<Insn>, nops: seq<Insn>) returns (s: seq<Insn>)
    requires |nops| == |raw| && forall j :: 0 <= j < |raw| ==> nops[j] == FoldSelf(raw[j])
    ensures s == Peephole(raw)
  {
    s := nops;
    var k := 0;
    while k + 1 < |s|
      invariant |s| == |raw| && (|s| > 0 ==> k < |s|)
      invariant forall j :: 0 <= j <= k && j < |s| ==> s[j] == FoldAt(raw, j)
      invariant forall j :: k < j < |s| ==> s[j] == nops[j]
    {
      FoldsStep(raw, k);
      var b := FoldPair(s[k], s[k + 1]);
      s := s[k + 1 := b];
      k := k + 1;
    }
  }

  /** Self-moves first, then the opaque jumps, each pass rewriting the block in place. */
  method PeepholeBlock(raw: seq<Insn>) returns (s: seq<Insn>)
    ensures s == Peephole(raw)
  {
    var nops := NopPass(raw);
    s := JccPass(raw, nops);
  }

  // ---- Blocks and their cache --------------------------------------------------------------

  const MAX_BLOCK: nat := 1024

  datatype DecodedBlock = DecodedBlock(pc: u64, byteSize: u64, insns: seq<Insn>)

  /** Every instruction is the folded decode of m at its own address. The block may be shorter than a fresh
      decode, which could now run on past the point where decoding once failed. */
  predicate BlockOk(b: DecodedBlock, m: map<u64, u8>) {
    var raw := Straight(m, b.pc, |b.insns|);
    && 0 < |b.insns| == |raw| <= MAX_BLOCK
    && b.insns == Peephole(raw)
    && b.byteSize == TotalLen(raw)
  }

  predicate InCode(codes: seq<Range>, x: u64) {
    exists i :: 0 <= i < |codes| && codes[i].base <= x < codes[i].base + codes[i].size < TWO64
  }

  /** The stretch from pc to end and the n bytes at a have a byte in common. */
  predicate Meets(pc: nat, end: nat, a: nat, n: nat) {
    pc < a + n && end > a
  }

  /** Where the stretches end that the cached blocks were decoded from. */
  function Extents(blocks: map<u64, DecodedBlock>): map<u64, nat> {
    map pc | pc in blocks :: pc + blocks[pc].byteSize
  }

  /** A store of n bytes at a into one of these stretches reaches the write listener. */
  predicate Heard(codes: seq<Range>, ends: map<u64, nat>, a: u64, n: u64) {
    Notifies(codes, a, n) || forall pc :: pc in ends ==> !Meets(pc, ends[pc], a, n)
  }

  /** The stretches the store leaves alone. */
  function Untouched(ends: map<u64, nat>, a: u64, n: u64): map<u64, nat> {
    map pc | pc in ends && !Meets(pc, ends[pc], a, n) :: ends[pc]
  }

  /** The block cached at pc is sound, and stays clear of the end of the address space. */
  predicate Kept(blocks: map<u64, DecodedBlock>, pc: u64, m: map<u64, u8>)
    requires pc in blocks
  {
    blocks[pc].pc == pc && BlockOk(blocks[pc], m) && pc + blocks[pc].byteSize < TWO64
  }

  predicate CacheOk(blocks: map<u64, DecodedBlock>, m: map<u64, u8>) {
    forall pc {:trigger Kept(blocks, pc, m)} :: pc in blocks ==> Kept(blocks, pc, m)
  }

  /** The test invalidate_range makes, in 64-bit arithmetic. */
  predicate Overlaps(b: DecodedBlock, pc: u64, addr: u64, size: u64) {
    pc < Plus(addr, size) && Plus(pc, b.byteSize) > addr
  }

  function Surviving(blocks: map<u64, DecodedBlock>, addr: u64, size: u64): map<u64, DecodedBlock> {
    map pc | pc in blocks && (size == 0 || !Overlaps(blocks[pc], pc, addr, size)) :: blocks[pc]
  }

  class BlockCache {
    var blocks: map<u64, DecodedBlock>

    constructor ()
      ensures blocks == map[]
    {
      blocks := map[];
    }

    method Lookup(pc: u64) returns (hit: bool)
      ensures hit == (pc in blocks)
    {
      hit := pc in blocks;
    }

    method Insert(pc: u64, b: DecodedBlock)
      modifies this
      ensures blocks == old(blocks)[pc := b]
    {
      blocks := blocks[pc := b];
    }

    /** Erases while iterating; the order does not matter. */
    method InvalidateRange(addr: u64, size: u64)
      modifies this
      ensures blocks == Surviving(old(blocks), addr, size)
    {
      if size == 0 {
        return;
      }
      var todo := blocks.Keys;
      while todo != {}
        invariant todo <= blocks.Keys <= old(blocks).Keys
        invariant forall pc :: pc in blocks ==> blocks[pc] == old(blocks)[pc]
        invariant forall pc :: pc in old(blocks) && pc !in todo ==>
          (pc in blocks <==> !Overlaps(old(blocks)[pc], pc, addr, size))
        decreases todo
      {
        var pc :| pc in todo;
        todo := todo - {pc};
        if Overlaps(blocks[pc], pc, addr, size) {
          blocks := blocks - {pc};
        }
      }
    }
  }

  // ---- Writes and the cache ------------------------------------------------------------------

  /** From instruction k on, a full run is what decoding from there gives. */
  lemma {:induction false} FollowFrom(d: u64 -> Decoded, pc: u64, n: nat, k: nat)
    requires Sane(d) && |Follow(d, pc, n)| == n && k < n
    ensures var s := Follow(d, pc, n); d(s[k].rip) == Ready(s[k]) && s[k..] == Follow(d, s[k].rip, n - k)
    decreases n
  {
    var s, i := Follow(d, pc, n), d(pc).insn;
    if k == 0 {
      assert s[0] == i && s[0..] == s;
    } else {
      var rest := Follow(d, i.NextRip(), n - 1);
      assert s[1..] == rest;
      FollowFrom(d, i.NextRip(), n - 1, k - 1);
      assert s[k] == rest[k - 1] && s[k..] == rest[k - 1..];
    }
  }

  lemma FollowTwo(d: u64 -> Decoded, pc: u64, n: nat)
    requires Sane(d) && |Follow(d, pc, n)| == n > 1
    ensures var s := Follow(d, pc, n); s[1].rip == s[0].NextRip() && !s[0].EndsBlock()
  {
    var i := d(pc).insn;
    assert Follow(d, pc, n)[1..] == Follow(d, i.NextRip(), n - 1);
    assert Follow(d, i.NextRip(), n - 1)[0].rip == i.NextRip();
  }

  /** Instruction k of a full run is what the decoder answers at its address, and begins where its
      predecessor ends. */
  lemma FollowAt(d: u64 -> Decoded, pc: u64, n: nat, k: nat)
    requires Sane(d) && |Follow(d, pc, n)| == n && k < n
    ensures var s := Follow(d, pc, n);
      && d(s[k].rip) == Ready(s[k])
      && s[k..] == Follow(d, s[k].rip, n - k)
      && (k > 0 ==> s[k].rip == s[k - 1].NextRip() && !s[k - 1].EndsBlock())
      && s[0].rip == pc
  {
    var s := Follow(d, pc, n);
    FollowFrom(d, pc, n, k);
    if k == 0 {
    } else {
      FollowFrom(d, pc, n, k - 1);
      FollowTwo(d, s[k - 1].rip, n - (k - 1));
      assert s[k - 1..][1] == s[k];
    }
  }

  lemma {:induction false} TotalLenSplit(s: seq<Insn>, k: nat)
    requires k <= |s|
    ensures TotalLen(s) == TotalLen(s[..k]) + TotalLen(s[k..])
  {
    if k > 0 {
      TotalLenSplit(s[1..], k - 1);
      assert s[..k][1..] == s[1..][..k - 1];
      assert s[k..] == s[1..][k - 1..];
    } else {
      assert s[k..] == s;
    }
  }

  /** Where instruction k of a run starts, short of the end of the address space. */
  lemma {:induction false} FollowAddress(d: u64 -> Decoded, pc: u64, n: nat, k: nat)
    requires Sane(d) && |Follow(d, pc, n)| == n && k < n && pc + TotalLen(Follow(d, pc, n)) < TWO64
    ensures var s := Follow(d, pc, n);
      s[k].rip == pc + TotalLen(s[..k]) && s[k].rip + TotalLen(s[k..]) == pc + TotalLen(s)
      && s[k].rip + s[k].len <= pc + TotalLen(s)
    decreases k
  {
    var s := Follow(d, pc, n);
    FollowAt(d, pc, n, k);
    TotalLenSplit(s, k);
    if k == 0 {
    } else {
      FollowAddress(d, pc, n, k - 1);
      TotalLenSplit(s[..k], k - 1);
      assert s[..k][..k - 1] == s[..k - 1] && s[..k][k - 1..] == [s[k - 1]];
    }
  }

  /** A decoder that answers alike along a run follows the same run. */
  lemma {:induction false} FollowStable(d: u64 -> Decoded, d': u64 -> Decoded, pc: u64, n: nat)
    requires Sane(d) && |Follow(d, pc, n)| == n
    requires forall k :: 0 <= k < n ==> d'(Follow(d, pc, n)[k].rip) == d(Follow(d, pc, n)[k].rip)
    ensures Follow(d', pc, n) == Follow(d, pc, n)
    decreases n
  {
    if n == 0 {
    } else {
      var s, i := Follow(d, pc, n), d(pc).insn;
      assert s[0] == i;
      if n > 1 {
        var rest := Follow(d, i.NextRip(), n - 1);
        assert s[1..] == rest;
        forall k | 0 <= k < n - 1
          ensures d'(rest[k].rip) == d(rest[k].rip)
        {
          assert rest[k] == s[k + 1];
        }
        FollowStable(d, d', i.NextRip(), n - 1);
      }
    }
  }

  lemma SameBytesWithin(m: map<u64, u8>, m': map<u64, u8>, pc: u64, size: nat, a: u64, n: nat)
    requires SameBytes(m, m', pc, size) && pc <= a && a + n <= pc + size < TWO64
    ensures SameBytes(m, m', a, n)
  {
    forall i: u64 | i < n
      ensures Plus(a, i) == Plus(pc, a - pc + i)
    {
    }
  }

  /** A whole run of straight-line code stays decoded as it is while its bytes stay. */
  lemma StraightStable(m: map<u64, u8>, m': map<u64, u8>, pc: u64, n: nat)
    requires |Straight(m, pc, n)| == n && pc + TotalLen(Straight(m, pc, n)) < TWO64
    requires SameBytes(m, m', pc, TotalLen(Straight(m, pc, n)))
    ensures Straight(m', pc, n) == Straight(m, pc, n)
  {
    var s := Straight(m, pc, n);
    FetchSane(m);
    forall k | 0 <= k < n
      ensures Fetch(m')(s[k].rip) == Fetch(m)(s[k].rip)
    {
      FollowAt(Fetch(m), pc, n, k);
      FollowAddress(Fetch(m), pc, n, k);
      SameBytesWithin(m, m', pc, TotalLen(s), s[k].rip, s[k].len);
      DecodeOneStable(m, m', s[k].rip);
    }
    FollowStable(Fetch(m), Fetch(m'), pc, n);
  }

  /** A store clear of [pc, pc + size) keeps those bytes. */
  lemma DisjointStore(m: map<u64, u8>, a: u64, data: seq<u8>, pc: u64, size: nat)
    requires a + |data| < TWO64 && pc + size < TWO64
    requires a + |data| <= pc || pc + size <= a
    ensures SameBytes(m, Stored(m, a, data), pc, size)
  {
  }

  /** What the write listener leaves of the cache. */
  function AfterWrite(blocks: map<u64, DecodedBlock>, codes: seq<Range>, a: u64, n: u64): map<u64, DecodedBlock> {
    if Notifies(codes, a, n) then Surviving(blocks, a, n) else blocks
  }

  lemma WriteToCodeNotifies(codes: seq<Range>, a: u64, n: u64, x: u64)
    requires a <= x < a + n < TWO64 && InCode(codes, x)
    ensures Notifies(codes, a, n)
  {
    var i :| 0 <= i < |codes| && codes[i].base <= x < codes[i].base + codes[i].size < TWO64;
    assert a < codes[i].End() && Plus(a, n) > codes[i].base;
  }

  /** Where all code is registered every store into it is heard. */
  lemma RegisteredHeard(codes: seq<Range>, ends: map<u64, nat>, a: u64, n: u64)
    requires 0 < n && a + n < TWO64
    requires forall pc, x: u64 :: pc in ends && pc <= x < ends[pc] ==> InCode(codes, x)
    requires forall pc :: pc in ends ==> pc < ends[pc]
    ensures Heard(codes, ends, a, n)
  {
    forall pc | pc in ends && Meets(pc, ends[pc], a, n)
      ensures Notifies(codes, a, n)
    {
      WriteToCodeNotifies(codes, a, n, if a > pc then a else pc);
    }
  }

  /** Away from the end of the address space the listener's test is whether block and store meet. */
  lemma OverlapMeets(b: DecodedBlock, pc: u64, a: u64, n: u64)
    requires a + n < TWO64 && pc + b.byteSize < TWO64
    ensures Overlaps(b, pc, a, n) <==> Meets(pc, pc + b.byteSize, a, n)
  {
  }

  /** A block that outlives a write shares no byte with it. */
  lemma SurvivorsDisjoint(blocks: map<u64, DecodedBlock>, codes: seq<Range>, a: u64, n: u64, pc: u64)
    requires 0 < n && a + n < TWO64 && Heard(codes, Extents(blocks), a, n)
    requires pc in AfterWrite(blocks, codes, a, n) && pc + blocks[pc].byteSize < TWO64
    ensures pc in blocks && (a + n <= pc || pc + blocks[pc].byteSize <= a)
  {
    OverlapMeets(blocks[pc], pc, a, n);
    assert Extents(blocks)[pc] == pc + blocks[pc].byteSize;
  }

  /** What is left are the blocks whose stretch the write leaves alone. */
  lemma ExtentsAfter(blocks: map<u64, DecodedBlock>, m: map<u64, u8>, codes: seq<Range>, a: u64, n: u64)
    requires CacheOk(blocks, m) && 0 < n && a + n < TWO64 && Heard(codes, Extents(blocks), a, n)
    ensures Extents(AfterWrite(blocks, codes, a, n)) == Untouched(Extents(blocks), a, n)
  {
    forall pc | pc in blocks
      ensures pc in AfterWrite(blocks, codes, a, n) <==> !Meets(pc, pc + blocks[pc].byteSize, a, n)
    {
      assert Kept(blocks, pc, m);
      OverlapMeets(blocks[pc], pc, a, n);
      assert Extents(blocks)[pc] == pc + blocks[pc].byteSize;
    }
  }

  /** The cache stays sound across any write that does not go round the address space and is heard if it meets
      a block. */
  lemma WriteKeepsCache(blocks: map<u64, DecodedBlock>, m: map<u64, u8>, codes: seq<Range>, a: u64, data: seq<u8>)
    requires CacheOk(blocks, m) && 0 < |data| && a + |data| < TWO64 && Heard(codes, Extents(blocks), a, |data|)
    ensures CacheOk(AfterWrite(blocks, codes, a, |data|), Stored(m, a, data))
  {
    var after := AfterWrite(blocks, codes, a, |data|);
    forall pc | pc in after
      ensures Kept(after, pc, Stored(m, a, data))
    {
      assert Kept(blocks, pc, m);
      SurvivorsDisjoint(blocks, codes, a, |data|, pc);
      DisjointStore(m, a, data, pc, blocks[pc].byteSize);
      StraightStable(m, Stored(m, a, data), pc, |blocks[pc].insns|);
    }
  }
}
