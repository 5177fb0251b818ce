/** Frame unwinding from the exception tables of a 64-bit image: the lookup of the function that covers an
    address, and the walk over its unwind codes. */
module Unwinding {
  import opened Words
  import opened Base
  import opened FlatMemory
  import opened Shadow

  type u32 = x: int | 0 <= x < TWO32

  datatype Entry = Entry(begin: u32, end: u32, unwind: u32) {
    predicate Covers(rva: u32) {
      begin <= rva < end
    }
  }

  datatype Lookup = Found(e: Entry) | NotFound | LookupFailed

  // ---- The function table ----------------------------------------------------------------

  /** The four-byte word at i. */
  function Word(s: seq<u8>, i: nat): u32
    requires i + 4 <= |s|
  {
    (s[i] as int) + 0x100 * (s[i + 1] as int) + 0x1_0000 * (s[i + 2] as int) + 0x100_0000 * (s[i + 3] as int)
  }

  function Record(rec: seq<u8>): Entry
    requires |rec| == 12
  {
    Entry(Word(rec, 0), Word(rec, 4), Word(rec, 8))
  }

  lemma FourBytes(s: seq<u8>)
    requires |s| == 4
    ensures FromLe(s) < TWO32
  {
    assert Span(4) == TWO32;
  }

  /** A table slot as the lookup meets it. */
  datatype Slot = Unread | Holds(e: Entry)

  ghost function SlotAt(m: map<u64, u8>, a: u64): Slot {
    if Readable(m, a, 12) then Slot.Holds(Record(Loaded(m, a, 12))) else Unread
  }

  /** t is the function table at pdata. */
  ghost predicate IsTable(m: map<u64, u8>, pdata: u64, t: u32 -> Slot) {
    forall i: u32 {:trigger SlotAt(m, Plus(pdata, 12 * i))} :: t(i) == SlotAt(m, Plus(pdata, 12 * i))
  }

  /** Binary search over slots lo to hi - 1. */
  ghost function Search(t: u32 -> Slot, rva: u32, lo: u32, hi: u32): Lookup
    decreases hi - lo
  {
    if lo >= hi then NotFound
    else
      var mid := Middle(lo, hi);
      var s := t(mid);
      if s.Unread? then LookupFailed
      else if rva < s.e.begin then Search(t, rva, lo, mid)
      else if rva >= s.e.end then Search(t, rva, mid + 1, hi)
      else Found(s.e)
  }

  function Middle(lo: u32, hi: u32): (mid: u32)
    requires lo < hi
    ensures lo <= mid < hi
  {
    lo + (hi - lo) / 2
  }

  /** The table is readable and its ranges are in order and disjoint. */
  ghost predicate SortedTable(t: u32 -> Slot, count: u32) {
    && (forall i: u32 :: i < count ==> t(i).Holds? && t(i).e.begin <= t(i).e.end)
    && (forall i: u32, j: u32 :: i < j < count ==> t(i).e.end <= t(j).e.begin)
  }

  /** Some entry covers the address. */
  ghost predicate Covered(t: u32 -> Slot, count: u32, rva: u32) {
    exists i: u32 :: i < count && t(i).Holds? && t(i).e.Covers(rva)
  }

  /** Whatever the table, an entry that is found is in it and covers the address. */
  lemma {:induction false} SearchSound(t: u32 -> Slot, rva: u32, lo: u32, hi: u32)
    requires Search(t, rva, lo, hi).Found?
    ensures Search(t, rva, lo, hi).e.Covers(rva)
    ensures exists i: u32 :: lo <= i < hi && t(i) == Slot.Holds(Search(t, rva, lo, hi).e)
    decreases hi - lo
  {
    var mid := Middle(lo, hi);
    if rva < t(mid).e.begin {
      SearchSound(t, rva, lo, mid);
    } else if rva >= t(mid).e.end {
      SearchSound(t, rva, mid + 1, hi);
    }
  }

  /** In a sorted table the entry that covers the address is found. */
  lemma {:induction false} SearchFinds(t: u32 -> Slot, count: u32, rva: u32, lo: u32, hi: u32, i: u32)
    requires SortedTable(t, count) && lo <= i < hi <= count && t(i).e.Covers(rva)
    ensures Search(t, rva, lo, hi) == Found(t(i).e)
    decreases hi - lo
  {
    var mid := Middle(lo, hi);
    assert t(mid).Holds?;
    if i < mid {
      SearchFinds(t, count, rva, lo, mid, i);
    } else if mid < i {
      SearchFinds(t, count, rva, mid + 1, hi, i);
    }
  }

  lemma {:induction false} SearchReads(t: u32 -> Slot, count: u32, rva: u32, lo: u32, hi: u32)
    requires SortedTable(t, count) && hi <= count
    ensures !Search(t, rva, lo, hi).LookupFailed?
    decreases hi - lo
  {
    if lo < hi {
      var mid := Middle(lo, hi);
      assert t(mid).Holds?;
      SearchReads(t, count, rva, lo, mid);
      SearchReads(t, count, rva, mid + 1, hi);
    }
  }

  /** On a sorted table the lookup succeeds exactly when some entry covers the address, and the only other
      outcome is that none does. */
  lemma LookupIff(t: u32 -> Slot, count: u32, rva: u32)
    requires SortedTable(t, count)
    ensures Search(t, rva, 0, count).Found? <==> Covered(t, count, rva)
    ensures Search(t, rva, 0, count).NotFound? <==> !Covered(t, count, rva)
  {
    SearchReads(t, count, rva, 0, count);
    if Search(t, rva, 0, count).Found? {
      SearchSound(t, rva, 0, count);
    }
    if i: u32 :| i < count && t(i).Holds? && t(i).e.Covers(rva) {
      SearchFinds(t, count, rva, 0, count, i);
    }
  }

  /** rip - base in 32 bits. */
  function Rva(rip: u64, base: u64): u32 {
    Offset(rip, base) % TWO32
  }

  method ReadSlot(mem: ShadowPages, a: u64) returns (s: Slot)
    requires mem.Valid()
    ensures s == SlotAt(mem.Bytes(), a)
  {
    var r := mem.Read(a, 12);
    s := if r.ReadOk? then Slot.Holds(Record(r.data)) else Unread;
  }

  /** p gives the entry found at any address. */
  ghost predicate AreEntries(m: map<u64, u8>, p: u64 -> Slot) {
    forall a: u64 {:trigger SlotAt(m, a)} :: p(a) == SlotAt(m, a)
  }

  /** Such a p, and such a table, for any memory. */
  ghost function Entries(m: map<u64, u8>): (p: u64 -> Slot)
    ensures AreEntries(m, p)
  {
    (a: u64) => SlotAt(m, a)
  }

  ghost function TableAt(m: map<u64, u8>, pdata: u64): (t: u32 -> Slot)
    ensures IsTable(m, pdata, t)
  {
    (i: u32) => SlotAt(m, Plus(pdata, 12 * i))
  }

  method ReadEntry(mem: ShadowPages, a: u64, ghost p: u64 -> Slot) returns (s: Slot)
    requires mem.Valid() && AreEntries(mem.Bytes(), p)
    ensures s == p(a)
  {
    s := ReadSlot(mem, a);
  }

  method Probe(mem: ShadowPages, pdata: u64, i: u32, ghost t: u32 -> Slot) returns (s: Slot)
    requires mem.Valid() && IsTable(mem.Bytes(), pdata, t)
    ensures s == t(i)
  {
    s := ReadSlot(mem, Plus(pdata, 12 * i));
  }

  /** The search loop, given where the exception directory says the table is. */
  method SearchTable(mem: ShadowPages, pdata: u64, rva: u32, count: u32, ghost t: u32 -> Slot) returns (r: Lookup)
    requires mem.Valid() && IsTable(mem.Bytes(), pdata, t)
    ensures r == Search(t, rva, 0, count)
  {
    var lo: u32, hi: u32 := 0, count;
    while lo < hi
      invariant Search(t, rva, 0, count) == Search(t, rva, lo, hi)
      decreases hi - lo
    {
      var mid := Middle(lo, hi);
      var s := Probe(mem, pdata, mid, t);
      if s.Unread? {
        return LookupFailed;
      }
      if rva < s.e.begin {
        hi := mid;
      } else if rva >= s.e.end {
        lo := mid + 1;
      } else {
        return Found(s.e);
      }
    }
    r := NotFound;
  }

  // ---- Unwind codes ----------------------------------------------------------------------

  /** One operation of a prologue, with the offset of the end of its instruction. */
  datatype Code =
    | Push(at: u8, reg: nat)
    | AllocSmall(at: u8, info: nat)
    | AllocLarge(at: u8, lo: u8, hi: u8)
    | AllocHuge(at: u8, size: u32)
    | SetFrame(at: u8, info: nat)
    | Save(at: u8, xmm: bool, info: nat, lo: u8, hi: u8)
    | SaveFar(at: u8, xmm: bool, info: nat, offset: u32)
  {
    predicate WellFormed() {
      match this
      case Push(_, r) => r < 16
      case AllocSmall(_, i) => i < 16
      case SetFrame(_, i) => i < 16
      case Save(_, _, i, _, _) => i < 16
      case SaveFar(_, _, i, _) => i < 16
      case _ => true
    }

    /** How far the operation moves the stack pointer down. */
    function Bytes(): nat {
      match this
      case Push(_, _) => 8
      case AllocSmall(_, i) => 8 * i + 8
      case AllocLarge(_, lo, hi) => Scaled(lo, hi)
      case AllocHuge(_, n) => n
      case _ => 0
    }

    function Slots(): nat {
      match this
      case AllocLarge(_, _, _) => 2
      case AllocHuge(_, _) => 3
      case Save(_, _, _, _, _) => 2
      case SaveFar(_, _, _, _) => 3
      case _ => 1
    }

    /** The slots as bytes: code offset, operation and info, then the operand. */
    function Encode(): (s: seq<u8>)
      requires WellFormed()
      ensures |s| == 2 * Slots()
    {
      match this
      case Push(a, r) => [a, 16 * r]
      case AllocSmall(a, i) => [a, 16 * i + 2]
      case AllocLarge(a, lo, hi) => [a, 1, lo, hi]
      case AllocHuge(a, n) => [a, 17] + ToLe(n, 4)
      case SetFrame(a, i) => [a, 16 * i + 3]
      case Save(a, x, i, lo, hi) => [a, 16 * i + if x then 8 else 4, lo, hi]
      case SaveFar(a, x, i, o) => [a, 16 * i + if x then 9 else 5] + ToLe(o, 4)
    }
  }

  function TotalSlots(codes: seq<Code>): nat {
    if codes == [] then 0 else codes[0].Slots() + TotalSlots(codes[1..])
  }

  /** The code array of a prologue, newest operation first. */
  function EncodeAll(codes: seq<Code>): (s: seq<u8>)
    requires forall c :: c in codes ==> c.WellFormed()
    ensures |s| == 2 * TotalSlots(codes)
  {
    if codes == [] then [] else codes[0].Encode() + EncodeAll(codes[1..])
  }

  /** How far the stack pointer lies below its entry value once every operation that ends at or before
      offset x has run. */
  function Depth(codes: seq<Code>, x: nat): nat {
    if codes == [] then 0 else (if codes[0].at <= x then codes[0].Bytes() else 0) + Depth(codes[1..], x)
  }

  /** Slots an operation takes. */
  function OpSlots(op: nat, info: nat): (n: nat)
    ensures 1 <= n <= 3
  {
    if op == 1 then (if info == 0 then 2 else 3)
    else if op == 4 || op == 8 then 2
    else if op == 5 || op == 9 then 3
    else 1
  }

  /** How a walk ends; Running if it has not after the rounds it was given. */
  datatype Walked = At(rsp: u64) | Unreadable | Unsupported | Running

  function Scaled(lo: u8, hi: u8): u64 {
    8 * ((lo as int) + 256 * (hi as int))
  }

  type Half = n: nat | n < 16

  /** What undoing one applicable code does to the stack pointer; its operand, if it has one, is at p. */
  ghost function Undone(m: map<u64, u8>, p: u64, op: Half, info: Half, rsp: u64): (w: Walked)
    ensures !w.Running?
  {
    if op == 0 then At(Plus(rsp, 8))
    else if op == 2 then At(Plus(rsp, 8 * info + 8))
    else if op == 1 then (if info == 0 then UndoneLarge(m, p, rsp) else UndoneHuge(m, p, rsp))
    else if op == 3 || op == 4 || op == 5 || op == 8 || op == 9 then At(rsp)
    else Unsupported
  }

  ghost function UndoneLarge(m: map<u64, u8>, p: u64, rsp: u64): (w: Walked)
    ensures !w.Running?
  {
    if Readable(m, p, 2) then
      var two := Loaded(m, p, 2);
      At(Plus(rsp, Scaled(two[0], two[1])))
    else Unreadable
  }

  ghost function UndoneHuge(m: map<u64, u8>, p: u64, rsp: u64): (w: Walked)
    ensures !w.Running?
  {
    if Readable(m, p, 4) then
      var four := Loaded(m, p, 4);
      FourBytes(four);
      At(Plus(rsp, FromLe(four)))
    else Unreadable
  }

  /** What a code does: nothing if its operation had not run yet. */
  ghost function Applied(m: map<u64, u8>, p: u64, code: seq<u8>, x: u32, rsp: u64): (w: Walked)
    requires |code| == 2
    ensures !w.Running?
  {
    if code[0] > x then At(rsp) else Undone(m, p, code[1] % 16, code[1] / 16, rsp)
  }

  /** What one code does, and how many slots it takes. */
  datatype Round = Round(w: Walked, slots: nat)

  ghost function RoundAt(m: map<u64, u8>, a: u64, x: u32, idx: u8, rsp: u64): Round {
    if !Readable(m, Plus(a, 2 * idx), 2) then Round(Unreadable, 1)
    else
      var code := Loaded(m, Plus(a, 2 * idx), 2);
      Round(Applied(m, Plus(a, 2 * (idx + 1)), code, x, rsp), OpSlots(code[1] % 16, code[1] / 16))
  }

  /** The codes at a, by slot and stack pointer, for a RIP x bytes into the function. */
  ghost function Codes(m: map<u64, u8>, a: u64, x: u32): (r: (u8, u64) -> Round)
    ensures AreCodes(m, a, x, r)
  {
    (idx: u8, rsp: u64) => RoundAt(m, a, x, idx, rsp)
  }

  /** r gives what the codes at a do. */
  ghost predicate AreCodes(m: map<u64, u8>, a: u64, x: u32, r: (u8, u64) -> Round) {
    forall idx: u8, rsp: u64 {:trigger RoundAt(m, a, x, idx, rsp)} :: r(idx, rsp) == RoundAt(m, a, x, idx, rsp)
  }

  /** The walk from slot idx, for so many rounds at most. The slot index is eight bits wide. */
  ghost function WalkBy(r: (u8, u64) -> Round, idx: u8, count: u8, rsp: u64, rounds: nat): Walked
    decreases rounds
  {
    if idx >= count then At(rsp)
    else if rounds == 0 then Running
    else
      var d := r(idx, rsp);
      if d.w.At? then WalkBy(r, (idx + d.slots) % 256, count, d.w.rsp, rounds - 1) else d.w
  }

  ghost function Walk(m: map<u64, u8>, a: u64, idx: u8, count: u8, x: u32, rsp: u64, rounds: nat): Walked {
    WalkBy(Codes(m, a, x), idx, count, rsp, rounds)
  }

  function NextIndex(idx: u8, code: seq<u8>): u8
    requires |code| == 2
  {
    (idx + OpSlots(code[1] % 16, code[1] / 16)) % 256
  }

  // ---- The walk, and what it recovers -----------------------------------------------------

  /** The bytes at a hold s. */
  ghost predicate Stores(m: map<u64, u8>, a: u64, s: seq<u8>) {
    |s| < TWO64 && Readable(m, a, |s|) && Loaded(m, a, |s|) == s
  }

  lemma TwoParts(a: seq<u8>, b: seq<u8>, s: seq<u8>, r: seq<u8>)
    requires a + b == s + r && |a| == |s|
    ensures a == s && b == r
  {
    assert (a + b)[..|a|] == a && (s + r)[..|s|] == s;
    assert (a + b)[|a|..] == b && (s + r)[|s|..] == r;
  }

  lemma StoresSplit(m: map<u64, u8>, a: u64, s: seq<u8>, r: seq<u8>)
    requires Stores(m, a, s + r)
    ensures Stores(m, a, s) && Stores(m, Plus(a, |s|), r)
  {
    ReadableSplit(m, a, |s|, |r|);
    TwoParts(Loaded(m, a, |s|), Loaded(m, Plus(a, |s|), |r|), s, r);
  }

  predicate AllWellFormed(codes: seq<Code>) {
    forall c :: c in codes ==> c.WellFormed()
  }

  /** The first two bytes of a code name its offset, operation and slot count. */
  lemma CodeHead(c: Code)
    requires c.WellFormed()
    ensures c.Encode()[0] == c.at
    ensures OpSlots(c.Encode()[1] % 16, c.Encode()[1] / 16) == c.Slots()
  {
  }

  lemma FourBack(v: u32, n: nat)
    requires n == 4
    ensures FromLe(ToLe(v, n)) == v
  {
    StoreLoad(v, n);
    assert Span(4) == TWO32;
  }

  lemma LargeUndone(m: map<u64, u8>, p: u64, c: Code, rsp: u64)
    requires c.AllocLarge? && Stores(m, p, c.Encode())
    ensures UndoneLarge(m, Plus(p, 2), rsp) == At(Plus(rsp, c.Bytes()))
  {
    assert c.Encode() == [c.at, 1] + [c.lo, c.hi];
    StoresSplit(m, p, [c.at, 1], [c.lo, c.hi]);
  }

  lemma HugeUndone(m: map<u64, u8>, p: u64, c: Code, rsp: u64)
    requires c.AllocHuge? && Stores(m, p, c.Encode())
    ensures UndoneHuge(m, Plus(p, 2), rsp) == At(Plus(rsp, c.Bytes()))
  {
    StoresSplit(m, p, [c.at, 17], ToLe(c.size, 4));
    FourBack(c.size, 4);
  }

  /** Undoing a code moves the stack pointer up by what its operation moved it down. */
  lemma CodeUndone(m: map<u64, u8>, p: u64, c: Code, rsp: u64)
    requires c.WellFormed() && Stores(m, p, c.Encode())
    ensures Undone(m, Plus(p, 2), c.Encode()[1] % 16, c.Encode()[1] / 16, rsp) == At(Plus(rsp, c.Bytes()))
  {
    if c.AllocLarge? {
      LargeUndone(m, p, c, rsp);
    } else if c.AllocHuge? {
      HugeUndone(m, p, c, rsp);
    }
  }

  /** An encoded code in memory, and the two bytes the walk reads of it. */
  lemma CodeRead(m: map<u64, u8>, p: u64, c: Code)
    requires c.WellFormed() && Stores(m, p, c.Encode())
    ensures Readable(m, p, 2) && Loaded(m, p, 2) == c.Encode()[..2]
  {
    assert c.Encode() == c.Encode()[..2] + c.Encode()[2..];
    StoresSplit(m, p, c.Encode()[..2], c.Encode()[2..]);
  }

  lemma CodeApplied(m: map<u64, u8>, p: u64, x: u32, rsp: u64, c: Code)
    requires c.WellFormed() && Stores(m, p, c.Encode())
    ensures Applied(m, Plus(p, 2), c.Encode()[..2], x, rsp) == At(if c.at <= x then Plus(rsp, c.Bytes()) else rsp)
  {
    CodeUndone(m, p, c, rsp);
  }

  /** One round of the walk, with what it read and did. */
  lemma WalkStep(m: map<u64, u8>, a: u64, idx: u8, count: u8, x: u32, rsp: u64, rounds: nat, code: seq<u8>, up: u64)
    requires idx < count && rounds > 0 && Readable(m, Plus(a, 2 * idx), 2) && code == Loaded(m, Plus(a, 2 * idx), 2)
    requires Applied(m, Plus(a, 2 * (idx + 1)), code, x, rsp) == At(up)
    ensures Walk(m, a, idx, count, x, rsp, rounds) == Walk(m, a, NextIndex(idx, code), count, x, up, rounds - 1)
  {
  }

  lemma SlotAfter(idx: u8, c: Code)
    requires c.WellFormed() && idx + c.Slots() < 256
    ensures NextIndex(idx, c.Encode()[..2]) == idx + c.Slots()
  {
    CodeHead(c);
  }

  /** One round of the walk over an encoded code that does not take the index past 255. */
  lemma WalkRound(m: map<u64, u8>, a: u64, idx: u8, count: u8, x: u32, rsp: u64, rounds: nat, c: Code)
    requires c.WellFormed() && idx < count && idx + c.Slots() < 256 && rounds > 0
    requires Stores(m, Plus(a, 2 * idx), c.Encode())
    ensures Walk(m, a, idx, count, x, rsp, rounds)
      == Walk(m, a, idx + c.Slots(), count, x, if c.at <= x then Plus(rsp, c.Bytes()) else rsp, rounds - 1)
  {
    var p := Plus(a, 2 * idx);
    assert Plus(p, 2) == Plus(a, 2 * (idx + 1));
    SlotAfter(idx, c);
    CodeRead(m, p, c);
    CodeApplied(m, p, x, rsp, c);
    WalkStep(m, a, idx, count, x, rsp, rounds, c.Encode()[..2], if c.at <= x then Plus(rsp, c.Bytes()) else rsp);
  }

  /** Adding twice is adding the sum, going round at 2^64. */
  function Raised(rsp: u64, n: nat): u64 {
    (rsp + n) % TWO64
  }

  lemma RaiseTwice(rsp: u64, j: u64, k: nat)
    ensures Raised(Plus(rsp, j), k) == Raised(rsp, j + k)
  {
    if rsp + j >= TWO64 {
      DivModUnique(rsp + j + k, TWO64, 1 + (rsp + j - TWO64 + k) / TWO64, (rsp + j - TWO64 + k) % TWO64);
    }
  }

  lemma RaisedInTwo(w: Walked, rsp: u64, n: u64, up: u64, more: nat, all: nat)
    requires up == Plus(rsp, n) && w == At(Raised(up, more)) && all == n + more
    ensures w == At(Raised(rsp, all))
  {
    RaiseTwice(rsp, n, more);
  }

  lemma HeadAndRest(m: map<u64, u8>, a: u64, idx: nat, codes: seq<Code>)
    requires AllWellFormed(codes) && codes != [] && idx + TotalSlots(codes) < 256
    requires Stores(m, Plus(a, 2 * idx), EncodeAll(codes))
    ensures Stores(m, Plus(a, 2 * idx), codes[0].Encode()) && AllWellFormed(codes[1..])
    ensures Stores(m, Plus(a, 2 * (idx + codes[0].Slots())), EncodeAll(codes[1..]))
  {
    HeadSize(codes);
    SplitFrom(m, a, 2 * idx, codes[0].Encode(), EncodeAll(codes[1..]), 2 * (idx + codes[0].Slots()));
  }

  lemma HeadSize(codes: seq<Code>)
    requires AllWellFormed(codes) && codes != []
    ensures codes[0].WellFormed() && AllWellFormed(codes[1..])
    ensures EncodeAll(codes) == codes[0].Encode() + EncodeAll(codes[1..])
    ensures TotalSlots(codes) == codes[0].Slots() + TotalSlots(codes[1..])
    ensures |codes[0].Encode()| == 2 * codes[0].Slots()
  {
    assert codes[0] in codes;
  }

  lemma SplitFrom(m: map<u64, u8>, a: u64, i: nat, s: seq<u8>, r: seq<u8>, j: nat)
    requires j == i + |s| && j < TWO64 && Stores(m, Plus(a, i), s + r)
    ensures Stores(m, Plus(a, i), s) && Stores(m, Plus(a, j), r)
  {
    StoresSplit(m, Plus(a, i), s, r);
    PlusTwice(a, i, |s|);
  }

  lemma PlusTwice(a: u64, i: nat, k: nat)
    requires i + k < TWO64
    ensures Plus(Plus(a, i), k) == Plus(a, i + k)
  {
  }

  /** The walk past the first code of an array: where it gets to, the bytes it undoes, and the codes left. */
  lemma WalkHead(m: map<u64, u8>, a: u64, idx: u8, count: u8, x: u32, rsp: u64, rounds: nat, codes: seq<Code>)
    returns (next: u8, up: u64, n: u64, rest: seq<Code>)
    requires AllWellFormed(codes) && idx + TotalSlots(codes) == count && codes != [] && rounds > 0
    requires Stores(m, Plus(a, 2 * idx), EncodeAll(codes))
    ensures Walk(m, a, idx, count, x, rsp, rounds) == Walk(m, a, next, count, x, up, rounds - 1)
    ensures |rest| == |codes| - 1 && AllWellFormed(rest) && next + TotalSlots(rest) == count
    ensures Stores(m, Plus(a, 2 * next), EncodeAll(rest))
    ensures up == Plus(rsp, n) && Depth(codes, x) == n + Depth(rest, x)
  {
    var c := codes[0];
    HeadSize(codes);
    HeadAndRest(m, a, idx, codes);
    next, n, rest := idx + c.Slots(), if c.at <= x then c.Bytes() else 0, codes[1..];
    up := Plus(rsp, n);
    WalkRound(m, a, idx, count, x, rsp, rounds, c);
  }

  lemma WalkDone(m: map<u64, u8>, a: u64, idx: u8, count: u8, x: u32, rsp: u64, rounds: nat, codes: seq<Code>)
    requires codes == [] && idx == count
    ensures Walk(m, a, idx, count, x, rsp, rounds) == At(Raised(rsp, Depth(codes, x)))
  {
  }

  /** The walk over a code array from one of its codes on ends, a round a code, and undoes all the operations
      that ran. */
  lemma {:induction false} WalkUndoes(m: map<u64, u8>, a: u64, idx: u8, count: u8, x: u32, rsp: u64, rounds: nat,
                                      codes: seq<Code>)
    requires AllWellFormed(codes) && idx + TotalSlots(codes) == count && rounds >= |codes|
    requires Stores(m, Plus(a, 2 * idx), EncodeAll(codes))
    ensures Walk(m, a, idx, count, x, rsp, rounds) == At(Raised(rsp, Depth(codes, x)))
    decreases |codes|
  {
    if codes == [] {
      WalkDone(m, a, idx, count, x, rsp, rounds, codes);
    } else {
      var next, up, n, rest := WalkHead(m, a, idx, count, x, rsp, rounds, codes);
      WalkUndoes(m, a, next, count, x, up, rounds - 1, rest);
      RaisedInTwo(Walk(m, a, idx, count, x, rsp, rounds), rsp, n, up, Depth(rest, x), Depth(codes, x));
    }
  }

  // ---- When the walk ends -------------------------------------------------------------------

  /** Whether a code can be undone, and how many slots it takes, does not depend on the stack pointer. */
  ghost predicate Steady(r: (u8, u64) -> Round) {
    forall idx: u8, rsp: u64 {:trigger r(idx, rsp)} ::
      && r(idx, rsp).w.At? == r(idx, 0).w.At? && r(idx, rsp).slots == r(idx, 0).slots
      && 1 <= r(idx, rsp).slots <= 3 && !r(idx, rsp).w.Running?
  }

  lemma CodesSteady(m: map<u64, u8>, a: u64, x: u32, r: (u8, u64) -> Round)
    requires r == Codes(m, a, x)
    ensures Steady(r)
  {
  }

  /** Where a pass over the slots from idx comes round to; -1 if it reaches the count or a code that fails. */
  ghost function WrapsTo(r: (u8, u64) -> Round, idx: u8, count: u8): (w: int)
    requires Steady(r)
    ensures -1 <= w <= 1
    decreases 256 - idx
  {
    if idx >= count || !r(idx, 0).w.At? then -1
    else
      var n := idx + r(idx, 0).slots;
      if n >= 256 then n - 256 else WrapsTo(r, n, count)
  }

  /** The first pass ends, or it comes round to slot 1 and the pass from there ends. */
  ghost predicate PassesEnd(r: (u8, u64) -> Round, count: u8)
    requires Steady(r)
  {
    WrapsTo(r, 0, count) == -1 || (WrapsTo(r, 0, count) == 1 && WrapsTo(r, 1, count) == -1)
  }

  /** The codes from a on are such, by their own bytes. */
  ghost predicate Ends(m: map<u64, u8>, a: u64, count: u8, x: u32) {
    CodesSteady(m, a, x, Codes(m, a, x));
    PassesEnd(Codes(m, a, x), count)
  }

  lemma {:induction false} PassEnds(r: (u8, u64) -> Round, idx: u8, count: u8, rsp: u64, rounds: nat)
    requires Steady(r) && WrapsTo(r, idx, count) == -1 && idx + rounds >= count
    ensures !WalkBy(r, idx, count, rsp, rounds).Running?
    decreases rounds
  {
    if idx >= count || !r(idx, rsp).w.At? {
    } else {
      PassEnds(r, idx + r(idx, rsp).slots, count, r(idx, rsp).w.rsp, rounds - 1);
    }
  }

  /** A pass that comes round is still running until it does, and goes on from there. */
  lemma {:induction false} PassWraps(r: (u8, u64) -> Round, idx: u8, count: u8, rsp: u64, rounds: nat)
    returns (k: nat, up: u64)
    requires Steady(r) && WrapsTo(r, idx, count) >= 0
    ensures 0 < k <= count - idx
    ensures rounds < k ==> WalkBy(r, idx, count, rsp, rounds).Running?
    ensures rounds >= k ==>
      WalkBy(r, idx, count, rsp, rounds) == WalkBy(r, WrapsTo(r, idx, count), count, up, rounds - k)
    decreases rounds
  {
    k, up := 1, rsp;
    if rounds > 0 {
      var n := idx + r(idx, rsp).slots;
      up := r(idx, rsp).w.rsp;
      if n < 256 {
        k, up := PassWraps(r, n, count, up, rounds - 1);
        k := k + 1;
      }
    }
  }

  /** Where the condition fails every pass comes round again. */
  lemma {:induction false} NeverEnds(r: (u8, u64) -> Round, idx: u8, count: u8, rsp: u64, rounds: nat)
    requires Steady(r) && !PassesEnd(r, count) && (idx == 0 || (idx == 1 && WrapsTo(r, 0, count) == 1))
    ensures WalkBy(r, idx, count, rsp, rounds).Running?
    decreases rounds
  {
    var k, up := PassWraps(r, idx, count, rsp, rounds);
    if rounds < k {
    } else {
      NeverEnds(r, WrapsTo(r, idx, count), count, up, rounds - k);
    }
  }

  /** Where it holds, two rounds a slot are enough. */
  lemma EndsSoon(r: (u8, u64) -> Round, count: u8, rsp: u64, rounds: nat)
    requires Steady(r) && PassesEnd(r, count) && rounds == 2 * count
    ensures !WalkBy(r, 0, count, rsp, rounds).Running?
  {
    if WrapsTo(r, 0, count) == -1 {
      PassEnds(r, 0, count, rsp, rounds);
    } else {
      var k, up := PassWraps(r, 0, count, rsp, rounds);
      PassEnds(r, 1, count, up, rounds - k);
    }
  }

  /** More rounds change nothing once the walk has ended. */
  lemma {:induction false} WalkEnded(r: (u8, u64) -> Round, idx: u8, count: u8, rsp: u64, rounds: nat, more: nat)
    requires Steady(r) && !WalkBy(r, idx, count, rsp, rounds).Running? && rounds <= more
    ensures WalkBy(r, idx, count, rsp, more) == WalkBy(r, idx, count, rsp, rounds)
    decreases rounds
  {
    if idx >= count || !r(idx, rsp).w.At? {
    } else {
      WalkEnded(r, (idx + r(idx, rsp).slots) % 256, count, r(idx, rsp).w.rsp, rounds - 1, more - 1);
    }
  }

  /** The walk over an array, given two rounds a slot. */
  ghost function Outcome(m: map<u64, u8>, a: u64, count: u8, x: u32, rsp: u64): Walked {
    Walk(m, a, 0, count, x, rsp, 2 * count)
  }

  lemma OutcomeIff(m: map<u64, u8>, a: u64, count: u8, x: u32, rsp: u64)
    ensures Outcome(m, a, count, x, rsp).Running? <==> !Ends(m, a, count, x)
  {
    CodesSteady(m, a, x, Codes(m, a, x));
    if Ends(m, a, count, x) {
      EndsSoon(Codes(m, a, x), count, rsp, 2 * count);
    } else {
      NeverEnds(Codes(m, a, x), 0, count, rsp, 2 * count);
    }
  }

  /** The same for any number of rounds. */
  lemma EndedIff(r: (u8, u64) -> Round, count: u8, rsp: u64, rounds: nat, enough: nat)
    requires Steady(r) && enough == 2 * count && !WalkBy(r, 0, count, rsp, rounds).Running?
    ensures PassesEnd(r, count) && WalkBy(r, 0, count, rsp, rounds) == WalkBy(r, 0, count, rsp, enough)
  {
    if !PassesEnd(r, count) {
      NeverEnds(r, 0, count, rsp, rounds);
    }
    EndsSoon(r, count, rsp, enough);
    if rounds <= enough {
      WalkEnded(r, 0, count, rsp, rounds, enough);
    } else {
      WalkEnded(r, 0, count, rsp, enough, rounds);
    }
  }

  /** The loop of the source ends, whatever the stack pointer, exactly under that condition; and then its
      outcome is the one named here. */
  lemma WalkEndsIff(m: map<u64, u8>, a: u64, count: u8, x: u32, rsp: u64)
    ensures (exists rounds: nat :: !Walk(m, a, 0, count, x, rsp, rounds).Running?) <==> Ends(m, a, count, x)
    ensures forall rounds: nat :: !Walk(m, a, 0, count, x, rsp, rounds).Running? ==>
      Walk(m, a, 0, count, x, rsp, rounds) == Outcome(m, a, count, x, rsp)
  {
    CodesSteady(m, a, x, Codes(m, a, x));
    OutcomeIff(m, a, count, x, rsp);
    var enough: nat := 2 * count;
    if Ends(m, a, count, x) {
      assert !Walk(m, a, 0, count, x, rsp, enough).Running?;
    }
    forall rounds: nat | !Walk(m, a, 0, count, x, rsp, rounds).Running?
      ensures Ends(m, a, count, x) && Walk(m, a, 0, count, x, rsp, rounds) == Outcome(m, a, count, x, rsp)
    {
      EndedIff(Codes(m, a, x), count, rsp, rounds, enough);
    }
  }

  lemma {:induction false} ShortPass(r: (u8, u64) -> Round, idx: u8, count: u8)
    requires Steady(r) && count <= 253
    ensures WrapsTo(r, idx, count) == -1
    decreases 256 - idx
  {
    if idx >= count || !r(idx, 0).w.At? {
    } else {
      ShortPass(r, idx + r(idx, 0).slots, count);
    }
  }

  /** An array of at most 253 slots is always walked to an end. */
  lemma ShortEnds(m: map<u64, u8>, a: u64, count: u8, x: u32)
    requires count <= 253
    ensures Ends(m, a, count, x)
  {
    CodesSteady(m, a, x, Codes(m, a, x));
    ShortPass(Codes(m, a, x), 0, count);
  }

  /** 128 codes of two slots each, every one a saved register. */
  function TwoSlotCodes(): map<u64, u8> {
    map i: u64 | 0 <= i < 512 :: if i % 4 == 1 then 4 else 0
  }

  lemma TwoSlotCode(idx: u8, x: u32, rsp: u64, r: (u8, u64) -> Round)
    requires idx % 2 == 0 && idx < 255 && r == Codes(TwoSlotCodes(), 0, x)
    ensures r(idx, rsp) == Round(At(rsp), 2)
  {
    assert Plus(0, 2 * idx) == 2 * idx && Loaded(TwoSlotCodes(), 2 * idx, 2) == [0, 4];
  }

  lemma {:induction false} TwoSlotWraps(idx: u8, x: u32, r: (u8, u64) -> Round)
    requires idx % 2 == 0 && idx < 255 && r == Codes(TwoSlotCodes(), 0, x) && Steady(r)
    ensures WrapsTo(r, idx, 255) == 0
    decreases 256 - idx
  {
    TwoSlotCode(idx, x, 0, r);
    if idx < 254 {
      TwoSlotWraps(idx + 2, x, r);
    }
  }

  /** A longer one need not be: counted as 255 slots, those codes are walked for ever. */
  lemma WalkNeverEnds(x: u32, rsp: u64, rounds: nat)
    ensures !Ends(TwoSlotCodes(), 0, 255, x) && Walk(TwoSlotCodes(), 0, 0, 255, x, rsp, rounds).Running?
  {
    var r := Codes(TwoSlotCodes(), 0, x);
    CodesSteady(TwoSlotCodes(), 0, x, r);
    TwoSlotWraps(0, x, r);
    NeverEnds(r, 0, 255, rsp, rounds);
  }

  // ---- A whole frame ----------------------------------------------------------------------

  datatype Failure = NoFunction | BadRead | NoSupport | NotImage
  datatype Frame = Caller(rip: u64, rsp: u64) | Failed(why: Failure) | Endless
  datatype Info = InfoAt(rva: u32) | NoInfo

  /** An odd unwind RVA points at another entry; at most hops of them are followed. */
  ghost function FollowChain(p: u64 -> Slot, base: u64, rva: u32, hops: nat): Info
    decreases hops
  {
    if hops == 0 || rva % 2 == 0 then InfoAt(rva)
    else
      var s := p(Plus(base, rva - 1));
      if s.Unread? then NoInfo else FollowChain(p, base, s.e.unwind, hops - 1)
  }

  /** The return address at the recovered entry stack pointer. */
  ghost function TopOfStack(m: map<u64, u8>, w: Walked): Frame {
    if w.At? then
      if Readable(m, w.rsp, 8) then
        var word := Loaded(m, w.rsp, 8);
        EightBytes(word);
        Caller(FromLe(word), Plus(w.rsp, 8))
      else Failed(BadRead)
    else if w.Running? then Endless
    else Failed(if w.Unreadable? then BadRead else NoSupport)
  }

  lemma EightBytes(s: seq<u8>)
    requires |s| == 8
    ensures FromLe(s) < TWO64
  {
    assert Span(8) == TWO64;
  }

  /** Unwinding with the information at ui, for a RIP x bytes into its function. */
  ghost function UnwoundBy(m: map<u64, u8>, ui: u64, x: u32, rsp: u64): Frame {
    if !Readable(m, ui, 4) then Failed(BadRead)
    else TopOfStack(m, Outcome(m, Plus(ui, 4), Loaded(m, ui, 4)[2], x, rsp))
  }

  ghost function UnwoundFrom(m: map<u64, u8>, p: u64 -> Slot, base: u64, e: Entry, rip: u64, rsp: u64): Frame {
    var i := FollowChain(p, base, e.unwind, 16);
    if i.InfoAt? then UnwoundBy(m, Plus(base, i.rva), Rva(rip, Plus(base, e.begin)), rsp) else Failed(BadRead)
  }

  ghost function UnwoundIn(m: map<u64, u8>, p: u64 -> Slot, base: u64, t: u32 -> Slot, count: u32, rip: u64, rsp: u64)
    : Frame
  {
    match Search(t, Rva(rip, base), 0, count)
    case NotFound => Failed(NoFunction)
    case LookupFailed => Failed(BadRead)
    case Found(e) => UnwoundFrom(m, p, base, e, rip, rsp)
  }

  /** The walk over the codes of the information at ui ends. */
  ghost predicate InfoEnds(m: map<u64, u8>, ui: u64, x: u32) {
    Readable(m, ui, 4) ==> Ends(m, Plus(ui, 4), Loaded(m, ui, 4)[2], x)
  }

  /** So does the walk over those a table leads to from RIP, if it leads to any. */
  ghost predicate CodesEnd(m: map<u64, u8>, p: u64 -> Slot, base: u64, t: u32 -> Slot, count: u32, rip: u64) {
    var l := Search(t, Rva(rip, base), 0, count);
    l.Found? ==>
      var i := FollowChain(p, base, l.e.unwind, 16);
      i.InfoAt? ==> InfoEnds(m, Plus(base, i.rva), Rva(rip, Plus(base, l.e.begin)))
  }

  /** Where an image says its function table is, by RVA and size in bytes. */
  datatype Directory = Directory(rva: u32, size: u32) | NoDirectory(why: Failure)

  /** The exception directory, with the signatures and the machine checked on the way. */
  ghost function DirectoryAt(m: map<u64, u8>, base: u64): Directory {
    if !Readable(m, base, 2) then NoDirectory(BadRead)
    else if Loaded(m, base, 2) != [0x4D, 0x5A] then NoDirectory(NotImage)
    else if !Readable(m, Plus(base, 0x3C), 4) then NoDirectory(BadRead)
    else HeaderAt(m, Plus(base, Word(Loaded(m, Plus(base, 0x3C), 4), 0)))
  }

  ghost function HeaderAt(m: map<u64, u8>, nt: u64): Directory {
    if !Readable(m, nt, 4) then NoDirectory(BadRead)
    else if Loaded(m, nt, 4) != [0x50, 0x45, 0, 0] then NoDirectory(NotImage)
    else if !Readable(m, Plus(nt, 4), 2) then NoDirectory(BadRead)
    else if Loaded(m, Plus(nt, 4), 2) != [0x64, 0x86] then NoDirectory(NoSupport)
    else if !Readable(m, Plus(nt, 160), 8) then NoDirectory(BadRead)
    else
      var dir := Loaded(m, Plus(nt, 160), 8);
      Directory(Word(dir, 0), Word(dir, 4))
  }

  /** Unwinding one frame of the image at base. */
  ghost function Unwound(m: map<u64, u8>, base: u64, rip: u64, rsp: u64): Frame {
    if rip < base then Failed(NoFunction)
    else
      match DirectoryAt(m, base)
      case NoDirectory(why) => Failed(why)
      case Directory(rva, size) => UnwoundIn(m, Entries(m), base, TableAt(m, Plus(base, rva)), size / 12, rip, rsp)
  }

  /** The codes that a RIP leads to in the image, if any, are walked to an end. */
  ghost predicate FrameEnds(m: map<u64, u8>, base: u64, rip: u64) {
    rip >= base ==>
      var d := DirectoryAt(m, base);
      d.Directory? ==> CodesEnd(m, Entries(m), base, TableAt(m, Plus(base, d.rva)), d.size / 12, rip)
  }

  lemma InfoEndless(m: map<u64, u8>, ui: u64, x: u32, rsp: u64)
    ensures UnwoundBy(m, ui, x, rsp) == Endless <==> !InfoEnds(m, ui, x)
  {
    if Readable(m, ui, 4) {
      OutcomeIff(m, Plus(ui, 4), Loaded(m, ui, 4)[2], x, rsp);
    }
  }

  /** Unwinding a frame runs for ever exactly where that fails. */
  lemma EndlessIff(m: map<u64, u8>, base: u64, rip: u64, rsp: u64)
    ensures Unwound(m, base, rip, rsp) == Endless <==> !FrameEnds(m, base, rip)
  {
    var d := DirectoryAt(m, base);
    if rip >= base && d.Directory? {
      var l := Search(TableAt(m, Plus(base, d.rva)), Rva(rip, base), 0, d.size / 12);
      if l.Found? {
        var i := FollowChain(Entries(m), base, l.e.unwind, 16);
        if i.InfoAt? {
          InfoEndless(m, Plus(base, i.rva), Rva(rip, Plus(base, l.e.begin)), rsp);
        }
      }
    }
  }

  // ---- The loops ---------------------------------------------------------------------------

  method Undo(mem: ShadowPages, p: u64, op: Half, info: Half, rsp: u64) returns (w: Walked)
    requires mem.Valid()
    ensures w == Undone(mem.Bytes(), p, op, info, rsp)
  {
    if op == 0 {
      w := At(Plus(rsp, 8));
    } else if op == 2 {
      w := At(Plus(rsp, 8 * info + 8));
    } else if op == 1 {
      if info == 0 {
        var r := mem.Read(p, 2);
        w := if r.ReadOk? then At(Plus(rsp, Scaled(r.data[0], r.data[1]))) else Unreadable;
      } else {
        w := UndoHuge(mem, p, rsp);
      }
    } else if op == 3 || op == 4 || op == 5 || op == 8 || op == 9 {
      w := At(rsp);
    } else {
      w := Unsupported;
    }
  }

  method UndoHuge(mem: ShadowPages, p: u64, rsp: u64) returns (w: Walked)
    requires mem.Valid()
    ensures w == UndoneHuge(mem.Bytes(), p, rsp)
  {
    var r := mem.Read(p, 4);
    if r.ReadFailed? {
      return Unreadable;
    }
    FourBytes(r.data);
    w := At(Plus(rsp, FromLe(r.data)));
  }

  method Apply(mem: ShadowPages, p: u64, code: seq<u8>, x: u32, rsp: u64) returns (w: Walked)
    requires mem.Valid() && |code| == 2
    ensures w == Applied(mem.Bytes(), p, code, x, rsp)
  {
    if code[0] > x {
      w := At(rsp);
    } else {
      w := Undo(mem, p, code[1] % 16, code[1] / 16, rsp);
    }
  }

  /** What the code at idx does, and the slots it takes. */
  method WalkOnce(mem: ShadowPages, a: u64, idx: u8, x: u32, rsp: u64, ghost r: (u8, u64) -> Round)
    returns (w: Walked, slots: nat)
    requires mem.Valid() && AreCodes(mem.Bytes(), a, x, r)
    ensures r(idx, rsp) == Round(w, slots)
  {
    assert r(idx, rsp) == RoundAt(mem.Bytes(), a, x, idx, rsp);
    var code := mem.Read(Plus(a, 2 * idx), 2);
    if code.ReadFailed? {
      return Unreadable, 1;
    }
    w := Apply(mem, Plus(a, 2 * (idx + 1)), code.data, x, rsp);
    slots := OpSlots(code.data[1] % 16, code.data[1] / 16);
  }

  /** The walk over a whole array. */
  method WalkCodes(mem: ShadowPages, a: u64, count: u8, x: u32, rsp: u64) returns (w: Walked)
    requires mem.Valid() && Ends(mem.Bytes(), a, count, x)
    ensures w == Outcome(mem.Bytes(), a, count, x, rsp) && !w.Running?
  {
    OutcomeIff(mem.Bytes(), a, count, x, rsp);
    w := WalkAll(mem, a, count, x, rsp, Codes(mem.Bytes(), a, x), 2 * count);
  }

  /** The loop; the slot index is eight bits wide. */
  method WalkAll(mem: ShadowPages, a: u64, count: u8, x: u32, rsp: u64, ghost r: (u8, u64) -> Round, ghost rounds: nat)
    returns (w: Walked)
    requires mem.Valid() && AreCodes(mem.Bytes(), a, x, r) && !WalkBy(r, 0, count, rsp, rounds).Running?
    ensures w == WalkBy(r, 0, count, rsp, rounds)
  {
    ghost var left := rounds;
    var idx: u8, working: u64 := 0, rsp;
    while idx < count
      invariant WalkBy(r, 0, count, rsp, rounds) == WalkBy(r, idx, count, working, left)
      decreases left
    {
      var slots;
      w, slots := WalkOnce(mem, a, idx, x, working, r);
      if !w.At? {
        return;
      }
      idx, working, left := (idx + slots) % 256, w.rsp, left - 1;
    }
    w := At(working);
  }

  /** Up to that many hops along chained entries. */
  method Chain(mem: ShadowPages, base: u64, rva: u32, hops: nat, ghost p: u64 -> Slot) returns (i: Info)
    requires mem.Valid() && AreEntries(mem.Bytes(), p)
    ensures i == FollowChain(p, base, rva, hops)
  {
    var ui, left := rva, hops;
    while left > 0 && ui % 2 == 1
      invariant FollowChain(p, base, rva, hops) == FollowChain(p, base, ui, left)
      decreases left
    {
      var parent := ReadEntry(mem, Plus(base, ui - 1), p);
      if parent.Unread? {
        return NoInfo;
      }
      ui, left := parent.e.unwind, left - 1;
    }
    i := InfoAt(ui);
  }

  method UnwindBy(mem: ShadowPages, ui: u64, x: u32, rsp: u64) returns (f: Frame)
    requires mem.Valid() && InfoEnds(mem.Bytes(), ui, x)
    ensures f == UnwoundBy(mem.Bytes(), ui, x, rsp)
  {
    var header := mem.Read(ui, 4);
    if header.ReadFailed? {
      return Failed(BadRead);
    }
    var w := WalkCodes(mem, Plus(ui, 4), header.data[2], x, rsp);
    f := ReturnAddress(mem, w);
  }

  method ReturnAddress(mem: ShadowPages, w: Walked) returns (f: Frame)
    requires mem.Valid() && !w.Running?
    ensures f == TopOfStack(mem.Bytes(), w)
  {
    if !w.At? {
      return Failed(if w.Unreadable? then BadRead else NoSupport);
    }
    var word := mem.Read(w.rsp, 8);
    if word.ReadFailed? {
      return Failed(BadRead);
    }
    EightBytes(word.data);
    f := Caller(FromLe(word.data), Plus(w.rsp, 8));
  }

  method ReadHeader(mem: ShadowPages, nt: u64) returns (d: Directory)
    requires mem.Valid()
    ensures d == HeaderAt(mem.Bytes(), nt)
  {
    var sig := mem.Read(nt, 4);
    if sig.ReadFailed? {
      return NoDirectory(BadRead);
    }
    if sig.data != [0x50, 0x45, 0, 0] {
      return NoDirectory(NotImage);
    }
    var machine := mem.Read(Plus(nt, 4), 2);
    if machine.ReadFailed? {
      return NoDirectory(BadRead);
    }
    if machine.data != [0x64, 0x86] {
      return NoDirectory(NoSupport);
    }
    var dir := mem.Read(Plus(nt, 160), 8);
    d := if dir.ReadOk? then Directory(Word(dir.data, 0), Word(dir.data, 4)) else NoDirectory(BadRead);
  }

  method ReadDirectory(mem: ShadowPages, base: u64) returns (d: Directory)
    requires mem.Valid()
    ensures d == DirectoryAt(mem.Bytes(), base)
  {
    var mz := mem.Read(base, 2);
    if mz.ReadFailed? {
      return NoDirectory(BadRead);
    }
    if mz.data != [0x4D, 0x5A] {
      return NoDirectory(NotImage);
    }
    var at := mem.Read(Plus(base, 0x3C), 4);
    if at.ReadFailed? {
      return NoDirectory(BadRead);
    }
    d := ReadHeader(mem, Plus(base, Word(at.data, 0)));
  }

  /** Unwinding from a table. */
  method UnwindIn(mem: ShadowPages, base: u64, pdata: u64, count: u32, rip: u64, rsp: u64,
                  ghost t: u32 -> Slot, ghost p: u64 -> Slot) returns (f: Frame)
    requires mem.Valid() && IsTable(mem.Bytes(), pdata, t) && AreEntries(mem.Bytes(), p)
    requires CodesEnd(mem.Bytes(), p, base, t, count, rip)
    ensures f == UnwoundIn(mem.Bytes(), p, base, t, count, rip, rsp)
  {
    var l := SearchTable(mem, pdata, Rva(rip, base), count, t);
    if !l.Found? {
      return Failed(if l.NotFound? then NoFunction else BadRead);
    }
    var i := Chain(mem, base, l.e.unwind, 16, p);
    if i.NoInfo? {
      return Failed(BadRead);
    }
    f := UnwindBy(mem, Plus(base, i.rva), Rva(rip, Plus(base, l.e.begin)), rsp);
  }

  /** Unwinding one frame. */
  method UnwindFrame(mem: ShadowPages, base: u64, rip: u64, rsp: u64) returns (f: Frame)
    requires mem.Valid() && FrameEnds(mem.Bytes(), base, rip)
    ensures f == Unwound(mem.Bytes(), base, rip, rsp)
  {
    if rip < base {
      return Failed(NoFunction);
    }
    var d := ReadDirectory(mem, base);
    if d.NoDirectory? {
      return Failed(d.why);
    }
    ghost var t, p := TableAt(mem.Bytes(), Plus(base, d.rva)), Entries(mem.Bytes());
    f := UnwindIn(mem, base, Plus(base, d.rva), d.size / 12, rip, rsp, t, p);
  }

  // ---- Unwinding inverts the prologue -------------------------------------------------------

  function Lowered(rsp: u64, n: nat): u64 {
    (rsp - n) % TWO64
  }

  /** The stack pointer after the operations of ran, the newest first, ran from an entry stack pointer. */
  function RunPrologue(entry: u64, ran: seq<Code>): u64 {
    if ran == [] then entry else Lowered(RunPrologue(entry, ran[1..]), ran[0].Bytes())
  }

  lemma RaiseLowered(rsp: u64, n: nat, k: nat)
    ensures Raised(Lowered(rsp, n), n + k) == Raised(rsp, k)
  {
    var q := (rsp - n) / TWO64;
    assert Lowered(rsp, n) == rsp - n - q * TWO64;
    DivModUnique(Lowered(rsp, n) + n + k, TWO64, (rsp + k) / TWO64 - q, (rsp + k) % TWO64);
  }

  /** Going back up by everything that ran gives the entry value back. */
  lemma {:induction false} RunThenRaise(entry: u64, ran: seq<Code>, x: nat)
    requires forall c :: c in ran ==> c.at <= x
    ensures Raised(RunPrologue(entry, ran), Depth(ran, x)) == entry
  {
    if ran == [] {
    } else {
      assert ran[0] in ran;
      RaiseLowered(RunPrologue(entry, ran[1..]), ran[0].Bytes(), Depth(ran[1..], x));
      RunThenRaise(entry, ran[1..], x);
    }
  }

  /** Operations not yet reached do not count. */
  lemma {:induction false} DepthOfRan(later: seq<Code>, ran: seq<Code>, x: nat)
    requires forall c :: c in later ==> c.at > x
    ensures Depth(later + ran, x) == Depth(ran, x)
  {
    if later == [] {
      assert later + ran == ran;
    } else {
      assert later[0] in later && (later + ran)[1..] == later[1..] + ran;
      DepthOfRan(later[1..], ran, x);
    }
  }

  /** The information block at ui: a header whose third byte counts the slots, then the codes. */
  ghost predicate InfoHolds(m: map<u64, u8>, ui: u64, codes: seq<Code>) {
    && AllWellFormed(codes) && TotalSlots(codes) < 256
    && Readable(m, ui, 4) && Loaded(m, ui, 4)[2] == TotalSlots(codes)
    && Stores(m, Plus(ui, 4), EncodeAll(codes))
  }

  lemma {:induction false} SlotEach(codes: seq<Code>)
    ensures |codes| <= TotalSlots(codes)
  {
    if codes == [] {
    } else {
      SlotEach(codes[1..]);
    }
  }

  /** With x bytes of the function behind RIP, the unwinder finds the entry stack pointer again: the return
      address is the word there and the caller's stack pointer lies eight above. */
  lemma InfoRecovers(m: map<u64, u8>, ui: u64, later: seq<Code>, ran: seq<Code>, x: u32, entry: u64)
    requires InfoHolds(m, ui, later + ran) && Readable(m, entry, 8)
    requires (forall c :: c in later ==> c.at > x) && (forall c :: c in ran ==> c.at <= x)
    ensures FromLe(Loaded(m, entry, 8)) < TWO64
    ensures UnwoundBy(m, ui, x, RunPrologue(entry, ran)) == Caller(FromLe(Loaded(m, entry, 8)), Plus(entry, 8))
  {
    var codes, a := later + ran, Plus(ui, 4);
    assert Plus(a, 0) == a;
    SlotEach(codes);
    WalkUndoes(m, a, 0, TotalSlots(codes), x, RunPrologue(entry, ran), 2 * TotalSlots(codes), codes);
    DepthOfRan(later, ran, x);
    RunThenRaise(entry, ran, x);
    EightBytes(Loaded(m, entry, 8));
  }

  /** A sorted table whose entry i covers RIP and leads, along at most sixteen chained entries, to the unwind
      information at rva, for a prologue that has run as far as RIP shows. */
  ghost predicate FrameAt(m: map<u64, u8>, p: u64 -> Slot, base: u64, t: u32 -> Slot, count: u32, i: u32, rva: u32,
                          rip: u64, later: seq<Code>, ran: seq<Code>)
  {
    && SortedTable(t, count) && i < count && rip >= base && t(i).e.Covers(Rva(rip, base))
    && FollowChain(p, base, t(i).e.unwind, 16) == InfoAt(rva) && InfoHolds(m, Plus(base, rva), later + ran)
    && var x := Rva(rip, Plus(base, t(i).e.begin));
    && (forall c :: c in later ==> c.at > x) && (forall c :: c in ran ==> c.at <= x)
  }

  lemma TableRecovers(m: map<u64, u8>, p: u64 -> Slot, base: u64, t: u32 -> Slot, count: u32, i: u32, rva: u32,
                      rip: u64, later: seq<Code>, ran: seq<Code>, entry: u64)
    requires FrameAt(m, p, base, t, count, i, rva, rip, later, ran) && Readable(m, entry, 8)
    ensures FromLe(Loaded(m, entry, 8)) < TWO64
    ensures UnwoundIn(m, p, base, t, count, rip, RunPrologue(entry, ran))
      == Caller(FromLe(Loaded(m, entry, 8)), Plus(entry, 8))
  {
    SearchFinds(t, count, Rva(rip, base), 0, count, i);
    InfoRecovers(m, Plus(base, rva), later, ran, Rva(rip, Plus(base, t(i).e.begin)), entry);
  }

  /** The whole frame: for every image with such a table, and every point of the prologue RIP may have reached,
      unwinding ends and inverts the prologue. */
  lemma FrameRecovers(m: map<u64, u8>, base: u64, i: u32, rva: u32, rip: u64, later: seq<Code>, ran: seq<Code>,
                      entry: u64)
    requires var d := DirectoryAt(m, base);
      d.Directory? &&
      FrameAt(m, Entries(m), base, TableAt(m, Plus(base, d.rva)), d.size / 12, i, rva, rip, later, ran)
    requires Readable(m, entry, 8)
    ensures FromLe(Loaded(m, entry, 8)) < TWO64 && FrameEnds(m, base, rip)
    ensures Unwound(m, base, rip, RunPrologue(entry, ran))
      == Caller(FromLe(Loaded(m, entry, 8)), Plus(entry, 8))
  {
    var d := DirectoryAt(m, base);
    TableRecovers(m, Entries(m), base, TableAt(m, Plus(base, d.rva)), d.size / 12, i, rva, rip, later, ran, entry);
    EndlessIff(m, base, rip, RunPrologue(entry, ran));
  }
}
