/** The second cache level: 256 direct-mapped pages of 4 KiB, allocated on the first read. */
module PageCache {
  import opened Words
  import opened Base
  import opened FlatMemory
  import opened Blocks
  import opened Shadow
  import opened CacheLines
  import RegionCache

  const ENTRIES: nat := 256

  function PageBase(x: u64): u64 {
    x - x % PAGE
  }

  /** The only slot a page may live in. */
  function IndexOf(base: u64): (i: nat)
    ensures i < ENTRIES
  {
    base / PAGE % ENTRIES
  }

  lemma PageFits(x: u64)
    ensures PageBase(x) % PAGE == 0 && PageBase(x) + PAGE <= TWO64 && x == PageBase(x) + x % PAGE
    ensures PageBase(x) % PAGE + PAGE <= PAGE
  {
  }

  /** How much of the span its first page holds. */
  function PageChunk(cur: u64, remaining: u64): (n: u64)
    ensures n <= remaining && cur % PAGE + n <= PAGE
    ensures remaining > 0 ==> n > 0
  {
    if PAGE - cur % PAGE < remaining then PAGE - cur % PAGE else remaining
  }

  /** Part of a page is readable exactly when all of it is. */
  lemma WholeOrNone(m: map<u64, u8>, cur: u64, n: u64)
    requires PageGranular(m) && 0 < n && cur % PAGE + n <= PAGE
    ensures PageBase(cur) + PAGE <= TWO64
    ensures Readable(m, cur, n) <==> Readable(m, PageBase(cur), PAGE)
  {
    PageFits(cur);
    AllOrNone(m, PageBase(cur), PAGE, cur % PAGE, n);
  }

  /** Each slot mirrors memory, and sits where its address says. */
  ghost predicate Mapped(pages: seq<Slot>, m: map<u64, u8>) {
    forall i :: 0 <= i < |pages| ==> Mirrors(pages[i], m, PAGE) && (pages[i].valid ==> i == IndexOf(pages[i].tag))
  }

  class L2Cache {
    var pages: seq<Slot>
    const next: RegionCache.L3Cache

    constructor (next: RegionCache.L3Cache)
      requires next.Coherent()
      ensures this.next == next && Coherent()
    {
      this.next := next;
      pages := [];
    }

    ghost predicate Coherent()
      reads this, next, next.next
    {
      next.Coherent() && (|pages| == 0 || |pages| == ENTRIES) && Mapped(pages, next.next.Bytes())
    }

    ghost function Bytes(): map<u64, u8>
      requires Coherent()
      reads this, next, next.next
    {
      next.next.Bytes()
    }

    /** Make sure the page at base is in its slot, fetching it on a miss. */
    method Fill(base: u64) returns (ok: bool, status: Status)
      requires Coherent() && |pages| == ENTRIES && base % PAGE == 0 && base + PAGE <= TWO64
      modifies this, next
      ensures Coherent() && |pages| == ENTRIES
      ensures ok <==> Readable(Bytes(), base, PAGE)
      ensures var s := pages[IndexOf(base)]; ok ==> s.valid && s.tag == base && Mirrors(s, Bytes(), PAGE)
      ensures !ok ==> status == UnmappedRead
    {
      var i := IndexOf(base);
      ok, status := true, Ok;
      if pages[i].valid && pages[i].tag == base {
        return;
      }
      var c := next.Read(base, PAGE);
      if c.ReadFailed? {
        pages := pages[i := pages[i].(valid := false)];
        return false, c.status;
      }
      pages := pages[i := Slot(true, base, c.data)];
    }

    /** n bytes inside one page. */
    method ReadChunk(cur: u64, n: u64) returns (r: ReadResult)
      requires Coherent() && |pages| == ENTRIES && 0 < n && cur % PAGE + n <= PAGE
      modifies this, next
      ensures Coherent() && |pages| == ENTRIES
      ensures r.ReadOk? <==> Readable(Bytes(), cur, n)
      ensures r.ReadOk? ==> r.data == Loaded(Bytes(), cur, n)
      ensures r.ReadFailed? ==> r.status == UnmappedRead
    {
      var base, off := PageBase(cur), cur % PAGE;
      PageFits(cur);
      ghost var m := Bytes();
      next.next.BytesPageGranular();
      WholeOrNone(m, cur, n);
      var ok, status := Fill(base);
      if !ok {
        return ReadFailed(status);
      }
      var slot := pages[IndexOf(base)];
      SlotSlice(slot, m, PAGE, off, n);
      r := ReadOk(slot.data[off..off + n]);
    }

    method Read(addr: u64, size: u64) returns (r: ReadResult)
      requires Coherent()
      modifies this, next
      ensures Coherent()
      ensures r.ReadOk? <==> Readable(Bytes(), addr, size)
      ensures r.ReadOk? ==> r.data == Loaded(Bytes(), addr, size)
      ensures r.ReadFailed? ==> r.status == UnmappedRead
    {
      if |pages| == 0 {
        pages := seq(ENTRIES, _ => EMPTY);
      }
      ghost var m := Bytes();
      var out: seq<u8> := [];
      var cur: u64, remaining: u64 := addr, size;
      ghost var done: u64 := 0;
      while remaining > 0
        invariant Coherent() && |pages| == ENTRIES && Bytes() == m
        invariant done + remaining == size && cur == Plus(addr, done)
        invariant PartlyRead(m, addr, done, out)
        decreases remaining
      {
        var n := PageChunk(cur, remaining);
        var c := ReadChunk(cur, n);
        if c.ReadFailed? {
          ReadStuck(m, addr, done, n, size);
          return c;
        }
        ReadMore(m, addr, done, n, out, c.data);
        out, cur, remaining, done := out + c.data, Plus(cur, n), remaining - n, done + n;
      }
      r := ReadOk(out);
    }

    method PatchChunk(cur: u64, chunk: seq<u8>, ghost m: map<u64, u8>)
      requires |pages| == ENTRIES && 0 < |chunk| && cur % PAGE + |chunk| <= PAGE && Mapped(pages, m)
      modifies `pages
      ensures |pages| == ENTRIES && Mapped(pages, Stored(m, cur, chunk))
    {
      var base, off := PageBase(cur), cur % PAGE;
      var i := IndexOf(base);
      PageFits(cur);
      forall j | 0 <= j < ENTRIES
        ensures Mirrors(AfterStore(pages[j], base, off, chunk), Stored(m, cur, chunk), PAGE)
      {
        StoreMirrors(pages[j], m, PAGE, base, off, chunk);
      }
      if pages[i].valid && pages[i].tag == base {
        pages := pages[i := AfterStore(pages[i], base, off, chunk)];
      }
    }

    method PatchAll(addr: u64, data: seq<u8>, ghost m: map<u64, u8>)
      requires |pages| == ENTRIES && |data| < TWO64 && Mapped(pages, m)
      modifies `pages
      ensures |pages| == ENTRIES && Mapped(pages, Stored(m, addr, data))
    {
      StoreNothing(m, addr);
      var cur: u64, done: u64 := addr, 0;
      while done < |data|
        invariant done <= |data| && cur == Plus(addr, done) && |pages| == ENTRIES
        invariant Mapped(pages, Stored(m, addr, data[..done]))
      {
        var n := PageChunk(cur, |data| - done);
        PatchChunk(cur, data[done..done + n], Stored(m, addr, data[..done]));
        StoreMore(m, addr, data, done, n);
        cur, done := Plus(cur, n), done + n;
      }
      assert data[..done] == data;
    }

    /** Write-through: the levels below first, then every cached page the store falls into. */
    method Write(addr: u64, data: seq<u8>) returns (status: Status)
      requires Coherent() && |data| < TWO64
      modifies this, next, next.next`pages, next.next.listener
      ensures Coherent()
      ensures status == (if MayWrite(old(next.next.Flat()), addr, |data|) then Ok else ProtectionViolation)
      ensures status == Ok ==> Bytes() == Stored(old(Bytes()), addr, data)
      ensures status != Ok ==> Bytes() == old(Bytes())
      ensures next.next.listener.blocks
        == if status == Ok then AfterWrite(old(next.next.listener.blocks), next.next.codes, addr, |data|)
           else old(next.next.listener.blocks)
    {
      ghost var m := Bytes();
      status := next.Write(addr, data);
      if status == Ok && |pages| > 0 {
        PatchAll(addr, data, m);
      }
    }

    method DropAt(base: u64)
      requires Coherent() && |pages| > 0
      modifies `pages
      ensures Coherent() && |pages| == |old(pages)|
      ensures forall j :: 0 <= j < |pages| ==>
        pages[j] == Struck(old(pages)[j], old(pages)[j].valid && old(pages)[j].tag == base)
    {
      var i := IndexOf(base);
      if pages[i].valid && pages[i].tag == base {
        pages := pages[i := pages[i].(valid := false)];
      }
    }

    /** The pages met going from the one of addr to the one of the span's last byte. */
    method DropWalk(start: u64, end: u64)
      requires Coherent() && |pages| > 0 && start % PAGE == 0 && end % PAGE == 0
      modifies `pages
      ensures Coherent() && |pages| == |old(pages)|
      ensures forall j :: 0 <= j < |pages| ==>
        pages[j] == Struck(old(pages)[j], Reached(old(pages)[j], start, Offset(end, start) + PAGE))
    {
      ghost var was := pages;
      assert forall j :: 0 <= j < |was| ==> Placed(was[j], PAGE);
      var p: u64 := start;
      DropAt(p);
      forall j | 0 <= j < |was|
        ensures pages[j] == Struck(was[j], Reached(was[j], start, Offset(p, start) + PAGE))
      {
        ReachedNext(was[j], start, p, PAGE);
      }
      while p != end
        invariant Coherent() && |pages| == |was| && p % PAGE == 0 && Offset(p, start) <= Offset(end, start)
        invariant forall j :: 0 <= j < |was| ==>
          pages[j] == Struck(was[j], Reached(was[j], start, Offset(p, start) + PAGE))
        decreases Offset(end, start) - Offset(p, start)
      {
        NextStretch(start, p, end, PAGE);
        ghost var done := Offset(p, start) + PAGE;
        p := Plus(p, PAGE);
        DropAt(p);
        forall j | 0 <= j < |was|
          ensures pages[j] == Struck(was[j], Reached(was[j], start, done + PAGE))
        {
          ReachedNext(was[j], start, p, PAGE);
        }
      }
    }

    /** Exactly the pages that hold a byte of the span are dropped, also when it goes round the address
        space; a span that comes round to the page it began in drops that page alone. */
    method Invalidate(addr: u64, size: u64)
      requires Coherent()
      modifies `pages
      ensures Coherent() && |pages| == |old(pages)|
      ensures size == 0 ==> pages == old(pages)
      ensures size > 0 && addr % PAGE + size <= TWO64 ==> forall j :: 0 <= j < |pages| ==>
        pages[j] == Struck(old(pages)[j], !Clear(old(pages)[j], addr, size, PAGE))
      ensures addr % PAGE + size > TWO64 ==> forall j :: 0 <= j < |pages| ==>
        pages[j] == Struck(old(pages)[j], old(pages)[j].valid && old(pages)[j].tag == PageBase(addr))
    {
      if |pages| == 0 || size == 0 {
        return;
      }
      var last := Plus(addr, size - 1);
      var start, end := PageBase(addr), PageBase(last);
      PageFits(addr);
      PageFits(last);
      ghost var was := pages;
      DropWalk(start, end);
      forall j | 0 <= j < |was|
        ensures Placed(was[j], PAGE)
        ensures addr % PAGE + size <= TWO64 ==> pages[j] == Struck(was[j], !Clear(was[j], addr, size, PAGE))
        ensures addr % PAGE + size > TWO64 ==>
          pages[j] == Struck(was[j], was[j].valid && was[j].tag == start)
      {
        DroppedSlot(was[j], addr, size, PAGE, start, end);
      }
    }

    method Flush()
      requires Coherent()
      modifies `pages
      ensures Coherent() && forall i :: 0 <= i < |pages| ==> !pages[i].valid
    {
      pages := seq(|pages|, _ => EMPTY);
    }
  }
}
