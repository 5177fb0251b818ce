/** The first cache level: 64 direct-mapped lines of 64 bytes. Writes enter here. */
module LineCache {
  import opened Words
  import opened Base
  import opened FlatMemory
  import opened Blocks
  import opened Shadow
  import opened CacheLines
  import PageCache

  const LINE: nat := 64
  const LINES: nat := 64

  function LineBase(x: u64): u64 {
    x - x % LINE
  }

  /** The only slot a line may live in. */
  function IndexOf(base: u64): (i: nat)
    ensures i < LINES
  {
    base / LINE % LINES
  }

  lemma LineFits(x: u64)
    ensures LineBase(x) % LINE == 0 && LineBase(x) + LINE <= TWO64 && x == LineBase(x) + x % LINE
    ensures LineBase(x) % PAGE + LINE <= PAGE
  {
  }

  /** How much of the span its first line holds. */
  function LineChunk(cur: u64, remaining: u64): (n: u64)
    ensures n <= remaining && cur % LINE + n <= LINE
    ensures remaining > 0 ==> n > 0
  {
    if LINE - cur % LINE < remaining then LINE - cur % LINE else remaining
  }

  /** Part of a line is readable exactly when all of it is. */
  lemma WholeOrNone(m: map<u64, u8>, cur: u64, n: u64)
    requires PageGranular(m) && 0 < n && cur % LINE + n <= LINE
    ensures LineBase(cur) + LINE <= TWO64
    ensures Readable(m, cur, n) <==> Readable(m, LineBase(cur), LINE)
  {
    LineFits(cur);
    AllOrNone(m, LineBase(cur), LINE, cur % LINE, n);
  }

  /** Each slot mirrors memory, and sits where its address says. */
  ghost predicate Mapped(lines: seq<Slot>, m: map<u64, u8>) {
    forall i :: 0 <= i < |lines| ==> Mirrors(lines[i], m, LINE) && (lines[i].valid ==> i == IndexOf(lines[i].tag))
  }

  class L1Cache {
    var lines: seq<Slot>
    const next: PageCache.L2Cache

    constructor (next: PageCache.L2Cache)
      requires next.Coherent()
      ensures this.next == next && Coherent()
    {
      this.next := next;
      lines := seq(LINES, _ => EMPTY);
    }

    ghost predicate Coherent()
      reads this, next, next.next, next.next.next
    {
      next.Coherent() && |lines| == LINES && Mapped(lines, next.next.next.Bytes())
    }

    ghost function Bytes(): map<u64, u8>
      requires Coherent()
      reads this, next, next.next, next.next.next
    {
      next.next.next.Bytes()
    }

    /** Make sure the line at base is in its slot, fetching it on a miss. */
    method Fill(base: u64) returns (ok: bool, status: Status)
      requires Coherent() && |lines| == LINES && base % LINE == 0 && base + LINE <= TWO64
      modifies this, next, next.next
      ensures Coherent() && |lines| == LINES
      ensures ok <==> Readable(Bytes(), base, LINE)
      ensures var s := lines[IndexOf(base)]; ok ==> s.valid && s.tag == base && Mirrors(s, Bytes(), LINE)
      ensures !ok ==> status == UnmappedRead
    {
      var i := IndexOf(base);
      ok, status := true, Ok;
      if lines[i].valid && lines[i].tag == base {
        return;
      }
      var c := next.Read(base, LINE);
      if c.ReadFailed? {
        lines := lines[i := lines[i].(valid := false)];
        return false, c.status;
      }
      lines := lines[i := Slot(true, base, c.data)];
    }

    /** n bytes inside one line. */
    method ReadChunk(cur: u64, n: u64) returns (r: ReadResult)
      requires Coherent() && |lines| == LINES && 0 < n && cur % LINE + n <= LINE
      modifies this, next, next.next
      ensures Coherent() && |lines| == LINES
      ensures r.ReadOk? <==> Readable(Bytes(), cur, n)
      ensures r.ReadOk? ==> r.data == Loaded(Bytes(), cur, n)
      ensures r.ReadFailed? ==> r.status == UnmappedRead
    {
      var base, off := LineBase(cur), cur % LINE;
      LineFits(cur);
      ghost var m := Bytes();
      next.next.next.BytesPageGranular();
      WholeOrNone(m, cur, n);
      var ok, status := Fill(base);
      if !ok {
        return ReadFailed(status);
      }
      var slot := lines[IndexOf(base)];
      SlotSlice(slot, m, LINE, off, n);
      r := ReadOk(slot.data[off..off + n]);
    }

    method Read(addr: u64, size: u64) returns (r: ReadResult)
      requires Coherent()
      modifies this, next, next.next
      ensures Coherent()
      ensures r.ReadOk? <==> Readable(Bytes(), addr, size)
      ensures r.ReadOk? ==> r.data == Loaded(Bytes(), addr, size)
      ensures r.ReadFailed? ==> r.status == UnmappedRead
    {
      ghost var m := Bytes();
      var out: seq<u8> := [];
      var cur: u64, remaining: u64 := addr, size;
      ghost var done: u64 := 0;
      while remaining > 0
        invariant Coherent() && |lines| == LINES && Bytes() == m && done + remaining == size && cur == Plus(addr, done)
        invariant PartlyRead(m, addr, done, out)
        decreases remaining
      {
        var n := LineChunk(cur, remaining);
        var c := ReadChunk(cur, n);
        if c.ReadFailed? {
          ReadStuck(m, addr, done, n, size);
          return c;
        }
        ReadMore(m, addr, done, n, out, c.data);
        out, cur, remaining, done := out + c.data, Plus(cur, n), remaining - n, done + n;
      }
      r := ReadOk(out);
    }

    method PatchChunk(cur: u64, chunk: seq<u8>, ghost m: map<u64, u8>)
      requires |lines| == LINES && 0 < |chunk| && cur % LINE + |chunk| <= LINE && Mapped(lines, m)
      modifies `lines
      ensures |lines| == LINES && Mapped(lines, Stored(m, cur, chunk))
    {
      var base, off := LineBase(cur), cur % LINE;
      var i := IndexOf(base);
      LineFits(cur);
      forall j | 0 <= j < LINES
        ensures Mirrors(AfterStore(lines[j], base, off, chunk), Stored(m, cur, chunk), LINE)
      {
        StoreMirrors(lines[j], m, LINE, base, off, chunk);
      }
      if lines[i].valid && lines[i].tag == base {
        lines := lines[i := AfterStore(lines[i], base, off, chunk)];
      }
    }

    method PatchAll(addr: u64, data: seq<u8>, ghost m: map<u64, u8>)
      requires |lines| == LINES && |data| < TWO64 && Mapped(lines, m)
      modifies `lines
      ensures |lines| == LINES && Mapped(lines, Stored(m, addr, data))
    {
      StoreNothing(m, addr);
      var cur: u64, done: u64 := addr, 0;
      while done < |data|
        invariant done <= |data| && cur == Plus(addr, done) && |lines| == LINES
        invariant Mapped(lines, Stored(m, addr, data[..done]))
      {
        var n := LineChunk(cur, |data| - done);
        PatchChunk(cur, data[done..done + n], Stored(m, addr, data[..done]));
        StoreMore(m, addr, data, done, n);
        cur, done := Plus(cur, n), done + n;
      }
      assert data[..done] == data;
    }

    /** Write-through: the levels below first, then every cached line the store falls into. */
    method Write(addr: u64, data: seq<u8>) returns (status: Status)
      requires Coherent() && |data| < TWO64
      modifies this, next, next.next, next.next.next`pages, next.next.next.listener
      ensures Coherent()
      ensures status == (if MayWrite(old(next.next.next.Flat()), addr, |data|) then Ok else ProtectionViolation)
      ensures status == Ok ==> Bytes() == Stored(old(Bytes()), addr, data)
      ensures status != Ok ==> Bytes() == old(Bytes())
      ensures next.next.next.listener.blocks
        == if status == Ok then AfterWrite(old(next.next.next.listener.blocks), next.next.next.codes, addr, |data|)
           else old(next.next.next.listener.blocks)
    {
      ghost var m := Bytes();
      status := next.Write(addr, data);
      if status == Ok {
        PatchAll(addr, data, m);
      }
    }

    method DropAt(base: u64)
      requires Coherent() && |lines| > 0
      modifies `lines
      ensures Coherent() && |lines| == |old(lines)|
      ensures forall j :: 0 <= j < |lines| ==>
        lines[j] == Struck(old(lines)[j], old(lines)[j].valid && old(lines)[j].tag == base)
    {
      var i := IndexOf(base);
      if lines[i].valid && lines[i].tag == base {
        lines := lines[i := lines[i].(valid := false)];
      }
    }

    /** The lines met going from the one of addr to the one of the span's last byte. */
    method DropWalk(start: u64, end: u64)
      requires Coherent() && |lines| > 0 && start % LINE == 0 && end % LINE == 0
      modifies `lines
      ensures Coherent() && |lines| == |old(lines)|
      ensures forall j :: 0 <= j < |lines| ==>
        lines[j] == Struck(old(lines)[j], Reached(old(lines)[j], start, Offset(end, start) + LINE))
    {
      ghost var was := lines;
      assert forall j :: 0 <= j < |was| ==> Placed(was[j], LINE);
      var p: u64 := start;
      DropAt(p);
      forall j | 0 <= j < |was|
        ensures lines[j] == Struck(was[j], Reached(was[j], start, Offset(p, start) + LINE))
      {
        ReachedNext(was[j], start, p, LINE);
      }
      while p != end
        invariant Coherent() && |lines| == |was| && p % LINE == 0 && Offset(p, start) <= Offset(end, start)
        invariant forall j :: 0 <= j < |was| ==>
          lines[j] == Struck(was[j], Reached(was[j], start, Offset(p, start) + LINE))
        decreases Offset(end, start) - Offset(p, start)
      {
        NextStretch(start, p, end, LINE);
        ghost var done := Offset(p, start) + LINE;
        p := Plus(p, LINE);
        DropAt(p);
        forall j | 0 <= j < |was|
          ensures lines[j] == Struck(was[j], Reached(was[j], start, done + LINE))
        {
          ReachedNext(was[j], start, p, LINE);
        }
      }
    }

    /** Exactly the lines that hold a byte of the span are dropped, also when it goes round the address
        space; a span that comes round to the line it began in drops that line alone. */
    method Invalidate(addr: u64, size: u64)
      requires Coherent()
      modifies `lines
      ensures Coherent() && |lines| == |old(lines)|
      ensures size == 0 ==> lines == old(lines)
      ensures size > 0 && addr % LINE + size <= TWO64 ==> forall j :: 0 <= j < |lines| ==>
        lines[j] == Struck(old(lines)[j], !Clear(old(lines)[j], addr, size, LINE))
      ensures addr % LINE + size > TWO64 ==> forall j :: 0 <= j < |lines| ==>
        lines[j] == Struck(old(lines)[j], old(lines)[j].valid && old(lines)[j].tag == LineBase(addr))
    {
      if |lines| == 0 || size == 0 {
        return;
      }
      var last := Plus(addr, size - 1);
      var start, end := LineBase(addr), LineBase(last);
      LineFits(addr);
      LineFits(last);
      ghost var was := lines;
      DropWalk(start, end);
      forall j | 0 <= j < |was|
        ensures Placed(was[j], LINE)
        ensures addr % LINE + size <= TWO64 ==> lines[j] == Struck(was[j], !Clear(was[j], addr, size, LINE))
        ensures addr % LINE + size > TWO64 ==>
          lines[j] == Struck(was[j], was[j].valid && was[j].tag == start)
      {
        DroppedSlot(was[j], addr, size, LINE, start, end);
      }
    }

    method Flush()
      requires Coherent()
      modifies `lines
      ensures Coherent() && forall i :: 0 <= i < |lines| ==> !lines[i].valid
    {
      lines := seq(|lines|, _ => EMPTY);
    }
  }
}
