/** The copy-on-write page store over a fixed backing, and the flat memory it amounts to. */
module Shadow {
  import opened Words
  import opened Base
  import opened FlatMemory
  import opened Blocks

  lemma InPage(a: u64, i: nat)
    requires a % PAGE + i < PAGE
    ensures a + i < TWO64 && Plus(a, i) == a + i
    ensures PageOf(a + i) == PageOf(a) && (a + i) % PAGE == a % PAGE + i
  {
    DivModUnique(a + i, PAGE, a / PAGE, a % PAGE + i);
  }

  /** A byte of another page is outside a span that stays in one page. */
  lemma OtherPage(x: u64, a: u64, n: nat)
    requires PageOf(x) != PageOf(a) && a % PAGE + n <= PAGE
    ensures !Within(x, a, n) && !Touched(x, a, n)
  {
    assert x == PageOf(x) + x % PAGE && a == PageOf(a) + a % PAGE;
    assert PageOf(x) % PAGE == 0 && PageOf(a) % PAGE == 0;
  }

  lemma StoreNothing(m: map<u64, u8>, a: u64)
    ensures Stored(m, a, []) == m
  {
  }

  lemma WithinSplit(x: u64, a: u64, n: nat, k: nat)
    requires n + k < TWO64
    ensures Within(x, a, n + k) <==> Within(x, a, n) || Within(x, Plus(a, n), k)
    ensures Within(x, Plus(a, n), k) && !Within(x, a, n) ==> Offset(x, a) == n + Offset(x, Plus(a, n))
    ensures Within(x, a, n) ==> !Within(x, Plus(a, n), k)
  {
  }

  /** A step that stays above b's page start stays in b's page. */
  lemma ShortStep(a: u64, n: nat)
    requires n < TWO64
    ensures Plus(a, n) % PAGE > n ==> PageOf(a) == PageOf(Plus(a, n))
  {
    var b := Plus(a, n);
    if b % PAGE > n {
      InPage(PageOf(b), b % PAGE - n);
    }
  }

  lemma TouchedSplit(x: u64, a: u64, n: nat, k: nat)
    requires n + k < TWO64
    ensures Touched(x, a, n + k) <==> Touched(x, a, n) || Touched(x, Plus(a, n), k)
  {
    WithinSplit(PageOf(x), a, n, k);
    if n > 0 && k > 0 && PageOf(Plus(a, n)) == PageOf(x) && PageOf(a) != PageOf(x) {
      var b := Plus(a, n);
      assert b == PageOf(x) + b % PAGE;
      ShortStep(a, n);
      assert Offset(PageOf(x), a) == n - b % PAGE;
    }
  }

  datatype Cell = Gap | Holds(v: u8)

  ghost function Peek(m: map<u64, u8>, x: u64): Cell {
    if x in m then Holds(m[x]) else Gap
  }

  /** The byte of data that a store at a puts at x. */
  function Piece(data: seq<u8>, a: u64, x: u64): u8 {
    if Within(x, a, |data|) then data[Offset(x, a)] else 0
  }

  lemma StoredPeek(m: map<u64, u8>, a: u64, data: seq<u8>, x: u64)
    ensures Peek(Stored(m, a, data), x)
         == if Within(x, a, |data|) then Holds(Piece(data, a, x))
            else if Peek(m, x).Gap? && Touched(x, a, |data|) then Holds(0) else Peek(m, x)
  {
    if Within(x, a, |data|) {
      WithinTouched(x, a, |data|);
    }
  }

  lemma PieceSplit(d1: seq<u8>, d2: seq<u8>, a: u64, x: u64)
    requires |d1| + |d2| < TWO64
    ensures Piece(d1 + d2, a, x) == if Within(x, a, |d1|) then Piece(d1, a, x) else Piece(d2, Plus(a, |d1|), x)
  {
    WithinSplit(x, a, |d1|, |d2|);
  }

  lemma StoreStoreAt(m: map<u64, u8>, a: u64, d1: seq<u8>, d2: seq<u8>, x: u64)
    requires |d1| + |d2| < TWO64
    ensures Peek(Stored(Stored(m, a, d1), Plus(a, |d1|), d2), x) == Peek(Stored(m, a, d1 + d2), x)
  {
    var b := Plus(a, |d1|);
    assert |d1 + d2| == |d1| + |d2|;
    StoredPeek(m, a, d1 + d2, x);
    StoredPeek(m, a, d1, x);
    StoredPeek(Stored(m, a, d1), b, d2, x);
    PieceSplit(d1, d2, a, x);
    WithinSplit(x, a, |d1|, |d2|);
    TouchedSplit(x, a, |d1|, |d2|);
  }

  /** Storing in two pieces is storing the whole. */
  lemma StoreStore(m: map<u64, u8>, a: u64, d1: seq<u8>, d2: seq<u8>)
    requires |d1| + |d2| < TWO64
    ensures Stored(Stored(m, a, d1), Plus(a, |d1|), d2) == Stored(m, a, d1 + d2)
  {
    forall x: u64
      ensures Peek(Stored(Stored(m, a, d1), Plus(a, |d1|), d2), x) == Peek(Stored(m, a, d1 + d2), x)
    {
      StoreStoreAt(m, a, d1, d2, x);
    }
    SamePeeks(Stored(Stored(m, a, d1), Plus(a, |d1|), d2), Stored(m, a, d1 + d2));
  }

  lemma SamePeeks(m: map<u64, u8>, n: map<u64, u8>)
    requires forall x: u64 :: Peek(m, x) == Peek(n, x)
    ensures m == n
  {
    forall x: u64
      ensures x in m <==> x in n
      ensures x in m ==> m[x] == n[x]
    {
      assert Peek(m, x) == Peek(n, x);
    }
  }

  lemma ReadableSplit(m: map<u64, u8>, a: u64, n: nat, k: nat)
    requires n + k < TWO64
    ensures Readable(m, a, n + k) <==> Readable(m, a, n) && Readable(m, Plus(a, n), k)
    ensures Readable(m, a, n + k) ==> Loaded(m, a, n + k) == Loaded(m, a, n) + Loaded(m, Plus(a, n), k)
  {
    assert forall i: nat :: i < k ==> Plus(Plus(a, n), i) == Plus(a, n + i);
    if Readable(m, a, n) && Readable(m, Plus(a, n), k) {
      forall i | 0 <= i < n + k
        ensures Plus(a, i) in m
      {
        if i >= n {
          assert Plus(Plus(a, n), i - n) in m;
        }
      }
    }
  }

  /** The first n bytes at a have been read into out. */
  ghost predicate PartlyRead(m: map<u64, u8>, a: u64, n: nat, out: seq<u8>)
    requires n <= TWO64
  {
    Readable(m, a, n) && out == Loaded(m, a, n)
  }

  /** One more piece read. */
  lemma ReadMore(m: map<u64, u8>, a: u64, done: u64, n: u64, out: seq<u8>, data: seq<u8>)
    requires done + n < TWO64 && PartlyRead(m, a, done, out)
    requires Readable(m, Plus(a, done), n) && data == Loaded(m, Plus(a, done), n)
    ensures PartlyRead(m, a, done + n, out + data) && Plus(Plus(a, done), n) == Plus(a, done + n)
  {
    ReadableSplit(m, a, done, n);
  }

  /** A piece that cannot be read spoils the whole. */
  lemma ReadStuck(m: map<u64, u8>, a: u64, done: u64, n: u64, size: u64)
    requires done + n <= size && !Readable(m, Plus(a, done), n)
    ensures !Readable(m, a, size)
  {
    ReadableSplit(m, a, done, size - done);
    ReadableSplit(m, Plus(a, done), n, size - done - n);
  }

  /** As much of the span as its first page holds. */
  function ChunkSize(cur: u64, remaining: u64): (n: u64)
    ensures n <= remaining && cur % PAGE + n <= PAGE
    ensures remaining > 0 ==> n > 0
  {
    if PAGE - cur % PAGE < remaining then PAGE - cur % PAGE else remaining
  }

  // ---- The store ---------------------------------------------------------------------

  lemma StoreMore(m: map<u64, u8>, a: u64, data: seq<u8>, done: u64, n: u64)
    requires done + n <= |data| < TWO64
    ensures Stored(Stored(m, a, data[..done]), Plus(a, done), data[done..done + n]) == Stored(m, a, data[..done + n])
  {
    StoreStore(m, a, data[..done], data[done..done + n]);
    assert data[..done] + data[done..done + n] == data[..done + n];
  }

  datatype ReadResult = ReadOk(data: seq<u8>) | ReadFailed(status: Status)

  /** The backing answers for whole pages. */
  predicate PageGranular(backing: map<u64, u8>) {
    forall x: u64, y: u64 :: x in backing && PageOf(x) == PageOf(y) ==> y in backing
  }

  predicate PagePrivate(privates: seq<Range>, page: u64) {
    RangeIsPrivate(privates, page, PAGE)
  }

  /** Overwriting part of a page changes the written bytes and no others. */
  lemma Spliced(before: seq<u8>, chunk: seq<u8>, cur: u64, x: u64)
    requires |before| == PAGE && cur % PAGE + |chunk| <= PAGE && 0 < |chunk| && PageOf(x) == PageOf(cur)
    ensures var off := cur % PAGE;
      (before[..off] + chunk + before[off + |chunk|..])[x % PAGE]
      == if Within(x, cur, |chunk|) then Piece(chunk, cur, x) else before[x % PAGE]
    ensures Touched(x, cur, |chunk|)
  {
    assert x - cur == x % PAGE - cur % PAGE;
  }

  /** With a page-granular backing a page is readable whole or not at all. */
  lemma NewPageByte(backing: map<u64, u8>, page: u64, x: u64)
    requires PageGranular(backing) && page % PAGE == 0 && PageOf(x) == page
    ensures Readable(backing, page, PAGE) <==> x in backing
    ensures Plus(page, x % PAGE) == x
  {
    if x in backing {
      forall i | 0 <= i < PAGE
        ensures Plus(page, i) in backing
      {
        InPage(page, i);
      }
    } else {
      assert Plus(page, x % PAGE) !in backing;
    }
  }

  class ShadowPages {
    var pages: map<u64, seq<u8>>
    var privates: seq<Range>
    var prots: seq<ProtRange>
    var codes: seq<Range>
    const backing: map<u64, u8>
    const listener: BlockCache

    constructor (backing: map<u64, u8>, listener: BlockCache)
      requires PageGranular(backing)
      ensures Valid() && this.backing == backing && this.listener == listener
      ensures pages == map[] && privates == [] && prots == [] && codes == []
    {
      this.backing, this.listener := backing, listener;
      pages, privates, prots, codes := map[], [], [], [];
    }

    ghost predicate Valid()
      reads this
    {
      && PageGranular(backing)
      && forall p :: p in pages ==> p % PAGE == 0 && |pages[p]| == PAGE
    }

    /** The byte a reader finds at x: the shadow page, else zero in a private page, else the backing. */
    ghost function ByteAt(x: u64): Cell
      requires Valid()
      reads this
    {
      if PageOf(x) in pages then Holds(pages[PageOf(x)][x % PAGE])
      else if PagePrivate(privates, PageOf(x)) then Holds(0)
      else Peek(backing, x)
    }

    ghost function Bytes(): (m: map<u64, u8>)
      requires Valid()
      reads this
      ensures forall x: u64 :: Peek(m, x) == ByteAt(x)
    {
      map x: u64 | ByteAt(x).Holds? :: ByteAt(x).v
    }

    ghost function Flat(): Space
      requires Valid()
      reads this
    {
      Space(Bytes(), privates, prots, codes)
    }

    lemma BytesPageGranular()
      requires Valid()
      ensures PageGranular(Bytes())
    {
      forall x: u64, y: u64 | x in Bytes() && PageOf(x) == PageOf(y)
        ensures y in Bytes()
      {
        assert Peek(Bytes(), x) == ByteAt(x) && Peek(Bytes(), y) == ByteAt(y);
      }
    }

    method AddPrivateRegion(base: u64, size: u64)
      requires Valid()
      modifies `privates
      ensures Valid() && privates == old(privates) + [Range(base, size)]
    {
      privates := privates + [Range(base, size)];
    }

    method AddCodeRange(base: u64, size: u64)
      requires Valid()
      modifies `codes
      ensures Valid() && codes == old(codes) + [Range(base, size)] && Bytes() == old(Bytes())
    {
      codes := codes + [Range(base, size)];
    }

    method Protect(base: u64, size: u64, prot: u8)
      requires Valid()
      modifies `prots
      ensures Valid() && prots == old(prots) + [ProtRange(base, size, prot)] && Bytes() == old(Bytes())
    {
      prots := prots + [ProtRange(base, size, prot)];
    }

    /** Byte i of a span inside one page. */
    lemma ChunkByte(cur: u64, n: u64, i: u64)
      requires Valid() && cur % PAGE + n <= PAGE && i < n
      ensures ByteAt(Plus(cur, i))
           == if PageOf(cur) in pages then Holds(pages[PageOf(cur)][cur % PAGE + i])
              else if PagePrivate(privates, PageOf(cur)) then Holds(0)
              else Peek(backing, Plus(cur, i))
      ensures Peek(Bytes(), Plus(cur, i)) == ByteAt(Plus(cur, i))
    {
      InPage(cur, i);
    }

    /** n bytes inside one page. */
    method ReadChunk(cur: u64, n: u64) returns (r: ReadResult)
      requires Valid() && 0 < n && cur % PAGE + n <= PAGE
      ensures r.ReadOk? <==> Readable(Bytes(), cur, n)
      ensures r.ReadOk? ==> r.data == Loaded(Bytes(), cur, n)
      ensures r.ReadFailed? ==> r.status == UnmappedRead
    {
      var page, off := PageOf(cur), cur % PAGE;
      forall i: u64 | i < n
        ensures Peek(Bytes(), Plus(cur, i))
             == if page in pages then Holds(pages[page][off + i])
                else if PagePrivate(privates, page) then Holds(0)
                else Peek(backing, Plus(cur, i))
      {
        ChunkByte(cur, n, i);
      }
      if page in pages {
        r := ReadOk(pages[page][off..off + n]);
      } else if PagePrivate(privates, page) {
        r := ReadOk(seq(n, _ => 0));
      } else if Readable(backing, cur, n) {
        r := ReadOk(seq(n, i requires 0 <= i < n => backing[Plus(cur, i)]));
      } else {
        r := ReadFailed(UnmappedRead);
      }
    }

    /** read: Ok exactly when every byte can be read, and then those bytes. */
    method Read(addr: u64, size: u64) returns (r: ReadResult)
      requires Valid()
      ensures r.ReadOk? <==> Readable(Bytes(), addr, size)
      ensures r.ReadOk? ==> r.data == Loaded(Bytes(), addr, size)
      ensures r.ReadFailed? ==> r.status == UnmappedRead
    {
      ghost var m := Bytes();
      var out: seq<u8> := [];
      var cur: u64, remaining: u64 := addr, size;
      ghost var done: u64 := 0;
      while remaining > 0
        invariant done + remaining == size && cur == Plus(addr, done)
        invariant PartlyRead(m, addr, done, out)
        decreases remaining
      {
        var n := ChunkSize(cur, remaining);
        var c := ReadChunk(cur, n);
        if c.ReadFailed? {
          ReadStuck(m, addr, done, n, size);
          return c;
        }
        ReadMore(m, addr, done, n, out, c.data);
        out, cur, remaining, done := out + c.data, Plus(cur, n), remaining - n, done + n;
      }
      r := ReadOk(out);
    }

    /** The page at page, copied in from the backing or zero-filled on first touch: what could be read
        still reads the same, and the rest of the page now reads as zero. */
    method GetOrMakePage(page: u64)
      requires Valid() && page % PAGE == 0
      modifies `pages
      ensures Valid() && page in pages
      ensures forall x: u64 ::
        ByteAt(x) == if PageOf(x) == page && old(ByteAt(x)).Gap? then Holds(0) else old(ByteAt(x))
    {
      if page in pages {
        return;
      }
      if !PagePrivate(privates, page) && Readable(backing, page, PAGE) {
        pages := pages[page := seq(PAGE, i requires 0 <= i < PAGE => backing[Plus(page, i)])];
      } else {
        pages := pages[page := seq(PAGE, _ => 0)];
      }
      forall x: u64 | PageOf(x) == page
        ensures ByteAt(x) == if old(ByteAt(x)).Gap? then Holds(0) else old(ByteAt(x))
      {
        NewPageByte(backing, page, x);
      }
    }

    /** Store a piece that stays inside one page. */
    method WriteChunk(cur: u64, chunk: seq<u8>)
      requires Valid() && 0 < |chunk| && cur % PAGE + |chunk| <= PAGE
      modifies `pages
      ensures Valid() && Bytes() == Stored(old(Bytes()), cur, chunk)
    {
      var page, off := PageOf(cur), cur % PAGE;
      ghost var m := Bytes();
      GetOrMakePage(page);
      var before := pages[page];
      pages := pages[page := before[..off] + chunk + before[off + |chunk|..]];
      forall x: u64
        ensures Peek(Bytes(), x) == Peek(Stored(m, cur, chunk), x)
      {
        StoredPeek(m, cur, chunk, x);
        if PageOf(x) == page {
          Spliced(before, chunk, cur, x);
        } else {
          OtherPage(x, cur, |chunk|);
        }
      }
      SamePeeks(Bytes(), Stored(m, cur, chunk));
    }

    /** Every byte of the span must be writable once any range is protected. */
    method CheckWrite(addr: u64, size: u64) returns (ok: bool)
      requires Valid()
      ensures ok == MayWrite(Flat(), addr, size)
    {
      if |prots| == 0 {
        return true;
      }
      var cur, end := addr, Plus(addr, size);
      while cur < end
        invariant addr + size < TWO64 ==> addr <= cur <= end
        invariant addr + size >= TWO64 ==> cur == addr
        invariant addr + size < TWO64 ==> forall x: u64 :: addr <= x < cur ==> Writable(Flat(), x)
        decreases TWO64 - cur
      {
        if PermOf(prots, privates, cur) / 2 % 2 != 1 {
          assert !Writable(Flat(), cur);
          return false;
        }
        cur := cur + 1;
      }
      ok := true;
    }

    /** Tell the listener about a write that overlaps a code range. */
    method Notify(addr: u64, size: u64)
      requires Valid()
      modifies listener
      ensures listener.blocks == AfterWrite(old(listener.blocks), codes, addr, size)
    {
      var i := 0;
      while i < |codes|
        invariant i <= |codes| && listener.blocks == old(listener.blocks)
        invariant forall j :: 0 <= j < i ==> !(addr < codes[j].End() && Plus(addr, size) > codes[j].base)
      {
        if addr < codes[i].End() && Plus(addr, size) > codes[i].base {
          listener.InvalidateRange(addr, size);
          return;
        }
        i := i + 1;
      }
    }

    /** write: refused without effect, or stored byte for byte with the listener told. */
    method Write(addr: u64, data: seq<u8>) returns (status: Status)
      requires Valid() && |data| < TWO64
      modifies `pages, listener
      ensures Valid()
      ensures status == (if MayWrite(old(Flat()), addr, |data|) then Ok else ProtectionViolation)
      ensures status == Ok ==> Bytes() == Stored(old(Bytes()), addr, data)
      ensures status == Ok ==> listener.blocks == AfterWrite(old(listener.blocks), codes, addr, |data|)
      ensures status != Ok ==> pages == old(pages) && listener.blocks == old(listener.blocks)
    {
      StoreNothing(Bytes(), addr);
      if |data| == 0 {
        assert data == [];
        return Ok;
      }
      var ok := CheckWrite(addr, |data|);
      if !ok {
        return ProtectionViolation;
      }
      WriteAll(addr, data);
      Notify(addr, |data|);
      status := Ok;
    }

    /** The chunk loop. */
    method WriteAll(addr: u64, data: seq<u8>)
      requires Valid() && |data| < TWO64
      modifies `pages
      ensures Valid() && Bytes() == Stored(old(Bytes()), addr, data)
    {
      var cur: u64, done: u64 := addr, 0;
      ghost var m := Bytes();
      StoreNothing(m, addr);
      while done < |data|
        invariant Valid() && done <= |data| && cur == Plus(addr, done)
        invariant Bytes() == Stored(m, addr, data[..done])
      {
        var n := ChunkSize(cur, |data| - done);
        WriteChunk(cur, data[done..done + n]);
        StoreMore(m, addr, data, done, n);
        cur, done := Plus(cur, n), done + n;
      }
      assert data[..done] == data;
    }
  }
}
