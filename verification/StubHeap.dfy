/** The first-fit allocator behind the heap stubs: a list of blocks tiling the region, split on
    allocation and merged with both neighbours on release. */
module FirstFitHeap {
  import opened Words
  import opened Base

  datatype Block = Block(addr: u64, size: u64, free: bool)

  /** One past the block. */
  function End(b: Block): nat {
    b.addr + b.size
  }

  /** blocks tile [lo, hi): non-empty, in order, without gaps, and no two free ones side by side. */
  predicate Tiles(blocks: seq<Block>, lo: nat, hi: nat) {
    && (forall i :: 0 <= i < |blocks| ==> blocks[i].size > 0)
    && (forall i :: 0 <= i < |blocks| - 1 ==> blocks[i + 1].addr == End(blocks[i]))
    && (forall i :: 0 <= i < |blocks| - 1 ==> !(blocks[i].free && blocks[i + 1].free))
    && |blocks| > 0 && blocks[0].addr == lo && End(blocks[|blocks| - 1]) == hi
  }

  predicate Fits(b: Block, n: nat) {
    b.free && b.size >= n
  }

  /** The first block at or after i that n bytes fit in, or how many blocks there are. */
  function FirstFit(blocks: seq<Block>, n: nat, i: nat): (k: nat)
    requires i <= |blocks|
    ensures i <= k <= |blocks|
    ensures k < |blocks| ==> Fits(blocks[k], n)
    ensures forall j :: i <= j < k ==> !Fits(blocks[j], n)
    decreases |blocks| - i
  {
    if i == |blocks| || Fits(blocks[i], n) then i else FirstFit(blocks, n, i + 1)
  }

  /** Blocks l to r - 1 replaced by one. */
  function Replace(blocks: seq<Block>, l: nat, r: nat, b: Block): (s: seq<Block>)
    requires l < r <= |blocks|
    ensures |s| == |blocks| - (r - l) + 1 && s[l] == b
    ensures forall j :: 0 <= j < l ==> s[j] == blocks[j]
    ensures forall j :: l < j < |s| ==> s[j] == blocks[j + (r - l) - 1]
  {
    blocks[..l] + [b] + blocks[r..]
  }

  /** Block i replaced by two. */
  function Cut(blocks: seq<Block>, i: nat, b: Block, c: Block): (s: seq<Block>)
    requires i < |blocks|
    ensures |s| == |blocks| + 1 && s[i] == b && s[i + 1] == c
    ensures forall j :: 0 <= j < i ==> s[j] == blocks[j]
    ensures forall j :: i + 1 < j < |s| ==> s[j] == blocks[j - 1]
  {
    blocks[..i] + [b, c] + blocks[i + 1..]
  }

  /** Block i with its first n bytes allocated. */
  function Split(blocks: seq<Block>, i: nat, n: u64): seq<Block>
    requires i < |blocks| && 0 < n <= blocks[i].size && End(blocks[i]) <= TWO64
  {
    var b := blocks[i];
    if b.size == n then Replace(blocks, i, i + 1, b.(free := false))
    else Cut(blocks, i, Block(b.addr, n, false), Block(b.addr + n, b.size - n, true))
  }

  /** The same by updating block i and inserting the rest after it. */
  lemma SplitInPlace(blocks: seq<Block>, i: nat, n: u64, b: Block, head: seq<Block>)
    requires i < |blocks| && b == blocks[i] && 0 < n < b.size && End(b) <= TWO64
    requires head == blocks[i := Block(b.addr, n, false)]
    ensures head[..i + 1] + [Block(b.addr + n, b.size - n, true)] + head[i + 1..] == Split(blocks, i, n)
  {
    CutInPlace(blocks, i, Block(b.addr, n, false), Block(b.addr + n, b.size - n, true), head);
  }

  lemma CutInPlace(blocks: seq<Block>, i: nat, b: Block, c: Block, head: seq<Block>)
    requires i < |blocks| && head == blocks[i := b]
    ensures head[..i + 1] + [c] + head[i + 1..] == Cut(blocks, i, b, c)
  {
    assert head[..i + 1] == blocks[..i] + [b] && head[i + 1..] == blocks[i + 1..];
  }

  /** Block i taken together with a free block just after it. */
  function MergeNext(blocks: seq<Block>, i: nat): seq<Block>
    requires i < |blocks|
  {
    if i + 1 < |blocks| && blocks[i + 1].free && blocks[i].size + blocks[i + 1].size < TWO64 then
      Replace(blocks, i, i + 2, blocks[i].(size := blocks[i].size + blocks[i + 1].size))
    else blocks
  }

  /** Block i freed and merged with free neighbours on both sides. */
  function Release(blocks: seq<Block>, i: nat): seq<Block>
    requires i < |blocks|
  {
    var freed := blocks[i := blocks[i].(free := true)];
    if i > 0 && blocks[i - 1].free then MergeNext(MergeNext(freed, i - 1), i - 1) else MergeNext(freed, i)
  }

  /** The first block at p, or how many blocks there are. */
  function IndexOf(blocks: seq<Block>, p: u64, i: nat): (k: nat)
    requires i <= |blocks|
    ensures i <= k <= |blocks|
    ensures k < |blocks| ==> blocks[k].addr == p
    ensures forall j :: i <= j < k ==> blocks[j].addr != p
    decreases |blocks| - i
  {
    if i == |blocks| || blocks[i].addr == p then i else IndexOf(blocks, p, i + 1)
  }

  // ---- Tilings ---------------------------------------------------------------------------

  lemma {:induction false} Ordered(blocks: seq<Block>, lo: nat, hi: nat, i: nat, j: nat)
    requires Tiles(blocks, lo, hi) && i < j < |blocks|
    ensures End(blocks[i]) <= blocks[j].addr
    decreases j
  {
    if i + 1 < j {
      Ordered(blocks, lo, hi, i, j - 1);
    }
  }

  lemma InRange(blocks: seq<Block>, lo: nat, hi: nat, i: nat)
    requires Tiles(blocks, lo, hi) && i < |blocks|
    ensures lo <= blocks[i].addr && End(blocks[i]) <= hi
  {
    if i > 0 {
      Ordered(blocks, lo, hi, 0, i);
    }
    if i < |blocks| - 1 {
      Ordered(blocks, lo, hi, i, |blocks| - 1);
    }
  }

  /** A block put in place of the ones it covers keeps the tiling, if it is in use or its neighbours are. */
  lemma ReplaceTiles(blocks: seq<Block>, lo: nat, hi: nat, l: nat, r: nat, b: Block)
    requires Tiles(blocks, lo, hi) && l < r <= |blocks|
    requires b.size > 0 && b.addr == blocks[l].addr && End(b) == End(blocks[r - 1])
    requires b.free ==> (l > 0 ==> !blocks[l - 1].free) && (r < |blocks| ==> !blocks[r].free)
    ensures Tiles(Replace(blocks, l, r, b), lo, hi)
  {
    var s := Replace(blocks, l, r, b);
    forall j | 0 <= j < |s| - 1
      ensures s[j + 1].addr == End(s[j]) && !(s[j].free && s[j + 1].free)
    {
      if j + 1 < l {
        assert s[j + 1] == blocks[j + 1];
      } else if j > l {
        assert s[j + 1] == blocks[j + (r - l)];
      } else if j == l {
        assert s[j + 1] == blocks[r];
      } else {
        assert s[j] == blocks[l - 1];
      }
    }
  }

  /** A block cut in two, the second part free, keeps the tiling when what follows is in use. */
  lemma CutTiles(blocks: seq<Block>, lo: nat, hi: nat, i: nat, b: Block, c: Block)
    requires Tiles(blocks, lo, hi) && i < |blocks| && !b.free && c.free
    requires b.size > 0 && c.size > 0 && b.addr == blocks[i].addr && c.addr == End(b) && End(c) == End(blocks[i])
    requires i + 1 < |blocks| ==> !blocks[i + 1].free
    ensures Tiles(Cut(blocks, i, b, c), lo, hi)
  {
    var s := Cut(blocks, i, b, c);
    forall j | 0 <= j < |s| - 1
      ensures s[j + 1].addr == End(s[j]) && !(s[j].free && s[j + 1].free)
    {
      if j + 1 < i {
        assert s[j + 1] == blocks[j + 1];
      } else if j > i + 1 {
        assert s[j + 1] == blocks[j];
      } else if j == i + 1 {
        assert s[j + 1] == blocks[i + 1];
      } else if j + 1 == i {
        assert s[j] == blocks[i - 1];
      }
    }
  }

  lemma WholeTiles(blocks: seq<Block>, lo: nat, hi: nat, i: nat)
    requires Tiles(blocks, lo, hi) && i < |blocks|
    ensures Tiles(Replace(blocks, i, i + 1, blocks[i].(free := false)), lo, hi)
  {
    ReplaceTiles(blocks, lo, hi, i, i + 1, blocks[i].(free := false));
  }

  lemma PartTiles(blocks: seq<Block>, lo: nat, hi: nat, i: nat, n: u64)
    requires Tiles(blocks, lo, hi) && hi <= TWO64 && i < |blocks| && blocks[i].free && 0 < n < blocks[i].size
    requires End(blocks[i]) <= TWO64
    ensures var b := blocks[i];
      Tiles(Cut(blocks, i, Block(b.addr, n, false), Block(b.addr + n, b.size - n, true)), lo, hi)
  {
    var b := blocks[i];
    CutTiles(blocks, lo, hi, i, Block(b.addr, n, false), Block(b.addr + n, b.size - n, true));
  }

  lemma SplitTiles(blocks: seq<Block>, lo: nat, hi: nat, i: nat, n: u64)
    requires Tiles(blocks, lo, hi) && hi <= TWO64 && i < |blocks| && 0 < n && Fits(blocks[i], n)
    ensures End(blocks[i]) <= TWO64 && Tiles(Split(blocks, i, n), lo, hi)
  {
    InRange(blocks, lo, hi, i);
    if blocks[i].size == n {
      WholeTiles(blocks, lo, hi, i);
    } else {
      PartTiles(blocks, lo, hi, i, n);
    }
  }

  /** The stretch Release frees: the block and its free neighbours. */
  function FirstMerged(blocks: seq<Block>, i: nat): nat
    requires i < |blocks|
  {
    if i > 0 && blocks[i - 1].free then i - 1 else i
  }

  function PastMerged(blocks: seq<Block>, i: nat): nat
    requires i < |blocks|
  {
    if i + 1 < |blocks| && blocks[i + 1].free then i + 2 else i + 1
  }

  /** The bytes Release puts into one block. */
  function MergedSize(blocks: seq<Block>, i: nat): nat
    requires i < |blocks|
  {
    (if i > 0 && blocks[i - 1].free then blocks[i - 1].size else 0) + blocks[i].size
    + (if i + 1 < |blocks| && blocks[i + 1].free then blocks[i + 1].size else 0)
  }

  lemma NeighbourSizes(blocks: seq<Block>, lo: nat, hi: nat, i: nat)
    requires Tiles(blocks, lo, hi) && 0 < lo && hi <= TWO64 && i < |blocks|
    ensures 0 < MergedSize(blocks, i) < TWO64
    ensures blocks[FirstMerged(blocks, i)].addr + MergedSize(blocks, i) == End(blocks[PastMerged(blocks, i) - 1])
  {
    InRange(blocks, lo, hi, FirstMerged(blocks, i));
    InRange(blocks, lo, hi, PastMerged(blocks, i) - 1);
    assert blocks[i].size > 0;
    if i > 0 {
      assert blocks[(i - 1) + 1].addr == End(blocks[i - 1]) && blocks[i - 1].size > 0;
    }
    if i + 1 < |blocks| {
      assert blocks[i + 1].addr == End(blocks[i]) && blocks[i + 1].size > 0;
    }
  }

  /** Merging the block after i into a list that already had block i replaced. */
  lemma MergeAfter(blocks: seq<Block>, l: nat, r: nat, b: Block)
    requires l < r <= |blocks|
    ensures r < |blocks| && blocks[r].free && b.size + blocks[r].size < TWO64 ==>
      MergeNext(Replace(blocks, l, r, b), l) == Replace(blocks, l, r + 1, b.(size := b.size + blocks[r].size))
    ensures r == |blocks| || !blocks[r].free ==> MergeNext(Replace(blocks, l, r, b), l) == Replace(blocks, l, r, b)
  {
  }

  lemma FreedIsReplace(blocks: seq<Block>, i: nat)
    requires i < |blocks|
    ensures blocks[i := blocks[i].(free := true)] == Replace(blocks, i, i + 1, blocks[i].(free := true))
  {
  }

  /** Merging block i, freed, into a free block before it. */
  lemma MergeBefore(blocks: seq<Block>, i: nat)
    requires 0 < i < |blocks| && blocks[i - 1].free && blocks[i - 1].size + blocks[i].size < TWO64
    ensures MergeNext(blocks[i := blocks[i].(free := true)], i - 1)
      == Replace(blocks, i - 1, i + 1, blocks[i - 1].(size := blocks[i - 1].size + blocks[i].size))
  {
  }

  /** The second merge, after a merge with the block before. */
  lemma MergeBoth(blocks: seq<Block>, l: nat, r: nat, b: Block, past: nat, whole: Block)
    requires l < r <= |blocks|
    requires if r < |blocks| && blocks[r].free
      then b.size + blocks[r].size < TWO64 && past == r + 1 && whole == b.(size := b.size + blocks[r].size)
      else past == r && whole == b
    ensures MergeNext(Replace(blocks, l, r, b), l) == Replace(blocks, l, past, whole)
  {
    MergeAfter(blocks, l, r, b);
    if r < |blocks| && blocks[r].free {
      assert past == r + 1;
    } else {
      assert past == r;
    }
  }

  /** Release with a free block before: three into one, or two. */
  lemma ReleaseBefore(blocks: seq<Block>, i: nat)
    requires 0 < i < |blocks| && blocks[i - 1].free && MergedSize(blocks, i) < TWO64
    ensures Release(blocks, i)
      == Replace(blocks, i - 1, PastMerged(blocks, i), Block(blocks[i - 1].addr, MergedSize(blocks, i), true))
  {
    MergeBefore(blocks, i);
    MergeBoth(blocks, i - 1, i + 1, Block(blocks[i - 1].addr, blocks[i - 1].size + blocks[i].size, true),
              PastMerged(blocks, i), Block(blocks[i - 1].addr, MergedSize(blocks, i), true));
  }

  /** Release with the block before in use: two into one, or none. */
  lemma ReleaseAlone(blocks: seq<Block>, i: nat)
    requires i < |blocks| && (i > 0 ==> !blocks[i - 1].free) && MergedSize(blocks, i) < TWO64
    ensures Release(blocks, i)
      == Replace(blocks, i, PastMerged(blocks, i), Block(blocks[i].addr, MergedSize(blocks, i), true))
  {
    FreedIsReplace(blocks, i);
    MergeBoth(blocks, i, i + 1, blocks[i].(free := true),
              PastMerged(blocks, i), Block(blocks[i].addr, MergedSize(blocks, i), true));
  }

  lemma ReleaseIsReplace(blocks: seq<Block>, i: nat)
    requires i < |blocks| && MergedSize(blocks, i) < TWO64
    ensures var l, r := FirstMerged(blocks, i), PastMerged(blocks, i);
      Release(blocks, i) == Replace(blocks, l, r, Block(blocks[l].addr, MergedSize(blocks, i), true))
  {
    if i > 0 && blocks[i - 1].free {
      ReleaseBefore(blocks, i);
    } else {
      ReleaseAlone(blocks, i);
    }
  }

  /** Freeing a block in use keeps the tiling. */
  lemma ReleaseTiles(blocks: seq<Block>, lo: nat, hi: nat, i: nat)
    requires Tiles(blocks, lo, hi) && 0 < lo && hi <= TWO64 && i < |blocks| && !blocks[i].free
    ensures Tiles(Release(blocks, i), lo, hi)
  {
    var l, r := FirstMerged(blocks, i), PastMerged(blocks, i);
    NeighbourSizes(blocks, lo, hi, i);
    ReleaseIsReplace(blocks, i);
    assert l > 0 && l < i ==> !blocks[l - 1].free;
    assert r < |blocks| && r > i + 1 ==> !blocks[r].free;
    ReplaceTiles(blocks, lo, hi, l, r, Block(blocks[l].addr, MergedSize(blocks, i), true));
  }

  lemma ReplaceBack(blocks: seq<Block>, i: nat, b: Block)
    requires i < |blocks|
    ensures Replace(Replace(blocks, i, i + 1, b), i, i + 1, blocks[i]) == blocks
  {
  }

  lemma CutBack(blocks: seq<Block>, i: nat, b: Block, c: Block)
    requires i < |blocks|
    ensures Replace(Cut(blocks, i, b, c), i, i + 2, blocks[i]) == blocks
  {
  }

  /** A free block has no free neighbour. */
  lemma FreeAlone(blocks: seq<Block>, lo: nat, hi: nat, i: nat)
    requires Tiles(blocks, lo, hi) && i < |blocks| && blocks[i].free
    ensures i > 0 ==> !blocks[i - 1].free
    ensures i + 1 < |blocks| ==> !blocks[i + 1].free
  {
    if i > 0 {
      var j := i - 1;
      assert !(blocks[j + 1].free && blocks[j].free);
    }
  }

  /** Freeing right after an allocation restores the list. */
  lemma ReleaseAfterSplit(blocks: seq<Block>, lo: nat, hi: nat, i: nat, n: u64)
    requires Tiles(blocks, lo, hi) && 0 < lo && hi <= TWO64 && i < |blocks| && 0 < n && Fits(blocks[i], n)
    ensures End(blocks[i]) <= TWO64
    ensures i < |Split(blocks, i, n)| && Release(Split(blocks, i, n), i) == blocks
  {
    InRange(blocks, lo, hi, i);
    FreeAlone(blocks, lo, hi, i);
    var b := blocks[i];
    if b.size == n {
      UndoWhole(blocks, i);
    } else {
      UndoCut(blocks, i, n);
    }
  }

  lemma UndoWhole(blocks: seq<Block>, i: nat)
    requires i < |blocks| && blocks[i].free
    requires (i > 0 ==> !blocks[i - 1].free) && (i + 1 < |blocks| ==> !blocks[i + 1].free)
    ensures Release(Replace(blocks, i, i + 1, blocks[i].(free := false)), i) == blocks
  {
    var s := Replace(blocks, i, i + 1, blocks[i].(free := false));
    ReleaseAlone(s, i);
    ReplaceBack(blocks, i, blocks[i].(free := false));
  }

  lemma UndoCut(blocks: seq<Block>, i: nat, n: u64)
    requires i < |blocks| && blocks[i].free && 0 < n < blocks[i].size && End(blocks[i]) <= TWO64
    requires i > 0 ==> !blocks[i - 1].free
    ensures Release(Split(blocks, i, n), i) == blocks
  {
    var a, b := Block(blocks[i].addr, n, false), Block(blocks[i].addr + n, blocks[i].size - n, true);
    var s := Cut(blocks, i, a, b);
    ReleaseAlone(s, i);
    CutBack(blocks, i, a, b);
  }

  lemma {:induction false} IndexUnique(blocks: seq<Block>, lo: nat, hi: nat, i: nat)
    requires Tiles(blocks, lo, hi) && i < |blocks|
    ensures IndexOf(blocks, blocks[i].addr, 0) == i
  {
    forall j | 0 <= j < i
      ensures blocks[j].addr < blocks[i].addr
    {
      Ordered(blocks, lo, hi, j, i);
    }
  }

  // ---- Free intervals ---------------------------------------------------------------------

  /** x lies in a free block. */
  predicate FreeByte(blocks: seq<Block>, x: int) {
    exists k :: 0 <= k < |blocks| && blocks[k].free && blocks[k].addr <= x < End(blocks[k])
  }

  predicate FreeInterval(blocks: seq<Block>, a: int, n: nat) {
    forall x :: a <= x < a + n ==> FreeByte(blocks, x)
  }

  /** The byte after a free block is not free. */
  lemma FreeGap(blocks: seq<Block>, lo: nat, hi: nat, k: nat)
    requires Tiles(blocks, lo, hi) && k < |blocks| && blocks[k].free
    ensures !FreeByte(blocks, End(blocks[k]))
  {
    var e := End(blocks[k]);
    forall j | 0 <= j < |blocks| && blocks[j].free
      ensures !(blocks[j].addr <= e < End(blocks[j]))
    {
      if j < k {
        Ordered(blocks, lo, hi, j, k);
      } else if j > k + 1 {
        Ordered(blocks, lo, hi, k + 1, j);
        assert blocks[k + 1].addr == e && blocks[k + 1].size > 0;
      }
    }
  }

  /** Free bytes that touch lie in one block, so a free interval does. */
  lemma IntervalInBlock(blocks: seq<Block>, lo: nat, hi: nat, a: int, n: nat, k: nat)
    requires Tiles(blocks, lo, hi) && k < |blocks| && blocks[k].free && blocks[k].addr <= a < End(blocks[k])
    ensures FreeInterval(blocks, a, n) ==> a + n <= End(blocks[k])
  {
    FreeGap(blocks, lo, hi, k);
  }

  /** First fit fails exactly when no run of n free bytes exists anywhere. */
  lemma NoFit(blocks: seq<Block>, lo: nat, hi: nat, n: nat)
    requires Tiles(blocks, lo, hi) && n > 0
    ensures FirstFit(blocks, n, 0) == |blocks| <==> !exists a :: FreeInterval(blocks, a, n)
  {
    var k := FirstFit(blocks, n, 0);
    if k < |blocks| {
      assert FreeInterval(blocks, blocks[k].addr, n);
    } else {
      forall a
        ensures !FreeInterval(blocks, a, n)
      {
        if FreeByte(blocks, a) {
          var j :| 0 <= j < |blocks| && blocks[j].free && blocks[j].addr <= a < End(blocks[j]);
          IntervalInBlock(blocks, lo, hi, a, n, j);
          assert !Fits(blocks[j], n);
        } else {
          assert a <= a < a + n;
        }
      }
    }
  }

  /** A request whose rounding wraps is larger than any region. */
  lemma WrapsNoFit(blocks: seq<Block>, lo: nat, hi: nat, n: nat)
    requires Tiles(blocks, lo, hi) && 0 < lo && hi <= TWO64 && n >= TWO64
    ensures FirstFit(blocks, n, 0) == |blocks|
  {
    var k := FirstFit(blocks, n, 0);
    if k < |blocks| {
      InRange(blocks, lo, hi, k);
    }
  }

  lemma InMerged(blocks: seq<Block>, lo: nat, hi: nat, i: nat, x: int)
    requires Tiles(blocks, lo, hi) && i < |blocks|
    requires blocks[FirstMerged(blocks, i)].addr <= x < End(blocks[PastMerged(blocks, i) - 1])
    ensures FreeByte(blocks, x) || blocks[i].addr <= x < End(blocks[i])
  {
    if i > 0 && x < blocks[i].addr {
      assert blocks[(i - 1) + 1].addr == End(blocks[i - 1]);
      assert blocks[i - 1].free && blocks[i - 1].addr <= x < End(blocks[i - 1]);
    }
  }

  lemma FreeByteOfMerged(blocks: seq<Block>, lo: nat, hi: nat, l: nat, r: nat, b: Block, x: int)
    requires Tiles(blocks, lo, hi) && l < r <= |blocks| && b.free
    requires b.addr == blocks[l].addr && End(b) == End(blocks[r - 1])
    ensures FreeByte(blocks, x) ==> FreeByte(Replace(blocks, l, r, b), x)
    ensures FreeByte(Replace(blocks, l, r, b), x) ==> FreeByte(blocks, x) || b.addr <= x < End(b)
    ensures b.addr <= x < End(b) ==> FreeByte(Replace(blocks, l, r, b), x)
  {
    var s := Replace(blocks, l, r, b);
    if k :| 0 <= k < |blocks| && blocks[k].free && blocks[k].addr <= x < End(blocks[k]) {
      if k < l {
        assert s[k] == blocks[k];
      } else if k >= r {
        assert s[k - (r - l) + 1] == blocks[k];
      } else {
        if l < k { Ordered(blocks, lo, hi, l, k); }
        if k < r - 1 { Ordered(blocks, lo, hi, k, r - 1); }
        assert s[l] == b;
      }
    }
  }

  /** Releasing a block makes its own bytes free and no others. */
  lemma ReleaseFrees(blocks: seq<Block>, lo: nat, hi: nat, i: nat, x: int)
    requires Tiles(blocks, lo, hi) && 0 < lo && hi <= TWO64 && i < |blocks| && !blocks[i].free
    ensures FreeByte(Release(blocks, i), x) <==> FreeByte(blocks, x) || blocks[i].addr <= x < End(blocks[i])
  {
    var l, r := FirstMerged(blocks, i), PastMerged(blocks, i);
    NeighbourSizes(blocks, lo, hi, i);
    ReleaseIsReplace(blocks, i);
    var b := Block(blocks[l].addr, MergedSize(blocks, i), true);
    FreeByteOfMerged(blocks, lo, hi, l, r, b, x);
    if b.addr <= x < End(b) {
      InMerged(blocks, lo, hi, i, x);
    }
    if l < i { Ordered(blocks, lo, hi, l, i); }
    if i < r - 1 { Ordered(blocks, lo, hi, i, r - 1); }
  }

  // ---- Totals -----------------------------------------------------------------------------

  function Total(blocks: seq<Block>, free: bool): nat {
    if |blocks| == 0 then 0
    else
      var last := blocks[|blocks| - 1];
      Total(blocks[..|blocks| - 1], free) + if last.free == free then last.size else 0
  }

  /** Used and free bytes always add up to the region. */
  lemma {:induction false} TotalsTile(blocks: seq<Block>, lo: nat, hi: nat)
    requires Tiles(blocks, lo, hi)
    ensures Total(blocks, true) + Total(blocks, false) == hi - lo
    decreases |blocks|
  {
    var rest := blocks[..|blocks| - 1];
    if |rest| == 0 {
    } else {
      assert blocks[|rest| - 1 + 1].addr == End(blocks[|rest| - 1]);
      TotalsTile(rest, lo, End(rest[|rest| - 1]));
    }
  }

  lemma {:induction false} TotalStep(blocks: seq<Block>, free: bool, i: nat)
    requires i < |blocks|
    ensures Total(blocks[..i + 1], free)
         == Total(blocks[..i], free) + if blocks[i].free == free then blocks[i].size else 0
  {
    assert blocks[..i + 1][..i] == blocks[..i];
  }

  lemma {:induction false} TotalGrows(blocks: seq<Block>, free: bool, i: nat)
    requires i <= |blocks|
    ensures Total(blocks[..i], free) <= Total(blocks, free)
    decreases |blocks| - i
  {
    if i < |blocks| {
      TotalStep(blocks, free, i);
      TotalGrows(blocks, free, i + 1);
    } else {
      assert blocks[..i] == blocks;
    }
  }

  // ---- What the operations promise ---------------------------------------------------------

  /** Nothing was asked for, or there is no run of free bytes of the rounded size anywhere. */
  ghost predicate NoRoom(blocks: seq<Block>, sz: u64) {
    sz == 0 || !exists a :: FreeInterval(blocks, a, RoundedUp(sz))
  }

  /** The list after p was handed out for a request of sz bytes: the first block that fits was split. */
  predicate Allocated(was: seq<Block>, p: u64, now: seq<Block>, sz: u64) {
    var n := Aligned(sz);
    var i := FirstFit(was, n, 0);
    n > 0 && i < |was| && p == was[i].addr && End(was[i]) <= TWO64 && now == Split(was, i, n)
  }

  /** p is the address of a block in use. */
  predicate Live(blocks: seq<Block>, p: u64) {
    exists k :: 0 <= k < |blocks| && blocks[k].addr == p && !blocks[k].free
  }

  lemma LiveAt(blocks: seq<Block>, lo: nat, hi: nat, i: nat)
    requires Tiles(blocks, lo, hi) && i < |blocks|
    ensures Live(blocks, blocks[i].addr) <==> !blocks[i].free
  {
    forall k | 0 <= k < |blocks| && blocks[k].addr == blocks[i].addr
      ensures k == i
    {
      if k < i {
        Ordered(blocks, lo, hi, k, i);
      } else if k > i {
        Ordered(blocks, lo, hi, i, k);
      }
    }
  }

  lemma NotLive(blocks: seq<Block>, p: u64)
    requires IndexOf(blocks, p, 0) == |blocks|
    ensures !Live(blocks, p)
  {
  }

  /** When an allocation cannot succeed, over every size including those whose rounding wraps. */
  lemma AllocFails(blocks: seq<Block>, lo: nat, hi: nat, sz: u64)
    requires blocks == [] || (Tiles(blocks, lo, hi) && 0 < lo && hi <= TWO64)
    ensures NoRoom(blocks, sz) <==> Aligned(sz) == 0 || FirstFit(blocks, Aligned(sz), 0) == |blocks|
  {
    if sz > 0 {
      if blocks == [] {
        forall a
          ensures !FreeInterval(blocks, a, RoundedUp(sz))
        {
          assert a <= a < a + RoundedUp(sz) && !FreeByte(blocks, a);
        }
      } else {
        NoFit(blocks, lo, hi, RoundedUp(sz));
        if RoundedUp(sz) >= TWO64 {
          WrapsNoFit(blocks, lo, hi, RoundedUp(sz));
        }
      }
    }
  }

  /** Freeing what was just allocated restores the exact list. */
  lemma FreeUndoesAlloc(was: seq<Block>, lo: nat, hi: nat, p: u64, now: seq<Block>, sz: u64)
    requires Tiles(was, lo, hi) && 0 < lo && hi <= TWO64 && Allocated(was, p, now, sz)
    ensures Live(now, p) && Release(now, IndexOf(now, p, 0)) == was
  {
    var n := Aligned(sz);
    var i := FirstFit(was, n, 0);
    SplitTiles(was, lo, hi, i, n);
    ReleaseAfterSplit(was, lo, hi, i, n);
    assert now[i].addr == p && !now[i].free;
    IndexUnique(now, lo, hi, i);
  }

  /** An allocated block is at least as long as the request, was free, and overlaps no block in use before. */
  lemma AllocFresh(was: seq<Block>, lo: nat, hi: nat, p: u64, now: seq<Block>, sz: u64, k: nat)
    requires Tiles(was, lo, hi) && 0 < lo && hi <= TWO64 && Allocated(was, p, now, sz)
    requires k < |was| && !was[k].free
    ensures lo <= p && p + sz <= hi
    ensures p + sz <= was[k].addr || End(was[k]) <= p
  {
    var i := FirstFit(was, Aligned(sz), 0);
    InRange(was, lo, hi, i);
    if i < k {
      Ordered(was, lo, hi, i, k);
    } else if k < i {
      Ordered(was, lo, hi, k, i);
    }
  }

  // ---- The allocator ----------------------------------------------------------------------

  class StubHeap {
    var base: u64
    var size: u64
    var blocks: seq<Block>

    constructor ()
      ensures Valid() && blocks == []
    {
      base, size, blocks := 0, 0, [];
    }

    /** No region yet, or a region that the blocks tile. */
    predicate Valid()
      reads this
    {
      if blocks == [] then size == 0
      else 0 < base && base + size <= TWO64 && Tiles(blocks, base, base + size)
    }

    /** A whole region of free memory. The books are in order exactly if it has some bytes, none of them at
        address zero, and does not pass the end of the address space. */
    method Install(b: u64, n: u64)
      modifies this
      ensures base == b && size == n && blocks == [Block(b, n, true)]
      ensures Valid() <==> 0 < b && 0 < n && b + n <= TWO64
    {
      base, size := b, n;
      blocks := [Block(b, n, true)];
    }

    /** alloc fails exactly when the request is empty or no run of free bytes of the rounded size exists;
        otherwise it takes the first block that fits and leaves the rest of that block free. */
    method Alloc(sz: u64) returns (p: u64)
      requires Valid()
      modifies `blocks
      ensures Valid()
      ensures p == 0 <==> NoRoom(old(blocks), sz)
      ensures p == 0 ==> blocks == old(blocks)
      ensures p != 0 ==> Allocated(old(blocks), p, blocks, sz)
    {
      ghost var was := blocks;
      AllocFails(blocks, base, base + size, sz);
      var aligned := Aligned(sz);
      if aligned == 0 {
        return 0;
      }
      var i := 0;
      while i < |blocks|
        invariant i <= |blocks| && blocks == was
        invariant FirstFit(blocks, aligned, 0) == FirstFit(blocks, aligned, i)
      {
        var b := blocks[i];
        if b.free && b.size >= aligned {
          p := b.addr;
          Take(i, aligned);
          return;
        }
        i := i + 1;
      }
      return 0;
    }

    /** Hand out the first n bytes of block i. */
    method Take(i: nat, n: u64)
      requires Valid() && i < |blocks| && n > 0 && Fits(blocks[i], n)
      modifies `blocks
      ensures Valid() && blocks != [] && old(blocks)[i].addr > 0
      ensures End(old(blocks)[i]) <= TWO64 && blocks == Split(old(blocks), i, n)
    {
      SplitTiles(blocks, base, base + size, i, n);
      InRange(blocks, base, base + size, i);
      CutBlock(i, n);
    }

    method CutBlock(i: nat, n: u64)
      requires i < |blocks| && n > 0 && Fits(blocks[i], n) && End(blocks[i]) <= TWO64
      modifies `blocks
      ensures blocks == Split(old(blocks), i, n)
    {
      ghost var was := blocks;
      var b := blocks[i];
      if b.size == n {
        blocks := blocks[i := b.(free := false)];
        assert blocks == Split(was, i, n);
      } else {
        var tail := Block(b.addr + n, b.size - n, true);
        blocks := blocks[i := Block(b.addr, n, false)];
        SplitInPlace(was, i, n, b, blocks);
        blocks := blocks[..i + 1] + [tail] + blocks[i + 1..];
      }
    }

    /** Free block i and join it to its free neighbours. */
    method GiveBack(i: nat)
      requires Valid() && i < |blocks| && !blocks[i].free
      modifies `blocks
      ensures Valid() && blocks == Release(old(blocks), i)
    {
      ReleaseTiles(blocks, base, base + size, i);
      blocks := blocks[i := blocks[i].(free := true)];
      if i > 0 && blocks[i - 1].free {
        blocks := MergeNext(blocks, i - 1);
        blocks := MergeNext(blocks, i - 1);
      } else {
        blocks := MergeNext(blocks, i);
      }
    }

    /** free: address zero is no block and freeing it succeeds; an unknown or free block fails; a block in
        use becomes free and joins its free neighbours. */
    method Free(p: u64) returns (ok: bool)
      requires Valid()
      modifies `blocks
      ensures Valid()
      ensures ok <==> p == 0 || Live(old(blocks), p)
      ensures ok && p != 0 ==> blocks == Release(old(blocks), IndexOf(old(blocks), p, 0))
      ensures !ok || p == 0 ==> blocks == old(blocks)
    {
      if p == 0 {
        return true;
      }
      ghost var was := blocks;
      var i := 0;
      while i < |blocks|
        invariant i <= |blocks| && blocks == was
        invariant IndexOf(blocks, p, 0) == IndexOf(blocks, p, i)
      {
        if blocks[i].addr == p {
          LiveAt(blocks, base, base + size, i);
          if blocks[i].free {
            return false;
          }
          GiveBack(i);
          return true;
        }
        i := i + 1;
      }
      NotLive(blocks, p);
      return false;
    }

    method UsedBytes() returns (t: u64)
      requires Valid()
      ensures t == Total(blocks, false)
    {
      t := Count(false);
    }

    method FreeBytes() returns (t: u64)
      requires Valid()
      ensures t == Total(blocks, true)
    {
      t := Count(true);
    }

    method Count(free: bool) returns (t: u64)
      requires Valid()
      ensures t == Total(blocks, free)
    {
      t := 0;
      if blocks != [] {
        TotalsTile(blocks, base, base + size);
      }
      for i := 0 to |blocks|
        invariant t == Total(blocks[..i], free)
      {
        TotalStep(blocks, free, i);
        TotalGrows(blocks, free, i + 1);
        if blocks[i].free == free {
          t := t + blocks[i].size;
        }
      }
      assert blocks[..|blocks|] == blocks;
    }
  }
}
