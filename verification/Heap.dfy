/** The size-class allocator: a bump pointer and sixteen free lists linked through the freed blocks
    themselves, in guest memory. */
module SizeClassHeap {
  import opened Words
  import opened Base
  import opened FlatMemory
  import opened Shadow

  const CLASSES: nat := 16
  const MAX_REQUEST: nat := 524288

  type Class = c: nat | c < 16

  /** The block size of a class: 16 shifted left by it. */
  function Cap(c: Class): (n: u64)
    ensures 16 <= n <= MAX_REQUEST && n % 16 == 0
  {
    if c < 4 then (if c == 0 then 16 else if c == 1 then 32 else if c == 2 then 64 else 128)
    else if c < 8 then (if c == 4 then 256 else if c == 5 then 512 else if c == 6 then 1024 else 2048)
    else if c < 12 then (if c == 8 then 4096 else if c == 9 then 8192 else if c == 10 then 16384 else 32768)
    else if c == 12 then 65536 else if c == 13 then 131072 else if c == 14 then 262144 else 524288
  }

  lemma CapDoubles(c: Class)
    requires c < 15
    ensures Cap(c + 1) == 2 * Cap(c)
  {
  }

  /** The size the class is chosen by. */
  function Wanted(bytes: u64): u64 {
    Aligned(if bytes < 16 then 16 else bytes)
  }

  /** The first class at or after c that holds n bytes, or the last class. */
  function ClassFrom(n: u64, c: Class): (r: Class)
    ensures c <= r
    ensures n <= Cap(r) || r == 15
    ensures r > c ==> Cap(r - 1) < n
    decreases 15 - c
  {
    if Cap(c) < n && c < 15 then ClassFrom(n, c + 1) else c
  }

  function ClassOf(bytes: u64): Class {
    ClassFrom(Wanted(bytes), 0)
  }

  /** A block of the class holds the request exactly when the request is at most 512 KiB, and then no
      smaller class would do. */
  lemma ClassFits(bytes: u64)
    ensures bytes <= Cap(ClassOf(bytes)) <==> bytes <= MAX_REQUEST
    ensures bytes <= MAX_REQUEST && ClassOf(bytes) > 0 ==> Cap(ClassOf(bytes) - 1) < bytes
  {
    var r := ClassOf(bytes);
    assert Cap(15) == MAX_REQUEST;
    WantedRounds(bytes);
  }

  lemma WantedRounds(bytes: u64)
    ensures bytes <= MAX_REQUEST ==> bytes <= Wanted(bytes) <= MAX_REQUEST
    ensures forall n :: 16 <= n && n % 16 == 0 && n < Wanted(bytes) && bytes <= MAX_REQUEST ==> n < bytes
  {
  }

  method ClassFor(bytes: u64) returns (cls: Class)
    ensures cls == ClassOf(bytes)
  {
    var sz := Wanted(bytes);
    cls := 0;
    var cap: u64 := 16;
    while cap < sz && cls < 15
      invariant cap == Cap(cls) && ClassFrom(sz, 0) == ClassFrom(sz, cls)
    {
      CapDoubles(cls);
      cap := 2 * cap;
      cls := cls + 1;
    }
  }

  // ---- The book-keeping ------------------------------------------------------------------

  /** bump and heads are the allocator's fields. blocks gives every block ever cut from the region its
      class, live the ones in the clients' hands, lists the chains of the others by class. */
  datatype Books = Books(bump: u64, heads: seq<u64>, blocks: map<u64, Class>, live: set<u64>, lists: seq<seq<u64>>)

  /** The blocks partition the bumped range: inside it, disjoint, and covering it. */
  ghost predicate Partition(base: u64, bump: u64, blocks: map<u64, Class>) {
    && base % 16 == 0 && bump % 16 == 0
    && (forall a :: a in blocks ==> base <= a && a + Cap(blocks[a]) <= base + bump && a % 16 == 0)
    && (forall a, b :: a in blocks && b in blocks && a != b ==> Apart(blocks, a, b))
    && (forall x: u64 :: base <= x < base + bump ==> Covered(blocks, x))
  }

  predicate Apart(blocks: map<u64, Class>, a: u64, b: u64)
    requires a in blocks && b in blocks
  {
    a + Cap(blocks[a]) <= b || b + Cap(blocks[b]) <= a
  }

  ghost predicate Covered(blocks: map<u64, Class>, x: u64) {
    exists a :: a in blocks && a <= x < a + Cap(blocks[a])
  }

  /** Every block is live or on the list of its class, once, and nothing else is. */
  ghost predicate Owned(blocks: map<u64, Class>, live: set<u64>, lists: seq<seq<u64>>) {
    && |lists| == CLASSES && live <= blocks.Keys
    && (forall c: Class, k :: 0 <= k < |lists[c]| ==> OnList(blocks, live, lists[c][k], c))
    && (forall c: Class, j, k :: 0 <= j < k < |lists[c]| ==> lists[c][j] != lists[c][k])
    && (forall a :: a in blocks && a !in live ==> a in lists[blocks[a]])
  }

  predicate OnList(blocks: map<u64, Class>, live: set<u64>, a: u64, c: Class) {
    a in blocks && blocks[a] == c && a !in live
  }

  /** The eight bytes at a read as v. */
  ghost predicate Points(m: map<u64, u8>, a: u64, v: u64) {
    Readable(m, a, 8) && FromLe(Loaded(m, a, 8)) == v
  }

  function Head(l: seq<u64>): u64 {
    if l == [] then 0 else l[0]
  }

  /** From head, the next pointers in guest memory run through l and end in zero. */
  ghost predicate Chain(m: map<u64, u8>, head: u64, l: seq<u64>) {
    head == Head(l) && forall k :: 0 <= k < |l| ==> Points(m, l[k], Head(l[k + 1..]))
  }

  ghost predicate Linked(m: map<u64, u8>, heads: seq<u64>, lists: seq<seq<u64>>) {
    |heads| == CLASSES && |lists| == CLASSES && forall c: Class :: Chain(m, heads[c], lists[c])
  }

  ghost predicate Sound(m: map<u64, u8>, base: u64, b: Books) {
    Partition(base, b.bump, b.blocks) && Owned(b.blocks, b.live, b.lists) && Linked(m, b.heads, b.lists)
  }

  // ---- The three moves -------------------------------------------------------------------

  /** The first node of list c handed out. */
  function Popped(b: Books, c: Class): Books
    requires |b.heads| == CLASSES && |b.lists| == CLASSES && b.lists[c] != []
  {
    b.(heads := b.heads[c := Head(b.lists[c][1..])], lists := b.lists[c := b.lists[c][1..]],
       live := b.live + {b.lists[c][0]})
  }

  /** A new block of class c and n bytes cut from the top. */
  function Bumped(b: Books, base: u64, c: Class, n: u64): Books
    requires base + b.bump + n <= TWO64 - 1
  {
    b.(bump := b.bump + n, blocks := b.blocks[base + b.bump := c], live := b.live + {base + b.bump})
  }

  /** Block a put in front of the list of its class. */
  function Pushed(b: Books, a: u64, c: Class): Books
    requires |b.heads| == CLASSES && |b.lists| == CLASSES
  {
    b.(heads := b.heads[c := a], lists := b.lists[c := [a] + b.lists[c]], live := b.live - {a})
  }

  lemma PopOwned(b: Books, c: Class)
    requires Owned(b.blocks, b.live, b.lists) && |b.heads| == CLASSES && b.lists[c] != []
    ensures Owned(b.blocks, Popped(b, c).live, Popped(b, c).lists)
  {
    var l := b.lists[c];
    assert OnList(b.blocks, b.live, l[0], c);
    forall a | a in b.blocks && a !in Popped(b, c).live
      ensures a in Popped(b, c).lists[b.blocks[a]]
    {
      if b.blocks[a] == c {
        var k :| 0 <= k < |l| && l[k] == a;
        assert l[1..][k - 1] == a;
      }
    }
  }

  lemma ChainTail(m: map<u64, u8>, head: u64, l: seq<u64>)
    requires Chain(m, head, l) && l != []
    ensures Chain(m, Head(l[1..]), l[1..])
  {
    forall k | 0 <= k < |l[1..]|
      ensures Points(m, l[1..][k], Head(l[1..][k + 1..]))
    {
      assert l[1..][k + 1..] == l[k + 2..];
      assert Points(m, l[k + 1], Head(l[(k + 1) + 1..]));
    }
  }

  /** Popping keeps the books sound. */
  lemma PopSound(m: map<u64, u8>, base: u64, b: Books, c: Class)
    requires Sound(m, base, b) && b.lists[c] != []
    ensures Sound(m, base, Popped(b, c))
  {
    PopOwned(b, c);
    ChainTail(m, b.heads[c], b.lists[c]);
  }

  /** The top of the bumped range is no block yet, and lies above all of them. */
  lemma TopFree(b: Books, base: u64, a: u64)
    requires Partition(base, b.bump, b.blocks) && a in b.blocks
    ensures a + Cap(b.blocks[a]) <= base + b.bump && a < base + b.bump
  {
  }

  lemma BumpCovers(b: Books, base: u64, c: Class, x: u64)
    requires Partition(base, b.bump, b.blocks) && base + b.bump + Cap(c) <= TWO64 - 1
    requires base + b.bump !in b.blocks && base <= x < base + b.bump + Cap(c)
    ensures Covered(b.blocks[base + b.bump := c], x)
  {
    var p: u64 := base + b.bump;
    var after := b.blocks[p := c];
    if x < p {
      assert Covered(b.blocks, x);
      var a :| a in b.blocks && a <= x < a + Cap(b.blocks[a]);
      assert a in after && after[a] == b.blocks[a];
    } else {
      assert p in after && p <= x < p + Cap(after[p]);
    }
  }

  lemma BumpApart(b: Books, base: u64, c: Class, x: u64, y: u64)
    requires Partition(base, b.bump, b.blocks) && base + b.bump + Cap(c) <= TWO64 - 1
    requires x in b.blocks[base + b.bump := c] && y in b.blocks[base + b.bump := c] && x != y
    ensures Apart(b.blocks[base + b.bump := c], x, y)
  {
    if x == base + b.bump {
      TopFree(b, base, y);
    } else if y == base + b.bump {
      TopFree(b, base, x);
    } else {
      assert Apart(b.blocks, x, y);
    }
  }

  lemma BumpInside(b: Books, base: u64, c: Class, a: u64)
    requires Partition(base, b.bump, b.blocks)
    requires base + b.bump + Cap(c) <= TWO64 - 1
    requires a in b.blocks[base + b.bump := c]
    ensures base <= a && a + Cap(b.blocks[base + b.bump := c][a]) <= base + b.bump + Cap(c) && a % 16 == 0
  {
    if a != base + b.bump {
      TopFree(b, base, a);
    }
  }

  lemma TopNew(b: Books, base: u64)
    requires Partition(base, b.bump, b.blocks) && base + b.bump < TWO64
    ensures base + b.bump !in b.blocks
  {
    forall a | a in b.blocks
      ensures a != base + b.bump
    {
      TopFree(b, base, a);
    }
  }

  lemma BumpPartition(b: Books, base: u64, c: Class)
    requires Partition(base, b.bump, b.blocks)
    requires base + b.bump + Cap(c) <= TWO64 - 1
    ensures base + b.bump !in b.blocks
    ensures Partition(base, Bumped(b, base, c, Cap(c)).bump, Bumped(b, base, c, Cap(c)).blocks)
  {
    TopNew(b, base);
    PartitionAfter(b, base, c, base + b.bump, b.blocks[base + b.bump := c], b.bump + Cap(c));
  }

  lemma AllInside(b: Books, base: u64, c: Class, after: map<u64, Class>)
    requires Partition(base, b.bump, b.blocks) && base + b.bump + Cap(c) <= TWO64 - 1
    requires after == b.blocks[base + b.bump := c]
    ensures forall a :: a in after ==> base <= a && a + Cap(after[a]) <= base + b.bump + Cap(c) && a % 16 == 0
  {
    forall a | a in after
      ensures base <= a && a + Cap(after[a]) <= base + b.bump + Cap(c) && a % 16 == 0
    {
      BumpInside(b, base, c, a);
    }
  }

  lemma AllApart(b: Books, base: u64, c: Class, after: map<u64, Class>)
    requires Partition(base, b.bump, b.blocks) && base + b.bump + Cap(c) <= TWO64 - 1
    requires after == b.blocks[base + b.bump := c]
    ensures forall x, y :: x in after && y in after && x != y ==> Apart(after, x, y)
  {
    forall x, y | x in after && y in after && x != y
      ensures Apart(after, x, y)
    {
      BumpApart(b, base, c, x, y);
    }
  }

  lemma AllCovered(b: Books, base: u64, c: Class, after: map<u64, Class>)
    requires Partition(base, b.bump, b.blocks) && base + b.bump + Cap(c) <= TWO64 - 1
    requires base + b.bump !in b.blocks && after == b.blocks[base + b.bump := c]
    ensures forall x: u64 :: base <= x < base + b.bump + Cap(c) ==> Covered(after, x)
  {
    forall x: u64 | base <= x < base + b.bump + Cap(c)
      ensures Covered(after, x)
    {
      BumpCovers(b, base, c, x);
    }
  }

  lemma PartitionAfter(b: Books, base: u64, c: Class, p: u64, after: map<u64, Class>, bump: u64)
    requires Partition(base, b.bump, b.blocks) && base + b.bump + Cap(c) <= TWO64 - 1
    requires p == base + b.bump && p !in b.blocks && after == b.blocks[p := c] && bump == b.bump + Cap(c)
    ensures Partition(base, bump, after)
  {
    AllInside(b, base, c, after);
    AllApart(b, base, c, after);
    AllCovered(b, base, c, after);
  }

  lemma BumpOwned(b: Books, base: u64, c: Class)
    requires Owned(b.blocks, b.live, b.lists) && base + b.bump + Cap(c) <= TWO64 - 1
    requires base + b.bump !in b.blocks
    ensures Owned(Bumped(b, base, c, Cap(c)).blocks, Bumped(b, base, c, Cap(c)).live, b.lists)
  {
    var after := Bumped(b, base, c, Cap(c));
    forall d: Class, k | 0 <= k < |b.lists[d]|
      ensures OnList(after.blocks, after.live, b.lists[d][k], d)
    {
      assert OnList(b.blocks, b.live, b.lists[d][k], d);
    }
  }

  /** Bumping keeps the books sound. */
  lemma BumpSound(m: map<u64, u8>, base: u64, b: Books, c: Class)
    requires Sound(m, base, b)
    requires base + b.bump + Cap(c) <= TWO64 - 1
    ensures base + b.bump !in b.blocks && Sound(m, base, Bumped(b, base, c, Cap(c)))
  {
    BumpPartition(b, base, c);
    BumpOwned(b, base, c);
  }

  lemma PushOwned(b: Books, a: u64, c: Class)
    requires Owned(b.blocks, b.live, b.lists) && |b.heads| == CLASSES
    requires a in b.live && b.blocks[a] == c
    ensures Owned(b.blocks, Pushed(b, a, c).live, Pushed(b, a, c).lists)
  {
    var after := Pushed(b, a, c);
    var l := b.lists[c];
    forall k | 0 <= k < |l|
      ensures l[k] != a
    {
      assert OnList(b.blocks, b.live, l[k], c);
    }
    forall d: Class, k | 0 <= k < |after.lists[d]|
      ensures OnList(b.blocks, after.live, after.lists[d][k], d)
    {
      if d != c {
        assert OnList(b.blocks, b.live, b.lists[d][k], d);
      } else if k > 0 {
        assert OnList(b.blocks, b.live, l[k - 1], d);
      }
    }
    forall x | x in b.blocks && x !in after.live
      ensures x in after.lists[b.blocks[x]]
    {
      if x == a {
        assert after.lists[c][0] == a;
      } else if b.blocks[x] == c {
        assert x in l;
      }
    }
  }

  // ---- Writes ----------------------------------------------------------------------------

  /** A pointer just written is the pointer read. */
  lemma PointsAfterStore(m: map<u64, u8>, a: u64, v: u64)
    ensures Points(Stored(m, a, ToLe(v, 8)), a, v)
  {
    LoadAfterStore(m, a, ToLe(v, 8));
    WordBack(v, 8);
  }

  lemma WordBack(v: u64, n: nat)
    requires n == 8
    ensures FromLe(ToLe(v, n)) == v
  {
    StoreLoad(v, n);
    assert Span(8) == TWO64;
  }

  /** A write that misses the eight bytes leaves the pointer alone. */
  lemma PointsElsewhere(m: map<u64, u8>, w: u64, data: seq<u8>, a: u64, v: u64)
    requires Points(m, a, v) && w + |data| <= TWO64 && a + 8 <= TWO64
    requires w + |data| <= a || a + 8 <= w
    ensures Points(Stored(m, w, data), a, v)
  {
    var after := Stored(m, w, data);
    forall i | 0 <= i < 8
      ensures Plus(a, i) in after && after[Plus(a, i)] == m[Plus(a, i)]
    {
      assert Plus(a, i) in m;
      StoreElsewhere(m, w, data, Plus(a, i));
    }
    assert Loaded(after, a, 8) == Loaded(m, a, 8);
  }

  /** A write inside block w reaches no pointer of another block. */
  lemma MissesNode(base: u64, b: Books, w: u64, at: u64, n: nat, a: u64)
    requires Partition(base, b.bump, b.blocks) && base + b.bump < TWO64
    requires w in b.blocks && w <= at && at + n <= w + Cap(b.blocks[w])
    requires a in b.blocks && a != w
    ensures at + n <= a || a + 8 <= at
    ensures at + n <= TWO64 && a + 8 <= TWO64
  {
    assert Apart(b.blocks, a, w);
  }

  /** A write inside block w keeps every chain that does not run through w. */
  lemma ChainKept(m: map<u64, u8>, base: u64, b: Books, w: u64, at: u64, data: seq<u8>, c: Class)
    requires Sound(m, base, b) && base + b.bump < TWO64
    requires w in b.live && w <= at && at + |data| <= w + Cap(b.blocks[w])
    ensures Chain(Stored(m, at, data), b.heads[c], b.lists[c])
  {
    var l := b.lists[c];
    assert Chain(m, b.heads[c], l);
    forall k | 0 <= k < |l|
      ensures Points(Stored(m, at, data), l[k], Head(l[k + 1..]))
    {
      assert OnList(b.blocks, b.live, l[k], c);
      MissesNode(base, b, w, at, |data|, l[k]);
      PointsElsewhere(m, at, data, l[k], Head(l[k + 1..]));
    }
  }

  /** A client that writes only inside a live block leaves the allocator sound. */
  lemma ClientWriteKeeps(m: map<u64, u8>, base: u64, b: Books, w: u64, at: u64, data: seq<u8>)
    requires Sound(m, base, b) && base + b.bump < TWO64
    requires w in b.live && w <= at && at + |data| <= w + Cap(b.blocks[w])
    ensures Sound(Stored(m, at, data), base, b)
  {
    forall c: Class
      ensures Chain(Stored(m, at, data), b.heads[c], b.lists[c])
    {
      ChainKept(m, base, b, w, at, data, c);
    }
  }

  lemma ChainPush(m: map<u64, u8>, head: u64, l: seq<u64>, a: u64)
    requires Chain(m, head, l) && Points(m, a, head)
    ensures Chain(m, a, [a] + l)
  {
    var p := [a] + l;
    forall k | 0 <= k < |p|
      ensures Points(m, p[k], Head(p[k + 1..]))
    {
      if k == 0 {
        assert p[1..] == l;
      } else {
        assert p[k + 1..] == l[k..];
        assert Points(m, l[k - 1], Head(l[(k - 1) + 1..]));
      }
    }
  }

  /** Writing the old head into a freed block and making it the head keeps the books sound. */
  lemma PushSound(m: map<u64, u8>, base: u64, b: Books, a: u64, c: Class)
    requires Sound(m, base, b) && base + b.bump < TWO64
    requires a in b.live && b.blocks[a] == c
    ensures Sound(Stored(m, a, ToLe(b.heads[c], 8)), base, Pushed(b, a, c))
  {
    var after := Stored(m, a, ToLe(b.heads[c], 8));
    ClientWriteKeeps(m, base, b, a, a, ToLe(b.heads[c], 8));
    PointsAfterStore(m, a, b.heads[c]);
    assert Chain(after, b.heads[c], b.lists[c]);
    ChainPush(after, b.heads[c], b.lists[c], a);
    PushOwned(b, a, c);
  }

  /** Freeing a block twice in a row makes it its own successor: no list is chained from it any more. */
  lemma DoubleFreeLoops(m: map<u64, u8>, a: u64, l: seq<u64>)
    requires a != 0
    ensures !Chain(Stored(m, a, ToLe(a, 8)), a, l)
  {
    var after := Stored(m, a, ToLe(a, 8));
    PointsAfterStore(m, a, a);
    SelfLink(after, a, l);
  }

  lemma {:induction false} SelfLink(m: map<u64, u8>, a: u64, l: seq<u64>)
    requires a != 0 && Points(m, a, a)
    ensures !Chain(m, a, l)
    decreases |l|
  {
    if Chain(m, a, l) {
      assert Points(m, l[0], Head(l[0 + 1..]));
      ChainTail(m, a, l);
      SelfLink(m, a, l[1..]);
    }
  }

  // ---- The region ------------------------------------------------------------------------

  predicate RegionFits(base: u64, size: u64) {
    0 < base && base % PAGE == 0 && size % PAGE == 0 && base + size < TWO64 && size + MAX_REQUEST < TWO64
  }

  /** No permission range takes the right to write away from the region. */
  ghost predicate AllWritable(prots: seq<ProtRange>, privates: seq<Range>, base: u64, size: u64) {
    forall x: u64 :: base <= x < base + size ==> PermOf(prots, privates, x) / 2 % 2 == 1
  }

  lemma RegionMayWrite(sp: Space, base: u64, size: u64, a: u64, n: u64)
    requires AllWritable(sp.prots, sp.privates, base, size) && base <= a && a + n <= base + size
    ensures MayWrite(sp, a, n)
  {
  }

  predicate Foreign(base: u64, size: u64, addr: u64) {
    addr < base || addr >= Plus(base, size)
  }

  /** What a request of class c gets: zero and no change if its list is empty and the region is full, the
      head of its list if it has one, the next block from the top otherwise. */
  ghost predicate Handed(was: Books, base: u64, size: u64, c: Class, p: u64, now: Books) {
    && |was.lists| == CLASSES && |was.heads| == CLASSES
    && if was.lists[c] != [] then p == was.lists[c][0] && p != 0 && now == Popped(was, c)
       else if was.bump + Cap(c) > size then p == 0 && now == was
       else base + was.bump + Cap(c) < TWO64 && p == base + was.bump && p != 0 && now == Bumped(was, base, c, Cap(c))
  }

  lemma EmptyList(m: map<u64, u8>, base: u64, b: Books, c: Class)
    requires Sound(m, base, b) && 0 < base
    ensures b.heads[c] == 0 <==> b.lists[c] == []
  {
    assert Chain(m, b.heads[c], b.lists[c]);
    if b.lists[c] != [] {
      assert OnList(b.blocks, b.live, b.lists[c][0], c);
    }
  }

  lemma HandedOwn(was: Books, base: u64, size: u64, c: Class, p: u64, now: Books)
    requires Owned(was.blocks, was.live, was.lists) && Partition(base, was.bump, was.blocks)
    requires Handed(was, base, size, c, p, now) && p != 0
    ensures p !in was.live && now.live == was.live + {p} && p in now.blocks && now.blocks[p] == c
  {
    if was.lists[c] != [] {
      assert OnList(was.blocks, was.live, was.lists[c][0], c);
    } else if p in was.blocks {
      TopFree(was, base, p);
    }
  }

  /** The block handed out is aligned, of the class's size, inside the region, and overlaps no live block. */
  lemma HandedFresh(m: map<u64, u8>, was: Books, base: u64, size: u64, c: Class, p: u64, now: Books)
    requires Sound(m, base, was) && Sound(m, base, now) && Handed(was, base, size, c, p, now) && p != 0
    requires base + size < TWO64 && now.bump <= size
    ensures p % 16 == 0 && base <= p && p + Cap(c) <= base + size
    ensures p !in was.live && now.live == was.live + {p} && p in now.blocks && now.blocks[p] == c
    ensures forall q :: q in was.live ==> q in now.blocks && Apart(now.blocks, p, q)
  {
    HandedOwn(was, base, size, c, p, now);
    forall q | q in was.live
      ensures q in now.blocks && Apart(now.blocks, p, q)
    {
      assert q in now.live;
    }
  }

  /** Memory once the link to the next block has been written at a, if that is allowed. */
  ghost function LinkWritten(sp: Space, a: u64, next: u64): map<u64, u8> {
    if MayWrite(sp, a, 8) then Stored(sp.bytes, a, ToLe(next, 8)) else sp.bytes
  }

  /** No block and no list yet. */
  lemma EmptyOwned(b: Books)
    requires b.blocks == map[] && b.live == {} && |b.lists| == CLASSES
    requires forall c: Class :: b.lists[c] == []
    ensures Owned(b.blocks, b.live, b.lists)
  {
  }

  lemma EmptySound(m: map<u64, u8>, base: u64, b: Books)
    requires b.bump == 0 && b.blocks == map[] && b.live == {} && |b.heads| == CLASSES && |b.lists| == CLASSES
    requires forall c: Class :: b.heads[c] == 0 && b.lists[c] == []
    ensures Sound(m, base, b) <==> base % 16 == 0
  {
    EmptyOwned(b);
    forall c: Class
      ensures Chain(m, b.heads[c], b.lists[c])
    {
    }
  }

  /** A page-aligned address is aligned for every block. */
  lemma PageAligned(base: u64, size: u64)
    requires RegionFits(base, size)
    ensures base % 16 == 0
  {
    DivModUnique(base, 16, 256 * (base / PAGE), 0);
  }

  type Heads = s: seq<u64> | |s| == 16 witness seq(16, _ => 0)

  // ---- The allocator ---------------------------------------------------------------------

  class Heap {
    const shadow: ShadowPages
    const base: u64
    const size: u64
    var bump: u64
    var freelist: Heads
    ghost var blocks: map<u64, Class>
    ghost var live: set<u64>
    ghost var lists: seq<seq<u64>>

    /** A fresh private region. The allocator is in order if the region is page-aligned, clear of address zero,
        short enough for the bump offset not to wrap, and may be written. */
    constructor (shadow: ShadowPages, base: u64, size: u64)
      requires shadow.Valid()
      modifies shadow`privates
      ensures this.shadow == shadow && this.base == base && this.size == size && shadow.Valid()
      ensures bump == 0 && (forall c: Class :: freelist[c] == 0) && blocks == map[] && live == {}
      ensures shadow.privates == old(shadow.privates) + [Range(base, size)]
      ensures Valid() <==> RegionFits(base, size) && AllWritable(shadow.prots, shadow.privates, base, size)
    {
      this.shadow, this.base, this.size := shadow, base, size;
      bump, freelist := 0, seq(CLASSES, _ => 0);
      blocks, live, lists := map[], {}, seq(CLASSES, _ => []);
      new;
      shadow.AddPrivateRegion(base, size);
      EmptySound(shadow.Bytes(), base, Ledger());
      if RegionFits(base, size) {
        PageAligned(base, size);
      }
    }

    ghost function Ledger(): Books
      reads this
    {
      Books(bump, freelist, blocks, live, lists)
    }

    ghost predicate Placed()
      reads shadow
    {
      RegionFits(base, size) && shadow.Valid() && AllWritable(shadow.prots, shadow.privates, base, size)
    }

    /** The region lies well inside the address space and may be written, and the books are sound. */
    ghost predicate Valid()
      reads this, shadow
    {
      && Placed() && bump <= size
      && Sound(shadow.Bytes(), base, Ledger())
    }

    /** alloc: nothing for an empty request; else the head of the class's list; else a new block cut from
        the top, if there is room. The block was in nobody's hands and guest memory is left alone. */
    method Alloc(bytes: u64) returns (p: u64)
      requires Valid()
      modifies this
      ensures Valid()
      ensures bytes == 0 ==> p == 0 && Ledger() == old(Ledger())
      ensures bytes > 0 ==> Handed(old(Ledger()), base, size, ClassOf(bytes), p, Ledger())
    {
      if bytes == 0 {
        return 0;
      }
      var cls := ClassFor(bytes);
      if freelist[cls] != 0 {
        p := Pop(cls);
      } else {
        p := Bump(cls);
      }
    }

    method Pop(cls: Class) returns (p: u64)
      requires Valid() && freelist[cls] != 0
      modifies this
      ensures Valid() && Handed(old(Ledger()), base, size, cls, p, Ledger())
    {
      ghost var was := Ledger();
      ghost var l := lists[cls];
      assert Chain(shadow.Bytes(), freelist[cls], l);
      assert OnList(blocks, live, l[0], cls) && Points(shadow.Bytes(), l[0], Head(l[0 + 1..]));
      PopSound(shadow.Bytes(), base, was, cls);
      p := freelist[cls];
      var r := shadow.Read(p, 8);
      SetHead(cls, FromLe(r.data), Popped(was, cls));
    }

    /** Make next the head of the list, as the books say. */
    method SetHead(cls: Class, next: u64, ghost after: Books)
      requires Placed() && bump <= size && Sound(shadow.Bytes(), base, after)
      requires after.heads == freelist[cls := next] && after.bump == bump && after.blocks == blocks
      modifies this
      ensures Valid() && Ledger() == after
    {
      freelist := freelist[cls := next];
      lists, live := after.lists, after.live;
      assert Ledger() == after;
    }

    method Bump(cls: Class) returns (p: u64)
      requires Valid() && freelist[cls] == 0
      modifies this
      ensures Valid() && Handed(old(Ledger()), base, size, cls, p, Ledger())
    {
      ghost var was := Ledger();
      EmptyList(shadow.Bytes(), base, was, cls);
      if bump + Cap(cls) > size {
        return 0;
      }
      BumpSound(shadow.Bytes(), base, was, cls);
      p := CutTop(Cap(cls), Bumped(was, base, cls, Cap(cls)));
    }

    /** Move the bump offset past a new block of n bytes, as the books say. */
    method CutTop(n: u64, ghost after: Books) returns (p: u64)
      requires Placed() && bump + n <= size && base + bump + n < TWO64
      requires Sound(shadow.Bytes(), base, after) && after.bump == bump + n && after.heads == freelist
      modifies this
      ensures Valid() && p == base + old(bump) && p != 0 && Ledger() == after
    {
      p := base + bump;
      bump := bump + n;
      blocks, live, lists := after.blocks, after.live, after.lists;
      assert Ledger() == after;
    }

    /** addr is a live block of the class that so many bytes ask for. */
    ghost predicate MayFree(addr: u64, bytes: u64)
      reads this
    {
      addr in live && addr in blocks && blocks[addr] == ClassOf(bytes)
    }

    /** free: address zero, no bytes and foreign addresses are ignored; any other address goes to the front of
        the list, and if the store lets it eight bytes there change. A live block given back with a size of its
        class keeps the books sound. */
    method Free(addr: u64, bytes: u64)
      requires shadow.Valid()
      modifies this, shadow`pages, shadow.listener
      ensures shadow.Valid() && bump == old(bump)
      ensures addr == 0 || bytes == 0 || Foreign(base, size, addr) ==>
        Ledger() == old(Ledger()) && shadow.Bytes() == old(shadow.Bytes())
      ensures addr != 0 && bytes != 0 && !Foreign(base, size, addr) ==>
        && freelist == old(freelist)[ClassOf(bytes) := addr]
        && shadow.Bytes() == LinkWritten(old(shadow.Flat()), addr, old(freelist)[ClassOf(bytes)])
        && (old(Valid()) && old(MayFree(addr, bytes)) ==> Ledger() == Pushed(old(Ledger()), addr, ClassOf(bytes)))
      ensures old(Valid()) && (addr == 0 || bytes == 0 || Foreign(base, size, addr) || old(MayFree(addr, bytes))) ==>
        Valid()
    {
      if addr == 0 || bytes == 0 {
        return;
      }
      if addr < base || addr >= Plus(base, size) {
        return;
      }
      var cls := ClassFor(bytes);
      GiveBack(addr, cls, Valid() && MayFree(addr, bytes));
    }

    method GiveBack(addr: u64, cls: Class, ghost sound: bool)
      requires shadow.Valid() && (sound ==> Valid() && addr in live && blocks[addr] == cls)
      modifies this, shadow`pages, shadow.listener
      ensures shadow.Valid() && bump == old(bump) && freelist == old(freelist)[cls := addr]
      ensures shadow.Bytes() == LinkWritten(old(shadow.Flat()), addr, old(freelist)[cls])
      ensures sound ==> Valid() && Ledger() == Pushed(old(Ledger()), addr, cls)
    {
      ghost var was := Ledger();
      if sound {
        PushSound(shadow.Bytes(), base, was, addr, cls);
        RegionMayWrite(shadow.Flat(), base, size, addr, 8);
      }
      var status := shadow.Write(addr, ToLe(freelist[cls], 8));
      freelist := freelist[cls := addr];
      if sound {
        lists, live := lists[cls := [addr] + lists[cls]], live - {addr};
        assert Ledger() == Pushed(was, addr, cls);
      }
    }
  }
}
