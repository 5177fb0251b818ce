/** One cached stretch of memory, whatever its size: how it tracks the flat bytes below it. */
module CacheLines {
  import opened Words
  import opened Base
  import opened FlatMemory
  import opened Shadow

  datatype Slot = Slot(valid: bool, tag: u64, data: seq<u8>)

  const EMPTY: Slot := Slot(false, 0, [])

  /** A valid slot holds the size bytes at its tag. */
  ghost predicate Mirrors(s: Slot, m: map<u64, u8>, size: nat)
    requires 0 < size <= TWO64
  {
    s.valid ==>
      && s.tag % size == 0 && s.tag + size <= TWO64
      && Readable(m, s.tag, size) && s.data == Loaded(m, s.tag, size)
  }

  lemma {:induction false} AlignedApart(a: nat, b: nat, size: nat)
    requires size > 0 && a % size == 0 && b % size == 0 && a < b
    ensures a + size <= b
  {
    var k := b / size - a / size;
    assert b - a == size * k by {
      assert a == size * (a / size) && b == size * (b / size);
    }
    assert k >= 1 by {
      if k < 1 {
        MulNonNegative(size, -k);
      }
    }
    MulAtLeast(size, k);
  }

  /** Part of a cached stretch is what memory holds there. */
  lemma SliceOfLoaded(m: map<u64, u8>, base: u64, size: nat, off: nat, n: nat)
    requires base + size <= TWO64 && off + n <= size && n > 0 && Readable(m, base, size)
    ensures base + off < TWO64 && Readable(m, base + off, n)
    ensures Loaded(m, base, size)[off..off + n] == Loaded(m, base + off, n)
  {
    var cur: u64 := base + off;
    forall i | 0 <= i < n
      ensures Plus(cur, i) == Plus(base, off + i)
    {
    }
  }

  function Patched(data: seq<u8>, off: nat, chunk: seq<u8>): seq<u8>
    requires off + |chunk| <= |data|
  {
    data[..off] + chunk + data[off + |chunk|..]
  }

  /** Patching the stretch a store falls into keeps it in step with memory. */
  lemma PatchKeeps(m: map<u64, u8>, base: u64, size: nat, off: nat, chunk: seq<u8>)
    requires base + size <= TWO64 && off + |chunk| <= size && |chunk| > 0 && Readable(m, base, size)
    ensures base + off < TWO64
    ensures Readable(Stored(m, base + off, chunk), base, size)
    ensures Loaded(Stored(m, base + off, chunk), base, size) == Patched(Loaded(m, base, size), off, chunk)
  {
    forall i | 0 <= i < size
      ensures Plus(base, i) in Stored(m, base + off, chunk)
      ensures Stored(m, base + off, chunk)[Plus(base, i)] == Patched(Loaded(m, base, size), off, chunk)[i]
    {
      PatchedByte(m, base, size, off, chunk, i);
    }
  }

  lemma PatchedByte(m: map<u64, u8>, base: u64, size: nat, off: nat, chunk: seq<u8>, i: nat)
    requires base + size <= TWO64 && off + |chunk| <= size && |chunk| > 0 && Readable(m, base, size) && i < size
    ensures base + off < TWO64 && Plus(base, i) in Stored(m, base + off, chunk)
    ensures Stored(m, base + off, chunk)[Plus(base, i)] == Patched(Loaded(m, base, size), off, chunk)[i]
  {
    assert Plus(base, i) == base + i && base + i in m;
    assert Offset(base + i, base + off) == if i >= off then i - off else i - off + TWO64;
  }

  /** A store elsewhere leaves a stretch alone. */
  lemma StoreKeeps(m: map<u64, u8>, base: u64, size: nat, a: u64, chunk: seq<u8>)
    requires base + size <= TWO64 && a + |chunk| <= TWO64 && Readable(m, base, size)
    requires a + |chunk| <= base || base + size <= a
    ensures Readable(Stored(m, a, chunk), base, size)
    ensures Loaded(Stored(m, a, chunk), base, size) == Loaded(m, base, size)
  {
    forall i | 0 <= i < size
      ensures Plus(base, i) in Stored(m, a, chunk) && Stored(m, a, chunk)[Plus(base, i)] == m[Plus(base, i)]
    {
      assert Plus(base, i) == base + i && base + i in m;
    }
  }

  /** A page-granular memory has a page's bytes all or none. */
  lemma AllOrNone(m: map<u64, u8>, base: u64, size: nat, off: nat, n: nat)
    requires PageGranular(m) && base + size <= TWO64 && off + n <= size && n > 0
    requires base % PAGE + size <= PAGE
    ensures base + off < TWO64 && (Readable(m, base + off, n) <==> Readable(m, base, size))
  {
    if Readable(m, base + off, n) {
      assert Plus(base + off, 0) == base + off;
      InPage(base, off);
      forall i | 0 <= i < size
        ensures Plus(base, i) in m
      {
        InPage(base, i);
      }
    } else if Readable(m, base, size) {
      SliceOfLoaded(m, base, size, off, n);
    }
  }

  /** What write-through does to a slot when chunk is stored off bytes into the stretch at base. */
  function AfterStore(s: Slot, base: u64, off: nat, chunk: seq<u8>): Slot {
    if s.valid && s.tag == base && off + |chunk| <= |s.data| then s.(data := Patched(s.data, off, chunk)) else s
  }

  /** Patching the slot that holds the stretch, and no other, keeps every slot in step with memory. */
  lemma StoreMirrors(s: Slot, m: map<u64, u8>, size: nat, base: u64, off: nat, chunk: seq<u8>)
    requires 0 < size <= TWO64 && Mirrors(s, m, size)
    requires base % size == 0 && base + size <= TWO64 && off + |chunk| <= size && |chunk| > 0
    ensures base + off < TWO64
    ensures Mirrors(AfterStore(s, base, off, chunk), Stored(m, base + off, chunk), size)
  {
    if s.valid && s.tag == base {
      PatchKeeps(m, base, size, off, chunk);
    } else if s.valid {
      if s.tag < base {
        AlignedApart(s.tag, base, size);
      } else {
        AlignedApart(base, s.tag, size);
      }
      StoreKeeps(m, s.tag, size, base + off, chunk);
    }
  }

  // ---- Invalidation ---------------------------------------------------------------------

  /** s holds none of the size bytes at addr, going round at 2^64. */
  predicate Clear(s: Slot, addr: u64, size: u64, stretch: nat)
    requires stretch <= TWO64
  {
    s.valid ==> forall i: nat :: i < stretch ==> !Within(Plus(s.tag, i), addr, size)
  }

  /** The walk from start has gone done bytes and met s. */
  predicate Reached(s: Slot, start: u64, done: nat) {
    s.valid && Offset(s.tag, start) < done
  }

  predicate Placed(s: Slot, size: nat)
    requires size > 0
  {
    s.valid ==> s.tag % size == 0
  }

  function Struck(s: Slot, hit: bool): Slot {
    if hit then s.(valid := false) else s
  }

  lemma OffsetAligned(x: u64, y: u64, size: nat)
    requires size > 0 && x % size == 0 && y % size == 0 && TWO64 % size == 0
    ensures Offset(x, y) % size == 0 && Offset(x, y) + size <= TWO64
  {
    var d := Offset(x, y);
    var k := x / size - y / size + if x >= y then 0 else TWO64 / size;
    assert d == size * k + 0 by {
      assert x == size * (x / size) && y == size * (y / size) && TWO64 == size * (TWO64 / size);
    }
    DivModUnique(d, size, k, 0);
    AlignedApart(d, TWO64, size);
  }

  /** One stretch further, the walk has also met the slot for it. */
  lemma ReachedNext(s: Slot, start: u64, p: u64, size: nat)
    requires size > 0 && start % size == 0 && p % size == 0 && TWO64 % size == 0 && Placed(s, size)
    ensures Reached(s, start, Offset(p, start) + size) <==>
      Reached(s, start, Offset(p, start)) || (s.valid && s.tag == p)
  {
    if s.valid {
      var t, d := Offset(s.tag, start), Offset(p, start);
      OffsetAligned(s.tag, start, size);
      OffsetAligned(p, start, size);
      if d < t {
        AlignedApart(d, t, size);
      }
    }
  }

  /** The next stretch, while the walk has not come round to its end. */
  lemma NextStretch(start: u64, p: u64, end: u64, size: nat)
    requires size > 0 && start % size == 0 && p % size == 0 && end % size == 0 && TWO64 % size == 0
    requires Offset(p, start) < Offset(end, start)
    ensures Offset(p, start) + size <= Offset(end, start) && size < TWO64
    ensures Plus(p, size) % size == 0 && Offset(Plus(p, size), start) == Offset(p, start) + size
  {
    OffsetAligned(p, start, size);
    OffsetAligned(end, start, size);
    AlignedApart(Offset(p, start), Offset(end, start), size);
    StepAligned(p, size);
  }

  lemma StepAligned(p: u64, size: u64)
    requires size > 0 && p % size == 0 && TWO64 % size == 0
    ensures Plus(p, size) % size == 0
  {
    var k := p / size + 1 - if p + size >= TWO64 then TWO64 / size else 0;
    assert Plus(p, size) == size * k by {
      assert p == size * (p / size) && TWO64 == size * (TWO64 / size);
    }
    DivModUnique(Plus(p, size), size, k, 0);
  }

  /** Unless the span comes round to the stretch it began in, the slots from its first stretch to its last
      are those that hold one of its bytes. */
  lemma ReachedIsHit(s: Slot, addr: u64, size: u64, stretch: nat, start: u64, end: u64, off: nat, r: nat)
    requires 0 < stretch && stretch < TWO64 && TWO64 % stretch == 0 && Placed(s, stretch) && 0 < size
    requires addr == start + off && off < stretch && start % stretch == 0
    requires Plus(addr, size - 1) == end + r && r < stretch && end % stretch == 0 && off + size <= TWO64
    ensures Reached(s, start, Offset(end, start) + stretch) <==> s.valid && !Clear(s, addr, size, stretch)
  {
    if s.valid {
      var t, e := Offset(s.tag, start), Offset(end, start);
      OffsetAligned(s.tag, start, stretch);
      OffsetAligned(end, start, stretch);
      SpanEnd(addr, size, start, end, off, r, stretch);
      if t <= e {
        var i := if t == 0 then off else 0;
        if t > 0 {
          AlignedApart(0, t, stretch);
        }
        assert Within(Plus(s.tag, i), addr, size);
      } else {
        AlignedApart(e, t, stretch);
        forall i: nat | i < stretch
          ensures !Within(Plus(s.tag, i), addr, size)
        {
          assert Offset(Plus(s.tag, i), addr) == t + i - off;
        }
      }
    }
  }

  lemma SpanEnd(addr: u64, size: u64, start: u64, end: u64, off: nat, r: nat, stretch: nat)
    requires 0 < stretch && TWO64 % stretch == 0 && 0 < size && end % stretch == 0 && start % stretch == 0
    requires addr == start + off && off < stretch && Plus(addr, size - 1) == end + r && r < stretch
    requires off + size <= TWO64
    ensures off + size - 1 == Offset(end, start) + r
  {
    OffsetAligned(end, start, stretch);
    assert Offset(Plus(addr, size - 1), start) == off + size - 1;
  }

  /** What a walk from the first stretch of a span to its last leaves of one slot. */
  lemma DroppedSlot(was: Slot, addr: u64, size: u64, stretch: nat, start: u64, end: u64)
    requires 0 < size && 0 < stretch && stretch < TWO64 && TWO64 % stretch == 0 && Placed(was, stretch)
    requires start == addr - addr % stretch && start % stretch == 0
    requires end == Plus(addr, size - 1) - Plus(addr, size - 1) % stretch && end % stretch == 0
    ensures var met := Reached(was, start, Offset(end, start) + stretch);
      && (addr % stretch + size <= TWO64 ==> met == !Clear(was, addr, size, stretch))
      && (addr % stretch + size > TWO64 ==> met == (was.valid && was.tag == start))
  {
    var off, r := addr % stretch, Plus(addr, size - 1) % stretch;
    if off + size <= TWO64 {
      ReachedIsHit(was, addr, size, stretch, start, end, off, r);
    } else {
      ComesRound(addr, size, start, end, off, r, stretch);
      ReachedNext(was, start, start, stretch);
    }
  }

  /** A span that does come round ends in the stretch it began in. */
  lemma ComesRound(addr: u64, size: u64, start: u64, end: u64, off: nat, r: nat, stretch: nat)
    requires 0 < size && 0 < stretch && TWO64 % stretch == 0 && end % stretch == 0 && start % stretch == 0
    requires addr == start + off && off < stretch && Plus(addr, size - 1) == end + r && r < stretch
    requires off + size > TWO64
    ensures end == start
  {
    OffsetAligned(end, start, stretch);
    assert Offset(Plus(addr, size - 1), start) == off + size - 1 - TWO64;
    if end != start {
      AlignedApart(0, Offset(end, start), stretch);
    }
  }

  /** Reading part of a valid slot reads memory. */
  lemma SlotSlice(s: Slot, m: map<u64, u8>, size: nat, off: nat, n: nat)
    requires 0 < size <= TWO64 && Mirrors(s, m, size) && s.valid && off + n <= size && n > 0
    ensures |s.data| == size && s.tag + off < TWO64
    ensures Readable(m, s.tag + off, n) && s.data[off..off + n] == Loaded(m, s.tag + off, n)
  {
    SliceOfLoaded(m, s.tag, size, off, n);
  }
}
