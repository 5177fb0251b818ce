/** The processor's view of memory: the three caches over the page store, behind one read and one write. */
module MemoryPort {
  import opened Words
  import opened Base
  import opened FlatMemory
  import opened Blocks
  import opened Shadow
  import RegionCache
  import PageCache
  import LineCache

  class Port {
    const l1: LineCache.L1Cache
    const l2: PageCache.L2Cache
    const l3: RegionCache.L3Cache
    const shadow: ShadowPages
    const listener: BlockCache

    /** Empty caches over a page store. */
    constructor (shadow: ShadowPages)
      requires shadow.Valid()
      ensures Valid() && this.shadow == shadow && listener == shadow.listener
      ensures fresh(l1) && fresh(l2) && fresh(l3)
    {
      var third := new RegionCache.L3Cache(shadow);
      var second := new PageCache.L2Cache(third);
      var first := new LineCache.L1Cache(second);
      this.shadow, this.listener := shadow, shadow.listener;
      l1, l2, l3 := first, second, third;
    }

    /** Each level stands on the next. */
    predicate Stacked() {
      l1.next == l2 && l2.next == l3 && l3.next == shadow && shadow.listener == listener
    }

    /** Everything cached equals the page store below. */
    ghost predicate Valid()
      reads l1, l1.next, l1.next.next, l1.next.next.next, shadow
    {
      Stacked() && shadow.Valid() && l1.Coherent()
    }

    ghost function Bytes(): map<u64, u8>
      requires shadow.Valid()
      reads shadow
    {
      shadow.Bytes()
    }

    ghost function Flat(): Space
      requires shadow.Valid()
      reads shadow
    {
      shadow.Flat()
    }

    /** A read through all levels: Ok exactly when the page store holds every byte, and then those bytes. */
    method Read(addr: u64, size: u64) returns (r: ReadResult)
      requires Valid()
      modifies l1, l2, l3
      ensures Valid()
      ensures r.ReadOk? <==> Readable(Bytes(), addr, size)
      ensures r.ReadOk? ==> r.data == Loaded(Bytes(), addr, size)
      ensures r.ReadFailed? ==> r.status == UnmappedRead
    {
      r := l1.Read(addr, size);
    }

    /** A write through all levels: refused without effect, or stored with the listener told. */
    method Write(addr: u64, data: seq<u8>) returns (status: Status)
      requires Valid() && |data| < TWO64
      modifies l1, l2, l3, shadow`pages, listener
      ensures Valid()
      ensures status == (if MayWrite(old(Flat()), addr, |data|) then Ok else ProtectionViolation)
      ensures status == Ok ==> Bytes() == Stored(old(Bytes()), addr, data)
      ensures status != Ok ==> Bytes() == old(Bytes())
      ensures listener.blocks
        == if status == Ok then AfterWrite(old(listener.blocks), shadow.codes, addr, |data|) else old(listener.blocks)
    {
      status := l1.Write(addr, data);
    }
  }
}
