/** Guest memory as one flat map of readable bytes, with the permission and code-range rules of the
    copy-on-write store. */
module FlatMemory {
  import opened Words
  import opened Base

  const PAGE: nat := 4096

  datatype Range = Range(base: u64, size: u64) {
    /** base + size as 64-bit arithmetic leaves it. */
    function End(): u64 {
      Plus(base, size)
    }
  }

  /** prot holds read in bit 0, write in bit 1, execute in bit 2. */
  datatype ProtRange = ProtRange(base: u64, size: u64, prot: u8)

  const PROT_R: u8 := 1
  const PROT_W: u8 := 2

  datatype Space = Space(bytes: map<u64, u8>, privates: seq<Range>, prots: seq<ProtRange>, codes: seq<Range>)

  predicate RangeIsPrivate(privates: seq<Range>, addr: u64, size: u64) {
    exists i :: 0 <= i < |privates| && addr >= privates[i].base && Plus(addr, size) <= privates[i].End()
  }

  /** The latest matching range decides; by default private bytes are read-write and others read-only. */
  function PermOf(prots: seq<ProtRange>, privates: seq<Range>, addr: u64): u8 {
    if |prots| == 0 then (if RangeIsPrivate(privates, addr, 1) then PROT_R + PROT_W else PROT_R)
    else
      var last := prots[|prots| - 1];
      if last.base <= addr < Plus(last.base, last.size) then last.prot
      else PermOf(prots[..|prots| - 1], privates, addr)
  }

  predicate Writable(sp: Space, addr: u64) {
    PermOf(sp.prots, sp.privates, addr) / 2 % 2 == 1
  }

  /** With no ranges installed every write passes; a span that goes round 2^64 is never inspected. */
  predicate MayWrite(sp: Space, a: u64, n: u64) {
    |sp.prots| == 0 || (a + n < TWO64 ==> forall x: u64 :: a <= x < a + n ==> Writable(sp, x))
  }

  /** x lies in the n bytes at a, going round at 2^64. */
  predicate Within(x: u64, a: u64, n: nat) {
    Offset(x, a) < n
  }

  function PageOf(x: u64): u64 {
    x - x % PAGE
  }

  /** x's page holds one of the n bytes at a. */
  predicate Touched(x: u64, a: u64, n: nat) {
    n > 0 && (PageOf(a) == PageOf(x) || Within(PageOf(x), a, n))
  }

  /** Storing data at a: its own bytes change, and the pages it touches become readable, zero where they
      were not. */
  ghost function Stored(m: map<u64, u8>, a: u64, data: seq<u8>): map<u64, u8> {
    map x: u64 | x in m || Touched(x, a, |data|) ::
      if Within(x, a, |data|) then data[Offset(x, a)] else if x in m then m[x] else 0
  }

  /** The n bytes at a, if all of them can be read. */
  predicate Readable(m: map<u64, u8>, a: u64, n: nat) {
    forall i :: 0 <= i < n && i < TWO64 ==> Plus(a, i) in m
  }

  ghost function Loaded(m: map<u64, u8>, a: u64, n: nat): (s: seq<u8>)
    requires n <= TWO64 && Readable(m, a, n)
    ensures |s| == n && forall i :: 0 <= i < n ==> s[i] == m[Plus(a, i)]
  {
    seq(n, i requires 0 <= i < n => m[Plus(a, i)])
  }

  /** A write overlaps a registered code range. */
  predicate Notifies(codes: seq<Range>, a: u64, n: u64) {
    exists i :: 0 <= i < |codes| && a < codes[i].End() && Plus(a, n) > codes[i].base
  }

  /** What was written can be read back. */
  lemma LoadAfterStore(m: map<u64, u8>, a: u64, data: seq<u8>)
    requires |data| <= TWO64
    ensures Readable(Stored(m, a, data), a, |data|) && Loaded(Stored(m, a, data), a, |data|) == data
  {
    forall i | 0 <= i < |data|
      ensures Plus(a, i) in Stored(m, a, data) && Stored(m, a, data)[Plus(a, i)] == data[i]
    {
      StoredByte(m, a, data, i);
    }
  }

  lemma StoredByte(m: map<u64, u8>, a: u64, data: seq<u8>, i: u64)
    requires i < |data|
    ensures Plus(a, i) in Stored(m, a, data) && Stored(m, a, data)[Plus(a, i)] == data[i]
  {
    var x := Plus(a, i);
    assert Offset(x, a) == i;
    WithinTouched(x, a, |data|);
  }

  /** Every written byte lies in a touched page. */
  lemma WithinTouched(x: u64, a: u64, n: nat)
    requires Within(x, a, n)
    ensures Touched(x, a, n)
  {
  }

  /** Bytes outside the write keep their value. */
  lemma StoreElsewhere(m: map<u64, u8>, a: u64, data: seq<u8>, x: u64)
    requires x in m && !Within(x, a, |data|)
    ensures x in Stored(m, a, data) && Stored(m, a, data)[x] == m[x]
  {
  }
}
