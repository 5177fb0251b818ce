/** The third cache level: sixteen 2 MiB regions, least recently used replaced first. */
module RegionCache {
  import opened Words
  import opened Base
  import opened FlatMemory
  import opened Blocks
  import opened Shadow
  import opened CacheLines

  const REGION: nat := 0x20_0000
  const REGIONS: nat := 16

  datatype Region = Region(slot: Slot, lastUse: nat)

  // ---- Which regions are held: the replacement policy by itself ---------------------------

  datatype Entry = Entry(valid: bool, base: u64, lastUse: nat)

  /** The policy's view of the cache: valid bits, bases, ages and the use counter. */
  datatype Table = Table(entries: seq<Entry>, counter: nat)

  /** The first valid entry for base, or how many entries there are. */
  function FindFrom(t: seq<Entry>, base: u64, i: nat): (k: nat)
    requires i <= |t|
    ensures i <= k <= |t|
    ensures k < |t| ==> t[k].valid && t[k].base == base
    ensures forall j :: i <= j < k ==> !(t[j].valid && t[j].base == base)
    decreases |t| - i
  {
    if i == |t| || (t[i].valid && t[i].base == base) then i else FindFrom(t, base, i + 1)
  }

  /** The victim scan from entry i on: an invalid entry wins at once, else the least recently used. */
  function VictimFrom(t: seq<Entry>, i: nat, best: nat): (v: nat)
    requires i <= |t| && best < |t|
    ensures v < |t|
    decreases |t| - i
  {
    if i == |t| then best
    else if !t[i].valid then i
    else VictimFrom(t, i + 1, if t[i].lastUse < t[best].lastUse then i else best)
  }

  function Hit(t: Table, i: nat): Table
    requires i < |t.entries|
  {
    Table(t.entries[i := t.entries[i].(lastUse := t.counter + 1)], t.counter + 1)
  }

  function Filled(t: Table, v: nat, base: u64): Table
    requires v < |t.entries|
  {
    Table(t.entries[v := Entry(true, base, t.counter + 1)], t.counter + 1)
  }

  /** A region is used: its entry refreshed, or the victim's taken over. */
  function Touch(t: Table, base: u64): (t': Table)
    requires |t.entries| == REGIONS
    ensures |t'.entries| == REGIONS
  {
    var k := FindFrom(t.entries, base, 0);
    if k < REGIONS then Hit(t, k) else Filled(t, VictimFrom(t.entries, 0, 0), base)
  }

  function RegionOf(x: u64): u64 {
    x - x % REGION
  }

  // ---- Least recently used ----------------------------------------------------------------

  function Without(h: seq<u64>, b: u64): seq<u64> {
    if |h| == 0 then [] else if h[0] == b then Without(h[1..], b) else [h[0]] + Without(h[1..], b)
  }

  /** Bases by how recently they were touched, latest first. */
  function MoveToFront(h: seq<u64>, b: u64): seq<u64> {
    [b] + Without(h, b)
  }

  predicate Distinct<T(==)>(h: seq<T>) {
    forall i, j :: 0 <= i < j < |h| ==> h[i] != h[j]
  }

  lemma {:induction false} WithoutAbsent(h: seq<u64>, b: u64)
    requires b !in h
    ensures Without(h, b) == h
  {
    if |h| == 0 {
    } else {
      WithoutAbsent(h[1..], b);
    }
  }

  lemma {:induction false} WithoutSplit(g: seq<u64>, h: seq<u64>, b: u64)
    ensures Without(g + h, b) == Without(g, b) + Without(h, b)
  {
    if |g| == 0 {
      assert g + h == h;
    } else {
      assert (g + h)[1..] == g[1..] + h;
      WithoutSplit(g[1..], h, b);
    }
  }

  lemma {:induction false} WithoutDistinct(h: seq<u64>, b: u64)
    requires Distinct(h)
    ensures Distinct(Without(h, b)) && b !in Without(h, b)
    ensures forall x :: x in Without(h, b) ==> x in h
  {
    if |h| == 0 {
    } else {
      WithoutDistinct(h[1..], b);
      assert h[0] !in h[1..];
    }
  }

  lemma WithoutAt(h: seq<u64>, p: nat)
    requires Distinct(h) && p < |h|
    ensures Without(h, h[p]) == h[..p] + h[p + 1..]
  {
    var g, b, r := h[..p], h[p], h[p + 1..];
    OnlyOnce(h, p);
    Rejoin(h, p);
    WithoutMiddle(g, b, r);
  }

  lemma Rejoin(h: seq<u64>, p: nat)
    requires p < |h|
    ensures h[..p] + ([h[p]] + h[p + 1..]) == h
  {
  }

  lemma OnlyOnce(h: seq<u64>, p: nat)
    requires Distinct(h) && p < |h|
    ensures h[p] !in h[..p] && h[p] !in h[p + 1..]
  {
    assert forall i :: 0 <= i < p ==> h[..p][i] == h[i];
    var r := h[p + 1..];
    forall i | 0 <= i < |r|
      ensures r[i] != h[p]
    {
      assert r[i] == h[p + 1 + i];
    }
  }

  lemma WithoutMiddle(g: seq<u64>, b: u64, h: seq<u64>)
    requires b !in g && b !in h
    ensures Without(g + ([b] + h), b) == g + h
  {
    WithoutSplit(g, [b] + h, b);
    WithoutAbsent(g, b);
    WithoutAbsent(h, b);
    assert ([b] + h)[1..] == h;
  }

  lemma WithoutPrefix(h: seq<u64>, b: u64, n: nat)
    requires n <= |h| && b !in h[..n]
    ensures n <= |Without(h, b)| && Without(h, b)[..n] == h[..n]
  {
    assert h == h[..n] + h[n..];
    WithoutSplit(h[..n], h[n..], b);
    WithoutAbsent(h[..n], b);
  }

  /** place[i] is the entry holding the i-th most recently touched base; every valid entry is one of them,
      and entries touched earlier are older. */
  predicate Tracks(t: Table, h: seq<u64>, place: seq<nat>) {
    && |t.entries| == REGIONS && Distinct(h)
    && |place| == (if |h| < REGIONS then |h| else REGIONS)
    && (forall i :: 0 <= i < |place| ==> place[i] < REGIONS)
    && Held(t, h, place) && Aged(t, place)
  }

  /** The entries in place hold the latest bases, and are all the valid ones. */
  predicate Held(t: Table, h: seq<u64>, place: seq<nat>)
    requires |t.entries| == REGIONS && |place| <= |h| && forall i :: 0 <= i < |place| ==> place[i] < REGIONS
  {
    && (forall i :: 0 <= i < |place| ==> t.entries[place[i]].valid && t.entries[place[i]].base == h[i])
    && (forall k: nat :: k < REGIONS && t.entries[k].valid ==> k in place)
  }

  /** Earlier in place means used later, and nothing valid was used after the counter. An invalid entry may
      carry the age it had before a flush. */
  predicate Aged(t: Table, place: seq<nat>)
    requires |t.entries| == REGIONS && forall i :: 0 <= i < |place| ==> place[i] < REGIONS
  {
    && (forall i, j :: 0 <= i < j < |place| ==> t.entries[place[i]].lastUse > t.entries[place[j]].lastUse)
    && (forall k: nat :: k < REGIONS && t.entries[k].valid ==> t.entries[k].lastUse <= t.counter)
  }

  lemma {:induction false} VictimSpec(t: seq<Entry>, i: nat, best: nat)
    requires i <= |t| && best < |t|
    ensures var v := VictimFrom(t, i, best);
      if exists k :: i <= k < |t| && !t[k].valid then !t[v].valid
      else t[v].lastUse <= t[best].lastUse && forall k :: i <= k < |t| ==> t[v].lastUse <= t[k].lastUse
    decreases |t| - i
  {
    if i < |t| && t[i].valid {
      VictimSpec(t, i + 1, if t[i].lastUse < t[best].lastUse then i else best);
    }
  }

  function Members(s: seq<nat>): set<nat> {
    if |s| == 0 then {} else {s[0]} + Members(s[1..])
  }

  function Upto(n: nat): set<nat> {
    if n == 0 then {} else Upto(n - 1) + {n - 1}
  }

  lemma {:induction false} MembersOf(s: seq<nat>)
    ensures forall x :: x in Members(s) <==> x in s
    ensures Distinct(s) ==> |Members(s)| == |s|
  {
    if |s| == 0 {
    } else {
      MembersOf(s[1..]);
      assert forall x :: x in s <==> x == s[0] || x in s[1..];
      if Distinct(s) {
        assert s[0] !in s[1..];
      }
    }
  }

  lemma {:induction false} UptoMembers(n: nat, x: nat)
    ensures x in Upto(n) <==> x < n
  {
    if n == 0 {
    } else {
      UptoMembers(n - 1, x);
    }
  }

  lemma UptoAll(n: nat)
    ensures forall x: nat :: x in Upto(n) <==> x < n
  {
    forall x: nat
      ensures x in Upto(n) <==> x < n
    {
      UptoMembers(n, x);
    }
  }

  lemma {:induction false} UptoCount(n: nat)
    ensures |Upto(n)| == n
  {
    if n == 0 {
    } else {
      UptoCount(n - 1);
      UptoMembers(n - 1, n - 1);
    }
  }

  lemma {:induction false} SubsetCount(a: set<nat>, b: set<nat>)
    requires a <= b
    ensures |a| <= |b| && (|a| == |b| ==> a == b)
  {
    if a != {} {
      var x :| x in a;
      SubsetCount(a - {x}, b - {x});
    }
  }

  /** Distinct places among n slots: fewer than n leave one free, n take them all. */
  lemma Pigeons(place: seq<nat>, n: nat)
    requires Distinct(place) && forall i :: 0 <= i < |place| ==> place[i] < n
    ensures |place| <= n
    ensures |place| < n ==> exists k: nat :: k < n && k !in place
    ensures |place| == n ==> forall k: nat :: k < n ==> k in place
  {
    MembersOf(place);
    UptoAll(n);
    UptoCount(n);
    SubsetCount(Members(place), Upto(n));
    if |place| < n {
      assert Members(place) != Upto(n);
      var k :| k in Upto(n) && k !in Members(place);
      assert k < n && k !in place;
    } else if |place| == n {
      forall k: nat | k < n
        ensures k in place
      {
        assert k in Upto(n);
      }
    }
  }

  function Fronted<T>(s: seq<T>, p: nat): (f: seq<T>)
    requires p < |s|
    ensures |f| == |s| && f[0] == s[p]
    ensures forall i :: 0 < i < |s| ==> f[i] == s[if i <= p then i - 1 else i]
  {
    [s[p]] + (s[..p] + s[p + 1..])
  }

  lemma FrontedHeld(t: Table, h: seq<u64>, place: seq<nat>, p: nat)
    requires Tracks(t, h, place) && p < |place|
    ensures Held(Hit(t, place[p]), Fronted(h, p), Fronted(place, p))
  {
    forall k: nat | k < REGIONS && t.entries[k].valid
      ensures k in Fronted(place, p)
    {
      var j :| 0 <= j < |place| && place[j] == k;
      assert Fronted(place, p)[if j < p then j + 1 else if j == p then 0 else j] == k;
    }
  }

  lemma FrontedAged(t: Table, h: seq<u64>, place: seq<nat>, p: nat)
    requires Tracks(t, h, place) && p < |place|
    ensures forall i :: 0 <= i < |place| ==> Fronted(place, p)[i] < REGIONS
    ensures Aged(Hit(t, place[p]), Fronted(place, p))
  {
    PlacesDistinct(t, h, place);
  }

  /** A touch that hits: the entry of the p-th base moves to the front. */
  lemma HitTracks(t: Table, h: seq<u64>, place: seq<nat>, p: nat)
    requires Tracks(t, h, place) && p < |place|
    ensures FindFrom(t.entries, h[p], 0) == place[p]
    ensures Tracks(Hit(t, place[p]), MoveToFront(h, h[p]), Fronted(place, p))
  {
    FoundAt(t, h, place, p, FindFrom(t.entries, h[p], 0));
    WithoutAt(h, p);
    WithoutDistinct(h, h[p]);
    assert MoveToFront(h, h[p]) == Fronted(h, p);
    FrontedAged(t, h, place, p);
    FrontedHeld(t, h, place, p);
  }

  /** The first valid entry for the p-th base can only be the one that holds it. */
  lemma FoundAt(t: Table, h: seq<u64>, place: seq<nat>, p: nat, k: nat)
    requires Tracks(t, h, place) && p < |place| && k == FindFrom(t.entries, h[p], 0)
    ensures k == place[p]
  {
    assert k <= place[p];
    var j :| 0 <= j < |place| && place[j] == k;
  }

  /** With every entry in use the victim is the one longest untouched. */
  lemma VictimIsOldest(t: Table, h: seq<u64>, place: seq<nat>)
    requires Tracks(t, h, place) && |place| == REGIONS
    ensures VictimFrom(t.entries, 0, 0) == place[REGIONS - 1]
  {
    var v := VictimFrom(t.entries, 0, 0);
    PlacesDistinct(t, h, place);
    Pigeons(place, REGIONS);
    VictimSpec(t.entries, 0, 0);
    assert v in place;
    var j :| 0 <= j < |place| && place[j] == v;
    assert t.entries[v].lastUse <= t.entries[place[REGIONS - 1]].lastUse;
  }

  lemma PlacesDistinct(t: Table, h: seq<u64>, place: seq<nat>)
    requires Tracks(t, h, place)
    ensures Distinct(place)
  {
  }

  /** With an entry to spare the victim is an unused one. */
  lemma VictimIsFree(t: Table, h: seq<u64>, place: seq<nat>)
    requires Tracks(t, h, place) && |place| < REGIONS
    ensures !t.entries[VictimFrom(t.entries, 0, 0)].valid
  {
    PlacesDistinct(t, h, place);
    Pigeons(place, REGIONS);
    var k: nat :| k < REGIONS && k !in place;
    assert !t.entries[k].valid;
    VictimSpec(t.entries, 0, 0);
  }

  /** A base not held is not among the latest. */
  lemma MissedBase(t: Table, h: seq<u64>, place: seq<nat>, base: u64)
    requires Tracks(t, h, place) && FindFrom(t.entries, base, 0) == REGIONS
    ensures base !in h[..|place|]
  {
    forall i | 0 <= i < |place|
      ensures h[i] != base
    {
      assert t.entries[place[i]].valid;
    }
  }

  /** A touch that misses takes over a free entry, or the oldest. */
  lemma MissTracks(t: Table, h: seq<u64>, place: seq<nat>, base: u64)
    requires Tracks(t, h, place) && FindFrom(t.entries, base, 0) == REGIONS
    ensures var v := VictimFrom(t.entries, 0, 0);
      Tracks(Filled(t, v, base), MoveToFront(h, base), [v] + if |place| < REGIONS then place else place[..REGIONS - 1])
  {
    MissedBase(t, h, place, base);
    if |place| < REGIONS {
      assert h[..|place|] == h;
      FreeTaken(t, h, place, base);
    } else {
      WithoutDistinct(h, base);
      WithoutPrefix(h, base, REGIONS);
      VictimIsOldest(t, h, place);
      OldestReplaced(t, h, place, base);
    }
  }

  lemma FreeTaken(t: Table, h: seq<u64>, place: seq<nat>, base: u64)
    requires Tracks(t, h, place) && |place| < REGIONS && base !in h
    ensures var v := VictimFrom(t.entries, 0, 0); Tracks(Filled(t, v, base), MoveToFront(h, base), [v] + place)
  {
    var v := VictimFrom(t.entries, 0, 0);
    WithoutAbsent(h, base);
    VictimIsFree(t, h, place);
    TakenHeld(t, h, place, base, v);
    TakenAged(t, place, base, v);
  }

  /** Entry v takes base and goes to the front of the places kept. */
  lemma TakenHeld(t: Table, g: seq<u64>, kept: seq<nat>, base: u64, v: nat)
    requires |t.entries| == REGIONS && v < REGIONS && |kept| <= |g| && v !in kept
    requires forall i :: 0 <= i < |kept| ==> kept[i] < REGIONS
    requires forall i :: 0 <= i < |kept| ==> t.entries[kept[i]].valid && t.entries[kept[i]].base == g[i]
    requires forall k: nat :: k < REGIONS && t.entries[k].valid ==> k == v || k in kept
    ensures forall i :: 0 <= i <= |kept| ==> ([v] + kept)[i] < REGIONS
    ensures Held(Filled(t, v, base), [base] + g, [v] + kept)
  {
    var place := [v] + kept;
    forall i | 0 < i < |place|
      ensures place[i] == kept[i - 1] && ([base] + g)[i] == g[i - 1]
    {
    }
    forall k: nat | k < REGIONS && Filled(t, v, base).entries[k].valid
      ensures k in place
    {
      if k != v {
        var j :| 0 <= j < |kept| && kept[j] == k;
        assert place[j + 1] == k;
      }
    }
  }

  lemma TakenAged(t: Table, kept: seq<nat>, base: u64, v: nat)
    requires |t.entries| == REGIONS && v < REGIONS && v !in kept
    requires forall i :: 0 <= i < |kept| ==> kept[i] < REGIONS && t.entries[kept[i]].valid
    requires Aged(t, kept)
    ensures forall i :: 0 <= i <= |kept| ==> ([v] + kept)[i] < REGIONS
    ensures Aged(Filled(t, v, base), [v] + kept)
  {
    var place := [v] + kept;
    forall i | 0 < i < |place|
      ensures place[i] == kept[i - 1] && place[i] != v
    {
    }
  }

  lemma OldestReplaced(t: Table, h: seq<u64>, place: seq<nat>, base: u64)
    requires Tracks(t, h, place) && |place| == REGIONS && base !in h[..REGIONS]
    requires REGIONS <= |Without(h, base)| && Without(h, base)[..REGIONS] == h[..REGIONS]
    requires Distinct(Without(h, base)) && base !in Without(h, base)
    ensures var last := place[REGIONS - 1];
      Tracks(Filled(t, last, base), MoveToFront(h, base), [last] + place[..REGIONS - 1])
  {
    var v, kept, g := place[REGIONS - 1], place[..REGIONS - 1], Without(h, base);
    PlacesDistinct(t, h, place);
    SamePrefix(h, g, REGIONS);
    OthersKept(t, h, place);
    TakenHeld(t, g, kept, base, v);
    TakenAged(t, kept, base, v);
    DistinctFront(g, base);
  }

  lemma SamePrefix(h: seq<u64>, g: seq<u64>, n: nat)
    requires n <= |h| && n <= |g| && g[..n] == h[..n]
    ensures forall i :: 0 <= i < n ==> g[i] == h[i]
  {
    forall i | 0 <= i < n
      ensures g[i] == h[i]
    {
      assert g[..n][i] == h[..n][i];
    }
  }

  lemma DistinctFront(g: seq<u64>, base: u64)
    requires Distinct(g) && base !in g
    ensures Distinct([base] + g)
  {
  }

  /** All places but the last hold every valid entry but the last one's. */
  lemma OthersKept(t: Table, h: seq<u64>, place: seq<nat>)
    requires Tracks(t, h, place) && |place| == REGIONS
    ensures var v, kept := place[REGIONS - 1], place[..REGIONS - 1];
      v !in kept && Aged(t, kept) && forall k: nat :: k < REGIONS && t.entries[k].valid ==> k == v || k in kept
  {
    PlacesDistinct(t, h, place);
    assert place == place[..REGIONS - 1] + [place[REGIONS - 1]];
  }

  // ---- Whole runs of touches ----------------------------------------------------------------

  /** Nothing is held: a new cache, or a flushed one. */
  predicate Vacant(t: Table) {
    |t.entries| == REGIONS && forall i :: 0 <= i < REGIONS ==> !t.entries[i].valid
  }

  function TouchAll(t: Table, bases: seq<u64>): (t': Table)
    requires |t.entries| == REGIONS
    ensures |t'.entries| == REGIONS
    decreases |bases|
  {
    if |bases| == 0 then t else TouchAll(Touch(t, bases[0]), bases[1..])
  }

  function Recency(h: seq<u64>, bases: seq<u64>): seq<u64>
    decreases |bases|
  {
    if |bases| == 0 then h else Recency(MoveToFront(h, bases[0]), bases[1..])
  }

  lemma TouchTracks(t: Table, h: seq<u64>, place: seq<nat>, base: u64) returns (place': seq<nat>)
    requires Tracks(t, h, place)
    ensures Tracks(Touch(t, base), MoveToFront(h, base), place')
  {
    var k := FindFrom(t.entries, base, 0);
    if k < REGIONS {
      var p :| 0 <= p < |place| && place[p] == k;
      HitTracks(t, h, place, p);
      place' := Fronted(place, p);
    } else {
      MissTracks(t, h, place, base);
      place' := [VictimFrom(t.entries, 0, 0)] + if |place| < REGIONS then place else place[..REGIONS - 1];
    }
  }

  lemma {:induction false} TouchAllTracks(t: Table, h: seq<u64>, place: seq<nat>, bases: seq<u64>)
    returns (place': seq<nat>)
    requires Tracks(t, h, place)
    ensures Tracks(TouchAll(t, bases), Recency(h, bases), place')
    decreases |bases|
  {
    if |bases| == 0 {
      place' := place;
    } else {
      var next := TouchTracks(t, h, place, bases[0]);
      place' := TouchAllTracks(Touch(t, bases[0]), MoveToFront(h, bases[0]), next, bases[1..]);
    }
  }

  /** The bases held are the sixteen most recently touched, each in one entry. */
  lemma HeldExactly(t: Table, h: seq<u64>, place: seq<nat>, base: u64)
    requires Tracks(t, h, place)
    ensures FindFrom(t.entries, base, 0) < REGIONS <==> base in h[..|place|]
    ensures forall i, j :: 0 <= i < j < REGIONS && t.entries[i].valid && t.entries[j].valid ==>
      t.entries[i].base != t.entries[j].base
  {
    if FindFrom(t.entries, base, 0) == REGIONS {
      MissedBase(t, h, place, base);
    } else {
      var k := FindFrom(t.entries, base, 0);
      var p :| 0 <= p < |place| && place[p] == k;
      assert h[..|place|][p] == base;
    }
    forall i, j | 0 <= i < j < REGIONS && t.entries[i].valid && t.entries[j].valid
      ensures t.entries[i].base != t.entries[j].base
    {
      var p :| 0 <= p < |place| && place[p] == i;
      var q :| 0 <= q < |place| && place[q] == j;
    }
  }

  /** The sixteen latest, or all if there are fewer. */
  function Latest(h: seq<u64>): seq<u64> {
    h[..if |h| < REGIONS then |h| else REGIONS]
  }

  /** After any run of touches from an empty cache, a base is held exactly if it is one of the (at most)
      sixteen most recently touched distinct ones, and never twice. */
  lemma LeastRecentlyUsed(clean: Table, bases: seq<u64>, base: u64)
    requires Vacant(clean)
    ensures var t, h := TouchAll(clean, bases), Recency([], bases);
      && (FindFrom(t.entries, base, 0) < REGIONS <==> base in Latest(h))
      && (forall i, j :: 0 <= i < j < REGIONS && t.entries[i].valid && t.entries[j].valid ==>
            t.entries[i].base != t.entries[j].base)
  {
    var place := TouchAllTracks(clean, [], [], bases);
    HeldExactly(TouchAll(clean, bases), Recency([], bases), place, base);
  }

  // ---- The cache ----------------------------------------------------------------------------

  function EntryOf(r: Region): Entry {
    Entry(r.slot.valid, r.slot.tag, r.lastUse)
  }

  /** A region given up: its data goes, its base and age stay. */
  function Vacated(r: Region, hit: bool): Region {
    if hit then r.(slot := r.slot.(valid := false, data := [])) else r
  }

  /** How much of the span its first region holds. */
  function RegionChunk(cur: u64, remaining: u64): (n: u64)
    ensures n <= remaining && cur % REGION + n <= REGION
    ensures remaining > 0 ==> n > 0
  {
    if REGION - cur % REGION < remaining then REGION - cur % REGION else remaining
  }

  lemma RegionFits(x: u64)
    ensures RegionOf(x) % REGION == 0 && RegionOf(x) + REGION <= TWO64 && x == RegionOf(x) + x % REGION
  {
  }

  /** The regions a span touches, in order. */
  function Bases(addr: u64, size: u64): seq<u64>
    decreases size
  {
    if size == 0 then []
    else [RegionOf(addr)] + Bases(Plus(addr, RegionChunk(addr, size)), size - RegionChunk(addr, size))
  }

  /** Each of these regions can be read whole. */
  ghost predicate Whole(m: map<u64, u8>, bases: seq<u64>) {
    forall b :: b in bases ==> Readable(m, b, REGION)
  }

  /** The first region of a span, and the rest. */
  lemma BasesStep(m: map<u64, u8>, t: Table, cur: u64, remaining: u64, whole: bool) returns (rest: seq<u64>)
    requires remaining > 0 && |t.entries| == REGIONS && (whole ==> Whole(m, Bases(cur, remaining)))
    ensures rest == Bases(Plus(cur, RegionChunk(cur, remaining)), remaining - RegionChunk(cur, remaining))
    ensures TouchAll(t, Bases(cur, remaining)) == TouchAll(Touch(t, RegionOf(cur)), rest)
    ensures whole ==>
      Readable(m, RegionOf(cur), REGION) && Readable(m, cur, RegionChunk(cur, remaining)) && Whole(m, rest)
  {
    var n := RegionChunk(cur, remaining);
    rest := Bases(Plus(cur, n), remaining - n);
    assert Bases(cur, remaining)[1..] == rest;
    if whole {
      assert RegionOf(cur) in Bases(cur, remaining);
      RegionFits(cur);
      SliceOfLoaded(m, RegionOf(cur), REGION, cur % REGION, n);
    }
  }

  /** What a client asks of the cache. */
  datatype Use = ReadAt(addr: u64, size: u64) | Prefetch(addr: u64)

  function Touched(u: Use): seq<u64> {
    if u.ReadAt? then Bases(u.addr, u.size) else [RegionOf(u.addr)]
  }

  function AllTouched(uses: seq<Use>): seq<u64> {
    if uses == [] then [] else AllTouched(uses[..|uses| - 1]) + Touched(uses[|uses| - 1])
  }

  lemma {:induction false} TouchAllAppend(t: Table, a: seq<u64>, b: seq<u64>)
    requires |t.entries| == REGIONS
    ensures TouchAll(t, a + b) == TouchAll(TouchAll(t, a), b)
    decreases |a|
  {
    if a == [] {
      assert a + b == b;
    } else {
      assert (a + b)[1..] == a[1..] + b;
      TouchAllAppend(Touch(t, a[0]), a[1..], b);
    }
  }

  lemma {:induction false} TouchedWithin(uses: seq<Use>, k: nat)
    requires k < |uses|
    ensures forall b :: b in Touched(uses[k]) ==> b in AllTouched(uses)
    decreases |uses|
  {
    var n := |uses| - 1;
    if k < n {
      TouchedWithin(uses[..n], k);
    }
  }

  /** One more use of a run. */
  lemma TouchedMore(m: map<u64, u8>, clean: Table, uses: seq<Use>, k: nat)
    requires k < |uses| && |clean.entries| == REGIONS
    ensures TouchAll(clean, AllTouched(uses[..k + 1]))
         == TouchAll(TouchAll(clean, AllTouched(uses[..k])), Touched(uses[k]))
    ensures Whole(m, AllTouched(uses)) ==> Whole(m, Touched(uses[k]))
  {
    assert uses[..k + 1][..k] == uses[..k];
    TouchAllAppend(clean, AllTouched(uses[..k]), Touched(uses[k]));
    TouchedWithin(uses, k);
  }

  class L3Cache {
    var regions: seq<Region>
    var useCounter: nat
    const next: ShadowPages

    constructor (next: ShadowPages)
      requires next.Valid()
      ensures this.next == next && Coherent() && Vacant(View())
    {
      this.next := next;
      regions := seq(REGIONS, _ => Region(EMPTY, 0));
      useCounter := 0;
    }

    /** Every valid region holds what memory holds, and no base is held twice. */
    ghost predicate Coherent()
      reads this, next
    {
      && next.Valid() && |regions| == REGIONS
      && (forall i :: 0 <= i < REGIONS ==> Mirrors(regions[i].slot, next.Bytes(), REGION))
      && (forall i, j :: 0 <= i < j < REGIONS && regions[i].slot.valid && regions[j].slot.valid ==>
            regions[i].slot.tag != regions[j].slot.tag)
    }

    function View(): Table
      reads this
    {
      Table(seq(|regions|, i requires 0 <= i < |regions| reads this => EntryOf(regions[i])), useCounter)
    }

    /** The first valid region for base, or how many there are. */
    method Find(base: u64) returns (k: nat)
      requires |regions| == REGIONS
      ensures k == FindFrom(View().entries, base, 0) <= REGIONS
      ensures k < REGIONS ==> regions[k].slot.valid && regions[k].slot.tag == base
      ensures k == REGIONS ==> forall j :: 0 <= j < REGIONS ==> !(regions[j].slot.valid && regions[j].slot.tag == base)
    {
      k := 0;
      while k < REGIONS
        invariant k <= REGIONS && FindFrom(View().entries, base, k) == FindFrom(View().entries, base, 0)
        invariant forall j :: 0 <= j < k ==> !(regions[j].slot.valid && regions[j].slot.tag == base)
      {
        if regions[k].slot.valid && regions[k].slot.tag == base {
          return;
        }
        k := k + 1;
      }
    }

    /** The victim scan. */
    method PickVictim() returns (v: nat)
      requires |regions| == REGIONS
      ensures v == VictimFrom(View().entries, 0, 0) < REGIONS
    {
      v := 0;
      var i := 0;
      while i < REGIONS
        invariant i <= REGIONS && v < REGIONS
        invariant VictimFrom(View().entries, i, v) == VictimFrom(View().entries, 0, 0)
      {
        if !regions[i].slot.valid {
          return i;
        }
        if regions[i].lastUse < regions[v].lastUse {
          v := i;
        }
        i := i + 1;
      }
    }

    /** Refresh or fetch the region of addr. A failed fetch gives up the victim's old region. */
    method PrefetchRegion(addr: u64) returns (status: Status)
      requires Coherent()
      modifies this
      ensures Coherent()
      ensures status == Ok <==> Readable(next.Bytes(), RegionOf(addr), REGION)
      ensures status == Ok ==> View() == Touch(old(View()), RegionOf(addr))
      ensures status == Ok ==>
        exists k :: 0 <= k < REGIONS && regions[k].slot.valid && regions[k].slot.tag == RegionOf(addr)
    {
      var base := RegionOf(addr);
      RegionFits(addr);
      var k := Find(base);
      if k < REGIONS {
        useCounter := useCounter + 1;
        regions := regions[k := regions[k].(lastUse := useCounter)];
        assert regions[k].slot.valid;
        return Ok;
      }
      var v := PickVictim();
      var r := next.Read(base, REGION);
      if r.ReadFailed? {
        regions := regions[v := Vacated(regions[v], true)];
        return r.status;
      }
      useCounter := useCounter + 1;
      regions := regions[v := Region(Slot(true, base, r.data), useCounter)];
      assert regions[v].slot.valid;
      status := Ok;
    }

    /** n bytes inside one region: from the cache, after a fetch, or past it when the fetch fails. */
    method ReadChunk(cur: u64, n: u64) returns (r: ReadResult)
      requires Coherent() && 0 < n && cur % REGION + n <= REGION
      modifies this
      ensures Coherent()
      ensures r.ReadOk? <==> Readable(next.Bytes(), cur, n)
      ensures r.ReadOk? ==> r.data == Loaded(next.Bytes(), cur, n)
      ensures r.ReadFailed? ==> r.status == UnmappedRead
      ensures Readable(next.Bytes(), RegionOf(cur), REGION) ==> View() == Touch(old(View()), RegionOf(cur))
    {
      var base, off := RegionOf(cur), cur % REGION;
      RegionFits(cur);
      assert RegionOf(base) == base;
      var status := PrefetchRegion(base);
      if status == Ok {
        SliceOfLoaded(next.Bytes(), base, REGION, off, n);
        var k := Find(base);
        assert k < REGIONS;
        r := ReadOk(regions[k].slot.data[off..off + n]);
      } else {
        r := next.Read(cur, n);
      }
    }

    /** The regions still to be touched can be read, and touching them leads to goal. */
    ghost predicate OnCourse(cur: u64, remaining: u64, goal: Table)
      requires Coherent()
      reads this, next
    {
      forall n: u64 {:trigger Bases(cur, n)} :: n == remaining ==>
        Whole(next.Bytes(), Bases(cur, n)) && TouchAll(View(), Bases(cur, n)) == goal
    }

    /** The part of a span in its first region. */
    method ReadNext(cur: u64, remaining: u64, ghost whole: bool, ghost goal: Table) returns (c: ReadResult, n: u64)
      requires Coherent() && remaining > 0 && (whole ==> OnCourse(cur, remaining, goal))
      modifies this
      ensures Coherent() && 0 < n <= remaining
      ensures c.ReadOk? <==> Readable(next.Bytes(), cur, n)
      ensures c.ReadOk? ==> c.data == Loaded(next.Bytes(), cur, n)
      ensures c.ReadFailed? ==> c.status == UnmappedRead
      ensures whole ==> c.ReadOk? && OnCourse(Plus(cur, n), remaining - n, goal)
    {
      ghost var rest := BasesStep(next.Bytes(), View(), cur, remaining, whole);
      n := RegionChunk(cur, remaining);
      c := ReadChunk(cur, n);
    }

    /** Ok exactly when every byte can be read; when its regions can be read whole, the read touches each of
        them once, in order. */
    method Read(addr: u64, size: u64) returns (r: ReadResult)
      requires Coherent()
      modifies this
      ensures Coherent()
      ensures r.ReadOk? <==> Readable(next.Bytes(), addr, size)
      ensures r.ReadOk? ==> r.data == Loaded(next.Bytes(), addr, size)
      ensures r.ReadFailed? ==> r.status == UnmappedRead
      ensures Whole(next.Bytes(), Bases(addr, size)) ==>
        r.ReadOk? && View() == TouchAll(old(View()), Bases(addr, size))
    {
      ghost var m := next.Bytes();
      ghost var whole := Whole(m, Bases(addr, size));
      ghost var goal := TouchAll(View(), Bases(addr, size));
      var out: seq<u8> := [];
      var cur: u64, remaining: u64 := addr, size;
      ghost var done: u64 := 0;
      while remaining > 0
        invariant Coherent() && next.Bytes() == m
        invariant done + remaining == size && cur == Plus(addr, done) && PartlyRead(m, addr, done, out)
        invariant whole ==> OnCourse(cur, remaining, goal)
        decreases remaining
      {
        var c, n := ReadNext(cur, remaining, whole, goal);
        if c.ReadFailed? {
          ReadStuck(m, addr, done, n, size);
          return c;
        }
        ReadMore(m, addr, done, n, out, c.data);
        out, cur, remaining, done := out + c.data, Plus(cur, n), remaining - n, done + n;
      }
      assert Bases(cur, 0) == [];
      r := ReadOk(out);
    }

    /** A run of reads and prefetches from an empty cache, all of whose regions can be read: the regions held
        at the end are the sixteen (or fewer) touched last, each once. */
    method Serve(uses: seq<Use>)
      requires Coherent() && Vacant(View()) && Whole(next.Bytes(), AllTouched(uses))
      modifies this
      ensures Coherent()
      ensures forall base: u64 {:trigger base in Latest(Recency([], AllTouched(uses)))} ::
        (exists i :: 0 <= i < REGIONS && regions[i].slot.valid && regions[i].slot.tag == base)
        <==> base in Latest(Recency([], AllTouched(uses)))
    {
      ghost var m, clean := next.Bytes(), View();
      var k := 0;
      assert uses[..0] == [];
      while k < |uses|
        invariant 0 <= k <= |uses| && Coherent() && next.Bytes() == m
        invariant View() == TouchAll(clean, AllTouched(uses[..k]))
        decreases |uses| - k
      {
        TouchedMore(m, clean, uses, k);
        match uses[k] {
          case ReadAt(addr, size) => var _ := Read(addr, size);
          case Prefetch(addr) => var _ := PrefetchRegion(addr);
        }
        k := k + 1;
      }
      assert uses[..k] == uses;
      forall base: u64
        ensures (exists i :: 0 <= i < REGIONS && regions[i].slot.valid && regions[i].slot.tag == base)
          <==> base in Latest(Recency([], AllTouched(uses)))
      {
        LeastRecentlyUsed(clean, AllTouched(uses), base);
        FoundIsHeld(base);
      }
    }

    lemma FoundIsHeld(base: u64)
      requires |regions| == REGIONS
      ensures FindFrom(View().entries, base, 0) < REGIONS
        <==> exists i :: 0 <= i < REGIONS && regions[i].slot.valid && regions[i].slot.tag == base
    {
      var k := FindFrom(View().entries, base, 0);
      if k < REGIONS {
        assert regions[k].slot.valid && regions[k].slot.tag == base;
      } else {
        forall i | 0 <= i < REGIONS
          ensures !(regions[i].slot.valid && regions[i].slot.tag == base)
        {
          assert View().entries[i] == EntryOf(regions[i]);
        }
      }
    }

    /** Patch the region the chunk falls into, stopping at the first that matches. */
    method PatchChunk(cur: u64, chunk: seq<u8>, ghost m: map<u64, u8>)
      requires |regions| == REGIONS && 0 < |chunk| && cur % REGION + |chunk| <= REGION
      requires forall i :: 0 <= i < REGIONS ==> Mirrors(regions[i].slot, m, REGION)
      requires forall i, j :: 0 <= i < j < REGIONS && regions[i].slot.valid && regions[j].slot.valid ==>
        regions[i].slot.tag != regions[j].slot.tag
      modifies `regions
      ensures |regions| == REGIONS && View() == old(View())
      ensures forall i :: 0 <= i < REGIONS ==> Mirrors(regions[i].slot, Stored(m, cur, chunk), REGION)
      ensures forall i :: 0 <= i < REGIONS ==>
        regions[i].slot.valid == old(regions[i].slot.valid) && regions[i].slot.tag == old(regions[i].slot.tag)
    {
      var base, off := RegionOf(cur), cur % REGION;
      RegionFits(cur);
      forall i | 0 <= i < REGIONS
        ensures Mirrors(AfterStore(regions[i].slot, base, off, chunk), Stored(m, cur, chunk), REGION)
      {
        StoreMirrors(regions[i].slot, m, REGION, base, off, chunk);
      }
      var k := Find(base);
      if k < REGIONS {
        regions := regions[k := regions[k].(slot := AfterStore(regions[k].slot, base, off, chunk))];
      }
    }

    /** The patch loop of a write. */
    method PatchAll(addr: u64, data: seq<u8>, ghost m: map<u64, u8>)
      requires |regions| == REGIONS && |data| < TWO64
      requires forall i :: 0 <= i < REGIONS ==> Mirrors(regions[i].slot, m, REGION)
      requires forall i, j :: 0 <= i < j < REGIONS && regions[i].slot.valid && regions[j].slot.valid ==>
        regions[i].slot.tag != regions[j].slot.tag
      modifies `regions
      ensures |regions| == REGIONS && View() == old(View())
      ensures forall i :: 0 <= i < REGIONS ==> Mirrors(regions[i].slot, Stored(m, addr, data), REGION)
      ensures forall i, j :: 0 <= i < j < REGIONS && regions[i].slot.valid && regions[j].slot.valid ==>
        regions[i].slot.tag != regions[j].slot.tag
    {
      StoreNothing(m, addr);
      var cur: u64, done: u64 := addr, 0;
      while done < |data|
        invariant done <= |data| && cur == Plus(addr, done) && |regions| == REGIONS && View() == old(View())
        invariant forall i :: 0 <= i < REGIONS ==> Mirrors(regions[i].slot, Stored(m, addr, data[..done]), REGION)
        invariant forall i, j :: 0 <= i < j < REGIONS && regions[i].slot.valid && regions[j].slot.valid ==>
          regions[i].slot.tag != regions[j].slot.tag
      {
        var n := RegionChunk(cur, |data| - done);
        PatchChunk(cur, data[done..done + n], Stored(m, addr, data[..done]));
        StoreMore(m, addr, data, done, n);
        cur, done := Plus(cur, n), done + n;
      }
      assert data[..done] == data;
    }

    /** Write-through: the store first, then every cached region it falls into. */
    method Write(addr: u64, data: seq<u8>) returns (status: Status)
      requires Coherent() && |data| < TWO64
      modifies this, next`pages, next.listener
      ensures Coherent() && View() == old(View())
      ensures status == (if MayWrite(old(next.Flat()), addr, |data|) then Ok else ProtectionViolation)
      ensures status == Ok ==> next.Bytes() == Stored(old(next.Bytes()), addr, data)
      ensures status != Ok ==> next.Bytes() == old(next.Bytes())
      ensures next.listener.blocks
        == if status == Ok then AfterWrite(old(next.listener.blocks), next.codes, addr, |data|)
           else old(next.listener.blocks)
    {
      ghost var m := next.Bytes();
      status := next.Write(addr, data);
      if status == Ok {
        PatchAll(addr, data, m);
      }
    }

    /** Drop the region based at base, wherever it is. */
    method DropBase(base: u64)
      requires Coherent()
      modifies `regions
      ensures Coherent()
      ensures forall i :: 0 <= i < REGIONS ==>
        regions[i] == Vacated(old(regions)[i], old(regions)[i].slot.valid && old(regions)[i].slot.tag == base)
    {
      var k := 0;
      ghost var was := regions;
      while k < REGIONS
        invariant k <= REGIONS && Coherent()
        invariant forall i :: 0 <= i < k ==>
          regions[i] == Vacated(was[i], was[i].slot.valid && was[i].slot.tag == base)
        invariant forall i :: k <= i < REGIONS ==> regions[i] == was[i]
      {
        if regions[k].slot.valid && regions[k].slot.tag == base {
          regions := regions[k := Vacated(regions[k], true)];
        }
        k := k + 1;
      }
    }

    /** The regions met going from the one of addr to the one of the span's last byte. */
    method DropWalk(start: u64, end: u64)
      requires Coherent() && start % REGION == 0 && end % REGION == 0
      modifies `regions
      ensures Coherent()
      ensures forall j :: 0 <= j < REGIONS ==>
        regions[j] == Vacated(old(regions)[j], Reached(old(regions)[j].slot, start, Offset(end, start) + REGION))
    {
      ghost var was := regions;
      assert forall j :: 0 <= j < REGIONS ==> Placed(was[j].slot, REGION);
      var r: u64 := start;
      DropBase(r);
      forall j | 0 <= j < REGIONS
        ensures regions[j] == Vacated(was[j], Reached(was[j].slot, start, Offset(r, start) + REGION))
      {
        ReachedNext(was[j].slot, start, r, REGION);
      }
      while r != end
        invariant Coherent() && r % REGION == 0 && Offset(r, start) <= Offset(end, start)
        invariant forall j :: 0 <= j < REGIONS ==>
          regions[j] == Vacated(was[j], Reached(was[j].slot, start, Offset(r, start) + REGION))
        decreases Offset(end, start) - Offset(r, start)
      {
        NextStretch(start, r, end, REGION);
        ghost var done := Offset(r, start) + REGION;
        r := Plus(r, REGION);
        DropBase(r);
        forall j | 0 <= j < REGIONS
          ensures regions[j] == Vacated(was[j], Reached(was[j].slot, start, done + REGION))
        {
          ReachedNext(was[j].slot, start, r, REGION);
        }
      }
    }

    /** Exactly the regions that hold a byte of the span are dropped, also when it goes round the address
        space; a span that comes round to the region it began in drops that region alone. */
    method Invalidate(addr: u64, size: u64)
      requires Coherent()
      modifies `regions
      ensures Coherent()
      ensures size == 0 ==> regions == old(regions)
      ensures size > 0 && addr % REGION + size <= TWO64 ==> forall j :: 0 <= j < REGIONS ==>
        regions[j] == Vacated(old(regions)[j], !Clear(old(regions)[j].slot, addr, size, REGION))
      ensures addr % REGION + size > TWO64 ==> forall j :: 0 <= j < REGIONS ==>
        regions[j] == Vacated(old(regions)[j],
                              old(regions)[j].slot.valid && old(regions)[j].slot.tag == RegionOf(addr))
    {
      if size == 0 {
        return;
      }
      var last := Plus(addr, size - 1);
      var start, end := RegionOf(addr), RegionOf(last);
      RegionFits(addr);
      RegionFits(last);
      ghost var was := regions;
      DropWalk(start, end);
      forall j | 0 <= j < REGIONS
        ensures Placed(was[j].slot, REGION)
        ensures addr % REGION + size <= TWO64 ==>
          regions[j] == Vacated(was[j], !Clear(was[j].slot, addr, size, REGION))
        ensures addr % REGION + size > TWO64 ==>
          regions[j] == Vacated(was[j], was[j].slot.valid && was[j].slot.tag == start)
      {
        DroppedSlot(was[j].slot, addr, size, REGION, start, end);
      }
    }

    /** Nothing is held afterwards; the entries keep their ages although the counter starts again. */
    method Flush()
      requires Coherent()
      modifies this
      ensures Coherent() && Vacant(View()) && useCounter == 0
      ensures forall i :: 0 <= i < REGIONS ==> regions[i].lastUse == old(regions[i].lastUse)
    {
      regions := seq(REGIONS, i requires 0 <= i < REGIONS && |regions| == REGIONS reads this =>
        regions[i].(slot := EMPTY));
      useCounter := 0;
    }
  }
}
