/** What the wait of emit lets happen: delivery is whole and in order for as many records as the ring has
    slots and no more. Once a producer laps the ring there are runs, given here state by state, in which the
    test passes on a record still to be drained, and in which a line that nobody wrote comes out. */
module LogRaces {
  import opened LogRing

  const OLD: seq<Text> := [0, 0, 0, 0, 0, 0]
  const NEW: seq<Text> := [1, 1, 1, 1, 1, 1]

  /** A slot is started on when the test of the wait passes, as the code has it. */
  predicate TestedFill(s: Ring, s': Ring, n: nat) {
    Put(s, s', n) && (s.tickets[n].filled > 0 || LooksFree(s, n))
  }

  ghost predicate StepBy(tested: bool, s: Ring, s': Ring) {
    if tested then (exists n: nat :: TestedFill(s, s', n)) || OtherStep(s, s') else Step(s, s')
  }

  ghost predicate RunBy(tested: bool, trace: seq<Ring>) {
    && |trace| > 0 && Start(trace[0])
    && forall i :: 0 <= i < |trace| - 1 ==> StepBy(tested, trace[i], trace[i + 1])
  }

  ghost predicate Reached(tested: bool, s: Ring) {
    exists trace :: RunBy(tested, trace) && trace[|trace| - 1] == s
  }

  lemma Onward(tested: bool, s: Ring, s': Ring)
    requires Reached(tested, s) && StepBy(tested, s, s')
    ensures Reached(tested, s')
  {
    var trace :| RunBy(tested, trace) && trace[|trace| - 1] == s;
    var longer := trace + [s'];
    forall i | 0 <= i < |longer| - 1
      ensures StepBy(tested, longer[i], longer[i + 1])
    {
      if i < |trace| - 1 {
        assert StepBy(tested, trace[i], trace[i + 1]);
      }
    }
    assert RunBy(tested, longer);
  }

  // ---- Up to the first record, published while the ring is lapped ------------------------------------

  function RecordOf(n: nat): seq<Text> {
    if n == CAPACITY then NEW else OLD
  }

  function Handed(k: nat): Ring {
    Ring(seq(CAPACITY, i => Slot(0, OLD)), seq(k, (i: nat) => Ticket(RecordOf(i), 0, false, false)), 0, true, Idle, [])
  }

  /** Ticket 0 has so many of its fields in the slot. */
  function Filling(k: nat): Ring {
    var s := Handed(CAPACITY + 1);
    s.(tickets := s.tickets[0 := Ticket(OLD, k, false, false)])
  }

  function Lapped(): Ring {
    var s := Handed(CAPACITY + 1);
    s.(slots := s.slots[0 := Slot(2, OLD)], tickets := s.tickets[0 := Ticket(OLD, FIELDS, true, false)])
  }

  lemma {:induction false} HandedReached(tested: bool, k: nat)
    ensures Reached(tested, Handed(k))
  {
    if k == 0 {
      assert RunBy(tested, [Handed(0)]);
    } else {
      HandedReached(tested, k - 1);
      assert Take(Handed(k - 1), Handed(k), RecordOf(k - 1));
      Onward(tested, Handed(k - 1), Handed(k));
    }
  }

  lemma {:induction false} FillingReached(tested: bool, k: nat)
    requires k <= FIELDS
    ensures Reached(tested, Filling(k))
  {
    if k == 0 {
      HandedReached(tested, CAPACITY + 1);
      assert Filling(0) == Handed(CAPACITY + 1);
    } else {
      FillingReached(tested, k - 1);
      FillingNext(k - 1);
      assert Fill(Filling(k - 1), Filling(k), 0) && TestedFill(Filling(k - 1), Filling(k), 0);
      Onward(tested, Filling(k - 1), Filling(k));
    }
  }

  lemma FillingNext(k: nat)
    requires k < FIELDS
    ensures Put(Filling(k), Filling(k + 1), 0) && LooksFree(Filling(k), 0)
  {
    var s, s' := Filling(k), Filling(k + 1);
    assert s.At(0) == Slot(0, OLD) && OLD[k := OLD[k]] == OLD;
    assert s.slots[0 := Slot(0, OLD)] == s'.slots;
    assert s.tickets[0 := s.tickets[0].(filled := k + 1)] == s'.tickets;
  }

  lemma LappedReached(tested: bool)
    ensures Reached(tested, Lapped())
  {
    FillingReached(tested, FIELDS);
    var s, s' := Filling(FIELDS), Lapped();
    assert s.tickets[0 := s.tickets[0].(published := true)] == s'.tickets;
    assert Publish(s, s', 0);
    Onward(tested, s, s');
  }

  /** Ticket n, yet to start, sees its slot as free while the record of the lap before is still there. */
  predicate PassesEarly(s: Ring, n: nat) {
    && s.InLoop() && s.Shape() && CAPACITY <= n < |s.tickets| && s.tickets[n].filled == 0
    && s.tickets[n - CAPACITY].published && !s.tickets[n - CAPACITY].drained && LooksFree(s, n)
  }

  /** A producer that has lapped the ring does see the test pass on a record that is still to be drained. */
  lemma TestPassesTooEarly()
    ensures exists trace: seq<Ring> :: Run(trace) && PassesEarly(trace[|trace| - 1], CAPACITY)
  {
    LappedReached(false);
    var trace :| RunBy(false, trace) && trace[|trace| - 1] == Lapped();
    assert Run(trace);
  }

  // ---- From there to a torn line ------------------------------------------------------------------------

  /** The flush thread has copied some fields of ticket 0's slot; ticket CAPACITY has put k of its own there. */
  function Shared(copy: seq<Text>, fields: seq<Text>, k: nat): Ring {
    var s := Lapped();
    s.(slots := s.slots[0 := Slot(2, fields)],
       tickets := s.tickets[CAPACITY := Ticket(NEW, k, false, false)],
       flusher := Draining(0, CAPACITY + 1, copy))
  }

  lemma DrainBegins()
    ensures Reached(true, Shared([], OLD, 0))
  {
    LappedReached(true);
    var s := Lapped();
    var s' := s.(flusher := Looking(0, CAPACITY + 1));
    assert Begin(s, s');
    Onward(true, s, s');
    assert s.slots[0 := Slot(2, OLD)] == s.slots;
    assert s.tickets[CAPACITY := Ticket(NEW, 0, false, false)] == s.tickets;
    assert Look(s', Shared([], OLD, 0));
    Onward(true, s', Shared([], OLD, 0));
  }

  lemma CopyNext(copy: seq<Text>, fields: seq<Text>, k: nat)
    requires |fields| == FIELDS && |copy| < FIELDS && Reached(true, Shared(copy, fields, k))
    ensures Reached(true, Shared(copy + [fields[|copy|]], fields, k))
  {
    var s, s' := Shared(copy, fields, k), Shared(copy + [fields[|copy|]], fields, k);
    assert s.At(0).fields == fields;
    assert Copy(s, s');
    Onward(true, s, s');
  }

  lemma PutNext(copy: seq<Text>, fields: seq<Text>, k: nat)
    requires |fields| == FIELDS && k < FIELDS && Reached(true, Shared(copy, fields, k))
    ensures Reached(true, Shared(copy, fields[k := NEW[k]], k + 1))
  {
    var s, s' := Shared(copy, fields, k), Shared(copy, fields[k := NEW[k]], k + 1);
    assert s.tickets[CAPACITY] == Ticket(NEW, k, false, false) && s.At(CAPACITY) == Slot(2, fields);
    assert s.slots[0 := Slot(2, fields[k := NEW[k]])] == s'.slots;
    assert s.tickets[CAPACITY := Ticket(NEW, k + 1, false, false)] == s'.tickets;
    assert TestedFill(s, s', CAPACITY);
    Onward(true, s, s');
  }

  lemma {:induction false} CopyRest(copy: seq<Text>, fields: seq<Text>, k: nat)
    requires |fields| == FIELDS && |copy| <= FIELDS && Reached(true, Shared(copy, fields, k))
    ensures Reached(true, Shared(copy + fields[|copy|..], fields, k))
    decreases FIELDS - |copy|
  {
    if |copy| == FIELDS {
      assert copy + fields[|copy|..] == copy;
    } else {
      CopyNext(copy, fields, k);
      CopyRest(copy + [fields[|copy|]], fields, k);
      assert copy + [fields[|copy|]] + fields[|copy| + 1..] == copy + fields[|copy|..];
    }
  }

  /** One field is copied. */
  lemma FirstCopied(first: seq<Text>)
    requires first == [OLD[0]]
    ensures Reached(true, Shared(first, OLD, 0))
  {
    DrainBegins();
    CopyNext([], OLD, 0);
    assert [] + [OLD[0]] == first;
  }

  /** Two fields are overwritten. */
  lemma TwoOverwritten(first: seq<Text>, once: seq<Text>)
    requires first == [OLD[0]] && once == OLD[0 := NEW[0]]
    ensures Reached(true, Shared(first, once[1 := NEW[1]], 2))
  {
    FirstCopied(first);
    PutNext(first, OLD, 0);
    PutNext(first, once, 1);
  }

  lemma MixedParts(copy: seq<Text>, mixed: seq<Text>) returns (first: seq<Text>, once: seq<Text>)
    requires mixed == [1, 1, 0, 0, 0, 0] && copy == [0, 1, 0, 0, 0, 0]
    ensures first == [OLD[0]] && once == OLD[0 := NEW[0]] && mixed == once[1 := NEW[1]]
    ensures |first| == 1 && first + mixed[1..] == copy
  {
    first, once := [0], OLD[0 := NEW[0]];
  }

  /** Then the other five are copied. */
  lemma MixedCopied(copy: seq<Text>, mixed: seq<Text>)
    requires mixed == [1, 1, 0, 0, 0, 0] && copy == [0, 1, 0, 0, 0, 0]
    ensures Reached(true, Shared(copy, mixed, 2))
  {
    var first, once := MixedParts(copy, mixed);
    TwoOverwritten(first, once);
    CopyRest(first, mixed, 2);
  }

  function Written(copy: seq<Text>, fields: seq<Text>, k: nat): Ring {
    var s := Shared(copy, fields, k);
    s.(out := [Line(0, copy)], slots := s.slots[0 := Slot(3, fields)],
       tickets := s.tickets[0 := Ticket(OLD, FIELDS, true, true)], flusher := Looking(1, CAPACITY + 1))
  }

  lemma Delivering(copy: seq<Text>, fields: seq<Text>, k: nat)
    requires |copy| == FIELDS && |fields| == FIELDS && Reached(true, Shared(copy, fields, k))
    ensures Reached(true, Written(copy, fields, k))
  {
    var s, s' := Shared(copy, fields, k), Written(copy, fields, k);
    assert s.At(0) == Slot(2, fields) && s.tickets[0] == Ticket(OLD, FIELDS, true, false);
    assert Deliver(s, s');
    Onward(true, s, s');
  }

  /** So many tickets, and a line that is the record of none of them. */
  predicate LineOfNobody(s: Ring, count: nat) {
    && |s.tickets| == count
    && exists i :: 0 <= i < |s.out| && forall n :: 0 <= n < |s.tickets| ==> s.out[i].text != s.tickets[n].rec
  }

  lemma NobodysLine(copy: seq<Text>, fields: seq<Text>)
    requires |copy| == FIELDS && copy != OLD && copy != NEW
    ensures LineOfNobody(Written(copy, fields, 2), CAPACITY + 1)
  {
    var s := Written(copy, fields, 2);
    assert s.out[0].text == copy;
    forall n | 0 <= n < |s.tickets|
      ensures s.out[0].text != s.tickets[n].rec
    {
      assert s.tickets[n].rec == OLD || s.tickets[n].rec == NEW;
    }
  }

  /** With the test of the wait as the only guard, a run can write out a line that is no ticket's record. */
  lemma LineTorn()
    ensures exists trace: seq<Ring> :: RunBy(true, trace) && LineOfNobody(trace[|trace| - 1], CAPACITY + 1)
  {
    var copy, mixed := [0, 1, 0, 0, 0, 0], [1, 1, 0, 0, 0, 0];
    MixedCopied(copy, mixed);
    Delivering(copy, mixed, 2);
    NobodysLine(copy, mixed);
    var trace :| RunBy(true, trace) && trace[|trace| - 1] == Written(copy, mixed, 2);
  }

  // ---- Exactly how many records are safe ----------------------------------------------------------------

  /** Emit gives up its wait after sixteen looks and fills the slot whatever the test says; waits stands for a
      producer that would go on looking until the test passes. */
  predicate EmitFill(waits: bool, s: Ring, s': Ring, n: nat) {
    Put(s, s', n) && (waits ==> s.tickets[n].filled > 0 || LooksFree(s, n))
  }

  ghost predicate EmitStep(waits: bool, s: Ring, s': Ring) {
    (exists n: nat :: EmitFill(waits, s, s', n)) || OtherStep(s, s')
  }

  /** Any run of the code, without an assumption on the schedule. */
  ghost predicate EmitRun(waits: bool, trace: seq<Ring>) {
    && |trace| > 0 && Start(trace[0])
    && forall i :: 0 <= i < |trace| - 1 ==> EmitStep(waits, trace[i], trace[i + 1])
  }

  /** Whole records, in ticket order, each once, and without a gap until the last pass. */
  ghost predicate Orderly(s: Ring) {
    && (forall i: nat :: i < |s.out| ==> LineOk(s, i))
    && (forall i: nat, j: nat :: i < j < |s.out| ==> s.out[i].ticket < s.out[j].ticket)
    && (s.InLoop() ==> forall i: nat :: i < |s.out| ==> s.out[i].ticket == i)
  }

  /** No ticket is handed out before the record a lap earlier is drained. */
  ghost predicate Paced(s: Ring) {
    forall n: nat :: n + CAPACITY < |s.tickets| ==> s.tickets[n].drained
  }

  lemma PacedStep(waits: bool, s: Ring, s': Ring)
    requires EmitStep(waits, s, s') && Paced(s)
    ensures Step(s, s')
  {
    if n: nat :| EmitFill(waits, s, s', n) {
      assert n >= CAPACITY ==> s.tickets[n - CAPACITY].drained;
      assert Fill(s, s', n);
    }
  }

  /** A run that keeps that pace is orderly. */
  lemma PacedOrderly(waits: bool, trace: seq<Ring>)
    requires EmitRun(waits, trace) && forall i :: 0 <= i < |trace| ==> Paced(trace[i])
    ensures Run(trace) && Orderly(trace[|trace| - 1])
  {
    forall i | 0 <= i < |trace| - 1
      ensures Step(trace[i], trace[i + 1])
    {
      assert Paced(trace[i]) && EmitStep(waits, trace[i], trace[i + 1]);
      PacedStep(waits, trace[i], trace[i + 1]);
    }
    Delivered(trace);
  }

  lemma TicketsGrow(waits: bool, s: Ring, s': Ring)
    requires EmitStep(waits, s, s')
    ensures |s.tickets| <= |s'.tickets|
  {
  }

  lemma {:induction false} FewTickets(waits: bool, trace: seq<Ring>, i: nat)
    requires EmitRun(waits, trace) && i < |trace|
    ensures |trace[i].tickets| <= |trace[|trace| - 1].tickets|
    decreases |trace| - i
  {
    if i == |trace| - 1 {
    } else {
      assert EmitStep(waits, trace[i], trace[i + 1]);
      TicketsGrow(waits, trace[i], trace[i + 1]);
      FewTickets(waits, trace, i + 1);
    }
  }

  lemma FewOrderly(waits: bool, trace: seq<Ring>)
    requires EmitRun(waits, trace) && |trace[|trace| - 1].tickets| <= CAPACITY
    ensures Orderly(trace[|trace| - 1])
  {
    forall i | 0 <= i < |trace|
      ensures Paced(trace[i])
    {
      FewTickets(waits, trace, i);
    }
    PacedOrderly(waits, trace);
  }

  lemma TestedStep(waits: bool, s: Ring, s': Ring)
    requires StepBy(true, s, s')
    ensures EmitStep(waits, s, s')
  {
    if n: nat :| TestedFill(s, s', n) {
      assert EmitFill(waits, s, s', n);
    }
  }

  /** A run goes wrong on one record more than the ring has slots. */
  lemma OneTooMany(waits: bool) returns (trace: seq<Ring>)
    ensures EmitRun(waits, trace) && |trace[|trace| - 1].tickets| == CAPACITY + 1
    ensures !Orderly(trace[|trace| - 1])
  {
    LineTorn();
    trace :| RunBy(true, trace) && LineOfNobody(trace[|trace| - 1], CAPACITY + 1);
    forall i | 0 <= i < |trace| - 1
      ensures EmitStep(waits, trace[i], trace[i + 1])
    {
      TestedStep(waits, trace[i], trace[i + 1]);
    }
    var s := trace[|trace| - 1];
    var i: nat :| i < |s.out| && forall n :: 0 <= n < |s.tickets| ==> s.out[i].text != s.tickets[n].rec;
    assert !LineOk(s, i);
  }

  /** Over every interleaving of k records or fewer, what the code writes out is whole records in order if and
      only if k is at most the number of slots; and no wait on that test would change it. */
  lemma DeliveredIff(waits: bool, k: nat)
    ensures (forall trace: seq<Ring> {:trigger EmitRun(waits, trace)} ::
               EmitRun(waits, trace) && |trace[|trace| - 1].tickets| <= k ==> Orderly(trace[|trace| - 1]))
       <==> k <= CAPACITY
  {
    if k <= CAPACITY {
      forall trace: seq<Ring> | EmitRun(waits, trace) && |trace[|trace| - 1].tickets| <= k
        ensures Orderly(trace[|trace| - 1])
      {
        FewOrderly(waits, trace);
      }
    } else {
      var trace := OneTooMany(waits);
    }
  }
}
