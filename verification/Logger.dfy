/** The log ring as a protocol: producers that take a ticket, fill a slot field by field and publish it, and
    one flush thread that drains the slots in ticket order. Every shared access is one step, and steps of
    all threads interleave freely. */
module LogRing {
  const CAPACITY: nat := 16384
  const FIELDS: nat := 6

  type Text = int

  /** mark is the slot's sequence number: 2(n + 1) once ticket n is published, one more once drained. */
  datatype Slot = Slot(mark: nat, fields: seq<Text>)

  /** A producer's record, how many of its fields are in the slot, whether it is published, and whether the
      flush thread has delivered it. */
  datatype Ticket = Ticket(rec: seq<Text>, filled: nat, published: bool, drained: bool)

  datatype Line = Line(ticket: nat, text: seq<Text>)

  datatype Flusher =
    | Idle
    | Looking(head: nat, tail: nat)
    | Draining(head: nat, tail: nat, copy: seq<Text>)
    | LastLook(head: nat, tail: nat)
    | LastDrain(head: nat, tail: nat, copy: seq<Text>)
    | Gone(head: nat)

  /** The next ticket to hand out is the number of tickets so far. */
  datatype Ring = Ring(slots: seq<Slot>, tickets: seq<Ticket>, readSeq: nat, running: bool, flusher: Flusher,
                       out: seq<Line>)
  {
    predicate Shape() {
      |slots| == CAPACITY && forall i :: 0 <= i < CAPACITY ==> |slots[i].fields| == FIELDS
    }

    function At(n: nat): Slot
      requires Shape()
    {
      slots[n % CAPACITY]
    }

    /** How far the flush thread has got. */
    function Head(): nat {
      if flusher.Idle? then readSeq else flusher.head
    }

    /** The flush thread has not begun its last pass. */
    predicate InLoop() {
      flusher.Idle? || flusher.Looking? || flusher.Draining?
    }
  }

  predicate Start(s: Ring) {
    && s.Shape() && (forall i :: 0 <= i < CAPACITY ==> s.slots[i].mark == 0)
    && s.tickets == [] && s.readSeq == 0 && s.running && s.flusher == Idle && s.out == []
  }

  // ---- Steps of a producer ------------------------------------------------------------------

  /** fetch_add hands out the next ticket. */
  predicate Take(s: Ring, s': Ring, rec: seq<Text>) {
    |rec| == FIELDS && s' == s.(tickets := s.tickets + [Ticket(rec, 0, false, false)])
  }

  /** Nobody starts on a slot whose previous occupant is still to be drained. */
  predicate MayFill(s: Ring, n: nat)
    requires n < |s.tickets|
  {
    s.tickets[n].filled > 0 || n < CAPACITY || s.tickets[n - CAPACITY].drained
  }

  /** The next field of ticket n goes into its slot. */
  predicate Put(s: Ring, s': Ring, n: nat) {
    && s.Shape() && n < |s.tickets|
    && var t := s.tickets[n];
    && !t.published && t.filled < FIELDS && |t.rec| == FIELDS
    && s' == s.(slots := s.slots[n % CAPACITY := s.At(n).(fields := s.At(n).fields[t.filled := t.rec[t.filled]])],
                tickets := s.tickets[n := t.(filled := t.filled + 1)])
  }

  predicate Fill(s: Ring, s': Ring, n: nat) {
    Put(s, s', n) && MayFill(s, n)
  }

  /** All fields are in: the sequence number is stored. */
  predicate Publish(s: Ring, s': Ring, n: nat) {
    && s.Shape() && n < |s.tickets|
    && var t := s.tickets[n];
    && !t.published && t.filled == FIELDS
    && s' == s.(slots := s.slots[n % CAPACITY := s.At(n).(mark := 2 * (n + 1))],
                tickets := s.tickets[n := t.(published := true)])
  }

  // ---- Steps of the flush thread --------------------------------------------------------------

  /** A new pass, or the last one once running is off. */
  predicate Begin(s: Ring, s': Ring) {
    && s.flusher.Idle?
    && s' == s.(flusher := if s.running then Looking(s.readSeq, |s.tickets|) else LastLook(s.readSeq, |s.tickets|))
  }

  /** Look at the slot of the next ticket; an unpublished one ends the pass. */
  predicate Look(s: Ring, s': Ring) {
    && s.Shape() && s.flusher.Looking?
    && var h := s.flusher.head;
    && s' == if h < s.flusher.tail && s.At(h).mark == 2 * (h + 1) then s.(flusher := Draining(h, s.flusher.tail, []))
             else s.(flusher := Idle, readSeq := h)
  }

  /** In the last pass an unpublished ticket is skipped. */
  predicate LookLast(s: Ring, s': Ring) {
    && s.Shape() && s.flusher.LastLook?
    && var h, tail := s.flusher.head, s.flusher.tail;
    && s' == s.(flusher := if h >= tail then Gone(h)
                           else if s.At(h).mark == 2 * (h + 1) then LastDrain(h, tail, [])
                           else LastLook(h + 1, tail))
  }

  /** One field of the record is read for output. */
  predicate Copy(s: Ring, s': Ring) {
    && s.Shape() && (s.flusher.Draining? || s.flusher.LastDrain?) && |s.flusher.copy| < FIELDS
    && var more := s.flusher.copy + [s.At(s.flusher.head).fields[|s.flusher.copy|]];
    && s' == s.(flusher := s.flusher.(copy := more))
  }

  /** The line is out and the slot marked drained. */
  predicate Deliver(s: Ring, s': Ring) {
    && s.Shape() && s.flusher.Draining? && |s.flusher.copy| == FIELDS
    && var h := s.flusher.head;
    && h < |s.tickets|
    && s' == s.(out := s.out + [Line(h, s.flusher.copy)],
                slots := s.slots[h % CAPACITY := s.At(h).(mark := 2 * (h + 1) + 1)],
                tickets := s.tickets[h := s.tickets[h].(drained := true)],
                flusher := Looking(h + 1, s.flusher.tail))
  }

  /** The last pass leaves the slot as it is. */
  predicate DeliverLast(s: Ring, s': Ring) {
    && s.flusher.LastDrain? && |s.flusher.copy| == FIELDS
    && var h := s.flusher.head;
    && h < |s.tickets|
    && s' == s.(out := s.out + [Line(h, s.flusher.copy)],
                tickets := s.tickets[h := s.tickets[h].(drained := true)],
                flusher := LastLook(h + 1, s.flusher.tail))
  }

  predicate ShutDown(s: Ring, s': Ring) {
    s' == s.(running := false)
  }

  /** Every step but the filling of a slot. */
  ghost predicate OtherStep(s: Ring, s': Ring) {
    || (exists rec :: Take(s, s', rec))
    || (exists n: nat :: Publish(s, s', n))
    || Begin(s, s') || Look(s, s') || LookLast(s, s') || Copy(s, s') || Deliver(s, s') || DeliverLast(s, s')
    || ShutDown(s, s')
  }

  ghost predicate Step(s: Ring, s': Ring) {
    (exists n: nat :: Fill(s, s', n)) || OtherStep(s, s')
  }

  /** A run: any interleaving of the threads' steps. */
  ghost predicate Run(trace: seq<Ring>) {
    && |trace| > 0 && Start(trace[0])
    && forall i :: 0 <= i < |trace| - 1 ==> Step(trace[i], trace[i + 1])
  }

  // ---- What every reachable state keeps ---------------------------------------------------------

  predicate TicketOk(s: Ring, n: nat)
    requires n < |s.tickets|
  {
    var t := s.tickets[n];
    && |t.rec| == FIELDS && t.filled <= FIELDS
    && (t.published ==> t.filled == FIELDS) && (t.drained ==> t.published)
    && (t.filled > 0 && n >= CAPACITY ==> s.tickets[n - CAPACITY].drained)
  }

  ghost predicate TicketsOk(s: Ring) {
    forall n: nat :: n < |s.tickets| ==> TicketOk(s, n)
  }

  /** An undrained ticket's fields are in its slot as far as it has got, under its number once published. */
  predicate SlotHolds(s: Ring, n: nat)
    requires s.Shape() && n < |s.tickets|
  {
    var t := s.tickets[n];
    && (!t.drained && t.filled <= FIELDS && |t.rec| == FIELDS ==>
          forall j :: 0 <= j < t.filled ==> s.At(n).fields[j] == t.rec[j])
    && (t.published && !t.drained ==> s.At(n).mark == 2 * (n + 1))
  }

  /** A slot marked with a ticket's number was published by that ticket. */
  predicate MarkOk(s: Ring, n: nat)
    requires s.Shape()
  {
    s.At(n).mark == 2 * (n + 1) ==> n < |s.tickets| && s.tickets[n].published
  }

  ghost predicate SlotsOk(s: Ring) {
    && s.Shape()
    && (forall n: nat :: n < |s.tickets| ==> SlotHolds(s, n))
    && (forall n: nat :: MarkOk(s, n))
  }

  /** The record being copied is whole so far. */
  predicate CopyOk(s: Ring) {
    s.flusher.Draining? || s.flusher.LastDrain? ==>
      var h, copy := s.flusher.head, s.flusher.copy;
      && h < |s.tickets| && s.tickets[h].published && |s.tickets[h].rec| == FIELDS
      && |copy| <= FIELDS && copy == s.tickets[h].rec[..|copy|]
  }

  /** Line i is a ticket's record, untorn, of a ticket below the head. */
  predicate LineOk(s: Ring, i: nat)
    requires i < |s.out|
  {
    var n := s.out[i].ticket;
    n < |s.tickets| && n < s.Head() && s.out[i].text == s.tickets[n].rec
  }

  ghost predicate OutOk(s: Ring) {
    && s.Head() <= |s.tickets| && (!s.flusher.Idle? && !s.flusher.Gone? ==> s.flusher.tail <= |s.tickets|)
    && (forall n: nat :: s.Head() <= n < |s.tickets| ==> !s.tickets[n].drained)
    && (forall i: nat :: i < |s.out| ==> LineOk(s, i))
    && (forall i: nat, j: nat :: i < j < |s.out| ==> s.out[i].ticket < s.out[j].ticket)
    && (s.InLoop() ==> |s.out| == s.Head() && forall i: nat :: i < |s.out| ==> s.out[i].ticket == i)
  }

  ghost predicate Inv(s: Ring) {
    TicketsOk(s) && SlotsOk(s) && CopyOk(s) && OutOk(s)
  }

  /** Once a later ticket of the same slot has started, an earlier one is drained. */
  lemma {:induction false} EarlierDrained(s: Ring, n: nat, m: nat)
    requires TicketsOk(s) && n < m < |s.tickets| && n % CAPACITY == m % CAPACITY && s.tickets[m].filled > 0
    ensures s.tickets[n].drained
    decreases m
  {
    assert TicketOk(s, m);
    if n != m - CAPACITY {
      assert TicketOk(s, m - CAPACITY);
      EarlierDrained(s, n, m - CAPACITY);
    }
  }

  /** At most one undrained ticket has started on a slot. */
  lemma Sole(s: Ring, n: nat, m: nat)
    requires TicketsOk(s) && n < |s.tickets| && m < |s.tickets| && n % CAPACITY == m % CAPACITY
    requires s.tickets[n].filled > 0 && s.tickets[m].filled > 0 && !s.tickets[n].drained && !s.tickets[m].drained
    ensures n == m
  {
    if n < m {
      EarlierDrained(s, n, m);
    } else if m < n {
      EarlierDrained(s, m, n);
    }
  }

  // ---- Each step keeps it ------------------------------------------------------------------------

  lemma StartKeeps(s: Ring)
    requires Start(s)
    ensures Inv(s)
  {
    forall n: nat
      ensures MarkOk(s, n)
    {
      assert s.At(n).mark == 0;
    }
  }

  lemma TakeKeeps(s: Ring, s': Ring, rec: seq<Text>)
    requires Inv(s) && Take(s, s', rec)
    ensures Inv(s')
  {
    forall n: nat | n < |s'.tickets|
      ensures TicketOk(s', n) && SlotHolds(s', n)
    {
      if n < |s.tickets| {
        assert TicketOk(s, n) && SlotHolds(s, n);
      }
    }
    forall n: nat
      ensures MarkOk(s', n)
    {
      assert MarkOk(s, n);
    }
    forall i: nat | i < |s'.out|
      ensures LineOk(s', i)
    {
      assert LineOk(s, i);
    }
  }

  lemma FillTickets(s: Ring, s': Ring, n: nat)
    requires TicketsOk(s) && Fill(s, s', n)
    ensures TicketsOk(s')
  {
    forall k: nat | k < |s'.tickets|
      ensures TicketOk(s', k)
    {
      assert TicketOk(s, k);
    }
  }

  /** The field written belongs to no other ticket that is still to be drained. */
  lemma FillHolds(s: Ring, s': Ring, n: nat, k: nat)
    requires TicketsOk(s) && SlotsOk(s) && Fill(s, s', n) && k < |s.tickets|
    ensures s'.Shape() && SlotHolds(s', k)
  {
    assert TicketOk(s, k) && SlotHolds(s, k) && TicketOk(s, n) && SlotHolds(s, n);
    if k != n && k % CAPACITY == n % CAPACITY && s.tickets[k].filled > 0 && !s.tickets[k].drained {
      FillTickets(s, s', n);
      assert TicketOk(s', n) && TicketOk(s', k);
      Sole(s', n, k);
    }
  }

  lemma FillKeeps(s: Ring, s': Ring, n: nat)
    requires Inv(s) && Fill(s, s', n)
    ensures Inv(s')
  {
    FillTickets(s, s', n);
    forall k: nat | k < |s'.tickets|
      ensures SlotHolds(s', k)
    {
      FillHolds(s, s', n, k);
    }
    forall k: nat
      ensures MarkOk(s', k)
    {
      assert MarkOk(s, k);
    }
    forall i: nat | i < |s'.out|
      ensures LineOk(s', i)
    {
      assert LineOk(s, i);
    }
  }

  lemma PublishSlots(s: Ring, s': Ring, n: nat, k: nat)
    requires TicketsOk(s) && SlotsOk(s) && Publish(s, s', n)
    ensures s'.Shape() && MarkOk(s', k)
    ensures k < |s.tickets| ==> SlotHolds(s', k)
  {
    assert MarkOk(s, k) && TicketOk(s, n) && SlotHolds(s, n);
    if k < |s.tickets| {
      assert TicketOk(s, k) && SlotHolds(s, k);
      if k != n && k % CAPACITY == n % CAPACITY && s.tickets[k].filled > 0 && !s.tickets[k].drained {
        Sole(s, n, k);
      }
    }
  }

  lemma PublishKeeps(s: Ring, s': Ring, n: nat)
    requires Inv(s) && Publish(s, s', n)
    ensures Inv(s')
  {
    forall k: nat
      ensures s'.Shape() && MarkOk(s', k)
      ensures k < |s'.tickets| ==> TicketOk(s', k) && SlotHolds(s', k)
    {
      PublishSlots(s, s', n, k);
      if k < |s.tickets| {
        assert TicketOk(s, k);
      }
    }
    forall i: nat | i < |s'.out|
      ensures LineOk(s', i)
    {
      assert LineOk(s, i);
    }
  }

  /** Steps that move only the flush thread along. */
  lemma FlusherMoves(s: Ring, s': Ring)
    requires Inv(s) && s'.slots == s.slots && s'.tickets == s.tickets && s'.out == s.out
    requires s.Head() <= s'.Head() <= |s.tickets| && CopyOk(s')
    requires !s'.flusher.Idle? && !s'.flusher.Gone? ==> s'.flusher.tail <= |s.tickets|
    requires s'.InLoop() ==> s.InLoop() && s'.Head() == s.Head()
    ensures Inv(s')
  {
    forall n: nat
      ensures MarkOk(s', n)
      ensures n < |s.tickets| ==> TicketOk(s', n) && SlotHolds(s', n)
    {
      assert MarkOk(s, n);
      if n < |s.tickets| {
        assert TicketOk(s, n) && SlotHolds(s, n);
      }
    }
    forall i: nat | i < |s'.out|
      ensures LineOk(s', i)
    {
      assert LineOk(s, i);
    }
  }

  lemma BeginKeeps(s: Ring, s': Ring)
    requires Inv(s) && Begin(s, s')
    ensures Inv(s')
  {
    FlusherMoves(s, s');
  }

  lemma LookKeeps(s: Ring, s': Ring)
    requires Inv(s) && (Look(s, s') || LookLast(s, s'))
    ensures Inv(s')
  {
    var h := s.flusher.head;
    assert MarkOk(s, h);
    if h < |s.tickets| {
      assert TicketOk(s, h);
    }
    FlusherMoves(s, s');
  }

  lemma CopyKeeps(s: Ring, s': Ring)
    requires Inv(s) && Copy(s, s')
    ensures Inv(s')
  {
    var h, copy := s.flusher.head, s.flusher.copy;
    assert TicketOk(s, h) && SlotHolds(s, h) && !s.tickets[h].drained;
    assert s'.flusher.copy == s.tickets[h].rec[..|copy| + 1];
    FlusherMoves(s, s');
  }

  lemma DeliverSlots(s: Ring, s': Ring, k: nat)
    requires TicketsOk(s) && SlotsOk(s) && CopyOk(s) && OutOk(s) && (Deliver(s, s') || DeliverLast(s, s'))
    ensures s'.Shape() && MarkOk(s', k)
    ensures k < |s.tickets| ==> TicketOk(s', k) && SlotHolds(s', k)
  {
    var h := s.flusher.head;
    assert MarkOk(s, k) && TicketOk(s, h) && SlotHolds(s, h) && !s.tickets[h].drained;
    if k < |s.tickets| {
      assert TicketOk(s, k) && SlotHolds(s, k);
      if k != h && k % CAPACITY == h % CAPACITY && s.tickets[k].filled > 0 && !s.tickets[k].drained {
        Sole(s, h, k);
      }
    }
  }

  lemma DeliverKeeps(s: Ring, s': Ring)
    requires Inv(s) && (Deliver(s, s') || DeliverLast(s, s'))
    ensures Inv(s')
  {
    forall k: nat
      ensures s'.Shape() && MarkOk(s', k)
      ensures k < |s'.tickets| ==> TicketOk(s', k) && SlotHolds(s', k)
    {
      DeliverSlots(s, s', k);
    }
    DeliverOut(s, s');
  }

  lemma DeliverOut(s: Ring, s': Ring)
    requires Inv(s) && (Deliver(s, s') || DeliverLast(s, s'))
    ensures OutOk(s')
  {
    var h := s.flusher.head;
    assert s.flusher.copy == s.tickets[h].rec;
    forall i: nat | i < |s'.out|
      ensures LineOk(s', i) && (i < |s.out| ==> s'.out[i].ticket < h)
    {
      if i < |s.out| {
        assert LineOk(s, i);
      }
    }
  }

  lemma ShutDownKeeps(s: Ring, s': Ring)
    requires Inv(s) && ShutDown(s, s')
    ensures Inv(s')
  {
    FlusherMoves(s, s');
  }

  lemma StepKeeps(s: Ring, s': Ring)
    requires Inv(s) && Step(s, s')
    ensures Inv(s')
  {
    if rec :| Take(s, s', rec) {
      TakeKeeps(s, s', rec);
    } else if n: nat :| Fill(s, s', n) {
      FillKeeps(s, s', n);
    } else if n: nat :| Publish(s, s', n) {
      PublishKeeps(s, s', n);
    } else if Begin(s, s') {
      BeginKeeps(s, s');
    } else if Look(s, s') || LookLast(s, s') {
      LookKeeps(s, s');
    } else if Copy(s, s') {
      CopyKeeps(s, s');
    } else if Deliver(s, s') || DeliverLast(s, s') {
      DeliverKeeps(s, s');
    } else {
      ShutDownKeeps(s, s');
    }
  }

  lemma {:induction false} RunKeeps(trace: seq<Ring>)
    requires Run(trace)
    ensures Inv(trace[|trace| - 1])
    decreases |trace|
  {
    var last := |trace| - 1;
    if last == 0 {
      StartKeeps(trace[0]);
    } else {
      RunKeeps(trace[..last]);
      assert Step(trace[last - 1], trace[(last - 1) + 1]);
      StepKeeps(trace[last - 1], trace[last]);
    }
  }

  /** In every reachable state what has been written out is whole records, in ticket order, each once; and
      until the last pass it is the records of tickets 0, 1, 2 ... without a gap. */
  lemma Delivered(trace: seq<Ring>)
    requires Run(trace)
    ensures var s := trace[|trace| - 1];
      && (forall i: nat :: i < |s.out| ==> LineOk(s, i))
      && (forall i: nat, j: nat :: i < j < |s.out| ==> s.out[i].ticket < s.out[j].ticket)
      && (s.InLoop() ==> forall i: nat :: i < |s.out| ==> s.out[i].ticket == i)
  {
    RunKeeps(trace);
  }

  /** A ticket's record never changes, and what is written out stays. */
  lemma StepExtends(s: Ring, s': Ring)
    requires Step(s, s')
    ensures |s.out| <= |s'.out| && s'.out[..|s.out|] == s.out
    ensures |s.tickets| <= |s'.tickets| && forall n: nat :: n < |s.tickets| ==> s'.tickets[n].rec == s.tickets[n].rec
  {
    if rec :| Take(s, s', rec) {
    } else if n: nat :| Fill(s, s', n) {
    } else if n: nat :| Publish(s, s', n) {
    }
  }

  // ---- What the producer's wait sees ---------------------------------------------------------------

  /** The test that ends the bounded wait of emit. */
  predicate LooksFree(s: Ring, n: nat)
    requires s.Shape()
  {
    s.At(n).mark % 2 == 0 && s.At(n).mark <= 2 * n
  }

  predicate ResidueOk(s: Ring, i: nat)
    requires s.Shape() && i < CAPACITY
  {
    s.slots[i].mark > 0 ==> s.slots[i].mark > 1 && (s.slots[i].mark / 2 - 1) % CAPACITY == i
  }

  predicate MarkGrown(s: Ring, n: nat)
    requires s.Shape() && n < |s.tickets|
  {
    && (s.tickets[n].published ==> s.At(n).mark >= 2 * (n + 1))
    && (s.InLoop() && s.tickets[n].drained ==> s.At(n).mark > 2 * (n + 1))
  }

  /** Marks name a ticket of their slot and only grow; a drained slot's mark has passed its ticket. */
  ghost predicate MarksGrow(s: Ring) {
    && s.Shape()
    && (forall i: nat :: i < CAPACITY ==> ResidueOk(s, i))
    && (forall n: nat :: n < |s.tickets| ==> MarkGrown(s, n))
  }

  lemma MarkWritten(s: Ring, s': Ring, n: nat, v: nat)
    requires Inv(s) && MarksGrow(s) && n < |s.tickets| && s'.Shape() && |s'.tickets| == |s.tickets|
    requires forall i :: 0 <= i < CAPACITY ==> s'.slots[i].mark == if i == n % CAPACITY then v else s.slots[i].mark
    requires (v == 2 * (n + 1) && !s.tickets[n].published) || (v == 2 * (n + 1) + 1 && !s.tickets[n].drained)
    requires s.tickets[n].filled > 0
    requires forall k: nat :: k < |s.tickets| && k != n ==> s'.tickets[k] == s.tickets[k]
    requires s'.tickets[n].drained ==> v == 2 * (n + 1) + 1
    requires s'.InLoop() ==> s.InLoop()
    ensures MarksGrow(s')
  {
    assert v / 2 - 1 == n;
    forall i: nat | i < CAPACITY
      ensures ResidueOk(s', i)
    {
      assert ResidueOk(s, i);
    }
    forall k: nat | k < |s'.tickets|
      ensures MarkGrown(s', k)
    {
      assert MarkGrown(s, k) && TicketOk(s, k) && TicketOk(s, n);
      if k > n && k % CAPACITY == n % CAPACITY && s.tickets[k].filled > 0 {
        EarlierDrained(s, n, k);
      }
    }
  }

  lemma MarksUntouched(s: Ring, s': Ring)
    requires MarksGrow(s) && s'.Shape()
    requires forall i :: 0 <= i < CAPACITY ==> s'.slots[i].mark == s.slots[i].mark
    requires |s.tickets| <= |s'.tickets| && (s'.InLoop() ==> s.InLoop())
    requires forall k: nat :: |s.tickets| <= k < |s'.tickets| ==> !s'.tickets[k].published && !s'.tickets[k].drained
    requires forall k: nat :: k < |s.tickets| ==>
      && s'.tickets[k].published == s.tickets[k].published
      && (s'.InLoop() ==> s'.tickets[k].drained == s.tickets[k].drained)
    ensures MarksGrow(s')
  {
    forall i: nat | i < CAPACITY
      ensures ResidueOk(s', i)
    {
      assert ResidueOk(s, i);
    }
    forall k: nat | k < |s'.tickets|
      ensures MarkGrown(s', k)
    {
      if k < |s.tickets| {
        assert MarkGrown(s, k);
      }
    }
  }

  lemma MarkingStepGrows(s: Ring, s': Ring, n: nat)
    requires Inv(s) && MarksGrow(s) && (Publish(s, s', n) || (Deliver(s, s') && n == s.flusher.head))
    ensures MarksGrow(s')
  {
    assert TicketOk(s, n);
    MarkWritten(s, s', n, if Publish(s, s', n) then 2 * (n + 1) else 2 * (n + 1) + 1);
  }

  lemma QuietStepGrows(s: Ring, s': Ring)
    requires MarksGrow(s)
    requires (exists rec :: Take(s, s', rec)) || (exists n: nat :: Fill(s, s', n)) || Begin(s, s') || Look(s, s')
          || LookLast(s, s') || Copy(s, s') || DeliverLast(s, s') || ShutDown(s, s')
    ensures MarksGrow(s')
  {
    MarksUntouched(s, s');
  }

  lemma StepGrows(s: Ring, s': Ring)
    requires Inv(s) && MarksGrow(s) && Step(s, s')
    ensures MarksGrow(s')
  {
    if n: nat :| Publish(s, s', n) {
      MarkingStepGrows(s, s', n);
    } else if Deliver(s, s') {
      MarkingStepGrows(s, s', s.flusher.head);
    } else {
      QuietStepGrows(s, s');
    }
  }

  lemma {:induction false} RunGrows(trace: seq<Ring>)
    requires Run(trace)
    ensures MarksGrow(trace[|trace| - 1])
    decreases |trace|
  {
    var last := |trace| - 1;
    if last == 0 {
    } else {
      RunGrows(trace[..last]);
      RunKeeps(trace[..last]);
      assert Step(trace[last - 1], trace[(last - 1) + 1]);
      StepGrows(trace[last - 1], trace[last]);
    }
  }

  /** The wait has its test the wrong way round: a drained slot carries an odd number, so for a producer that
      has lapped the ring the test passes exactly while the previous record is still to be drained. */
  lemma WaitIsInverted(trace: seq<Ring>, n: nat)
    requires Run(trace)
    requires var s := trace[|trace| - 1];
      s.InLoop() && CAPACITY <= n < |s.tickets| && s.tickets[n - CAPACITY].published
    ensures var s := trace[|trace| - 1];
      s.Shape() && (s.tickets[n].filled == 0 ==> (LooksFree(s, n) <==> !s.tickets[n - CAPACITY].drained))
  {
    var s, k := trace[|trace| - 1], n - CAPACITY;
    RunKeeps(trace);
    RunGrows(trace);
    assert SlotHolds(s, k) && MarkGrown(s, k) && n % CAPACITY == k % CAPACITY;
    assert ResidueOk(s, n % CAPACITY);
    BetweenLaps(n, s.At(n).mark / 2 - 1);
  }

  lemma BetweenLaps(n: nat, k: int)
    requires n >= CAPACITY
    ensures k % CAPACITY == n % CAPACITY && k < n ==> k <= n - CAPACITY
  {
  }
}
