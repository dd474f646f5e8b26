/** The event ring: the controller produces event TRBs, software consumes
    them (section 4.9.4 of the xHCI 1.1 specification).

    The segments hold no Link TRBs; their order comes from the event ring
    segment table. A slot holds a new event when its cycle bit equals the
    consumer cycle state (CCS); CCS flips each time the cursor wraps from the
    last segment back to the first. `dequeuePtr` is the address reported to
    the controller, updated on every call before the cycle check. */
module EventRing {
  import opened Errors
  import opened Cursor
  import opened Trbs
  import opened Segments

  datatype Ring = Ring(
    segments: seq<seq<Trb>>,
    segPhys: seq<nat>,
    cursor: Pos,
    dequeuePtr: nat,
    ccs: bool       // consumer cycle state
  )

  predicate Valid(r: Ring)
  {
    && |r.segments| >= 1
    && |r.segPhys| == |r.segments|
    && PhysLayout(r.segPhys)
    && (forall s :: 0 <= s < |r.segments| ==> |r.segments[s]| == SegmentTrbCount)
    && InRange(SegmentTrbCount, |r.segments|, r.cursor)
  }

  /** Number of slots in the whole ring: one revolution. */
  function Capacity(r: Ring): nat
  {
    Span(SegmentTrbCount, |r.segments|)
  }

  function SlotAt(r: Ring, p: Pos): Trb
    requires Valid(r) && InRange(SegmentTrbCount, |r.segments|, p)
  {
    r.segments[p.seg][p.idx]
  }

  /** `event_ring_dequeue_phys`: physical address of the cursor. */
  function DequeuePhys(r: Ring): nat
    requires Valid(r)
  {
    SlotPhys(r.segPhys, r.cursor)
  }

  /** `xhci_event_ring_init`: one zero-filled segment, the cursor at its
      first slot, the reported pointer at its base and CCS = 1. The segment
      allocation and the segment-table allocation (`malloc32`) are
      parameters; the latter failing gives ENOMEM. */
  function Init(alloc: Allocation, tableAllocated: bool): (res: Result<Ring>)
    requires alloc.Allocated? ==> alloc.phys % PageSize == 0
    ensures res.Ok? <==> alloc.Allocated? && tableAllocated
    ensures alloc.AllocFailed? ==> res == Err(alloc.error)
    ensures alloc.Allocated? && !tableAllocated ==> res == Err(ENOMEM)
    ensures res.Ok? ==>
              var r := res.value;
              && Valid(r)
              && |r.segments| == 1 && r.segPhys == [alloc.phys]
              && (forall i :: 0 <= i < SegmentTrbCount ==> r.segments[0][i] == Clean)
              && r.cursor == Pos(0, 0)
              && r.dequeuePtr == alloc.phys
              && r.ccs
  {
    match alloc
    case AllocFailed(e) => Err(e)
    case Allocated(phys) =>
      if !tableAllocated then Err(ENOMEM)
      else Ok(Ring([seq(SegmentTrbCount, i => Clean)], [phys], Pos(0, 0), phys, true))
  }

  datatype Dequeued = Dequeued(status: Errno, event: Option<Trb>, ring: Ring)

  /** `xhci_event_ring_dequeue`: record the cursor address as the reported
      pointer; if the slot's cycle bit differs from CCS the ring is empty
      (ENOENT, cursor and CCS unchanged); otherwise return the slot, advance
      one slot, moving to the next segment past the last slot and flipping
      CCS when that move wraps to the first segment. */
  function Dequeue(r: Ring): (res: Dequeued)
    requires Valid(r)
    ensures Valid(res.ring)
    ensures res.ring.segments == r.segments && res.ring.segPhys == r.segPhys
    ensures res.ring.dequeuePtr == DequeuePhys(r)
    ensures res.status == EOK || res.status == ENOENT
    ensures res.status == ENOENT <==> SlotAt(r, r.cursor).cycle != r.ccs
    ensures res.status == ENOENT ==>
              res.event == None && res.ring.cursor == r.cursor && res.ring.ccs == r.ccs
    ensures res.status == EOK ==>
              && res.event == Some(SlotAt(r, r.cursor))
              && res.ring.cursor == Next(SegmentTrbCount, |r.segments|, r.cursor)
              && res.ring.ccs == (r.ccs != (r.cursor.idx + 1 == SegmentTrbCount && r.cursor.seg + 1 == |r.segments|))
  {
    var c := r.cursor;
    var r0 := r.(dequeuePtr := DequeuePhys(r));
    var slot := r.segments[c.seg][c.idx];
    if slot.cycle != r.ccs then
      Dequeued(ENOENT, None, r0)
    else
      var index := c.idx + 1;
      if index >= SegmentTrbCount then
        var wrap := c.seg + 1 >= |r.segments|;
        var next := if wrap then 0 else c.seg + 1;
        Dequeued(EOK, Some(slot), r0.(cursor := Pos(next, 0), ccs := if wrap then !r.ccs else r.ccs))
      else
        Dequeued(EOK, Some(slot), r0.(cursor := Pos(c.seg, index)))
  }

  /** A newly initialised event ring is empty: its zero-filled slots have
      cycle bit 0 while CCS is 1. */
  lemma InitIsEmpty(phys: nat)
    requires phys % PageSize == 0
    ensures Init(Allocated(phys), true).Ok?
    ensures Dequeue(Init(Allocated(phys), true).value).status == ENOENT
  {
  }

  /** Polling an empty ring again changes nothing more: the second call
      returns ENOENT and leaves the same state, reported pointer included. */
  lemma EmptyDequeueIdempotent(r: Ring)
    requires Valid(r)
    requires Dequeue(r).status == ENOENT
    ensures Dequeue(Dequeue(r).ring) == Dequeue(r)
  {
  }

  /** CCS flips on a successful dequeue exactly when the cursor's linear
      index wraps to 0, that is, once per revolution. */
  lemma DequeueFlipsAtWrap(r: Ring)
    requires Valid(r)
    requires Dequeue(r).status == EOK
    ensures Lin(SegmentTrbCount, Dequeue(r).ring.cursor) ==
            if Lin(SegmentTrbCount, r.cursor) + 1 < Capacity(r) then Lin(SegmentTrbCount, r.cursor) + 1 else 0
    ensures Dequeue(r).ring.ccs != r.ccs <==> Lin(SegmentTrbCount, Dequeue(r).ring.cursor) == 0
  {
    LinNext(SegmentTrbCount, |r.segments|, r.cursor);
    LinLast(SegmentTrbCount, |r.segments|, r.cursor);
    LinBound(SegmentTrbCount, |r.segments|, r.cursor);
  }

  // ---------------------------------------------------------------------
  // The controller as producer, and first-in first-out delivery

  /** The cycle bit the consumer expects at the slot `k` steps ahead of the
      cursor, for `k` below one revolution: CCS, flipped when getting there
      wraps past the end of the ring. */
  function ExpectedCycle(r: Ring, k: nat): bool
    requires Valid(r)
  {
    r.ccs != (Lin(SegmentTrbCount, r.cursor) + k >= Capacity(r))
  }

  /** No slot of the coming revolution holds an event the consumer has not
      seen: every one carries the cycle bit of an earlier pass. */
  predicate Drained(r: Ring)
    requires Valid(r)
  {
    forall k :: 0 <= k < Capacity(r) ==>
      SlotAt(r, Walk(SegmentTrbCount, |r.segments|, r.cursor, k)).cycle != ExpectedCycle(r, k)
  }

  /** A newly initialised ring is drained: the first revolution's events
      are all still to come. */
  lemma InitDrained(phys: nat)
    requires phys % PageSize == 0
    ensures Init(Allocated(phys), true).Ok?
    ensures Drained(Init(Allocated(phys), true).value)
  {
    var r := Init(Allocated(phys), true).value;
    forall k | 0 <= k < Capacity(r)
      ensures SlotAt(r, Walk(SegmentTrbCount, |r.segments|, r.cursor, k)).cycle != ExpectedCycle(r, k)
    {
      var p := Walk(SegmentTrbCount, |r.segments|, r.cursor, k);
      assert r.segments[0][p.idx] == Clean;
    }
  }

  /** The controller writing `events` into the ring from the consumer's
      cursor on, each stamped with the cycle bit the consumer will expect
      there (the producer cycle state of section 4.9.4 of the xHCI
      specification). */
  function Produce(r: Ring, events: seq<Trb>): (r': Ring)
    requires Valid(r) && |events| < Capacity(r)
    ensures Valid(r') && r'.segPhys == r.segPhys && r'.cursor == r.cursor && r'.ccs == r.ccs
    ensures r'.dequeuePtr == r.dequeuePtr
    decreases |events|
  {
    if |events| == 0 then r
    else
      var n := |events| - 1;
      var r0 := Produce(r, events[..n]);
      var p := Walk(SegmentTrbCount, |r.segments|, r.cursor, n);
      r0.(segments := WriteSlot(r0.segments, p, events[n].(cycle := ExpectedCycle(r, n))))
  }

  /** Where the produced events land: event `k` at `k` steps ahead of the
      cursor, stamped; the rest of the revolution untouched. */
  lemma {:induction false} ProduceSlots(r: Ring, events: seq<Trb>)
    requires Valid(r) && |events| < Capacity(r)
    ensures var r' := Produce(r, events);
            && (forall k :: 0 <= k < |events| ==>
                  SlotAt(r', Walk(SegmentTrbCount, |r.segments|, r.cursor, k)) == events[k].(cycle := ExpectedCycle(r, k)))
            && (forall k :: |events| <= k < Capacity(r) ==>
                  SlotAt(r', Walk(SegmentTrbCount, |r.segments|, r.cursor, k)) == SlotAt(r, Walk(SegmentTrbCount, |r.segments|, r.cursor, k)))
    decreases |events|
  {
    if |events| > 0 {
      var W, N := SegmentTrbCount, |r.segments|;
      var n := |events| - 1;
      var prefix := events[..n];
      ProduceSlots(r, prefix);
      var r0 := Produce(r, prefix);
      var r' := Produce(r, events);
      var p := Walk(W, N, r.cursor, n);
      assert r'.segments == WriteSlot(r0.segments, p, events[n].(cycle := ExpectedCycle(r, n)));
      forall k | 0 <= k < Capacity(r) && k != n
        ensures SlotAt(r', Walk(W, N, r.cursor, k)) == SlotAt(r0, Walk(W, N, r.cursor, k))
      {
        if k < n {
          WalkDistinct(W, N, r.cursor, k, n);
        } else {
          WalkDistinct(W, N, r.cursor, n, k);
        }
      }
      forall k | 0 <= k < n
        ensures SlotAt(r', Walk(W, N, r.cursor, k)) == events[k].(cycle := ExpectedCycle(r, k))
      {
        assert prefix[k] == events[k];
      }
    }
  }

  datatype Consumed = Consumed(events: seq<Trb>, ring: Ring)

  /** Up to `m` calls of `xhci_event_ring_dequeue`, stopping at the first
      ENOENT: the events read, in order, and the ring afterwards. */
  function Consume(r: Ring, m: nat): (c: Consumed)
    requires Valid(r)
    ensures Valid(c.ring) && c.ring.segments == r.segments && c.ring.segPhys == r.segPhys
    ensures |c.events| <= m
    decreases m
  {
    if m == 0 then Consumed([], r)
    else
      var d := Dequeue(r);
      if d.status == ENOENT then Consumed([], d.ring)
      else
        var c := Consume(d.ring, m - 1);
        Consumed([d.event.value] + c.events, c.ring)
  }

  /** One successful step of the consumer moves its expectation one slot
      on: the new CCS is what was expected one step further. */
  lemma ExpectedCycleStep(r: Ring, j: nat)
    requires Valid(r) && j + 1 < Capacity(r)
    ensures var p := Walk(SegmentTrbCount, |r.segments|, r.cursor, j);
            ExpectedCycle(r, j + 1) == (ExpectedCycle(r, j) != (p.idx + 1 == SegmentTrbCount && p.seg + 1 == |r.segments|))
  {
    var W, N := SegmentTrbCount, |r.segments|;
    var p := Walk(W, N, r.cursor, j);
    LinWalk(W, N, r.cursor, j);
    LinLast(W, N, p);
    LinBound(W, N, r.cursor);
  }

  /** The consumer `j` steps ahead, with the matching CCS, over the
      produced events. */
  predicate ConsumerAt(r: Ring, events: seq<Trb>, s: Ring, j: nat)
    requires Valid(r) && |events| < Capacity(r)
  {
    && Valid(s) && s.segments == Produce(r, events).segments && s.segPhys == r.segPhys
    && s.cursor == Walk(SegmentTrbCount, |r.segments|, r.cursor, j) && s.ccs == ExpectedCycle(r, j)
  }

  /** One dequeue over a produced event returns it and moves the consumer
      one step on. */
  lemma ConsumeStep(r: Ring, events: seq<Trb>, s: Ring, j: nat)
    requires Valid(r) && |events| < Capacity(r) && j < |events|
    requires ConsumerAt(r, events, s, j)
    ensures Dequeue(s).status == EOK
    ensures Dequeue(s).event == Some(events[j].(cycle := ExpectedCycle(r, j)))
    ensures ConsumerAt(r, events, Dequeue(s).ring, j + 1)
  {
    var W, N := SegmentTrbCount, |r.segments|;
    ProduceSlots(r, events);
    assert SlotAt(s, s.cursor) == events[j].(cycle := ExpectedCycle(r, j));
    WalkSucc(W, N, r.cursor, j);
    ExpectedCycleStep(r, j);
  }

  /** Consuming from the state reached after `j` of the produced events
      reads the remaining ones and leaves the consumer `|events|` steps
      ahead with the matching CCS. */
  lemma {:induction false} ConsumeReachesEnd(r: Ring, events: seq<Trb>, s: Ring, j: nat)
    requires Valid(r) && |events| < Capacity(r) && j <= |events|
    requires ConsumerAt(r, events, s, j)
    ensures |Consume(s, |events| - j).events| == |events| - j
    ensures ConsumerAt(r, events, Consume(s, |events| - j).ring, |events|)
    decreases |events| - j
  {
    if j < |events| {
      ConsumeStep(r, events, s, j);
      var d := Dequeue(s);
      ConsumeReachesEnd(r, events, d.ring, j + 1);
      var c := Consume(d.ring, |events| - j - 1);
      assert Consume(s, |events| - j) == Consumed([d.event.value] + c.events, c.ring);
    } else {
      assert Consume(s, 0) == Consumed([], s);
    }
  }

  /** The events read from the state reached after `j` of the produced
      events are the remaining ones, in order. */
  lemma {:induction false} ConsumeFrom(r: Ring, events: seq<Trb>, s: Ring, j: nat)
    requires Valid(r) && |events| < Capacity(r) && j <= |events|
    requires ConsumerAt(r, events, s, j)
    ensures |Consume(s, |events| - j).events| == |events| - j
    ensures var c := Consume(s, |events| - j);
            forall k :: 0 <= k < |c.events| ==> c.events[k] == events[j + k].(cycle := ExpectedCycle(r, j + k))
    decreases |events| - j
  {
    if j < |events| {
      ConsumeStep(r, events, s, j);
      var d := Dequeue(s);
      ConsumeFrom(r, events, d.ring, j + 1);
      var c := Consume(d.ring, |events| - j - 1);
      assert Consume(s, |events| - j).events == [d.event.value] + c.events;
      PrependExpected(r, events, j, d.event.value, c.events);
    }
  }

  /** Putting event `j` in front of the events from `j + 1` on gives the
      events from `j` on. */
  lemma PrependExpected(r: Ring, events: seq<Trb>, j: nat, head: Trb, rest: seq<Trb>)
    requires Valid(r) && j + 1 + |rest| <= |events|
    requires head == events[j].(cycle := ExpectedCycle(r, j))
    requires forall k :: 0 <= k < |rest| ==> rest[k] == events[j + 1 + k].(cycle := ExpectedCycle(r, j + 1 + k))
    ensures forall k :: 0 <= k < |[head] + rest| ==>
              ([head] + rest)[k] == events[j + k].(cycle := ExpectedCycle(r, j + k))
  {
    forall k | 0 <= k < |[head] + rest|
      ensures ([head] + rest)[k] == events[j + k].(cycle := ExpectedCycle(r, j + k))
    {
      if k > 0 {
        assert ([head] + rest)[k] == rest[k - 1];
        assert j + 1 + (k - 1) == j + k;
      }
    }
  }

  /** Past the last produced event the consumer meets a slot of an
      earlier pass. */
  lemma EmptyAfterProduced(r: Ring, events: seq<Trb>, s: Ring)
    requires Valid(r) && Drained(r) && |events| < Capacity(r)
    requires ConsumerAt(r, events, s, |events|)
    ensures Dequeue(s).status == ENOENT
  {
    ProduceSlots(r, events);
    assert SlotAt(s, s.cursor) == SlotAt(r, Walk(SegmentTrbCount, |r.segments|, r.cursor, |events|));
  }

  /** Before any dequeue the consumer is zero steps ahead. */
  lemma ConsumerStarts(r: Ring, events: seq<Trb>)
    requires Valid(r) && |events| < Capacity(r)
    ensures ConsumerAt(r, events, Produce(r, events), 0)
  {
    LinBound(SegmentTrbCount, |r.segments|, r.cursor);
  }

  /** Dequeuing after the controller wrote `events` returns them in
      order, with the cycle bits the consumer expected. */
  lemma DeliveredEvents(r: Ring, events: seq<Trb>)
    requires Valid(r) && |events| < Capacity(r)
    ensures var c := Consume(Produce(r, events), |events|);
            && |c.events| == |events|
            && (forall k :: 0 <= k < |c.events| ==> c.events[k] == events[k].(cycle := ExpectedCycle(r, k)))
  {
    var r1 := Produce(r, events);
    var c := Consume(r1, |events|);
    ConsumerStarts(r, events);
    ConsumeFrom(r, events, r1, 0);
    forall k | 0 <= k < |c.events|
      ensures c.events[k] == events[k].(cycle := ExpectedCycle(r, k))
    {
      assert c.events[k] == events[0 + k].(cycle := ExpectedCycle(r, 0 + k));
    }
  }

  /** After reading the produced events from a drained ring, the next
      dequeue finds it empty. */
  lemma DeliveredThenEmpty(r: Ring, events: seq<Trb>)
    requires Valid(r) && Drained(r) && |events| < Capacity(r)
    ensures Dequeue(Consume(Produce(r, events), |events|).ring).status == ENOENT
  {
    var r1 := Produce(r, events);
    ConsumerStarts(r, events);
    ConsumeReachesEnd(r, events, r1, 0);
    EmptyAfterProduced(r, events, Consume(r1, |events|).ring);
  }

  /** First in, first out: after the controller writes fewer than a
      revolution of events into a drained ring, dequeuing returns exactly
      those events in order (their cycle bits being the expected ones),
      and the call after the last one finds the ring empty. */
  lemma EventsDeliveredInOrder(r: Ring, events: seq<Trb>)
    requires Valid(r) && Drained(r) && |events| < Capacity(r)
    ensures var c := Consume(Produce(r, events), |events|);
            && |c.events| == |events|
            && (forall k :: 0 <= k < |events| ==> c.events[k] == events[k].(cycle := c.events[k].cycle))
            && Dequeue(c.ring).status == ENOENT
  {
    DeliveredEvents(r, events);
    DeliveredThenEmpty(r, events);
  }
}
