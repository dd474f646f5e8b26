/** The transfer ring: software produces TRBs, the controller consumes them
    (section 4.9.2 of the xHCI 1.1 specification, cycle and link rules of
    section 4.11.5.1).

    The ring is a list of segments; the last slot of each segment holds a
    Link TRB to the next segment. The enqueue cursor is a (segment, slot)
    pair that never rests on a Link slot. `dequeue` is the physical address
    last reported as consumed by the controller; the enqueue refuses a
    transfer descriptor (TD) whose TRBs would make the cursor reach it. */
module TransferRing {
  import opened Errors
  import opened Cursor
  import opened Trbs
  import opened Segments

  /** Index of the Link TRB in every segment. */
  const LinkIdx: nat := SegmentTrbCount - 1

  /** Slots per segment that can hold TD TRBs (all but the Link TRB). */
  const Usable: nat := SegmentTrbCount - 1

  datatype Ring = Ring(
    segments: seq<seq<Trb>>,
    segPhys: seq<nat>,
    enqueue: Pos,
    dequeue: nat,   // physical address reported by the completion path
    pcs: bool       // producer cycle state
  )

  /** A segment holds exactly one Link TRB, in its last slot. */
  predicate SegmentShape(seg: seq<Trb>)
  {
    && |seg| == SegmentTrbCount
    && forall i :: 0 <= i < |seg| ==> (seg[i].kind == Link <==> i == LinkIdx)
  }

  /** The ring invariant: at least one segment, distinct page-aligned bases,
      every segment's Link TRB points at the next segment's base, and the
      cursor is on a usable (non-Link) slot. */
  predicate Valid(r: Ring)
  {
    && |r.segments| >= 1
    && |r.segPhys| == |r.segments|
    && PhysLayout(r.segPhys)
    && SegmentsLinked(r.segments, r.segPhys)
    && InRange(Usable, |r.segments|, r.enqueue)
  }

  /** Every segment has its shape and its Link TRB points at the base of the
      next segment in list order. */
  predicate SegmentsLinked(segs: seq<seq<Trb>>, segPhys: seq<nat>)
    requires |segs| == |segPhys|
  {
    forall s :: 0 <= s < |segs| ==>
      SegmentShape(segs[s]) && segs[s][LinkIdx].parameter == segPhys[NextSeg(|segs|, s)]
  }

  /** Writing a non-Link TRB into a usable slot, or a Link TRB with the same
      target into a Link slot, keeps the segments linked. */
  lemma WriteKeepsLinked(segs: seq<seq<Trb>>, segPhys: seq<nat>, p: Pos, t: Trb)
    requires |segs| == |segPhys| && |segs| >= 1 && SegmentsLinked(segs, segPhys)
    requires p.seg < |segs| && p.idx < SegmentTrbCount
    requires t.kind == Link <==> p.idx == LinkIdx
    requires p.idx == LinkIdx ==> t.parameter == segs[p.seg][LinkIdx].parameter
    ensures SegmentsLinked(WriteSlot(segs, p, t), segPhys)
  {
    var segs' := WriteSlot(segs, p, t);
    forall s | 0 <= s < |segs'|
      ensures SegmentShape(segs'[s]) && segs'[s][LinkIdx].parameter == segPhys[NextSeg(|segs'|, s)]
    {
      assert SegmentShape(segs[s]);
      if s == p.seg {
        assert segs'[s] == segs[s][p.idx := t];
      } else {
        assert segs'[s] == segs[s];
      }
    }
  }

  /** Only the Link TRB of the last segment carries Toggle-Cycle. */
  predicate ToggleAtEnd(r: Ring)
    requires Valid(r)
  {
    forall s :: 0 <= s < |r.segments| ==>
      (r.segments[s][LinkIdx].toggleCycle <==> s == |r.segments| - 1)
  }

  /** Number of usable slots in the whole ring: one revolution. */
  function Capacity(r: Ring): nat
  {
    Span(Usable, |r.segments|)
  }

  function SlotAt(r: Ring, p: Pos): Trb
    requires Valid(r) && p.seg < |r.segments| && p.idx < SegmentTrbCount
  {
    r.segments[p.seg][p.idx]
  }

  /** Physical address of the enqueue cursor (`trb_ring_enqueue_phys`). */
  function EnqueuePhys(r: Ring): nat
    requires Valid(r)
  {
    SlotPhys(r.segPhys, r.enqueue)
  }

  /** The freshly allocated segment of a new ring: zero-filled slots and a
      Link TRB to its own base, with cycle bit 1. */
  function InitialSegment(phys: nat): seq<Trb>
  {
    seq(SegmentTrbCount, i => if i == LinkIdx then LinkTrb(phys).(cycle := true) else Clean)
  }

  /** `xhci_trb_ring_init`: one segment, cursor at its first slot, the
      dequeue address at its base and PCS = 1. The allocator's outcome is a
      parameter. */
  function Init(alloc: Allocation): (res: Result<Ring>)
    requires alloc.Allocated? ==> alloc.phys % PageSize == 0
    ensures res.Err? <==> alloc.AllocFailed?
    ensures res.Err? ==> res.error == alloc.error
    ensures res.Ok? ==>
              var r := res.value;
              && Valid(r) && ToggleAtEnd(r)
              && |r.segments| == 1 && r.segPhys == [alloc.phys]
              && r.segments[0][LinkIdx].kind == Link
              && r.segments[0][LinkIdx].parameter == alloc.phys
              && r.segments[0][LinkIdx].cycle
              && r.segments[0][LinkIdx].toggleCycle
              && (forall i :: 0 <= i < LinkIdx ==> r.segments[0][i] == Clean)
              && r.enqueue == Pos(0, 0)
              && r.dequeue == alloc.phys
              && r.pcs
              && EnqueuePhys(r) == r.dequeue
  {
    match alloc
    case AllocFailed(e) => Err(e)
    case Allocated(phys) =>
      var r := Ring([InitialSegment(phys)], [phys], Pos(0, 0), phys, true);
      assert SegmentShape(r.segments[0]);
      Ok(r)
  }

  /** `trb_ring_resolve_link`: slot 0 of the next segment in list order,
      wrapping to the first segment. */
  function ResolveLink(r: Ring, p: Pos): Pos
    requires p.seg < |r.segments|
  {
    Pos(NextSeg(|r.segments|, p.seg), 0)
  }

  /** One cursor advance as the enqueue performs it: move one slot and, if
      that slot is a Link TRB, resolve the link. On a valid ring this is the
      geometric step over the usable slots. */
  function Advance(r: Ring, p: Pos): (q: Pos)
    requires Valid(r) && InRange(Usable, |r.segments|, p)
    ensures q == Next(Usable, |r.segments|, p)
  {
    var q := Pos(p.seg, p.idx + 1);
    assert SegmentShape(r.segments[q.seg]);
    if r.segments[q.seg][q.idx].kind == Link then ResolveLink(r, q) else q
  }

  /** The TD has a terminating (non-chained) TRB. */
  predicate HasEnd(td: seq<Trb>)
  {
    exists i :: 0 <= i < |td| && !td[i].chain
  }

  lemma HasEndTail(td: seq<Trb>)
    requires HasEnd(td) && td[0].chain
    ensures HasEnd(td[1..])
  {
    var i :| 0 <= i < |td| && !td[i].chain;
    assert td[1..][i - 1] == td[i];
  }

  /** Number of TRBs of the TD: up to and including the first TRB whose
      chain bit is clear. */
  function TdLen(td: seq<Trb>): (n: nat)
    requires HasEnd(td)
    ensures 1 <= n <= |td|
    ensures !td[n - 1].chain
    ensures forall i :: 0 <= i < n - 1 ==> td[i].chain
    decreases |td|
  {
    if !td[0].chain then 1
    else
      HasEndTail(td);
      var m := TdLen(td[1..]);
      assert forall i :: 1 <= i < m ==> td[i] == td[1..][i - 1];
      1 + m
  }

  /** A TD the enqueue accepts: it ends, and none of its TRBs is a Link TRB. */
  predicate TdWellFormed(td: seq<Trb>)
  {
    HasEnd(td) && forall i :: 0 <= i < TdLen(td) ==> td[i].kind != Link
  }

  lemma TdWellFormedTail(td: seq<Trb>)
    requires TdWellFormed(td) && td[0].chain
    ensures TdWellFormed(td[1..])
    ensures TdLen(td[1..]) == TdLen(td) - 1
  {
    HasEndTail(td);
    assert forall i :: 0 <= i < |td| - 1 ==> td[1..][i] == td[i + 1];
  }

  /** Some cursor position among the first `m` advances from `p` has the
      physical address `dequeue`. */
  predicate Hits(r: Ring, p: Pos, m: nat)
    requires Valid(r) && InRange(Usable, |r.segments|, p)
  {
    exists i :: 1 <= i <= m && SlotPhys(r.segPhys, Walk(Usable, |r.segments|, p, i)) == r.dequeue
  }

  /** The dry run: advance once per TRB of the TD (resolving links), failing
      as soon as the cursor's address equals the dequeue address. Returns the
      final cursor; nothing is written. */
  function Probe(r: Ring, p: Pos, td: seq<Trb>): Option<Pos>
    requires Valid(r) && InRange(Usable, |r.segments|, p) && HasEnd(td)
    decreases |td|
  {
    var q := Advance(r, p);
    if SlotPhys(r.segPhys, q) == r.dequeue then None
    else if td[0].chain then HasEndTail(td); Probe(r, q, td[1..])
    else Some(q)
  }

  /** The advance crosses the Link TRB of the cursor's segment. */
  predicate CrossesLink(p: Pos)
  {
    p.idx + 1 == Usable
  }

  /** One step of the commit phase: write the TRB with its cycle bit set to
      PCS at the cursor and advance. If the advance lands on a Link TRB, set
      that Link TRB's cycle bit to PCS, toggle PCS if the link carries
      Toggle-Cycle, and resolve the link. */
  function CommitOne(r: Ring, t: Trb): (r': Ring)
    requires Valid(r) && t.kind != Link
    ensures Valid(r')
    ensures r'.segPhys == r.segPhys && r'.dequeue == r.dequeue
    ensures |r'.segments| == |r.segments|
    ensures r'.enqueue == Next(Usable, |r.segments|, r.enqueue)
    ensures SlotAt(r', r.enqueue) == t.(cycle := r.pcs)
    ensures r'.pcs ==
              if CrossesLink(r.enqueue) && r.segments[r.enqueue.seg][LinkIdx].toggleCycle
              then !r.pcs else r.pcs
    ensures CrossesLink(r.enqueue) ==>
              r'.segments[r.enqueue.seg][LinkIdx] == r.segments[r.enqueue.seg][LinkIdx].(cycle := r.pcs)
    ensures forall s, i ::
              (0 <= s < |r.segments| && 0 <= i < SegmentTrbCount && Pos(s, i) != r.enqueue &&
               !(CrossesLink(r.enqueue) && Pos(s, i) == Pos(r.enqueue.seg, LinkIdx))) ==>
              r'.segments[s][i] == r.segments[s][i]
  {
    var p := r.enqueue;
    assert SegmentShape(r.segments[p.seg]);
    var segs1 := WriteSlot(r.segments, p, t.(cycle := r.pcs));
    WriteKeepsLinked(r.segments, r.segPhys, p, t.(cycle := r.pcs));
    var q := Pos(p.seg, p.idx + 1);
    assert SegmentShape(segs1[q.seg]);
    if segs1[q.seg][q.idx].kind == Link then
      var link := segs1[q.seg][q.idx];
      var segs2 := WriteSlot(segs1, q, link.(cycle := r.pcs));
      WriteKeepsLinked(segs1, r.segPhys, q, link.(cycle := r.pcs));
      r.(segments := segs2, enqueue := ResolveLink(r, q),
         pcs := if link.toggleCycle then !r.pcs else r.pcs)
    else
      r.(segments := segs1, enqueue := q)
  }

  /** The commit phase: one `CommitOne` per TRB of the TD. */
  function Commit(r: Ring, td: seq<Trb>): (r': Ring)
    requires Valid(r) && TdWellFormed(td)
    ensures Valid(r')
    ensures r'.segPhys == r.segPhys && r'.dequeue == r.dequeue
    ensures |r'.segments| == |r.segments|
    ensures r'.enqueue == Walk(Usable, |r.segments|, r.enqueue, TdLen(td))
    decreases |td|
  {
    var r1 := CommitOne(r, td[0]);
    if td[0].chain then TdWellFormedTail(td); Commit(r1, td[1..]) else r1
  }

  datatype EnqueueResult = EnqueueResult(status: Errno, ring: Ring, phys: nat)

  /** `xhci_trb_ring_enqueue`: probe, then commit. On EAGAIN the ring is
      left exactly as it was and the reported address is 0; on EOK the
      reported address is that of the slot the first TRB went to. */
  function Enqueue(r: Ring, td: seq<Trb>): (res: EnqueueResult)
    requires Valid(r) && TdWellFormed(td)
    ensures res.status == EOK || res.status == EAGAIN
    ensures res.status == EAGAIN ==> res.ring == r && res.phys == 0
    ensures res.status == EOK ==>
              && Valid(res.ring)
              && res.phys == EnqueuePhys(r)
              && res.ring.dequeue == r.dequeue
              && res.ring.segPhys == r.segPhys
              && |res.ring.segments| == |r.segments|
  {
    match Probe(r, r.enqueue, td)
    case None => EnqueueResult(EAGAIN, r, 0)
    case Some(_) => EnqueueResult(EOK, Commit(r, td), EnqueuePhys(r))
  }

  // ---------------------------------------------------------------------
  // Properties of the probe

  /** The probe fails exactly when one of the cursor positions it visits (one
      advance per TRB of the TD, links resolved) has the dequeue address; on
      success it ends where that many advances lead. */
  lemma {:induction false} ProbeWalk(r: Ring, p: Pos, td: seq<Trb>)
    requires Valid(r) && InRange(Usable, |r.segments|, p) && HasEnd(td)
    ensures Probe(r, p, td).None? <==> Hits(r, p, TdLen(td))
    ensures Probe(r, p, td).Some? ==> Probe(r, p, td).value == Walk(Usable, |r.segments|, p, TdLen(td))
    decreases |td|
  {
    var N := |r.segments|;
    var q := Advance(r, p);
    assert Walk(Usable, N, p, 1) == q;
    if SlotPhys(r.segPhys, q) == r.dequeue {
      assert Hits(r, p, TdLen(td));
    } else if td[0].chain {
      HasEndTail(td);
      ProbeWalk(r, q, td[1..]);
      var m := TdLen(td[1..]);
      assert TdLen(td) == 1 + m;
      forall i | 0 <= i <= m
        ensures Walk(Usable, N, p, i + 1) == Walk(Usable, N, q, i)
      {
      }
      if Hits(r, p, 1 + m) {
        var i :| 1 <= i <= 1 + m && SlotPhys(r.segPhys, Walk(Usable, N, p, i)) == r.dequeue;
        assert i != 1;
        assert SlotPhys(r.segPhys, Walk(Usable, N, q, i - 1)) == r.dequeue;
      }
      if Hits(r, q, m) {
        var i :| 1 <= i <= m && SlotPhys(r.segPhys, Walk(Usable, N, q, i)) == r.dequeue;
        assert SlotPhys(r.segPhys, Walk(Usable, N, p, i + 1)) == r.dequeue;
      }
    } else {
      assert TdLen(td) == 1;
      assert !Hits(r, p, 1);
    }
  }

  /** The enqueue reports EAGAIN exactly when some position the cursor would
      pass through while placing the TD (including positions reached by
      resolving a link) is at the dequeue address. */
  lemma EnqueueFullIff(r: Ring, td: seq<Trb>)
    requires Valid(r) && TdWellFormed(td)
    ensures Enqueue(r, td).status == EAGAIN <==> Hits(r, r.enqueue, TdLen(td))
  {
    ProbeWalk(r, r.enqueue, td);
  }

  /** After a successful enqueue the cursor sits where the TD's advances
      lead, and its address differs from the dequeue address: one slot is
      always kept free between producer and consumer. */
  lemma EnqueueKeepsGap(r: Ring, td: seq<Trb>)
    requires Valid(r) && TdWellFormed(td)
    requires Enqueue(r, td).status == EOK
    ensures Enqueue(r, td).ring.enqueue == Walk(Usable, |r.segments|, r.enqueue, TdLen(td))
    ensures EnqueuePhys(Enqueue(r, td).ring) != r.dequeue
  {
    ProbeWalk(r, r.enqueue, td);
    var n := TdLen(td);
    assert !Hits(r, r.enqueue, n);
    assert SlotPhys(r.segPhys, Walk(Usable, |r.segments|, r.enqueue, n)) != r.dequeue;
  }

  /** The dequeue address is the address of a usable slot of the ring. */
  ghost predicate DequeueOnRing(r: Ring)
    requires Valid(r)
  {
    exists d :: InRange(Usable, |r.segments|, d) && SlotPhys(r.segPhys, d) == r.dequeue
  }

  /** When the dequeue address is a slot of the ring, a TD that would need a
      whole revolution or more is refused, so a successful TD never laps the
      ring. */
  lemma EnqueueNeverLaps(r: Ring, td: seq<Trb>)
    requires Valid(r) && TdWellFormed(td) && DequeueOnRing(r)
    requires Enqueue(r, td).status == EOK
    ensures TdLen(td) < Capacity(r)
  {
    ProbeWalk(r, r.enqueue, td);
    if TdLen(td) >= Capacity(r) {
      var d :| InRange(Usable, |r.segments|, d) && SlotPhys(r.segPhys, d) == r.dequeue;
      var k := WalkCovers(Usable, |r.segments|, r.enqueue, d);
    }
  }

  /** A freshly initialised ring accepts a TD exactly when it has fewer TRBs
      than the segment has usable slots: the cursor may advance up to, but
      not onto, slot 0 where the dequeue address points. */
  lemma InitCapacity(phys: nat, td: seq<Trb>)
    requires phys % PageSize == 0
    requires TdWellFormed(td)
    ensures Init(Allocated(phys)).Ok?
    ensures Enqueue(Init(Allocated(phys)).value, td).status == EOK <==> TdLen(td) < Usable
  {
    var r := Init(Allocated(phys)).value;
    var n := TdLen(td);
    var start := Pos(0, 0);
    EnqueueFullIff(r, td);
    assert Capacity(r) == Usable;
    if n >= Usable {
      WalkRevolution(Usable, 1, start);
      assert SlotPhys(r.segPhys, Walk(Usable, 1, start, Usable)) == r.dequeue;
      assert Hits(r, start, n);
    } else {
      forall i | 1 <= i <= n
        ensures SlotPhys(r.segPhys, Walk(Usable, 1, start, i)) != r.dequeue
      {
        LinWalk(Usable, 1, start, i);
        assert Walk(Usable, 1, start, i).idx == i;
      }
    }
  }

  // ---------------------------------------------------------------------
  // Properties of the commit

  /** The producer cycle state in force when the cursor has made `k`
      advances: with Toggle-Cycle only on the last segment's link, it flips
      when the advances complete a revolution. */
  function PcsAt(r: Ring, k: nat): bool
    requires Valid(r)
  {
    r.pcs != (Lin(Usable, r.enqueue) + k >= Capacity(r))
  }

  /** Slot (s, i) is written by the first `n` commit steps: it is on the
      cursor's path, or it is the Link TRB the path crosses. */
  predicate Touched(r: Ring, n: nat, s: nat, i: nat)
    requires Valid(r)
  {
    exists k :: 0 <= k < n &&
      (Walk(Usable, |r.segments|, r.enqueue, k) == Pos(s, i) ||
       (i == LinkIdx && Walk(Usable, |r.segments|, r.enqueue, k) == Pos(s, Usable - 1)))
  }

  /** TRB k of the TD is at the k-th cursor position, with the cycle bit of
      the PCS in force there. */
  predicate WroteTd(r: Ring, r': Ring, td: seq<Trb>, n: nat)
    requires Valid(r) && Valid(r') && |r'.segments| == |r.segments| && n <= |td|
  {
    forall k :: 0 <= k < n ==>
      SlotAt(r', Walk(Usable, |r.segments|, r.enqueue, k)) == td[k].(cycle := PcsAt(r, k))
  }

  /** Every Link TRB crossed by the first `n` advances got the PCS in force
      before the crossing as its cycle bit, and nothing else changed in it. */
  predicate StampedLinks(r: Ring, r': Ring, n: nat)
    requires Valid(r) && Valid(r') && |r'.segments| == |r.segments|
  {
    forall k :: 0 <= k < n && CrossesLink(Walk(Usable, |r.segments|, r.enqueue, k)) ==>
      r'.segments[Walk(Usable, |r.segments|, r.enqueue, k).seg][LinkIdx] ==
      r.segments[Walk(Usable, |r.segments|, r.enqueue, k).seg][LinkIdx].(cycle := PcsAt(r, k))
  }

  /** No slot outside the ones written by the first `n` steps changed. */
  predicate Untouched(r: Ring, r': Ring, n: nat)
    requires Valid(r) && Valid(r') && |r'.segments| == |r.segments|
  {
    forall s, i :: 0 <= s < |r.segments| && 0 <= i < SegmentTrbCount && !Touched(r, n, s, i) ==>
      r'.segments[s][i] == r.segments[s][i]
  }

  lemma CommitOneKeepsToggle(r: Ring, t: Trb)
    requires Valid(r) && t.kind != Link && ToggleAtEnd(r)
    ensures ToggleAtEnd(CommitOne(r, t))
  {
    var r1 := CommitOne(r, t);
    forall s | 0 <= s < |r.segments|
      ensures r1.segments[s][LinkIdx].toggleCycle == r.segments[s][LinkIdx].toggleCycle
    {
    }
  }

  /** The PCS after one commit step, seen from the next position, is the PCS
      one advance further along from the original position. */
  lemma PcsShift(r: Ring, t: Trb, k: nat)
    requires Valid(r) && t.kind != Link && ToggleAtEnd(r)
    requires k + 1 < Capacity(r)
    ensures PcsAt(CommitOne(r, t), k) == PcsAt(r, k + 1)
  {
    var e := r.enqueue;
    LinNext(Usable, |r.segments|, e);
    LinLast(Usable, |r.segments|, e);
  }

  /** Commit writes the TD's TRBs in order at consecutive cursor positions,
      each with the PCS in force at its write; stamps each crossed Link TRB
      with the PCS before the crossing; toggles PCS when the revolution
      completes; and changes nothing else. */
  lemma {:induction false} CommitSpec(r: Ring, td: seq<Trb>)
    requires Valid(r) && ToggleAtEnd(r) && TdWellFormed(td)
    requires TdLen(td) < Capacity(r)
    ensures ToggleAtEnd(Commit(r, td))
    ensures Commit(r, td).pcs == PcsAt(r, TdLen(td))
    ensures WroteTd(r, Commit(r, td), td, TdLen(td))
    ensures StampedLinks(r, Commit(r, td), TdLen(td))
    ensures Untouched(r, Commit(r, td), TdLen(td))
    decreases |td|
  {
    var N := |r.segments|;
    var e := r.enqueue;
    var n := TdLen(td);
    var r1 := CommitOne(r, td[0]);
    CommitOneKeepsToggle(r, td[0]);
    LinBound(Usable, N, e);
    assert PcsAt(r, 0) == r.pcs;
    assert Walk(Usable, N, e, 0) == e;
    if !td[0].chain {
      assert n == 1;
      PcsShift(r, td[0], 0);
      LinBound(Usable, N, r1.enqueue);
      forall s, i | 0 <= s < N && 0 <= i < SegmentTrbCount && !Touched(r, n, s, i)
        ensures r1.segments[s][i] == r.segments[s][i]
      {
        assert Walk(Usable, N, e, 0) != Pos(s, i);
      }
    } else {
      TdWellFormedTail(td);
      var rest := td[1..];
      CommitSpec(r1, rest);
      var r' := Commit(r1, rest);
      PcsShift(r, td[0], n - 1);
      CommitTailWrote(r, td, r1, r');
      CommitTailStamped(r, r1, r', td[0], n);
      CommitTailUntouched(r, r1, r', td[0], n);
    }
  }

  /** The cursor path after one commit step is the original path shifted by
      one, and it does not come back to the original position within the TD. */
  lemma CommitOnePath(r: Ring, t: Trb, n: nat)
    requires Valid(r) && t.kind != Link
    requires n < Capacity(r)
    ensures forall k :: 0 <= k ==>
              Walk(Usable, |r.segments|, CommitOne(r, t).enqueue, k) == Walk(Usable, |r.segments|, r.enqueue, k + 1)
    ensures forall k :: 1 <= k <= n ==> Walk(Usable, |r.segments|, r.enqueue, k) != r.enqueue
  {
    var N := |r.segments|;
    var e := r.enqueue;
    forall k | 0 <= k
      ensures Walk(Usable, N, e, k + 1) == Walk(Usable, N, CommitOne(r, t).enqueue, k)
    {
    }
    forall k | 1 <= k <= n
      ensures Walk(Usable, N, e, k) != e
    {
      WalkDistinct(Usable, N, e, 0, k);
    }
  }

  /** Induction step of `CommitSpec` for the TD's TRBs. */
  lemma CommitTailWrote(r: Ring, td: seq<Trb>, r1: Ring, r': Ring)
    requires Valid(r) && ToggleAtEnd(r) && TdWellFormed(td) && td[0].chain
    requires TdLen(td) < Capacity(r)
    requires r1 == CommitOne(r, td[0])
    requires TdWellFormed(td[1..]) && TdLen(td[1..]) == TdLen(td) - 1
    requires Valid(r') && |r'.segments| == |r.segments|
    requires WroteTd(r1, r', td[1..], TdLen(td) - 1)
    requires Untouched(r1, r', TdLen(td) - 1)
    ensures WroteTd(r, r', td, TdLen(td))
  {
    var N := |r.segments|;
    var e := r.enqueue;
    var n := TdLen(td);
    CommitOnePath(r, td[0], n - 1);
    LinBound(Usable, N, e);
    assert !Touched(r1, n - 1, e.seg, e.idx);
    forall k | 0 <= k < n
      ensures SlotAt(r', Walk(Usable, N, e, k)) == td[k].(cycle := PcsAt(r, k))
    {
      if k > 0 {
        assert td[1..][k - 1] == td[k];
        PcsShift(r, td[0], k - 1);
        assert Walk(Usable, N, r1.enqueue, k - 1) == Walk(Usable, N, e, k);
      }
    }
  }

  /** Induction step of `CommitSpec` for the crossed Link TRBs. */
  lemma CommitTailStamped(r: Ring, r1: Ring, r': Ring, t: Trb, n: nat)
    requires Valid(r) && ToggleAtEnd(r) && t.kind != Link
    requires 1 <= n < Capacity(r)
    requires r1 == CommitOne(r, t)
    requires Valid(r') && |r'.segments| == |r.segments|
    requires StampedLinks(r1, r', n - 1)
    requires Untouched(r1, r', n - 1)
    ensures StampedLinks(r, r', n)
  {
    var N := |r.segments|;
    var e := r.enqueue;
    CommitOnePath(r, t, n - 1);
    LinBound(Usable, N, e);
    assert CrossesLink(e) ==> !Touched(r1, n - 1, e.seg, LinkIdx);
    forall k | 0 <= k < n && CrossesLink(Walk(Usable, N, e, k))
      ensures r'.segments[Walk(Usable, N, e, k).seg][LinkIdx] ==
              r.segments[Walk(Usable, N, e, k).seg][LinkIdx].(cycle := PcsAt(r, k))
    {
      if k > 0 {
        var s := Walk(Usable, N, e, k).seg;
        assert Walk(Usable, N, r1.enqueue, k - 1) == Walk(Usable, N, e, k);
        assert CrossesLink(e) ==> e.seg != s;
        assert r1.segments[s][LinkIdx] == r.segments[s][LinkIdx];
        PcsShift(r, t, k - 1);
      }
    }
  }

  /** Induction step of `CommitSpec` for the slots left alone. */
  lemma CommitTailUntouched(r: Ring, r1: Ring, r': Ring, t: Trb, n: nat)
    requires Valid(r) && t.kind != Link
    requires 1 <= n < Capacity(r)
    requires r1 == CommitOne(r, t)
    requires Valid(r') && |r'.segments| == |r.segments|
    requires Untouched(r1, r', n - 1)
    ensures Untouched(r, r', n)
  {
    var N := |r.segments|;
    var e := r.enqueue;
    CommitOnePath(r, t, n - 1);
    forall s, i | 0 <= s < N && 0 <= i < SegmentTrbCount && !Touched(r, n, s, i)
      ensures r'.segments[s][i] == r.segments[s][i]
    {
      assert Walk(Usable, N, e, 0) != Pos(s, i);
      assert !Touched(r1, n - 1, s, i) by {
        forall k | 0 <= k < n - 1
          ensures Walk(Usable, N, r1.enqueue, k) != Pos(s, i)
          ensures i == LinkIdx ==> Walk(Usable, N, r1.enqueue, k) != Pos(s, Usable - 1)
        {
          assert Walk(Usable, N, r1.enqueue, k) == Walk(Usable, N, e, k + 1);
        }
      }
    }
  }

  /** What a successful enqueue leaves in the ring, when the dequeue address
      is a slot of the ring: the TD's TRBs at consecutive cursor positions
      with the PCS in force at each write, crossed Link TRBs stamped with the
      PCS before the crossing, PCS toggled exactly when the cursor completes
      a revolution (crosses the Toggle-Cycle link), every other slot
      unchanged. */
  lemma EnqueueWrites(r: Ring, td: seq<Trb>)
    requires Valid(r) && ToggleAtEnd(r) && TdWellFormed(td) && DequeueOnRing(r)
    requires Enqueue(r, td).status == EOK
    ensures ToggleAtEnd(Enqueue(r, td).ring)
    ensures Enqueue(r, td).ring.pcs == PcsAt(r, TdLen(td))
    ensures WroteTd(r, Enqueue(r, td).ring, td, TdLen(td))
    ensures StampedLinks(r, Enqueue(r, td).ring, TdLen(td))
    ensures Untouched(r, Enqueue(r, td).ring, TdLen(td))
  {
    EnqueueNeverLaps(r, td);
    CommitSpec(r, td);
  }
}
