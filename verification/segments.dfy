/** Ring segments: page-sized blocks of TRB slots with a physical base
    address, and the physical address of a slot. */
module Segments {
  import opened Trbs
  import opened Cursor

  const PageSize: nat := 4096

  /** The segment header (a list link of two pointers and the physical
      address) on a 64-bit target. */
  const SegmentHeaderSize: nat := 24

  /** Number of TRB slots in one segment. */
  const SegmentTrbCount: nat := (PageSize - SegmentHeaderSize) / TrbSize

  /** Segment bases are page aligned and pairwise distinct, as the DMA
      allocator hands out distinct pages. */
  predicate PhysLayout(segPhys: seq<nat>)
  {
    && (forall s :: 0 <= s < |segPhys| ==> segPhys[s] % PageSize == 0)
    && (forall s, t :: 0 <= s < t < |segPhys| ==> segPhys[s] != segPhys[t])
  }

  /** Physical address of slot `p.idx` of segment `p.seg`: the segment base
      plus the slot index times the TRB size. */
  function SlotPhys(segPhys: seq<nat>, p: Pos): nat
    requires p.seg < |segPhys|
  {
    segPhys[p.seg] + TrbSize * p.idx
  }

  /** Two slots have the same physical address exactly when they are the
      same slot: addresses identify positions. */
  lemma SlotPhysInjective(segPhys: seq<nat>, p: Pos, q: Pos)
    requires PhysLayout(segPhys)
    requires InRange(SegmentTrbCount, |segPhys|, p) && InRange(SegmentTrbCount, |segPhys|, q)
    ensures SlotPhys(segPhys, p) == SlotPhys(segPhys, q) <==> p == q
  {
  }

  /** The segments with slot `p` overwritten by `t`. */
  function WriteSlot(segs: seq<seq<Trb>>, p: Pos, t: Trb): (segs': seq<seq<Trb>>)
    requires p.seg < |segs| && p.idx < |segs[p.seg]|
    ensures |segs'| == |segs|
    ensures forall s :: 0 <= s < |segs| ==> |segs'[s]| == |segs[s]|
    ensures segs'[p.seg][p.idx] == t
    ensures forall s, i :: 0 <= s < |segs| && 0 <= i < |segs[s]| && Pos(s, i) != p ==>
              segs'[s][i] == segs[s][i]
  {
    segs[p.seg := segs[p.seg][p.idx := t]]
  }
}
