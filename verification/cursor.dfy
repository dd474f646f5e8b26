/** Cursors over a circular list of equally sized segments.

    A cursor is a (segment, slot) pair. Stepping moves to the next slot and,
    past the last usable slot of a segment, to slot 0 of the next segment in
    list order, wrapping from the last segment to the first. `w` is the
    number of usable slots per segment and `n` the number of segments.

    The linear index `Lin` numbers the `w * n` positions in traversal order;
    the lemmas here show that one step is "+1, wrapping at w * n", so a walk
    visits every position exactly once per revolution. */
module Cursor {

  datatype Pos = Pos(seg: nat, idx: nat)

  predicate InRange(w: nat, n: nat, p: Pos)
  {
    p.seg < n && p.idx < w
  }

  /** The segment that follows `s` in list order, wrapping to the first. */
  function NextSeg(n: nat, s: nat): (t: nat)
    requires s < n
    ensures t < n
    ensures t == 0 || t == s + 1
  {
    if s + 1 < n then s + 1 else 0
  }

  /** One step of a cursor. */
  function Next(w: nat, n: nat, p: Pos): (q: Pos)
    requires InRange(w, n, p)
    ensures InRange(w, n, q)
  {
    if p.idx + 1 < w then Pos(p.seg, p.idx + 1) else Pos(NextSeg(n, p.seg), 0)
  }

  /** The position reached after `m` steps from `p`. */
  function Walk(w: nat, n: nat, p: Pos, m: nat): (q: Pos)
    requires InRange(w, n, p)
    ensures InRange(w, n, q)
    decreases m
  {
    if m == 0 then p else Walk(w, n, Next(w, n, p), m - 1)
  }

  /** Linear index of a position in traversal order. */
  function Lin(w: nat, p: Pos): nat
  {
    p.seg * w + p.idx
  }

  /** Number of positions in one revolution. */
  function Span(w: nat, n: nat): nat
  {
    n * w
  }

  lemma MulStep(a: nat, w: nat)
    ensures (a + 1) * w == a * w + w
  {
  }

  lemma MulMono(a: nat, b: nat, w: nat)
    requires a <= b
    ensures a * w <= b * w
  {
    var d := b - a;
    assert b * w == a * w + d * w;
  }

  /** Every in-range position has a linear index below the span. */
  lemma LinBound(w: nat, n: nat, p: Pos)
    requires InRange(w, n, p)
    ensures Lin(w, p) < Span(w, n)
  {
    MulStep(p.seg, w);
    MulMono(p.seg + 1, n, w);
  }

  /** Distinct in-range positions have distinct linear indices. */
  lemma LinInjective(w: nat, n: nat, p: Pos, q: Pos)
    requires InRange(w, n, p) && InRange(w, n, q)
    requires Lin(w, p) == Lin(w, q)
    ensures p == q
  {
    if p.seg < q.seg {
      MulStep(p.seg, w);
      MulMono(p.seg + 1, q.seg, w);
      assert false;
    } else if q.seg < p.seg {
      MulStep(q.seg, w);
      MulMono(q.seg + 1, p.seg, w);
      assert false;
    }
  }

  /** One step adds one to the linear index, wrapping to 0 after the last
      position of the last segment. */
  lemma LinNext(w: nat, n: nat, p: Pos)
    requires InRange(w, n, p)
    ensures Lin(w, Next(w, n, p)) == if Lin(w, p) + 1 < Span(w, n) then Lin(w, p) + 1 else 0
  {
    LinBound(w, n, p);
    MulStep(p.seg, w);
    var l := Lin(w, p);
    if p.idx + 1 < w {
      assert Lin(w, Next(w, n, p)) == l + 1;
    } else if p.seg + 1 < n {
      assert Next(w, n, p) == Pos(p.seg + 1, 0);
      assert l + 1 == (p.seg + 1) * w;
      MulStep(p.seg + 1, w);
      MulMono(p.seg + 2, n, w);
      assert l + 1 < Span(w, n);
    } else {
      assert l + 1 == n * w;
    }
  }

  /** The last position of the last segment is the only one whose linear
      index is one below the span. */
  lemma LinLast(w: nat, n: nat, p: Pos)
    requires InRange(w, n, p)
    ensures Lin(w, p) + 1 == Span(w, n) <==> p.idx + 1 == w && p.seg + 1 == n
  {
    LinBound(w, n, p);
    MulStep(p.seg, w);
    if p.seg + 1 < n {
      MulMono(p.seg + 1, n - 1, w);
      MulStep(n - 1, w);
    }
  }

  /** Walking `m <= Span` steps adds `m` to the linear index, wrapping at
      most once. */
  lemma {:induction false} LinWalk(w: nat, n: nat, p: Pos, m: nat)
    requires InRange(w, n, p)
    requires m <= Span(w, n)
    ensures Lin(w, Walk(w, n, p, m)) ==
            if Lin(w, p) + m < Span(w, n) then Lin(w, p) + m else Lin(w, p) + m - Span(w, n)
    decreases m
  {
    LinBound(w, n, p);
    if m > 0 {
      var q := Next(w, n, p);
      LinNext(w, n, p);
      LinWalk(w, n, q, m - 1);
    }
  }

  /** Walking one more step is one more `Next`. */
  lemma {:induction false} WalkSucc(w: nat, n: nat, p: Pos, m: nat)
    requires InRange(w, n, p)
    ensures Walk(w, n, p, m + 1) == Next(w, n, Walk(w, n, p, m))
    decreases m
  {
    if m > 0 {
      WalkSucc(w, n, Next(w, n, p), m - 1);
    }
  }

  /** Within one revolution a walk never revisits a position. */
  lemma WalkDistinct(w: nat, n: nat, p: Pos, i: nat, j: nat)
    requires InRange(w, n, p)
    requires i < j <= Span(w, n) && j - i < Span(w, n)
    ensures Walk(w, n, p, i) != Walk(w, n, p, j)
  {
    LinWalk(w, n, p, i);
    LinWalk(w, n, p, j);
  }

  /** A full revolution returns to the starting position. */
  lemma WalkRevolution(w: nat, n: nat, p: Pos)
    requires InRange(w, n, p)
    ensures Walk(w, n, p, Span(w, n)) == p
  {
    LinBound(w, n, p);
    LinWalk(w, n, p, Span(w, n));
    LinInjective(w, n, p, Walk(w, n, p, Span(w, n)));
  }

  /** Every in-range position is reached within one revolution, after at
      least one step. */
  lemma WalkCovers(w: nat, n: nat, p: Pos, d: Pos) returns (k: nat)
    requires InRange(w, n, p) && InRange(w, n, d)
    ensures 1 <= k <= Span(w, n)
    ensures Walk(w, n, p, k) == d
  {
    LinBound(w, n, p);
    LinBound(w, n, d);
    if Lin(w, d) > Lin(w, p) {
      k := Lin(w, d) - Lin(w, p);
    } else {
      k := Lin(w, d) + Span(w, n) - Lin(w, p);
    }
    LinWalk(w, n, p, k);
    LinInjective(w, n, Walk(w, n, p, k), d);
  }
}
