/**
 * Points, the clamp helper and the rail segments of the board.
 * GearBoard's `main.js` compares Euclidean distances; since the square root is
 * monotone, every comparison `distance < r` is modelled as
 * `Dist2 < r * r` on squared distances.
 */
module Geometry {

  datatype Point = Point(x: int, y: int)

  /** Squared Euclidean distance: zero exactly when the points coincide. */
  function Dist2(a: Point, b: Point): (d: int)
    ensures d >= 0
    ensures d == 0 <==> a == b
  {
    (a.x - b.x) * (a.x - b.x) + (a.y - b.y) * (a.y - b.y)
  }

  /** Squares grow with the magnitude of a non-negative base. */
  lemma SquareMonotone(a: int, b: int)
    requires 0 <= a <= b
    ensures a * a <= b * b
  {
    assert a * a <= a * b;
    assert a * b <= b * b;
  }

  function Min(a: int, b: int): int { if a <= b then a else b }
  function Max(a: int, b: int): int { if a >= b then a else b }

  /** `Math.min(max, Math.max(min, val))`; an empty interval yields its upper end. */
  function Clamp(val: int, lo: int, hi: int): (r: int)
    ensures r <= hi
    ensures lo <= hi ==> lo <= r
    ensures lo <= val <= hi ==> r == val
    ensures hi < lo ==> r == hi
  {
    Min(hi, Max(lo, val))
  }

  /** Over a proper interval, the clamped value is the interval's point nearest to `val`. */
  lemma ClampIsNearest(val: int, lo: int, hi: int, t: int)
    requires lo <= t <= hi
    ensures (val - Clamp(val, lo, hi)) * (val - Clamp(val, lo, hi)) <= (val - t) * (val - t)
  {
    if val < lo {
      SquareMonotone(lo - val, t - val);
    } else if val > hi {
      SquareMonotone(val - hi, val - t);
    }
  }

  /** A rail: the page script only ever builds horizontal or vertical ones. */
  datatype Segment = Segment(x1: int, y1: int, x2: int, y2: int)

  /** The `Segment` constructor: stores the smaller coordinate of each axis first. */
  function MakeSegment(px: int, py: int, qx: int, qy: int): (s: Segment)
    ensures s.x1 <= s.x2 && s.y1 <= s.y2
    ensures multiset{s.x1, s.x2} == multiset{px, qx}
    ensures multiset{s.y1, s.y2} == multiset{py, qy}
  {
    Segment(Min(px, qx), Min(py, qy), Max(px, qx), Max(py, qy))
  }

  /** The constructor depends neither on the order of the end points nor of each axis's pair. */
  lemma MakeSegmentIgnoresOrder(px: int, py: int, qx: int, qy: int)
    ensures MakeSegment(px, py, qx, qy) == MakeSegment(qx, qy, px, py)
    ensures MakeSegment(px, py, qx, qy) == MakeSegment(qx, py, px, qy)
  {
  }

  predicate Normalized(s: Segment) { s.x1 <= s.x2 && s.y1 <= s.y2 }

  /** The test `getClosestPoint` uses to treat a segment as vertical. */
  predicate Vertical(s: Segment) { s.x1 == s.x2 }

  /** What the page script assumes without checking: normalized and axis-aligned. */
  predicate WellFormed(s: Segment) { Normalized(s) && (s.x1 == s.x2 || s.y1 == s.y2) }

  /** `p` lies in the bounding box of `s`; for a well-formed segment that box is the segment. */
  predicate OnSegment(s: Segment, p: Point) { s.x1 <= p.x <= s.x2 && s.y1 <= p.y <= s.y2 }

  /** `getClosestPoint`: project onto the segment along its fixed coordinate. */
  function ClosestPoint(s: Segment, p: Point): (q: Point)
    ensures Normalized(s) ==> OnSegment(s, q)
    ensures Vertical(s) ==> q.x == s.x1
    ensures !Vertical(s) ==> q.y == s.y1
    ensures WellFormed(s) && OnSegment(s, p) ==> q == p
  {
    if s.x1 == s.x2 then Point(s.x1, Clamp(p.y, s.y1, s.y2))
    else Point(Clamp(p.x, s.x1, s.x2), s.y1)
  }

  /** On a well-formed segment, no point is closer to `p` than its projection. */
  lemma ClosestPointIsNearest(s: Segment, p: Point, r: Point)
    requires WellFormed(s) && OnSegment(s, r)
    ensures Dist2(p, ClosestPoint(s, p)) <= Dist2(p, r)
  {
    if Vertical(s) {
      ClampIsNearest(p.y, s.y1, s.y2, r.y);
    } else {
      ClampIsNearest(p.x, s.x1, s.x2, r.x);
    }
  }
}
