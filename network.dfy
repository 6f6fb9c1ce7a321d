/**
 * The nearest-point search over the ordered segment list that
 * `Stick.moveToClosestPoint` performs: a running minimum with a strict
 * `<`, so the earliest segment wins a tie.
 */
module Network {
  import opened Geometry

  /** Squared distance from `p` to its projection on `s`. */
  function Gap(s: Segment, p: Point): int
  {
    Dist2(p, ClosestPoint(s, p))
  }

  /** Every segment of the list satisfies what the page script assumes of rails. */
  predicate AllWellFormed(segs: seq<Segment>)
  {
    forall i :: 0 <= i < |segs| ==> WellFormed(segs[i])
  }

  /** `p` is a point of the network. */
  predicate OnNetwork(segs: seq<Segment>, p: Point)
  {
    exists i :: 0 <= i < |segs| && OnSegment(segs[i], p)
  }

  /**
   * Index of the segment the scan settles on: it has the least gap, and
   * every earlier segment has a strictly larger one.
   */
  function Nearest(segs: seq<Segment>, p: Point): (k: nat)
    requires |segs| > 0
    ensures k < |segs|
    ensures forall j :: 0 <= j < |segs| ==> Gap(segs[k], p) <= Gap(segs[j], p)
    ensures forall j :: 0 <= j < k ==> Gap(segs[k], p) < Gap(segs[j], p)
    decreases |segs|
  {
    if |segs| == 1 then 0
    else
      var k := Nearest(segs[..|segs| - 1], p);
      if Gap(segs[|segs| - 1], p) < Gap(segs[k], p) then |segs| - 1 else k
  }

  /** The two properties of `Nearest` single out one index. */
  lemma NearestIsUnique(segs: seq<Segment>, p: Point, k: nat)
    requires k < |segs|
    requires forall j :: 0 <= j < |segs| ==> Gap(segs[k], p) <= Gap(segs[j], p)
    requires forall j :: 0 <= j < k ==> Gap(segs[k], p) < Gap(segs[j], p)
    ensures Nearest(segs, p) == k
  {
  }

  /** Where the stick lands: the projection on the segment the scan picks. */
  function NearestPoint(segs: seq<Segment>, p: Point): (q: Point)
    requires |segs| > 0
    ensures AllWellFormed(segs) ==> OnNetwork(segs, q)
  {
    ClosestPoint(segs[Nearest(segs, p)], p)
  }

  /** No point of a well-formed network is closer to `p` than `NearestPoint`. */
  lemma NearestPointIsClosest(segs: seq<Segment>, p: Point, j: nat, r: Point)
    requires j < |segs| && WellFormed(segs[j]) && OnSegment(segs[j], r)
    ensures Dist2(p, NearestPoint(segs, p)) <= Dist2(p, r)
  {
    ClosestPointIsNearest(segs[j], p, r);
  }

  /** A point already on the network is its own nearest point, at distance zero. */
  lemma NearestPointFixesNetworkPoints(segs: seq<Segment>, p: Point)
    requires AllWellFormed(segs) && OnNetwork(segs, p)
    ensures |segs| > 0 && NearestPoint(segs, p) == p
  {
    var j :| 0 <= j < |segs| && OnSegment(segs[j], p);
    NearestPointIsClosest(segs, p, j, p);
  }

  /** Appending one segment that is already in the list keeps the scan's choice. */
  lemma NearestAppendDuplicate(segs: seq<Segment>, e: Segment, p: Point)
    requires |segs| > 0 && e in segs
    ensures Nearest(segs + [e], p) == Nearest(segs, p)
  {
    var all := segs + [e];
    assert all[..|all| - 1] == segs;
    var m :| 0 <= m < |segs| && segs[m] == e;
    assert Gap(segs[Nearest(segs, p)], p) <= Gap(segs[m], p);
  }

  /** Appending segments that are already in the list never changes the chosen index. */
  lemma {:induction false} NearestIndexIgnoresDuplicates(segs: seq<Segment>, extra: seq<Segment>, p: Point)
    requires |segs| > 0
    requires forall e :: e in extra ==> e in segs
    ensures Nearest(segs + extra, p) == Nearest(segs, p)
    decreases |extra|
  {
    if extra != [] {
      var init, last := extra[..|extra| - 1], extra[|extra| - 1];
      assert extra == init + [last];
      assert forall e :: e in init ==> e in extra;
      NearestIndexIgnoresDuplicates(segs, init, p);
      assert last in segs;
      NearestAppendDuplicate(segs + init, last, p);
      assert segs + extra == (segs + init) + [last];
    } else {
      assert segs + extra == segs;
    }
  }

  /** Appending segments that are already in the list never moves the landing point. */
  lemma NearestIgnoresDuplicates(segs: seq<Segment>, extra: seq<Segment>, p: Point)
    requires |segs| > 0
    requires forall e :: e in extra ==> e in segs
    ensures Nearest(segs + extra, p) == Nearest(segs, p)
    ensures NearestPoint(segs + extra, p) == NearestPoint(segs, p)
  {
    NearestIndexIgnoresDuplicates(segs, extra, p);
    var n := Nearest(segs, p);
    assert (segs + extra)[n] == segs[n];
  }

  /** One more step of the scan: the next segment wins only with a strictly smaller gap. */
  lemma NearestExtend(segs: seq<Segment>, p: Point, i: nat)
    requires 0 < i < |segs|
    ensures Nearest(segs[..i + 1], p)
         == if Gap(segs[i], p) < Gap(segs[Nearest(segs[..i], p)], p) then i else Nearest(segs[..i], p)
  {
    assert segs[..i + 1][..i] == segs[..i];
  }

  /**
   * The scan loop of `moveToClosestPoint`. `found` stands for
   * `leastDistance` no longer being `Infinity`.
   */
  method ClosestOnNetwork(segs: seq<Segment>, p: Point) returns (q: Point, least: int)
    requires |segs| > 0
    ensures q == NearestPoint(segs, p)
    ensures least == Dist2(p, q)
  {
    var found := false;
    var k := 0;
    q, least := Point(0, 0), 0;
    for i := 0 to |segs|
      invariant found <==> i > 0
      invariant found ==> k < i && k == Nearest(segs[..i], p)
      invariant found ==> q == ClosestPoint(segs[k], p) && least == Gap(segs[k], p)
    {
      var candidate := ClosestPoint(segs[i], p);
      var dist := Dist2(p, candidate);
      if i > 0 {
        NearestExtend(segs, p, i);
      }
      if !found || dist < least {
        k, q, least := i, candidate, dist;
        found := true;
      }
    }
    assert segs[..|segs|] == segs;
  }
}
