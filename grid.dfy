/**
 * The fixed rail network and the letter grid of `reassignLetters`:
 * 72 cells in 6 rows of 12; rows pair up into three shafts, the even
 * row of a shaft above its trunk track and the odd row below it. Each
 * letter hangs from its track on a 50-unit vertical stem.
 */
module Grid {
  import opened Wrappers
  import opened Geometry
  import opened Network

  /** The three horizontal trunk tracks and the vertical one joining them. */
  const Trunk: seq<Segment> := [
    MakeSegment(40, 90, 960, 90),
    MakeSegment(40, 270, 960, 270),
    MakeSegment(40, 450, 960, 450),
    MakeSegment(500, 90, 500, 450)
  ]

  /**
   * The trunk: three well-formed horizontal tracks from x = 40 to x = 960
   * at heights 90, 270 and 450, and a vertical track at x = 500 that
   * crosses each of them, so every trunk track is reachable from every
   * other.
   */
  lemma TrunkShape()
    ensures |Trunk| == 4 && AllWellFormed(Trunk)
    ensures forall t :: 0 <= t < 3 ==>
              !Vertical(Trunk[t]) && Trunk[t].y1 == 180 * t + 90 && Trunk[t].x1 == 40 && Trunk[t].x2 == 960
    ensures Vertical(Trunk[3]) && Trunk[3].x1 == 500
    ensures forall t :: 0 <= t < 3 ==>
              OnSegment(Trunk[3], Point(500, 180 * t + 90)) && OnSegment(Trunk[t], Point(500, 180 * t + 90))
  {
  }

  function Column(i: nat): nat { i % 12 }
  function Row(i: nat): nat { i / 12 }
  function Shaft(i: nat): nat { Row(i) / 2 }
  /** Odd rows hang below their trunk track. */
  predicate Below(i: nat) { Row(i) % 2 == 1 }

  /**
   * Where grid cell `i` puts its letter: between x = 40 and x = 960 but
   * never on the vertical trunk track, 50 above the height of its shaft's
   * trunk track on an even row and 50 below it on an odd row.
   */
  function Anchor(i: nat): (a: Point)
    ensures 40 <= a.x <= 960 && a.x != 500
    ensures (if Below(i) then a.y - 50 else a.y + 50) == 180 * Shaft(i) + 90
  {
    Point(80 * Column(i) + (if Column(i) < 6 then 40 else 80),
          180 * Shaft(i) + (if Below(i) then 140 else 40))
  }

  /**
   * The stem `Letter` pushes for cell `i`: a well-formed vertical rail of
   * length 50 through the anchor, whose far end is at the height of the
   * shaft's trunk track.
   */
  function Stem(i: nat): (s: Segment)
    ensures WellFormed(s) && Vertical(s) && s.x1 == Anchor(i).x && s.y2 - s.y1 == 50
    ensures OnSegment(s, Anchor(i))
    ensures (if Below(i) then s.y1 else s.y2) == 180 * Shaft(i) + 90
  {
    var a := Anchor(i);
    MakeSegment(a.x, a.y - (if Below(i) then 50 else 0), a.x, a.y + (if Below(i) then 0 else 50))
  }

  /** The 72 stems one pass of `reassignLetters` appends, in cell order. */
  function Stems(): seq<Segment>
  {
    seq(72, i requires 0 <= i => Stem(i))
  }

  /** The rail list holds every stem. */
  predicate HoldsStems(segs: seq<Segment>)
  {
    forall s :: s in Stems() ==> s in segs
  }

  /** A placed symbol. */
  datatype Letter = Letter(ch: char, at: Point)

  /** The letters `reassignLetters` builds from the shuffled catalogue. */
  function Layout(shuffled: seq<char>): seq<Letter>
    requires |shuffled| == 72
  {
    seq(72, i requires 0 <= i < 72 => Letter(shuffled[i], Anchor(i)))
  }

  /** Letter `i` of a layout carries the `i`-th shuffled symbol and sits on the stem pushed with it. */
  lemma LetterOnStem(shuffled: seq<char>, i: nat)
    requires |shuffled| == 72 && i < 72
    ensures |Layout(shuffled)| == 72
    ensures Layout(shuffled)[i].ch == shuffled[i] && OnSegment(Stems()[i], Layout(shuffled)[i].at)
  {
  }

  /** Anchors lie in x in [40, 960], never on the vertical trunk at x = 500, and on six rows. */
  lemma AnchorBounds(i: nat)
    requires i < 72
    ensures 40 <= Anchor(i).x <= 960 && Anchor(i).x != 500
    ensures Anchor(i).y in {40, 140, 220, 320, 400, 500}
    ensures Shaft(i) < 3
  {
  }

  /** Row heights are at least 80 apart. */
  lemma RowsApart(i: nat, j: nat)
    requires i < 72 && j < 72 && Row(i) < Row(j)
    ensures Anchor(j).y - Anchor(i).y >= 80
  {
  }

  /** Column positions are at least 80 apart. */
  lemma ColumnsApart(i: nat, j: nat)
    requires Column(i) < Column(j)
    ensures Anchor(j).x - Anchor(i).x >= 80
  {
  }

  /** Two different cells differ by at least 80 in x or in y. */
  lemma AnchorsSeparated(i: nat, j: nat)
    requires i < 72 && j < 72 && i != j
    ensures Anchor(i).x - Anchor(j).x >= 80 || Anchor(j).x - Anchor(i).x >= 80
         || Anchor(i).y - Anchor(j).y >= 80 || Anchor(j).y - Anchor(i).y >= 80
  {
    if Column(i) < Column(j) {
      ColumnsApart(i, j);
    } else if Column(j) < Column(i) {
      ColumnsApart(j, i);
    } else {
      assert Row(i) != Row(j) by {
        assert i == 12 * Row(i) + Column(i) && j == 12 * Row(j) + Column(j);
      }
      if Row(i) < Row(j) {
        RowsApart(i, j);
      } else {
        RowsApart(j, i);
      }
    }
  }

  /** A gap of 80 on one axis makes a squared distance of at least 80 * 80. */
  lemma AxisGapBoundsDistance(a: Point, b: Point)
    requires a.x - b.x >= 80 || b.x - a.x >= 80 || a.y - b.y >= 80 || b.y - a.y >= 80
    ensures Dist2(a, b) >= 80 * 80
  {
    var dx, dy := a.x - b.x, a.y - b.y;
    assert dx * dx >= 0 && dy * dy >= 0;
    if dx >= 80 { SquareMonotone(80, dx); }
    else if -dx >= 80 { SquareMonotone(80, -dx); }
    else if dy >= 80 { SquareMonotone(80, dy); }
    else { SquareMonotone(80, -dy); }
  }

  /** Anchors of different cells are at least 80 apart. */
  lemma AnchorsApart(i: nat, j: nat)
    requires i < 72 && j < 72 && i != j
    ensures Dist2(Anchor(i), Anchor(j)) >= 80 * 80
  {
    AnchorsSeparated(i, j);
    AxisGapBoundsDistance(Anchor(i), Anchor(j));
  }

  /**
   * The stem of cell `i` is a vertical, well-formed 50-unit rail through
   * the anchor whose far end lies on the trunk track of the cell's shaft.
   */
  lemma StemMeetsTrunk(i: nat)
    requires i < 72
    ensures WellFormed(Stem(i)) && Vertical(Stem(i)) && Stem(i).y2 - Stem(i).y1 == 50
    ensures OnSegment(Stem(i), Anchor(i))
    ensures Shaft(i) < 3
    ensures OnSegment(Trunk[Shaft(i)], Point(Stem(i).x1, if Below(i) then Stem(i).y1 else Stem(i).y2))
  {
    AnchorBounds(i);
  }

  /** The selection test of `mouseUp`: the stick is closer than 10 to the letter. */
  predicate Within(l: Letter, p: Point)
  {
    Dist2(p, l.at) < 10 * 10
  }

  /** The scan of `mouseUp`: the first letter within reach, or none (the page script's `""`). */
  function FirstWithin(ls: seq<Letter>, p: Point): (r: Option<char>)
    ensures r == None <==> forall j :: 0 <= j < |ls| ==> !Within(ls[j], p)
    ensures r != None ==> exists i :: 0 <= i < |ls| && Within(ls[i], p) && r == Some(ls[i].ch)
                                   && forall j :: 0 <= j < i ==> !Within(ls[j], p)
  {
    if ls == [] then None
    else if Within(ls[0], p) then Some(ls[0].ch)
    else FirstWithin(ls[1..], p)
  }

  /** The scan picks the first letter within reach. */
  lemma {:induction false} FirstWithinFindsFirst(ls: seq<Letter>, p: Point, i: nat)
    requires i < |ls| && Within(ls[i], p)
    requires forall j :: 0 <= j < i ==> !Within(ls[j], p)
    ensures FirstWithin(ls, p) == Some(ls[i].ch)
  {
    if i > 0 {
      FirstWithinFindsFirst(ls[1..], p, i - 1);
    }
  }

  /** A squared difference below 100 means the coordinates are less than 10 apart. */
  lemma CloseCoordinates(d: int)
    requires d * d < 100
    ensures -10 < d < 10
  {
    if d >= 10 {
      SquareMonotone(10, d);
    } else if d <= -10 {
      SquareMonotone(10, -d);
    }
  }

  /** Within reach means less than 10 apart on each axis. */
  lemma WithinReachPerAxis(p: Point, a: Point)
    requires Dist2(p, a) < 10 * 10
    ensures -10 < p.x - a.x < 10 && -10 < p.y - a.y < 10
  {
    var dx, dy := p.x - a.x, p.y - a.y;
    assert dx * dx >= 0 && dy * dy >= 0;
    CloseCoordinates(dx);
    CloseCoordinates(dy);
  }

  /** No point is within reach of two different cells. */
  lemma AtMostOneWithin(p: Point, i: nat, j: nat)
    requires i < 72 && j < 72 && i != j
    ensures !(Dist2(p, Anchor(i)) < 100 && Dist2(p, Anchor(j)) < 100)
  {
    if Dist2(p, Anchor(i)) < 100 && Dist2(p, Anchor(j)) < 100 {
      WithinReachPerAxis(p, Anchor(i));
      WithinReachPerAxis(p, Anchor(j));
      AnchorsSeparated(i, j);
    }
  }

  /** On the grid, releasing within reach of a letter selects that letter and no other. */
  lemma LayoutSelects(shuffled: seq<char>, p: Point, i: nat)
    requires |shuffled| == 72 && i < 72
    requires Dist2(p, Anchor(i)) < 100
    ensures FirstWithin(Layout(shuffled), p) == Some(shuffled[i])
  {
    var ls := Layout(shuffled);
    assert ls[i] == Letter(shuffled[i], Anchor(i));
    forall j | 0 <= j < i
      ensures !Within(ls[j], p)
    {
      assert ls[j].at == Anchor(j);
      AtMostOneWithin(p, i, j);
    }
    FirstWithinFindsFirst(ls, p, i);
  }
}
