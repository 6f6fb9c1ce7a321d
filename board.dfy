/**
 * The page's global state as one session object: the stick, the drag
 * flag, the pending selection, the written text, the growing rail list
 * and the current letters, with the four event handlers.
 */
module Board {
  import opened Wrappers
  import opened Geometry
  import opened Network
  import opened Shuffle
  import opened Grid
  import opened Buffer

  /** `Stick.prototype.radius`: a press must land closer than this to the stick. */
  const StickRadius: int := 20
  /** Extra reach a drag movement is allowed beyond the stick's radius. */
  const DragMargin: int := 5

  /**
   * The rails start with the trunk and hold every stem, all well formed;
   * the letters are the grid layout of 72 symbols.
   */
  predicate Consistent(segments: seq<Segment>, shuffled: seq<char>, letters: seq<Letter>)
  {
    && |segments| >= 4 && segments[..4] == Trunk
    && AllWellFormed(segments)
    && HoldsStems(segments)
    && |shuffled| == 72
    && letters == Layout(shuffled)
  }

  class Session {
    var stick: Point
    var isDragging: bool
    var selected: Option<char>
    var written: string
    var segments: seq<Segment>
    var shuffled: seq<char>
    var letters: seq<Letter>

    /** Rails and letters are consistent and the stick lies on a rail. */
    ghost predicate Valid()
      reads this
    {
      Consistent(segments, shuffled, letters) && OnNetwork(segments, stick)
    }

    /** The page's start-up: rails, a first shuffle, letters, an empty buffer, the stick at (40, 40). */
    constructor (draws: seq<nat>)
      requires ValidDraws(72, draws)
      ensures Valid()
      ensures segments == Trunk + Stems()
      ensures shuffled == Shuffled(Catalog, draws) && letters == Layout(shuffled)
      ensures written == [] && selected == Some(shuffled[0])
      ensures stick == Point(40, 40) && !isDragging
    {
      var chars := PrepareLetters(draws);
      shuffled := chars;
      segments := Trunk;
      letters := [];
      written := [];
      selected := None;
      stick := Point(40, 40);
      isDragging := false;
      new;
      ReassignLetters();
      selected := Some(letters[0].ch);
      ConsistentAfterReassign(Trunk, shuffled);
      assert segments[4] == Stem(0);
      assert OnSegment(segments[4], stick);
    }

    /** `reassignLetters`: lay out the shuffled symbols; each `Letter` also pushes its stem. */
    method ReassignLetters()
      requires |shuffled| == 72
      modifies this`letters, this`segments
      ensures letters == Layout(shuffled)
      ensures segments == old(segments) + Stems()
    {
      letters := [];
      assert |Stems()| == 72;
      for i := 0 to 72
        invariant |letters| == i
        invariant forall k :: 0 <= k < i ==> letters[k] == Letter(shuffled[k], Anchor(k))
        invariant segments == old(segments) + Stems()[..i]
      {
        letters := letters + [Letter(shuffled[i], Anchor(i))];
        segments := segments + [Stem(i)];
        assert Stems()[..i + 1] == Stems()[..i] + [Stem(i)];
      }
      assert Stems()[..72] == Stems();
    }

    /**
     * `moveToClosestPoint`: the stick goes to the nearest rail point. A
     * background restore is requested exactly when the pointer `p` is off
     * the rails, that is, when the stick does not end up at `p`; whether
     * the stick left its old place plays no part.
     */
    method MoveToClosestPoint(p: Point) returns (redraw: bool)
      requires Valid()
      modifies this`stick
      ensures Valid()
      ensures stick == NearestPoint(segments, p)
      ensures redraw <==> stick != p
    {
      var q, least := ClosestOnNetwork(segments, p);
      stick := q;
      redraw := least > 0;
    }

    /** `mouseDown`: a press closer than the radius starts a drag and moves the stick. */
    method MouseDown(p: Point) returns (redraw: bool)
      requires Valid()
      modifies this`stick, this`isDragging
      ensures Valid()
      ensures if Dist2(p, old(stick)) < StickRadius * StickRadius
              then isDragging && stick == NearestPoint(segments, p) && (redraw <==> stick != p)
              else isDragging == old(isDragging) && stick == old(stick) && !redraw
      ensures p == old(stick) ==> stick == old(stick) && !redraw
    {
      redraw := false;
      if Dist2(p, stick) < StickRadius * StickRadius {
        isDragging := true;
        NearestPointFixesNetworkPoints(segments, stick);
        redraw := MoveToClosestPoint(p);
      }
    }

    /** `mouseMove`: while dragging, a pointer within radius plus margin moves the stick. */
    method MouseMove(p: Point) returns (redraw: bool)
      requires Valid()
      modifies this`stick
      ensures Valid()
      ensures if old(isDragging) && Dist2(p, old(stick)) < (StickRadius + DragMargin) * (StickRadius + DragMargin)
              then stick == NearestPoint(segments, p) && (redraw <==> stick != p)
              else stick == old(stick) && !redraw
    {
      redraw := false;
      if isDragging {
        if Dist2(p, stick) < (StickRadius + DragMargin) * (StickRadius + DragMargin) {
          redraw := MoveToClosestPoint(p);
        }
      }
    }

    /**
     * `mouseUp`: the drag ends, whether or not one was active, and the
     * selection becomes the first letter within reach of the stick.
     */
    method MouseUp()
      requires Valid()
      modifies this`isDragging, this`selected
      ensures Valid() && !isDragging
      ensures selected == FirstWithin(letters, stick)
      ensures selected == None <==> forall i :: 0 <= i < |letters| ==> !Within(letters[i], stick)
      ensures forall i :: 0 <= i < 72 && Within(letters[i], stick) ==> selected == Some(shuffled[i])
    {
      if isDragging {
        isDragging := false;
      }
      forall i | 0 <= i < 72 && Within(letters[i], stick)
        ensures FirstWithin(letters, stick) == Some(shuffled[i])
      {
        LayoutSelects(shuffled, stick, i);
      }
      for i := 0 to |letters|
        invariant FirstWithin(letters[i..], stick) == FirstWithin(letters, stick)
      {
        assert letters[i..][1..] == letters[i + 1..];
        if Dist2(stick, letters[i].at) < 10 * 10 {
          selected := Some(letters[i].ch);
          return;
        }
      }
      selected := None;
    }

    /**
     * `typeSelected`: reshuffle and lay out the letters again (appending
     * another copy of the stems), then apply the pending selection to the
     * buffer. The selection itself is kept.
     */
    method TypeSelected(draws: seq<nat>) returns (emitted: Option<string>, display: Option<string>)
      requires Valid() && ValidDraws(72, draws)
      modifies this`shuffled, this`letters, this`segments, this`written
      ensures Valid()
      ensures shuffled == Shuffled(Catalog, draws) && letters == Layout(shuffled)
      ensures segments == old(segments) + Stems()
      ensures forall p :: NearestPoint(segments, p) == NearestPoint(old(segments), p)
      ensures Outcome(written, emitted, display) == Apply(old(written), selected)
      ensures selected == old(selected) && stick == old(stick)
    {
      ghost var j :| 0 <= j < |segments| && OnSegment(segments[j], stick);
      ghost var before := segments;
      shuffled := PrepareLetters(draws);
      ReassignLetters();
      ConsistentAfterReassign(before, shuffled);
      assert segments[j] == before[j];
      forall p
        ensures NearestPoint(segments, p) == NearestPoint(before, p)
      {
        NearestIgnoresDuplicates(before, Stems(), p);
      }
      emitted, display := None, None;
      match selected {
        case None =>
        case Some(c) =>
          if c == BACKSPACE {
            if written != [] {
              written := written[..|written| - 1];
            }
          } else if c == ENTER {
            emitted := Some(written);
            written := [];
            display := Some(Placeholder);
            return;
          } else {
            written := written + [c];
          }
          display := Some(written);
      }
    }
  }

  /** A layout pass over any 72 symbols keeps the rails and letters consistent. */
  lemma ConsistentAfterReassign(segs: seq<Segment>, shuffled: seq<char>)
    requires |segs| >= 4 && segs[..4] == Trunk && AllWellFormed(segs)
    requires |shuffled| == 72
    ensures Consistent(segs + Stems(), shuffled, Layout(shuffled))
  {
    StemsAreWellFormed();
    WellFormedAfterStems(segs);
    assert (segs + Stems())[..4] == segs[..4];
  }

  /**
   * A drag from the start position to (40, 50) on the first stem is within
   * reach of `mouseMove`, and the stick jumps there. The pointer lies on a
   * rail, so its distance to the rail is zero and no background restore is
   * requested, although the stick left (40, 40).
   */
  lemma DragOntoRailSkipsRestore()
    ensures |Trunk + Stems()| > 0
    ensures Dist2(Point(40, 50), Point(40, 40)) < (StickRadius + DragMargin) * (StickRadius + DragMargin)
    ensures NearestPoint(Trunk + Stems(), Point(40, 50)) == Point(40, 50) != Point(40, 40)
  {
    var segs := Trunk + Stems();
    TrunkShape();
    StemsAreWellFormed();
    WellFormedAfterStems(Trunk);
    assert segs[4] == Stem(0);
    assert OnSegment(segs[4], Point(40, 50));
    NearestPointFixesNetworkPoints(segs, Point(40, 50));
  }

  /** Every stem is a well-formed rail. */
  lemma StemsAreWellFormed()
    ensures |Stems()| == 72 && AllWellFormed(Stems())
  {
    forall i | 0 <= i < 72
      ensures WellFormed(Stems()[i])
    {
      StemMeetsTrunk(i);
    }
  }

  /** Appending the stems keeps a list of rails well formed and makes it hold every stem. */
  lemma WellFormedAfterStems(segs: seq<Segment>)
    requires AllWellFormed(segs) && AllWellFormed(Stems())
    ensures AllWellFormed(segs + Stems())
    ensures HoldsStems(segs + Stems())
  {
    var all := segs + Stems();
    forall i | 0 <= i < |all|
      ensures WellFormed(all[i])
    {
      if i >= |segs| {
        assert all[i] == Stems()[i - |segs|];
      }
    }
  }
}
