/**
 * End-to-end runs of the marker selector on small concrete hulls: an
 * axis-aligned square is detected as itself, and the same square seen twice
 * (shifted by one pixel) is reported once.
 */
module Scenarios {
  import opened Geometry
  import opened Enumeration
  import opened Markers

  /** Choosing all elements of a sequence yields just that sequence. */
  lemma {:induction false} WholeSequenceFrom<T>(v: seq<T>, idx: nat)
    requires idx <= |v|
    ensures Generate([], v, |v|, idx, v[..idx]) == [v]
    decreases |v| - idx
  {
    if idx < |v| {
      Split(v, |v|, idx, v[..idx]);
      Dead(v, |v|, idx + 1, v[..idx]);
      assert v[..idx] + [v[idx]] == v[..idx + 1];
      WholeSequenceFrom(v, idx + 1);
    } else {
      assert v[..idx] == v;
    }
  }

  lemma WholeSequence<T>(v: seq<T>)
    ensures Subsequences(v, |v|) == [v]
  {
    WholeSequenceFrom(v, 0);
    assert v[..0] == [];
  }

  function Square(dx: int): seq<Point> {
    [Point(dx, 0), Point(dx, 100), Point(dx + 100, 100), Point(dx + 100, 0)]
  }

  lemma SquareArea(dx: int)
    ensures Area2(Square(dx)) == 20000
  {
    var s := Square(dx);
    assert Shoelace(s) == Cross(s[3], s[0]) + ShoelaceFrom(s, s[0], 1);
    assert ShoelaceFrom(s, s[0], 1) == Cross(s[0], s[1]) + ShoelaceFrom(s, s[1], 2);
    assert ShoelaceFrom(s, s[1], 2) == Cross(s[1], s[2]) + ShoelaceFrom(s, s[2], 3);
    assert ShoelaceFrom(s, s[2], 3) == Cross(s[2], s[3]) + ShoelaceFrom(s, s[3], 4);
  }

  /** A square hull is its own only candidate. */
  lemma SquareCandidates(dx: int)
    ensures Candidates(Square(dx)) == [Square(dx)]
  {
    WholeSequence(Square(dx));
  }

  /** The square passes both tests against itself. */
  lemma SquareIsRectLike(dx: int)
    ensures RectLike(Square(dx), Square(dx))
  {
    SquareArea(dx);
    var q := Square(dx);
    assert Line1(q) == Point(0, 100) && Line3(q) == Point(0, -100);
    assert Line2(q) == Point(100, 0) && Line4(q) == Point(-100, 0);
  }

  lemma SquareAccepted(dx: int)
    ensures HullAccepted(Square(dx), Square(dx))
  {
    SquareArea(dx);
  }

  lemma SquareScan(dx: int, quarter: Point -> Point)
    ensures ScanHull(Square(dx), [], quarter) == Committed(0)
  {
    SquareCandidates(dx);
    SquareIsRectLike(dx);
    var cands := Candidates(Square(dx));
    assert !Duplicate(cands[0], [], quarter);
  }

  lemma FilterOne(sq: seq<Point>)
    requires HullAccepted(sq, sq)
    ensures PreFilter([sq], [sq]).indices == [0]
  {
    var f := PreFilter([sq], [sq]);
    assert 0 in f.indices;
  }

  lemma FilterTwo(a: seq<Point>, b: seq<Point>)
    requires HullAccepted(a, a) && HullAccepted(b, b)
    ensures PreFilter([a, b], [a, b]).indices == [0, 1]
  {
    assert [a, b][..1] == [a];
    FilterOne(a);
  }

  /** Selecting over a single hull whose scan commits its first candidate. */
  lemma FirstHullCommits(hulls: seq<seq<Point>>, quarter: Point -> Point)
    requires |hulls| > 0
    requires ScanHull(hulls[0], [], quarter) == Committed(0)
    ensures SelectRects(hulls, [0], quarter)
         == Selection([Candidates(hulls[0])[0]], [Centre(Candidates(hulls[0])[0], quarter)])
  {
    assert [0][..0] == [];
  }

  /** A single square marker, whose raw contour is already convex, is detected as its four corners. */
  lemma SquareMarkerDetected(quarter: Point -> Point)
    ensures DetectMarkers([Square(0)], [Square(0)], quarter).rects == [Square(0)]
  {
    var sq := Square(0);
    SquareAccepted(0);
    FilterOne(sq);
    SquareScan(0, quarter);
    SquareCandidates(0);
    FirstHullCommits([sq], quarter);
  }

  /**
   * The centroid division is exact when both coordinates are multiples of 4;
   * truncation, flooring and rounding to nearest all behave so.
   */
  ghost predicate ExactOnMultiples(quarter: Point -> Point) {
    forall p: Point :: p.x % 4 == 0 && p.y % 4 == 0 ==> quarter(p) == Point(p.x / 4, p.y / 4)
  }

  lemma SquareCentre(dx: int, quarter: Point -> Point)
    requires ExactOnMultiples(quarter)
    ensures Centre(Square(dx), quarter) == Point(dx + 50, 50)
  {
    var p := Point(4 * (dx + 50), 4 * 50);
    assert Add(Add(Add(Square(dx)[0], Square(dx)[1]), Square(dx)[2]), Square(dx)[3]) == p;
    assert p.x % 4 == 0 && p.x / 4 == dx + 50;
    assert quarter(p) == Point(dx + 50, 50);
  }

  lemma ShiftedSquareAborts(quarter: Point -> Point)
    requires ExactOnMultiples(quarter)
    ensures ScanHull(Square(1), [Point(50, 50)], quarter) == Aborted(0)
  {
    var cands := Candidates(Square(1));
    SquareCandidates(1);
    assert cands[0] == Square(1);
    SquareCentre(1, quarter);
    assert Centre(cands[0], quarter) == Point(51, 50);
    assert AlreadyFound(Point(51, 50), [Point(50, 50)]) by {
      assert DistSq(Point(51, 50), Point(50, 50)) == 1;
    }
    assert Duplicate(cands[0], [Point(50, 50)], quarter);
  }

  /** Two hulls in order: the second is processed against the selection left by the first. */
  lemma SecondHullStep(hulls: seq<seq<Point>>, quarter: Point -> Point)
    requires |hulls| >= 2
    ensures SelectRects(hulls, [0, 1], quarter) == CommitHull(SelectRects(hulls, [0], quarter), hulls[1], quarter)
  {
    assert [0, 1][..1] == [0];
  }

  lemma TwoSquaresSelection(quarter: Point -> Point)
    ensures var first := SelectRects([Square(0), Square(1)], [0], quarter);
      first == Selection([Square(0)], [Centre(Square(0), quarter)])
  {
    var hulls := [Square(0), Square(1)];
    SquareScan(0, quarter);
    SquareCandidates(0);
    FirstHullCommits(hulls, quarter);
  }

  /**
   * The same square seen twice, one pixel apart: the first hull commits, the
   * second hull's only candidate has a centroid within the dedup distance, so
   * its scan aborts and exactly one marker is reported.
   */
  lemma DuplicateMarkerReportedOnce(quarter: Point -> Point)
    requires ExactOnMultiples(quarter)
    ensures DetectMarkers([Square(0), Square(1)], [Square(0), Square(1)], quarter).rects == [Square(0)]
  {
    SquareCentre(0, quarter);
    ShiftedSquareAborts(quarter);
    DuplicateFromCentres(quarter);
  }

  /** The scenario above, needing only the two centroid facts it uses. */
  lemma DuplicateFromCentres(quarter: Point -> Point)
    requires Centre(Square(0), quarter) == Point(50, 50)
    requires ScanHull(Square(1), [Point(50, 50)], quarter) == Aborted(0)
    ensures DetectMarkers([Square(0), Square(1)], [Square(0), Square(1)], quarter).rects == [Square(0)]
  {
    var a, b := Square(0), Square(1);
    var hulls := [a, b];
    SquareAccepted(0);
    SquareAccepted(1);
    FilterTwo(a, b);
    TwoSquaresSelection(quarter);
    SecondHullStep(hulls, quarter);
  }
}
