/**
 * The rectangular-marker selector of dz5/main.cpp, lifted out of `main` into
 * pure functions over integer point sequences:
 *
 *  - the hull pre-filter (keep hull i when its area is close to its raw
 *    contour's area and large enough),
 *  - the quadrilateral test (area coverage, then opposite-side parallelism),
 *  - the global centre deduplication,
 *  - the per-hull scan over the 4-point subsequences and the fold over the
 *    accepted hulls that threads the list of centres from hull to hull.
 *
 * Floating-point ratio and cosine tests are stated as the exact integer
 * comparisons they stand for; each has a lemma relating it to the ratio as
 * written, over reals, with a division by zero counting as "comparison false"
 * (the way a NaN or infinite quotient compares).
 */
module Markers {
  import opened Geometry
  import opened Enumeration

  /** A hull must enclose more than this many square units (in `contourArea` units). */
  const MinHullArea: nat := 2000

  /** Two centres closer than this squared distance are the same marker. */
  const DedupDistSq: nat := 100

  function Diff(a: int, b: int): nat {
    if a < b then b - a else a - b
  }

  function RealAbs(x: real): real {
    if x < 0.0 then -x else x
  }

  // ---------------------------------------------------------------------------
  // Hull pre-filter
  // ---------------------------------------------------------------------------

  /**
   * The pre-filter's decision for one contour and its hull: the relative
   * area difference is below one tenth and the hull is larger than
   * `MinHullArea`. With doubled areas `h` and `c` both tests are integer
   * comparisons, and a zero-area hull fails both without any division.
   */
  predicate HullAccepted(contour: seq<Point>, hull: seq<Point>) {
    var h := Area2(hull);
    var c := Area2(contour);
    10 * Diff(h, c) < h && h > 2 * MinHullArea
  }

  /**
   * The test as the detector writes it, `|A(hull) - A(contour)| / A(hull) < 0.1
   * && A(hull) > 2000`, over reals; a zero denominator makes the quotient
   * infinite or NaN, which never compares below 0.1.
   */
  ghost predicate RatioAccepts(contour: seq<Point>, hull: seq<Point>) {
    var h := Area(hull);
    var c := Area(contour);
    && (h != 0.0 && RealAbs(h - c) / h < 0.1)
    && h > MinHullArea as real
  }

  lemma QuotientBelow(a: real, b: real, t: real)
    requires b > 0.0
    ensures a / b < t <==> a < t * b
  {
    assert (a / b) * b == a;
    if a / b < t {
      assert (a / b) * b < t * b;
    }
    if a < t * b {
      assert (a / b) * b < t * b;
    }
  }

  /** The integer pre-filter decides exactly as the ratio test. */
  lemma PreFilterDecision(contour: seq<Point>, hull: seq<Point>)
    ensures HullAccepted(contour, hull) <==> RatioAccepts(contour, hull)
  {
    var h2, c2 := Area2(hull), Area2(contour);
    var h, c := Area(hull), Area(contour);
    assert RealAbs(h - c) == Diff(h2, c2) as real / 2.0;
    if h2 > 0 {
      QuotientBelow(RealAbs(h - c), h, 0.1);
    }
  }

  /** Any hull of area at most `MinHullArea`, the empty one included, is rejected. */
  lemma SmallHullRejected(contour: seq<Point>, hull: seq<Point>)
    requires Area(hull) <= MinHullArea as real
    ensures !HullAccepted(contour, hull)
  {
    PreFilterDecision(contour, hull);
  }

  /** A hull of at most two points encloses nothing, so it never passes the pre-filter. */
  lemma DegenerateHullRejected(contour: seq<Point>, hull: seq<Point>)
    requires |hull| <= 2
    ensures !HullAccepted(contour, hull)
  {
    DegenerateArea(hull);
  }

  /** Result of the pre-filter loop: the rewritten contour list and the accepted indices. */
  datatype Filtered = Filtered(kept: seq<seq<Point>>, indices: seq<int>)

  /**
   * The pre-filter loop over all contour/hull pairs: an accepted contour is
   * replaced by its hull and its index recorded; a rejected one is emptied.
   */
  function PreFilter(contours: seq<seq<Point>>, hulls: seq<seq<Point>>): (f: Filtered)
    requires |contours| == |hulls|
    ensures |f.kept| == |hulls|
    ensures forall i :: 0 <= i < |hulls| ==>
              f.kept[i] == (if HullAccepted(contours[i], hulls[i]) then hulls[i] else [])
    ensures forall k :: 0 <= k < |f.indices| ==> 0 <= f.indices[k] < |hulls|
    ensures forall i :: 0 <= i < |hulls| ==> (i in f.indices <==> HullAccepted(contours[i], hulls[i]))
    ensures forall k, l :: 0 <= k < l < |f.indices| ==> f.indices[k] < f.indices[l]
    decreases |hulls|
  {
    if |hulls| == 0 then Filtered([], [])
    else
      var n := |hulls| - 1;
      var prev := PreFilter(contours[..n], hulls[..n]);
      if HullAccepted(contours[n], hulls[n]) then Filtered(prev.kept + [hulls[n]], prev.indices + [n])
      else Filtered(prev.kept + [[]], prev.indices)
  }

  // ---------------------------------------------------------------------------
  // Quadrilateral test
  // ---------------------------------------------------------------------------

  /**
   * Area coverage: the quadrilateral is skipped when `A(quad) / A(hull) < 0.9`,
   * so it passes when `10 * A(quad) >= 9 * A(hull)`.
   */
  predicate Covers(quad: seq<Point>, hull: seq<Point>) {
    10 * Area2(quad) >= 9 * Area2(hull)
  }

  /** The coverage skip condition as written, over reals; a zero denominator never skips. */
  ghost predicate CoverageSkips(quad: seq<Point>, hull: seq<Point>) {
    Area(hull) != 0.0 && Area(quad) / Area(hull) < 0.9
  }

  lemma CoverageDecision(quad: seq<Point>, hull: seq<Point>)
    ensures Covers(quad, hull) <==> !CoverageSkips(quad, hull)
  {
    if Area2(hull) > 0 {
      QuotientBelow(Area(quad), Area(hull), 0.9);
    }
  }

  /**
   * Two sides are near-parallel when `|cos| > 0.9` for the angle between them,
   * i.e. `(a.b)^2 > 0.81 |a|^2 |b|^2`, cleared of fractions.
   */
  predicate NearParallel(a: Point, b: Point) {
    100 * (Dot(a, b) * Dot(a, b)) > 81 * (NormSq(a) * NormSq(b))
  }

  /**
   * The cosine test as written, squared: `cos^2 = (a.b)^2 / (|a|^2 |b|^2) > 0.81`.
   * A zero-length side makes the cosine NaN in the detector, and the test fails.
   */
  ghost predicate CosineAbove(a: Point, b: Point) {
    NormSq(a) != 0 && NormSq(b) != 0 &&
    (Dot(a, b) * Dot(a, b)) as real / (NormSq(a) * NormSq(b)) as real > 0.81
  }

  lemma ParallelDecision(a: Point, b: Point)
    ensures NearParallel(a, b) <==> CosineAbove(a, b)
  {
    ZeroSideSquare(a, b);
    CrossMultiplied(Dot(a, b) * Dot(a, b), NormSq(a), NormSq(b));
  }

  lemma ZeroSideSquare(a: Point, b: Point)
    ensures NormSq(a) == 0 || NormSq(b) == 0 ==> Dot(a, b) * Dot(a, b) == 0
  {
    if NormSq(a) == 0 || NormSq(b) == 0 {
      ZeroSideDot(a, b);
      SquareOfZero(Dot(a, b));
    }
  }

  lemma SquareOfZero(x: int)
    requires x == 0
    ensures x * x == 0
  {
  }

  lemma CrossMultiplied(d: int, na: int, nb: int)
    requires na >= 0 && nb >= 0
    requires na == 0 || nb == 0 ==> d == 0
    ensures 100 * d > 81 * (na * nb) <==> (na != 0 && nb != 0 && d as real / (na * nb) as real > 0.81)
  {
    if na == 0 || nb == 0 {
      assert na * nb == 0;
    } else {
      PositiveProduct(na, nb);
      ScaledRatioAbove(d, na * nb);
    }
  }

  lemma PositiveProduct(x: int, y: int)
    requires x > 0 && y > 0
    ensures x * y > 0
  {
  }

  lemma QuotientAbove(a: real, b: real, t: real)
    requires b > 0.0
    ensures a / b > t <==> a > t * b
  {
    assert (a / b) * b == a;
    if a / b > t {
      assert (a / b) * b > t * b;
    }
    if a > t * b {
      assert (a / b) * b > t * b;
    }
  }

  /** `100 d > 81 n` is `d / n > 0.81` for a positive `n`. */
  lemma ScaledRatioAbove(d: int, n: int)
    requires n > 0
    ensures 100 * d > 81 * n <==> d as real / n as real > 0.81
  {
    var dr, nr := d as real, n as real;
    QuotientAbove(dr, nr, 0.81);
    assert (100 * d) as real == 100.0 * dr;
    assert (81 * n) as real == 81.0 * nr;
    assert 100.0 * dr > 81.0 * nr <==> dr > 0.81 * nr;
  }

  /** The sides p2-p1, p3-p2, p4-p3, p1-p4 of the quadrilateral, in the detector's names. */
  function Line1(q: seq<Point>): Point requires |q| == 4 { Sub(q[1], q[0]) }
  function Line2(q: seq<Point>): Point requires |q| == 4 { Sub(q[2], q[1]) }
  function Line3(q: seq<Point>): Point requires |q| == 4 { Sub(q[3], q[2]) }
  function Line4(q: seq<Point>): Point requires |q| == 4 { Sub(q[0], q[3]) }

  /** Both pairs of opposite sides are near-parallel. */
  predicate SidesParallel(q: seq<Point>)
    requires |q| == 4
  {
    NearParallel(Line1(q), Line3(q)) && NearParallel(Line2(q), Line4(q))
  }

  /** The full acceptance test for a candidate of `hull`. */
  predicate RectLike(q: seq<Point>, hull: seq<Point>)
    requires |q| == 4
  {
    Covers(q, hull) && SidesParallel(q)
  }

  /** A zero-length side (a repeated vertex) fails the parallelism test. */
  lemma RepeatedVertexFails(q: seq<Point>)
    requires |q| == 4
    requires q[0] == q[1] || q[1] == q[2] || q[2] == q[3] || q[3] == q[0]
    ensures !SidesParallel(q)
  {
    if q[0] == q[1] {
      ParallelDecision(Line1(q), Line3(q));
    } else if q[1] == q[2] {
      ParallelDecision(Line2(q), Line4(q));
    } else if q[2] == q[3] {
      ParallelDecision(Line1(q), Line3(q));
    } else {
      ParallelDecision(Line2(q), Line4(q));
    }
  }

  // ---------------------------------------------------------------------------
  // Centre deduplication
  // ---------------------------------------------------------------------------

  /**
   * The centroid `(p1 + p2 + p3 + p4) / 4`. The division by 4 is the image
   * library's point-by-integer division, whose rounding is not part of this
   * model: it is the parameter `quarter`.
   */
  function Centre(q: seq<Point>, quarter: Point -> Point): Point
    requires |q| == 4
  {
    quarter(Add(Add(Add(q[0], q[1]), q[2]), q[3]))
  }

  /**
   * The inner loop over the stored centres, stopping at the first one within
   * `DedupDistSq` of `center`.
   */
  function AlreadyFound(center: Point, centers: seq<Point>): (found: bool)
    ensures found <==> exists k :: 0 <= k < |centers| && DistSq(center, centers[k]) < DedupDistSq
  {
    if centers == [] then false
    else if DistSq(center, centers[0]) < DedupDistSq then true
    else
      assert forall k :: 1 <= k < |centers| ==> centers[k] == centers[1..][k - 1];
      AlreadyFound(center, centers[1..])
  }

  /** No two stored centres are within the dedup distance of each other. */
  ghost predicate WellSeparated(centers: seq<Point>) {
    forall i, j :: 0 <= i < |centers| && 0 <= j < |centers| && i != j ==>
      DistSq(centers[i], centers[j]) >= DedupDistSq
  }

  // ---------------------------------------------------------------------------
  // Per-hull scan
  // ---------------------------------------------------------------------------

  ghost predicate AllQuads(cands: seq<seq<Point>>) {
    forall i :: 0 <= i < |cands| ==> |cands[i]| == 4
  }

  /** How the scan over one hull's candidates ended: a commit, a duplicate abort, or running out. */
  datatype Scan = Committed(at: nat) | Aborted(at: nat) | Exhausted

  /** The candidate's centroid is within the dedup distance of some stored centre. */
  predicate Duplicate(q: seq<Point>, centers: seq<Point>, quarter: Point -> Point)
    requires |q| == 4
  {
    AlreadyFound(Centre(q, quarter), centers)
  }

  /** Candidates `lo..hi` were all examined and neither duplicated nor accepted. */
  ghost predicate PassedOver(hull: seq<Point>, cands: seq<seq<Point>>, centers: seq<Point>,
                             quarter: Point -> Point, lo: nat, hi: nat)
    requires AllQuads(cands) && hi <= |cands|
  {
    forall i :: lo <= i < hi ==> !Duplicate(cands[i], centers, quarter) && !RectLike(cands[i], hull)
  }

  /**
   * The loop over the candidates from index `i` on. A candidate whose centre
   * duplicates a stored one ends the whole scan (`break`); one that fails the
   * coverage or the parallel test only moves on to the next (`continue`); the
   * first one passing both is committed.
   */
  function ScanFrom(hull: seq<Point>, cands: seq<seq<Point>>, centers: seq<Point>,
                    quarter: Point -> Point, i: nat): (s: Scan)
    requires AllQuads(cands) && i <= |cands|
    decreases |cands| - i
    ensures s.Committed? ==>
              && i <= s.at < |cands|
              && !Duplicate(cands[s.at], centers, quarter) && RectLike(cands[s.at], hull)
              && PassedOver(hull, cands, centers, quarter, i, s.at)
    ensures s.Aborted? ==>
              && i <= s.at < |cands|
              && Duplicate(cands[s.at], centers, quarter)
              && PassedOver(hull, cands, centers, quarter, i, s.at)
    ensures s.Exhausted? ==> PassedOver(hull, cands, centers, quarter, i, |cands|)
  {
    if i == |cands| then Exhausted
    else if Duplicate(cands[i], centers, quarter) then Aborted(i)
    else if !Covers(cands[i], hull) then ScanFrom(hull, cands, centers, quarter, i + 1)
    else if SidesParallel(cands[i]) then Committed(i)
    else ScanFrom(hull, cands, centers, quarter, i + 1)
  }

  /**
   * Once the scan has stopped at some candidate, nothing after it matters:
   * appending further candidates cannot change the outcome. In particular,
   * after the first duplicate the later subsequences are never examined.
   */
  lemma {:induction false} StoppedScanIgnoresLater(hull: seq<Point>, cands: seq<seq<Point>>,
                                                   more: seq<seq<Point>>, centers: seq<Point>,
                                                   quarter: Point -> Point, i: nat)
    requires AllQuads(cands) && AllQuads(more) && i <= |cands|
    requires !ScanFrom(hull, cands, centers, quarter, i).Exhausted?
    ensures AllQuads(cands + more)
    ensures ScanFrom(hull, cands + more, centers, quarter, i) == ScanFrom(hull, cands, centers, quarter, i)
    decreases |cands| - i
  {
    var all := cands + more;
    assert forall k :: 0 <= k < |cands| ==> all[k] == cands[k];
    assert forall k :: |cands| <= k < |all| ==> all[k] == more[k - |cands|];
    if i < |cands| && !Duplicate(cands[i], centers, quarter) && !RectLike(cands[i], hull) {
      StoppedScanIgnoresLater(hull, cands, more, centers, quarter, i + 1);
    }
  }

  /** A hull's candidates: its 4-point subsequences in enumeration order. */
  function Candidates(hull: seq<Point>): (cands: seq<seq<Point>>)
    ensures AllQuads(cands)
    ensures |hull| < 4 ==> cands == []
  {
    var cands := Subsequences(hull, 4);
    assert |hull| < 4 ==> cands == [] by {
      if |hull| < 4 {
        TooLongIsEmpty(hull, 4);
      }
    }
    cands
  }

  /**
   * The scan of one hull's candidates from the first. A hull of fewer than
   * four points has no candidate and ends exhausted.
   */
  function ScanHull(hull: seq<Point>, centers: seq<Point>, quarter: Point -> Point): (s: Scan)
    ensures |hull| < 4 ==> s == Exhausted
    ensures s.Committed? ==>
              && s.at < |Candidates(hull)|
              && !Duplicate(Candidates(hull)[s.at], centers, quarter)
              && RectLike(Candidates(hull)[s.at], hull)
    ensures s.Aborted? ==> s.at < |Candidates(hull)| && Duplicate(Candidates(hull)[s.at], centers, quarter)
  {
    ScanFrom(hull, Candidates(hull), centers, quarter, 0)
  }

  // ---------------------------------------------------------------------------
  // The selection fold over the accepted hulls
  // ---------------------------------------------------------------------------

  /** The detector's `rects` and `centers` vectors. */
  datatype Selection = Selection(rects: seq<seq<Point>>, centers: seq<Point>)

  /** Process one hull: on a commit append the quadrilateral and its centre, otherwise change nothing. */
  function CommitHull(sel: Selection, hull: seq<Point>, quarter: Point -> Point): (next: Selection)
    ensures |next.rects| <= |sel.rects| + 1 && |next.centers| <= |sel.centers| + 1
    ensures sel.rects <= next.rects && sel.centers <= next.centers
  {
    var cands := Candidates(hull);
    match ScanHull(hull, sel.centers, quarter)
    case Committed(k) => Selection(sel.rects + [cands[k]], sel.centers + [Centre(cands[k], quarter)])
    case _ => sel
  }

  ghost predicate ValidIndices(hulls: seq<seq<Point>>, order: seq<int>) {
    forall k :: 0 <= k < |order| ==> 0 <= order[k] < |hulls|
  }

  /**
   * The selection loop over the accepted hull indices `order`, in order, with
   * one list of centres shared by all hulls. Each hull adds at most one
   * quadrilateral; rects and centres stay paired; stored centres are pairwise
   * at least `DedupDistSq` apart.
   */
  function SelectRects(hulls: seq<seq<Point>>, order: seq<int>, quarter: Point -> Point): (sel: Selection)
    requires ValidIndices(hulls, order)
    ensures |sel.rects| == |sel.centers| <= |order|
    ensures forall k :: 0 <= k < |sel.rects| ==>
              |sel.rects[k]| == 4 && sel.centers[k] == Centre(sel.rects[k], quarter)
    ensures WellSeparated(sel.centers)
    decreases |order|
  {
    if order == [] then Selection([], [])
    else
      var prev := SelectRects(hulls, order[..|order| - 1], quarter);
      CommitHullPreserves(prev, hulls[order[|order| - 1]], quarter);
      CommitHull(prev, hulls[order[|order| - 1]], quarter)
  }

  /** Rects and centres stay paired, and the new centre keeps the stored ones separated. */
  lemma CommitHullPreserves(sel: Selection, hull: seq<Point>, quarter: Point -> Point)
    requires |sel.rects| == |sel.centers|
    requires forall k :: 0 <= k < |sel.rects| ==>
               |sel.rects[k]| == 4 && sel.centers[k] == Centre(sel.rects[k], quarter)
    requires WellSeparated(sel.centers)
    ensures var next := CommitHull(sel, hull, quarter);
      && |next.rects| == |next.centers| <= |sel.rects| + 1
      && (forall k :: 0 <= k < |next.rects| ==>
            |next.rects[k]| == 4 && next.centers[k] == Centre(next.rects[k], quarter))
      && WellSeparated(next.centers)
  {
    var cands := Candidates(hull);
    match ScanHull(hull, sel.centers, quarter)
    case Committed(k) =>
      SeparationKept(sel.centers, Centre(cands[k], quarter));
    case _ =>
  }

  lemma SeparationKept(centers: seq<Point>, c: Point)
    requires WellSeparated(centers)
    requires !AlreadyFound(c, centers)
    ensures WellSeparated(centers + [c])
  {
    var all := centers + [c];
    forall i, j | 0 <= i < |all| && 0 <= j < |all| && i != j
      ensures DistSq(all[i], all[j]) >= DedupDistSq
    {
      if j == |centers| {
        DistSqSymmetric(all[i], c);
      }
    }
  }

  /**
   * `src[k]` is the position in `order` of the hull that produced `rects[k]`:
   * positions strictly increase (so no hull contributes twice), and each
   * quadrilateral is one of its hull's enumerated 4-subsequences and passes
   * both tests against that hull.
   */
  ghost predicate TracedTo(hulls: seq<seq<Point>>, order: seq<int>, rects: seq<seq<Point>>, src: seq<int>)
    requires ValidIndices(hulls, order)
  {
    && |src| == |rects|
    && (forall k :: 0 <= k < |src| ==> 0 <= src[k] < |order|)
    && (forall k, l :: 0 <= k < l < |src| ==> src[k] < src[l])
    && (forall k :: 0 <= k < |src| ==> Produced(rects[k], hulls[order[src[k]]]))
  }

  /** `q` is one of `hull`'s enumerated 4-subsequences and passes both tests against it. */
  ghost predicate Produced(q: seq<Point>, hull: seq<Point>) {
    q in Candidates(hull) && |q| == 4 && RectLike(q, hull)
  }

  /** Every selected quadrilateral can be traced back to the one hull that produced it. */
  lemma {:induction false} SelectedProvenance(hulls: seq<seq<Point>>, order: seq<int>, quarter: Point -> Point)
    returns (src: seq<int>)
    requires ValidIndices(hulls, order)
    ensures TracedTo(hulls, order, SelectRects(hulls, order, quarter).rects, src)
    decreases |order|
  {
    if order == [] {
      src := [];
    } else {
      var n := |order| - 1;
      var init := order[..n];
      var prev := SelectRects(hulls, init, quarter);
      var hull := hulls[order[n]];
      var before := SelectedProvenance(hulls, init, quarter);
      var added := CommitHullOutcome(prev, hull, quarter);
      var sel := SelectRects(hulls, order, quarter);
      assert sel == CommitHull(prev, hull, quarter);
      if added {
        src := before + [n];
        TracedExtend(hulls, order, prev.rects, sel.rects, before);
      } else {
        src := before;
        TracedKeep(hulls, order, prev.rects, before);
      }
    }
  }

  lemma TracedKeep(hulls: seq<seq<Point>>, order: seq<int>, rects: seq<seq<Point>>, src: seq<int>)
    requires ValidIndices(hulls, order) && |order| > 0
    requires TracedTo(hulls, order[..|order| - 1], rects, src)
    ensures TracedTo(hulls, order, rects, src)
  {
    var init := order[..|order| - 1];
    forall k | 0 <= k < |src|
      ensures Produced(rects[k], hulls[order[src[k]]])
    {
      assert order[src[k]] == init[src[k]];
    }
  }

  lemma TracedExtend(hulls: seq<seq<Point>>, order: seq<int>, rects: seq<seq<Point>>,
                     next: seq<seq<Point>>, src: seq<int>)
    requires ValidIndices(hulls, order) && |order| > 0
    requires TracedTo(hulls, order[..|order| - 1], rects, src)
    requires |next| == |rects| + 1 && next[..|rects|] == rects
    requires Produced(next[|rects|], hulls[order[|order| - 1]])
    ensures TracedTo(hulls, order, next, src + [|order| - 1])
  {
    var n := |order| - 1;
    var init := order[..n];
    var all := src + [n];
    forall k | 0 <= k < |all|
      ensures 0 <= all[k] < |order|
      ensures Produced(next[k], hulls[order[all[k]]])
    {
      if k < |src| {
        assert all[k] == src[k];
        assert next[k] == rects[k];
        assert order[src[k]] == init[src[k]];
      } else {
        assert all[k] == n;
      }
    }
    forall k, l | 0 <= k < l < |all|
      ensures all[k] < all[l]
    {
      assert all[k] == src[k];
      if l == |src| {
        assert all[l] == n;
      } else {
        assert all[l] == src[l];
      }
    }
  }

  /** Processing one hull either leaves the selection as it was or appends one produced quadrilateral. */
  lemma CommitHullOutcome(sel: Selection, hull: seq<Point>, quarter: Point -> Point) returns (added: bool)
    ensures var next := CommitHull(sel, hull, quarter);
      if added then
        && |next.rects| == |sel.rects| + 1
        && next.rects[..|sel.rects|] == sel.rects
        && Produced(next.rects[|sel.rects|], hull)
      else next == sel
  {
    var cands := Candidates(hull);
    match ScanHull(hull, sel.centers, quarter)
    case Committed(at) =>
      var next := CommitHull(sel, hull, quarter);
      assert next.rects == sel.rects + [cands[at]];
      assert next.rects[..|sel.rects|] == sel.rects;
      added := true;
    case Aborted(_) =>
      added := false;
    case Exhausted =>
      added := false;
  }

  /** The whole core: pre-filter the pairs, then select over the accepted hulls. */
  function DetectMarkers(contours: seq<seq<Point>>, hulls: seq<seq<Point>>, quarter: Point -> Point): (sel: Selection)
    requires |contours| == |hulls|
    ensures |sel.rects| == |sel.centers| <= |PreFilter(contours, hulls).indices|
    ensures forall k :: 0 <= k < |sel.rects| ==>
              |sel.rects[k]| == 4 && sel.centers[k] == Centre(sel.rects[k], quarter)
    ensures WellSeparated(sel.centers)
  {
    SelectRects(hulls, PreFilter(contours, hulls).indices, quarter)
  }

  /**
   * Every reported quadrilateral was produced by a hull that passed the
   * pre-filter: it is one of that hull's 4-subsequences and passes both tests
   * against it.
   */
  lemma DetectedFromAcceptedHull(contours: seq<seq<Point>>, hulls: seq<seq<Point>>,
                                 quarter: Point -> Point, k: int)
    requires |contours| == |hulls|
    requires 0 <= k < |DetectMarkers(contours, hulls, quarter).rects|
    ensures exists i :: 0 <= i < |hulls| && HullAccepted(contours[i], hulls[i])
                     && Produced(DetectMarkers(contours, hulls, quarter).rects[k], hulls[i])
  {
    var f := PreFilter(contours, hulls);
    var src := SelectedProvenance(hulls, f.indices, quarter);
    var i := f.indices[src[k]];
    assert i in f.indices;
  }
}
