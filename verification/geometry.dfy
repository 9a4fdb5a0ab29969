/**
 * Integer plane geometry used by the marker selector: points with integer
 * coordinates (the image-pixel points of the detector), vector arithmetic,
 * and the shoelace area that stands in for the image library's
 * `contourArea`.
 */
module Geometry {

  /** A point, or a vector between two points, with integer components. */
  datatype Point = Point(x: int, y: int)

  function Add(a: Point, b: Point): Point {
    Point(a.x + b.x, a.y + b.y)
  }

  function Sub(a: Point, b: Point): Point {
    Point(a.x - b.x, a.y - b.y)
  }

  function Dot(a: Point, b: Point): int {
    a.x * b.x + a.y * b.y
  }

  /** Squared Euclidean length of a vector. */
  function NormSq(a: Point): (n: int)
    ensures n >= 0
    ensures n == 0 <==> a == Point(0, 0)
  {
    assert a.x * a.x >= 0 && a.y * a.y >= 0;
    assert a.x != 0 ==> a.x * a.x > 0;
    assert a.y != 0 ==> a.y * a.y > 0;
    Dot(a, a)
  }

  /** Squared distance between two points, as the dedup step computes it from `center - c`. */
  function DistSq(a: Point, b: Point): (d: int)
    ensures d >= 0
    ensures d == 0 <==> a == b
  {
    var v := Sub(a, b);
    assert v == Point(0, 0) <==> a.x == b.x && a.y == b.y;
    NormSq(v)
  }

  lemma DistSqSymmetric(a: Point, b: Point)
    ensures DistSq(a, b) == DistSq(b, a)
  {
    assert Sub(a, b) == Point(-(b.x - a.x), -(b.y - a.y));
  }

  /** A zero-length vector is orthogonal to everything. */
  lemma ZeroSideDot(a: Point, b: Point)
    requires NormSq(a) == 0 || NormSq(b) == 0
    ensures Dot(a, b) == 0
  {
    if NormSq(a) == 0 {
      assert a == Point(0, 0);
    } else {
      assert b == Point(0, 0);
    }
  }

  /** z-component of the cross product: the signed parallelogram area of a and b. */
  function Cross(a: Point, b: Point): int {
    a.x * b.y - a.y * b.x
  }

  /**
   * The shoelace sum the image library accumulates: starting with `prev` set to
   * the last vertex, add `prev.x * p.y - prev.y * p.x` for every vertex `p` in
   * order. `ShoelaceFrom(poly, prev, k)` is the part of the sum contributed by
   * vertices `k..`.
   */
  function ShoelaceFrom(poly: seq<Point>, prev: Point, k: nat): int
    requires k <= |poly|
    decreases |poly| - k
  {
    if k == |poly| then 0
    else Cross(prev, poly[k]) + ShoelaceFrom(poly, poly[k], k + 1)
  }

  /** Twice the signed area of the closed polygon (zero for the empty polygon). */
  function Shoelace(poly: seq<Point>): int {
    if |poly| == 0 then 0 else ShoelaceFrom(poly, poly[|poly| - 1], 0)
  }

  /**
   * Twice the unsigned area of the closed polygon `poly`: the library's
   * `contourArea(poly)` is exactly half of this. Keeping the doubled value
   * keeps every area an integer.
   */
  function Area2(poly: seq<Point>): (a: nat) {
    var s := Shoelace(poly);
    if s < 0 then -s else s
  }

  /** A point or a segment encloses nothing. */
  lemma DegenerateArea(poly: seq<Point>)
    requires |poly| <= 2
    ensures Area2(poly) == 0
  {
    if |poly| == 2 {
      var a, b := poly[0], poly[1];
      assert Shoelace(poly) == Cross(b, a) + ShoelaceFrom(poly, a, 1);
      assert ShoelaceFrom(poly, a, 1) == Cross(a, b) + ShoelaceFrom(poly, b, 2);
    } else if |poly| == 1 {
      assert Shoelace(poly) == Cross(poly[0], poly[0]) + ShoelaceFrom(poly, poly[0], 1);
    }
  }

  /** The area in the library's own units (half of `Area2`), as a real. */
  function Area(poly: seq<Point>): (a: real)
    ensures a >= 0.0
  {
    Area2(poly) as real / 2.0
  }
}
