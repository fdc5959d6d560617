/**
 * Points, vectors and axis-aligned boxes of the plane, over exact reals.
 *
 * A point of the library is a 2-vector of doubles; here its coordinates are
 * `real`. Lengths are compared through squared norms: for non-negative
 * reals `sqrt(a) < e` holds exactly when `e > 0 && a < e * e`, so no square
 * root is needed to model `norm() < epsilon` or a comparison of two norms.
 */
module Geometry {

  datatype Point = Point(x: real, y: real)

  /** The two columns of a control-point matrix. */
  datatype Axis = X | Y

  const Origin: Point := Point(0.0, 0.0)

  function Coord(p: Point, axis: Axis): real
  {
    match axis
    case X => p.x
    case Y => p.y
  }

  function Add(a: Point, b: Point): Point
  {
    Point(a.x + b.x, a.y + b.y)
  }

  function Sub(a: Point, b: Point): Point
  {
    Point(a.x - b.x, a.y - b.y)
  }

  function Scale(c: real, a: Point): Point
  {
    Point(c * a.x, c * a.y)
  }

  /** The point at parameter `t` on the segment from `a` to `b`: (1-t)a + tb. */
  function Lerp(a: Point, b: Point, t: real): Point
  {
    Point((1.0 - t) * a.x + t * b.x, (1.0 - t) * a.y + t * b.y)
  }

  /** (1-t) x + t y: one coordinate of `Lerp`. */
  function Mix(x: real, y: real, t: real): real
  {
    (1.0 - t) * x + t * y
  }

  /** Each coordinate of `Lerp` is a `Mix`. */
  lemma LerpMix(a: Point, b: Point, t: real)
    ensures Lerp(a, b, t) == Point(Mix(a.x, b.x, t), Mix(a.y, b.y, t))
  {
  }

  function Dot(a: Point, b: Point): real
  {
    a.x * b.x + a.y * b.y
  }

  /** The squared Euclidean norm. */
  function Norm2(a: Point): (r: real)
    ensures r >= 0.0
  {
    a.x * a.x + a.y * a.y
  }

  /** `v.norm() < eps`, stated without a square root. */
  predicate NormBelow(v: Point, eps: real)
  {
    0.0 < eps && Norm2(v) < eps * eps
  }

  /** The squared distance between two points. */
  function Dist2(a: Point, b: Point): real
  {
    Norm2(Sub(a, b))
  }

  /** An axis-aligned box given by its minimum and maximum corners. */
  datatype Box = Box(min: Point, max: Point)

  predicate Contains(b: Box, p: Point)
  {
    b.min.x <= p.x <= b.max.x && b.min.y <= p.y <= b.max.y
  }

  /** Closed boxes overlap on both axes (touching boxes intersect). */
  predicate Intersects(a: Box, b: Box)
  {
    a.min.x <= b.max.x && a.min.y <= b.max.y && b.min.x <= a.max.x && b.min.y <= a.max.y
  }

  function Diagonal(b: Box): Point
  {
    Sub(b.max, b.min)
  }

  function Center(b: Box): Point
  {
    Scale(0.5, Add(b.min, b.max))
  }

  /** A box that holds a point also overlaps every box that holds the same point. */
  lemma SharedPointIntersects(a: Box, b: Box, p: Point)
    requires Contains(a, p) && Contains(b, p)
    ensures Intersects(a, b) && Intersects(b, a)
  {
  }

  /** The center of a box lies in the box when its corners are ordered. */
  lemma CenterContained(b: Box)
    requires b.min.x <= b.max.x && b.min.y <= b.max.y
    ensures Contains(b, Center(b))
  {
  }

  /** A point of a box is within half the diagonal of the box's center. */
  lemma CenterClose(b: Box, p: Point)
    requires Contains(b, p)
    ensures 4.0 * Norm2(Sub(Center(b), p)) <= Norm2(Diagonal(b))
  {
    HalfWidth(b.min.x, b.max.x, p.x);
    HalfWidth(b.min.y, b.max.y, p.y);
  }

  lemma HalfWidth(lo: real, hi: real, x: real)
    requires lo <= x <= hi
    ensures 4.0 * ((0.5 * (lo + hi) - x) * (0.5 * (lo + hi) - x)) <= (hi - lo) * (hi - lo)
  {
    assert (hi - lo) * (hi - lo) - 4.0 * ((0.5 * (lo + hi) - x) * (0.5 * (lo + hi) - x)) == 4.0 * ((x - lo) * (hi - x));
    assert (x - lo) * (hi - x) >= 0.0;
  }

  /** The squared distance over a detour through b is at most twice the two legs. */
  lemma DetourBound(a: Point, b: Point, c: Point)
    ensures Norm2(Sub(a, c)) <= 2.0 * Norm2(Sub(a, b)) + 2.0 * Norm2(Sub(b, c))
  {
    SquareDetour(a.x, b.x, c.x);
    SquareDetour(a.y, b.y, c.y);
  }

  lemma SquareDetour(x: real, y: real, z: real)
    ensures (x - z) * (x - z) <= 2.0 * ((x - y) * (x - y)) + 2.0 * ((y - z) * (y - z))
  {
    var p, q := x - y, y - z;
    assert (x - z) * (x - z) == (p + q) * (p + q);
    assert (p - q) * (p - q) >= 0.0;
    assert 2.0 * (p * p) + 2.0 * (q * q) - (p + q) * (p + q) == (p - q) * (p - q);
  }
}
