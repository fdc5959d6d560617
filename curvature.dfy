/**
 * `manipulateCurvature(t, B)`: reshape a quadratic or cubic curve so that it
 * passes through the point B at parameter t while keeping its end points.
 *
 * The construction is the "ABC" one: C is the blend of the end points with
 * weight u = (1-t)^n / (t^n + (1-t)^n), r = |(t^n + (1-t)^n - 1) / (t^n + (1-t)^n)|
 * is the ratio |AB| / |BC|, and A = B - (C - B) / r. A quadratic takes A as
 * its middle control point; a cubic rebuilds its two middle control points
 * from the de Casteljau points of the old curve at t shifted by B - B(t).
 * Here n = N - 1 is the degree.
 */
module Curvature {
  import opened Geometry
  import opened Bezier
  import Sturm

  /** The new control points, or the `logic_error` thrown for other orders. */
  datatype Manipulation = Manipulated(points: seq<Point>) | OnlyQuadraticOrCubic

  lemma {:induction false} PowSquare(x: real)
    ensures Sturm.Pow(x, 2) == x * x
  {
    assert Sturm.Pow(x, 1) == x;
  }

  lemma {:induction false} PowSmall(x: real)
    ensures Sturm.Pow(x, 2) == x * x
    ensures Sturm.Pow(x, 3) == x * x * x
  {
    PowSquare(x);
  }

  /** Powers of a positive number are positive. */
  lemma {:induction false} PowPositive(x: real, k: nat)
    requires x > 0.0
    ensures Sturm.Pow(x, k) > 0.0
  {
    if k > 0 {
      PowPositive(x, k - 1);
      Positive(x, Sturm.Pow(x, k - 1));
    }
  }

  /** t^m + (1-t)^m: the sum of the end-point weights at t. */
  function EndSum(m: nat, t: real): real
  {
    Sturm.Pow(t, m) + Sturm.Pow(1.0 - t, m)
  }

  /** For degrees 2 and 3 the end-point weights and the middle weights sum to one. */
  lemma EndSumValue(m: nat, t: real)
    requires m == 2 || m == 3
    ensures m == 2 ==> EndSum(m, t) == 1.0 - 2.0 * (t * (1.0 - t))
    ensures m == 3 ==> EndSum(m, t) == 1.0 - 3.0 * (t * (1.0 - t))
  {
    PowSmall(t);
    PowSmall(1.0 - t);
    if m == 2 {
      SquareSum(t);
    } else {
      CubeSum(t);
    }
  }

  lemma SquareSum(t: real)
    ensures t * t + (1.0 - t) * (1.0 - t) == 1.0 - 2.0 * (t * (1.0 - t))
  {
  }

  lemma CubeSum(t: real)
    ensures t * t * t + (1.0 - t) * (1.0 - t) * (1.0 - t) == 1.0 - 3.0 * (t * (1.0 - t))
  {
    var s1 := 1.0 - t;
    assert s1 * s1 == 1.0 - 2.0 * t + t * t;
    assert (s1 * s1) * s1 == (1.0 - 2.0 * t + t * t) * s1;
  }

  /**
   * For t strictly inside (0, 1) and degree 2 or 3, the end-point weights
   * are positive and their sum is below one, so r is defined and non-zero.
   */
  lemma EndWeights(m: nat, t: real)
    requires m == 2 || m == 3
    requires 0.0 < t < 1.0
    ensures Sturm.Pow(t, m) > 0.0 && Sturm.Pow(1.0 - t, m) > 0.0
    ensures 0.0 < EndSum(m, t) < 1.0
  {
    PowPositive(t, m);
    PowPositive(1.0 - t, m);
    EndSumValue(m, t);
    Interior(t);
  }

  lemma Interior(t: real)
    requires 0.0 < t < 1.0
    ensures t * (1.0 - t) > 0.0
  {
  }

  lemma Positive(x: real, y: real)
    requires x > 0.0 && y > 0.0
    ensures x * y > 0.0
  {
  }

  /** The ratio r of `manipulateCurvature` for degree m at t: r (t^m + (1-t)^m) = 1 - (t^m + (1-t)^m). */
  function Ratio(m: nat, t: real): (r: real)
    requires m == 2 || m == 3
    requires 0.0 < t < 1.0
    ensures r > 0.0 && r * EndSum(m, t) == 1.0 - EndSum(m, t)
  {
    EndWeights(m, t);
    var s := EndSum(m, t);
    AbsRatio(s);
    Sturm.Abs((s - 1.0) / s)
  }

  lemma AbsRatio(s: real)
    requires 0.0 < s < 1.0
    ensures Sturm.Abs((s - 1.0) / s) > 0.0 && Sturm.Abs((s - 1.0) / s) * s == 1.0 - s
  {
    var q := (s - 1.0) / s;
    assert q * s == s - 1.0;
    assert q < 0.0;
  }

  /** The weight u of the first end point in C: u (t^m + (1-t)^m) = (1-t)^m. */
  function FirstWeight(m: nat, t: real): (u: real)
    requires m == 2 || m == 3
    requires 0.0 < t < 1.0
    ensures u * EndSum(m, t) == Sturm.Pow(1.0 - t, m)
  {
    EndWeights(m, t);
    Sturm.Pow(1.0 - t, m) / EndSum(m, t)
  }

  /**
   * One coordinate of the point A: C = u p0 + (1-u) pl blends the end
   * points, and A lies on the line through C and B at ratio r beyond B.
   */
  function AxisA(p0: real, pl: real, b: real, m: nat, t: real): real
    requires m == 2 || m == 3
    requires 0.0 < t < 1.0
  {
    var u := FirstWeight(m, t);
    var c := u * p0 + (1.0 - u) * pl;
    b - (1.0 / Ratio(m, t)) * (c - b)
  }

  /** `AxisA` with its weight, ratio and blend named. */
  lemma AxisAForm(p0: real, pl: real, b: real, m: nat, t: real, u: real, r: real, c: real)
    requires m == 2 || m == 3
    requires 0.0 < t < 1.0
    requires u == FirstWeight(m, t) && r == Ratio(m, t) && c == u * p0 + (1.0 - u) * pl
    ensures AxisA(p0, pl, b, m, t) == b - (1.0 / r) * (c - b)
  {
  }

  /** The point A for a curve of degree |P| - 1. */
  function PointA(P: seq<Point>, t: real, B: Point): Point
    requires |P| == 3 || |P| == 4
    requires 0.0 < t < 1.0
  {
    var m := |P| - 1;
    Point(AxisA(P[0].x, Last(P).x, B.x, m, t), AxisA(P[0].y, Last(P).y, B.y, m, t))
  }

  /**
   * `manipulateCurvature(t, B)`. Curves other than quadratics and cubics are
   * refused before anything is computed. The parameter must lie strictly
   * inside (0, 1), where every division of the construction is defined.
   */
  function Manipulate(P: seq<Point>, t: real, B: Point): (r: Manipulation)
    requires (|P| == 3 || |P| == 4) ==> 0.0 < t < 1.0
    ensures r.OnlyQuadraticOrCubic? <==> |P| != 3 && |P| != 4
    ensures r.Manipulated? ==> |r.points| == |P| && r.points[0] == P[0] && Last(r.points) == Last(P)
  {
    if |P| != 3 && |P| != 4 then OnlyQuadraticOrCubic
    else
      var A := PointA(P, t, B);
      if |P| == 3 then Manipulated([P[0], A, P[2]])
      else
        var moved := CubicMiddle(P, t, B, A);
        Manipulated([P[0], moved.0, moved.1, P[3]])
  }

  /** Undoes one de Casteljau step towards its left point: the x with Mix(x, a, t) = e. */
  function UndoLeft(a: real, e: real, t: real): (x: real)
    requires 0.0 < t < 1.0
    ensures Mix(x, a, t) == e
  {
    a - (1.0 / (1.0 - t)) * (a - e)
  }

  /** Undoes one de Casteljau step towards its right point: the x with Mix(a, x, t) = e. */
  function UndoRight(a: real, e: real, t: real): (x: real)
    requires 0.0 < t < 1.0
    ensures Mix(a, x, t) == e
  {
    a + (1.0 / t) * (e - a)
  }

  /** (1-t)^2 p0 + 2t(1-t) p1 + t^2 p2, shifted by b - v. */
  function Shifted(p0: real, p1: real, p2: real, b: real, v: real, t: real): real
  {
    b + ((Sturm.Pow(1.0 - t, 2) * p0 + (2.0 * t * (1.0 - t)) * p1) + Sturm.Pow(t, 2) * p2) - v
  }

  /**
   * One coordinate of the two new middle control points of a cubic: the
   * second-level de Casteljau points of the old curve at t, shifted by
   * b - v where v is the old value, are undone towards A to give the new
   * first-level points, and those are undone towards the end points.
   */
  function AxisMiddle(p0: real, p1: real, p2: real, p3: real, b: real, a: real, v: real, t: real): (real, real)
    requires 0.0 < t < 1.0
  {
    var v1 := UndoLeft(a, Shifted(p0, p1, p2, b, v, t), t);
    var v2 := UndoRight(a, Shifted(p1, p2, p3, b, v, t), t);
    (UndoRight(p0, v1, t), UndoLeft(p3, v2, t))
  }

  /** The two new middle control points of a cubic. */
  function CubicMiddle(P: seq<Point>, t: real, B: Point, A: Point): (Point, Point)
    requires |P| == 4
    requires 0.0 < t < 1.0
  {
    var V := Value(P, t);
    var x := AxisMiddle(P[0].x, P[1].x, P[2].x, P[3].x, B.x, A.x, V.x, t);
    var y := AxisMiddle(P[0].y, P[1].y, P[2].y, P[3].y, B.y, A.y, V.y, t);
    (Point(x.0, y.0), Point(x.1, y.1))
  }

  /*************************************************************************
   * The manipulated curve passes through B at t
   *************************************************************************/

  lemma {:induction false} ValueOfThree(Q: seq<Point>, t: real)
    requires |Q| == 3
    ensures Value(Q, t) == Lerp(Lerp(Q[0], Q[1], t), Lerp(Q[1], Q[2], t), t)
  {
    assert Q[..2][..1] == [Q[0]] && Q[..2][1..] == [Q[1]];
    assert Q[1..][..1] == [Q[1]] && Q[1..][1..] == [Q[2]];
    assert Value(Q[..2], t) == Lerp(Q[0], Q[1], t);
    assert Value(Q[1..], t) == Lerp(Q[1], Q[2], t);
  }

  lemma {:induction false} ValueOfFour(Q: seq<Point>, t: real)
    requires |Q| == 4
    ensures Value(Q, t) == Lerp(Lerp(Lerp(Q[0], Q[1], t), Lerp(Q[1], Q[2], t), t), Lerp(Lerp(Q[1], Q[2], t), Lerp(Q[2], Q[3], t), t), t)
  {
    ValueOfThree(Q[..3], t);
    ValueOfThree(Q[1..], t);
  }

  /**
   * Whatever point B is asked for, the manipulated quadratic or cubic
   * passes through it at t.
   */
  lemma {:induction false} ManipulatePassesThrough(P: seq<Point>, t: real, B: Point)
    requires |P| == 3 || |P| == 4
    requires 0.0 < t < 1.0
    ensures Manipulate(P, t, B).Manipulated?
    ensures Value(Manipulate(P, t, B).points, t) == B
  {
    var Q := Manipulate(P, t, B).points;
    if |P| == 3 {
      QuadraticPassesThrough(P, t, B, Q);
    } else {
      CubicPassesThrough(P, t, B, Q);
    }
  }

  lemma {:induction false} QuadraticPassesThrough(P: seq<Point>, t: real, B: Point, Q: seq<Point>)
    requires |P| == 3 && 0.0 < t < 1.0
    requires Q == [P[0], PointA(P, t, B), P[2]]
    ensures Value(Q, t) == B
  {
    ValueOfThree(Q, t);
    LerpMix(Q[0], Q[1], t);
    LerpMix(Q[1], Q[2], t);
    LerpMix(Lerp(Q[0], Q[1], t), Lerp(Q[1], Q[2], t), t);
    QuadraticCoordinate(P[0].x, P[2].x, B.x, t);
    QuadraticCoordinate(P[0].y, P[2].y, B.y, t);
  }

  /** One coordinate of the quadratic case: (1-t)^2 p0 + 2t(1-t) a + t^2 p2 = b. */
  lemma QuadraticCoordinate(p0: real, p2: real, b: real, t: real)
    requires 0.0 < t < 1.0
    ensures var a := AxisA(p0, p2, b, 2, t);
            Mix(Mix(p0, a, t), Mix(a, p2, t), t) == b
  {
    var a := AxisA(p0, p2, b, 2, t);
    var u, r, s := FirstWeight(2, t), Ratio(2, t), EndSum(2, t);
    var c := u * p0 + (1.0 - u) * p2;
    var w := 2.0 * (t * (1.0 - t));
    AxisAForm(p0, p2, b, 2, t, u, r, c);
    EndWeights(2, t);
    EndSumValue(2, t);
    RatioInverse(w, s, r);
    BlendScale(s, u, p0, p2, c, Sturm.Pow(t, 2), Sturm.Pow(1.0 - t, 2));
    PullBack(w, s, r, a, b, c);
    QuadraticExpansion(p0, a, p2, t);
    Recombine(s, w, b, c);
  }

  lemma Recombine(s: real, w: real, b: real, c: real)
    requires s + w == 1.0
    ensures s * c + (w * b - s * (c - b)) == b
  {
    assert s * b + w * b == (s + w) * b;
  }

  lemma {:induction false} CubicPassesThrough(P: seq<Point>, t: real, B: Point, Q: seq<Point>)
    requires |P| == 4 && 0.0 < t < 1.0
    requires Q == [P[0], CubicMiddle(P, t, B, PointA(P, t, B)).0, CubicMiddle(P, t, B, PointA(P, t, B)).1, P[3]]
    ensures Value(Q, t) == B
  {
    ValueOfFourMix(P, t);
    ValueOfFourMix(Q, t);
    var A, V := PointA(P, t, B), Value(P, t);
    CubicCoordinate(P[0].x, P[1].x, P[2].x, P[3].x, B.x, A.x, V.x, t);
    CubicCoordinate(P[0].y, P[1].y, P[2].y, P[3].y, B.y, A.y, V.y, t);
  }

  /** The value of a cubic, coordinate by coordinate. */
  lemma {:induction false} ValueOfFourMix(Q: seq<Point>, t: real)
    requires |Q| == 4
    ensures Value(Q, t).x == Mix(Mix(Mix(Q[0].x, Q[1].x, t), Mix(Q[1].x, Q[2].x, t), t), Mix(Mix(Q[1].x, Q[2].x, t), Mix(Q[2].x, Q[3].x, t), t), t)
    ensures Value(Q, t).y == Mix(Mix(Mix(Q[0].y, Q[1].y, t), Mix(Q[1].y, Q[2].y, t), t), Mix(Mix(Q[1].y, Q[2].y, t), Mix(Q[2].y, Q[3].y, t), t), t)
  {
    ValueOfFour(Q, t);
    LerpMix(Q[0], Q[1], t);
    LerpMix(Q[1], Q[2], t);
    LerpMix(Q[2], Q[3], t);
    LerpMix(Lerp(Q[0], Q[1], t), Lerp(Q[1], Q[2], t), t);
    LerpMix(Lerp(Q[1], Q[2], t), Lerp(Q[2], Q[3], t), t);
    LerpMix(Lerp(Lerp(Q[0], Q[1], t), Lerp(Q[1], Q[2], t), t), Lerp(Lerp(Q[1], Q[2], t), Lerp(Q[2], Q[3], t), t), t);
  }

  /** One coordinate of the cubic case, split into the steps of the construction. */
  lemma CubicCoordinate(p0: real, p1: real, p2: real, p3: real, b: real, a: real, v: real, t: real)
    requires 0.0 < t < 1.0
    requires a == AxisA(p0, p3, b, 3, t)
    requires v == Mix(Mix(Mix(p0, p1, t), Mix(p1, p2, t), t), Mix(Mix(p1, p2, t), Mix(p2, p3, t), t), t)
    ensures var q := AxisMiddle(p0, p1, p2, p3, b, a, v, t);
            Mix(Mix(Mix(p0, q.0, t), Mix(q.0, q.1, t), t), Mix(Mix(q.0, q.1, t), Mix(q.1, p3, t), t), t) == b
  {
    var f1, f2 := Shifted(p0, p1, p2, b, v, t), Shifted(p1, p2, p3, b, v, t);
    var v1, v2 := UndoLeft(a, f1, t), UndoRight(a, f2, t);
    var q1, q2 := UndoRight(p0, v1, t), UndoLeft(p3, v2, t);
    assert AxisMiddle(p0, p1, p2, p3, b, a, v, t) == (q1, q2);
    CubicBlendStep(p0, p1, p2, p3, b, t, v);
    CubicAnchor(p0, p3, b, a, t);
    CubicMiddleStep(q1, q2, t, v1, v2, p0, p3, f1, f2, a, b);
  }

  /** The anchor relation of A in the cubic case: 3t(1-t) a = b - (1-t)^3 p0 - t^3 p3. */
  lemma CubicAnchor(p0: real, p3: real, b: real, a: real, t: real)
    requires 0.0 < t < 1.0
    requires a == AxisA(p0, p3, b, 3, t)
    ensures 3.0 * (t * (1.0 - t)) * a == b - (Sturm.Pow(1.0 - t, 3) * p0 + Sturm.Pow(t, 3) * p3)
  {
    var u, r, s := FirstWeight(3, t), Ratio(3, t), EndSum(3, t);
    var c := u * p0 + (1.0 - u) * p3;
    var w := 3.0 * (t * (1.0 - t));
    AxisAForm(p0, p3, b, 3, t, u, r, c);
    CubicWeightsStep(p0, p3, b, t, s, r, u, c, a, w);
    Recombine(s, w, b, c);
  }

  /** The ratio and blend of the cubic case: s c = (1-t)^3 p0 + t^3 p3 and w a = w b - s (c - b). */
  lemma CubicWeightsStep(p0: real, p3: real, b: real, t: real, s: real, r: real, u: real, c: real, a: real, w: real)
    requires 0.0 < t < 1.0
    requires s == EndSum(3, t)
    requires r > 0.0 && r * s == 1.0 - s
    requires u * s == Sturm.Pow(1.0 - t, 3)
    requires c == u * p0 + (1.0 - u) * p3
    requires a == b - (1.0 / r) * (c - b)
    requires w == 3.0 * (t * (1.0 - t))
    ensures s * c == Sturm.Pow(1.0 - t, 3) * p0 + Sturm.Pow(t, 3) * p3
    ensures s + w == 1.0
    ensures w * a == w * b - s * (c - b)
  {
    EndWeights(3, t);
    EndSumValue(3, t);
    RatioInverse(w, s, r);
    BlendScale(s, u, p0, p3, c, Sturm.Pow(t, 3), Sturm.Pow(1.0 - t, 3));
    PullBack(w, s, r, a, b, c);
  }

  lemma RatioInverse(w: real, s: real, r: real)
    requires s > 0.0 && r > 0.0 && r * s == w
    ensures w * (1.0 / r) == s
  {
    assert w * (1.0 / r) == (r * s) * (1.0 / r);
  }

  lemma BlendScale(s: real, u: real, p0: real, p3: real, c: real, a3: real, b3: real)
    requires s == a3 + b3 && u * s == b3 && c == u * p0 + (1.0 - u) * p3
    ensures s * c == b3 * p0 + a3 * p3
  {
    assert s * (1.0 - u) == a3;
  }

  lemma PullBack(w: real, s: real, r: real, a: real, b: real, c: real)
    requires r != 0.0 && w * (1.0 / r) == s && a == b - (1.0 / r) * (c - b)
    ensures w * a == w * b - s * (c - b)
  {
    var k := 1.0 / r;
    assert w * a == w * b - (w * k) * (c - b);
  }

  /** The old curve's value is the blend of its two second-level de Casteljau points. */
  lemma CubicBlendStep(p0: real, p1: real, p2: real, p3: real, b: real, t: real, v: real)
    requires v == Mix(Mix(Mix(p0, p1, t), Mix(p1, p2, t), t), Mix(Mix(p1, p2, t), Mix(p2, p3, t), t), t)
    ensures Mix(Shifted(p0, p1, p2, b, v, t), Shifted(p1, p2, p3, b, v, t), t) == b
  {
    QuadraticExpansion(p0, p1, p2, t);
    QuadraticExpansion(p1, p2, p3, t);
  }

  /** The quadratic de Casteljau value in Bernstein form. */
  lemma QuadraticExpansion(p0: real, p1: real, p2: real, t: real)
    ensures Mix(Mix(p0, p1, t), Mix(p1, p2, t), t)
      == (Sturm.Pow(1.0 - t, 2) * p0 + (2.0 * t * (1.0 - t)) * p1) + Sturm.Pow(t, 2) * p2
  {
    PowSquare(1.0 - t);
    PowSquare(t);
    QuadraticWeights(p0, p1, p2, t, Sturm.Pow(1.0 - t, 2), Sturm.Pow(t, 2));
  }

  /** `QuadraticExpansion` with a and c standing for the squares of 1 - t and t. */
  lemma QuadraticWeights(p0: real, p1: real, p2: real, t: real, a: real, c: real)
    requires a == (1.0 - t) * (1.0 - t) && c == t * t
    ensures Mix(Mix(p0, p1, t), Mix(p1, p2, t), t) == (a * p0 + (2.0 * t * (1.0 - t)) * p1) + c * p2
  {
    QuadraticAlgebra(1.0 - t, t, p0, p1, p2, Mix(p0, p1, t), Mix(p1, p2, t), Mix(Mix(p0, p1, t), Mix(p1, p2, t), t));
  }

  lemma QuadraticAlgebra(s: real, t: real, p0: real, p1: real, p2: real, e0: real, e1: real, v: real)
    requires e0 == s * p0 + t * p1 && e1 == s * p1 + t * p2 && v == s * e0 + t * e1
    ensures v == ((s * s) * p0 + (2.0 * t * s) * p1) + (t * t) * p2
  {
    assert s * e0 == (s * s) * p0 + (s * t) * p1;
    assert t * e1 == (t * s) * p1 + (t * t) * p2;
  }

  /** The middle de Casteljau point of the new cubic at t is A. */
  lemma CubicMiddleStep(q1: real, q2: real, t: real, v1: real, v2: real, p0: real, p3: real,
                        f1: real, f2: real, a: real, b: real)
    requires 0.0 < t < 1.0
    requires Mix(p0, q1, t) == v1 && Mix(q2, p3, t) == v2
    requires Mix(v1, a, t) == f1 && Mix(a, v2, t) == f2
    requires Mix(f1, f2, t) == b
    requires 3.0 * (t * (1.0 - t)) * a == b - (Sturm.Pow(1.0 - t, 3) * p0 + Sturm.Pow(t, 3) * p3)
    ensures Mix(q1, q2, t) == a
  {
    MiddleIdentity(q1, q2, t, v1, v2, p0, p3, f1, f2, a, b);
    Cancel(t, Mix(q1, q2, t), a, b - (Sturm.Pow(1.0 - t, 3) * p0 + Sturm.Pow(t, 3) * p3));
  }

  /** With the new control points, b is the end terms plus t(1-t) times (Mix(q1, q2, t) + 2 a). */
  lemma MiddleIdentity(q1: real, q2: real, t: real, v1: real, v2: real, p0: real, p3: real,
                       f1: real, f2: real, a: real, b: real)
    requires Mix(p0, q1, t) == v1 && Mix(q2, p3, t) == v2
    requires Mix(v1, a, t) == f1 && Mix(a, v2, t) == f2
    requires Mix(f1, f2, t) == b
    ensures t * (1.0 - t) * Mix(q1, q2, t) + 2.0 * (t * (1.0 - t)) * a
      == b - (Sturm.Pow(1.0 - t, 3) * p0 + Sturm.Pow(t, 3) * p3)
  {
    MiddleAlgebra(q1, q2, t, 1.0 - t, v1, v2, p0, p3, f1, f2, a, b);
  }

  /** `MiddleIdentity` with s standing for 1 - t. */
  lemma {:induction false} MiddleAlgebra(q1: real, q2: real, t: real, s: real, v1: real, v2: real, p0: real, p3: real,
                      f1: real, f2: real, a: real, b: real)
    requires s == 1.0 - t
    requires Mix(p0, q1, t) == v1 && Mix(q2, p3, t) == v2
    requires Mix(v1, a, t) == f1 && Mix(a, v2, t) == f2
    requires Mix(f1, f2, t) == b
    ensures t * s * Mix(q1, q2, t) + 2.0 * (t * s) * a == b - (Sturm.Pow(s, 3) * p0 + Sturm.Pow(t, 3) * p3)
  {
    OuterStep(t, s, v1, v2, f1, f2, a, b);
    LeftStep(t, s, p0, q1, v1);
    RightStep(t, s, q2, p3, v2);
    CenterStep(t, s, q1, q2);
  }

  lemma OuterStep(t: real, s: real, v1: real, v2: real, f1: real, f2: real, a: real, b: real)
    requires s == 1.0 - t && Mix(v1, a, t) == f1 && Mix(a, v2, t) == f2 && Mix(f1, f2, t) == b
    ensures b == (s * s) * v1 + 2.0 * (t * s) * a + (t * t) * v2
  {
    MixWith(v1, a, t, s, f1);
    MixWith(a, v2, t, s, f2);
    MixWith(f1, f2, t, s, b);
    OuterMix(t, s, v1, v2, f1, f2, a, b);
  }

  lemma {:induction false} LeftStep(t: real, s: real, p0: real, q1: real, v1: real)
    requires s == 1.0 - t && Mix(p0, q1, t) == v1
    ensures (s * s) * v1 == Sturm.Pow(s, 3) * p0 + (t * s * s) * q1
  {
    MixWith(p0, q1, t, s, v1);
    CubeTerm(s, p0);
    InnerMix(s, t, p0, q1, v1);
  }

  lemma {:induction false} RightStep(t: real, s: real, q2: real, p3: real, v2: real)
    requires s == 1.0 - t && Mix(q2, p3, t) == v2
    ensures (t * t) * v2 == (s * t * t) * q2 + Sturm.Pow(t, 3) * p3
  {
    MixWith(q2, p3, t, s, v2);
    CubeTerm(t, p3);
    InnerMix(t, s, p3, q2, v2);
  }

  lemma CenterStep(t: real, s: real, q1: real, q2: real)
    requires s == 1.0 - t
    ensures t * s * Mix(q1, q2, t) == (t * s * s) * q1 + (s * t * t) * q2
  {
    MixWith(q1, q2, t, s, Mix(q1, q2, t));
    MiddleMix(t, s, q1, q2, Mix(q1, q2, t));
  }

  /** Mix in terms of s = 1 - t. */
  lemma MixWith(x: real, y: real, t: real, s: real, v: real)
    requires s == 1.0 - t && Mix(x, y, t) == v
    ensures v == s * x + t * y
  {
  }

  lemma {:induction false} CubeTerm(x: real, p: real)
    ensures Sturm.Pow(x, 3) * p == x * (x * (x * p))
  {
    PowSmall(x);
  }

  /** b = s^2 v1 + 2 t s a + t^2 v2. */
  lemma OuterMix(t: real, s: real, v1: real, v2: real, f1: real, f2: real, a: real, b: real)
    requires f1 == s * v1 + t * a && f2 == s * a + t * v2 && b == s * f1 + t * f2
    ensures b == (s * s) * v1 + 2.0 * (t * s) * a + (t * t) * v2
  {
    assert s * f1 == (s * s) * v1 + (t * s) * a;
    assert t * f2 == (t * s) * a + (t * t) * v2;
  }

  /** x^2 v = x^3 p + t x^2 q for v = x p + y q. */
  lemma InnerMix(x: real, y: real, p: real, q: real, v: real)
    requires v == x * p + y * q || v == y * q + x * p
    ensures (x * x) * v == x * (x * (x * p)) + (y * x * x) * q
  {
    assert (x * x) * (x * p) == x * (x * (x * p));
    assert (x * x) * (y * q) == (y * x * x) * q;
  }

  /** t s m = t s^2 q1 + t^2 s q2 for m = s q1 + t q2. */
  lemma MiddleMix(t: real, s: real, q1: real, q2: real, m: real)
    requires m == s * q1 + t * q2
    ensures t * s * m == (t * s * s) * q1 + (s * t * t) * q2
  {
    assert (t * s) * (s * q1) == (t * s * s) * q1;
    assert (t * s) * (t * q2) == (s * t * t) * q2;
  }

  /** Dividing by t(1-t), which is positive inside (0, 1). */
  lemma Cancel(t: real, m: real, a: real, e: real)
    requires 0.0 < t < 1.0
    requires t * (1.0 - t) * m + 2.0 * (t * (1.0 - t)) * a == e
    requires 3.0 * (t * (1.0 - t)) * a == e
    ensures m == a
  {
    var k := t * (1.0 - t);
    Interior(t);
    Divide(k, m, a);
  }

  lemma Divide(k: real, m: real, a: real)
    requires k > 0.0 && k * m == k * a
    ensures m == a
  {
    assert m == (k * m) / k;
  }
}
