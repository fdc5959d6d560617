/**
 * `projectPoint`: the parameter of the curve point nearest to a given point.
 *
 * The library caches the coefficients (lowest degree first) of C(t) . C'(t),
 * where C is the curve's power-basis polynomial and C' that of its
 * derivative curve; for a point q it subtracts q . C'(t), so the polynomial
 * is (C(t) - q) . C'(t), half the derivative of the squared distance. Its
 * real roots in [0, 1] are the candidates; the answer is the nearer end
 * point unless some candidate is strictly nearer still.
 */
module Projection {
  import opened Geometry
  import opened Bezier
  import Sturm

  /*************************************************************************
   * Polynomials in the power basis, lowest degree first
   *************************************************************************/

  /** c[0] + c[1] t + c[2] t^2 + ... */
  function PolyAt(c: seq<real>, t: real): real
  {
    if |c| == 0 then 0.0 else c[0] + t * PolyAt(c[1..], t)
  }

  /** One coordinate of a sequence of points. */
  function Column(C: seq<Point>, axis: Axis): (r: seq<real>)
    ensures |r| == |C|
  {
    seq(|C|, j requires 0 <= j < |C| => Coord(C[j], axis))
  }

  /** A polynomial with point coefficients, evaluated coordinatewise. */
  function PointsAt(C: seq<Point>, t: real): Point
  {
    Point(PolyAt(Column(C, X), t), PolyAt(Column(C, Y), t))
  }

  /** The first k terms of a power-basis polynomial: c[0] + c[1] t + ... + c[k-1] t^(k-1). */
  function PolyTo(c: seq<real>, k: nat, t: real): real
    requires k <= |c|
  {
    if k == 0 then 0.0 else PolyTo(c, k - 1, t) + Sturm.Pow(t, k - 1) * c[k - 1]
  }

  /** The first k terms of a polynomial with point coefficients. */
  function PointsTo(C: seq<Point>, k: nat, t: real): Point
    requires k <= |C|
  {
    Point(PolyTo(Column(C, X), k, t), PolyTo(Column(C, Y), k, t))
  }

  /** Summing all the terms gives the Horner value. */
  lemma {:induction false} PolyToAll(c: seq<real>, t: real)
    ensures PolyTo(c, |c|, t) == PolyAt(c, t)
  {
    PolyToPrefix(c, |c|, t);
    assert c[..|c|] == c;
  }

  lemma {:induction false} PolyToPrefix(c: seq<real>, k: nat, t: real)
    requires k <= |c|
    ensures PolyTo(c, k, t) == PolyAt(c[..k], t)
  {
    if k > 0 {
      PolyToPrefix(c, k - 1, t);
      assert c[..k] == c[..k - 1] + [c[k - 1]];
      PolyAtAppend(c[..k - 1], c[k - 1], c[..k], k - 1, t);
    } else {
      assert c[..0] == [];
    }
  }

  function AddVec(a: seq<real>, b: seq<real>): (r: seq<real>)
    requires |a| == |b|
    ensures |r| == |a| && forall i :: 0 <= i < |a| ==> r[i] == a[i] + b[i]
  {
    seq(|a|, i requires 0 <= i < |a| => a[i] + b[i])
  }

  function ScaleVec(s: real, a: seq<real>): (r: seq<real>)
    ensures |r| == |a| && forall i :: 0 <= i < |a| ==> r[i] == s * a[i]
  {
    seq(|a|, i requires 0 <= i < |a| => s * a[i])
  }

  lemma {:induction false} PolyAtAdd(a: seq<real>, b: seq<real>, t: real)
    requires |a| == |b|
    ensures PolyAt(AddVec(a, b), t) == PolyAt(a, t) + PolyAt(b, t)
    decreases |a|
  {
    if |a| > 0 {
      assert AddVec(a, b)[1..] == AddVec(a[1..], b[1..]);
      PolyAtAdd(a[1..], b[1..], t);
    }
  }

  lemma {:induction false} PolyAtScale(s: real, a: seq<real>, t: real)
    ensures PolyAt(ScaleVec(s, a), t) == s * PolyAt(a, t)
    decreases |a|
  {
    if |a| > 0 {
      var v := ScaleVec(s, a);
      assert v[1..] == ScaleVec(s, a[1..]) by {
        forall i | 0 <= i < |a| - 1
          ensures v[1..][i] == ScaleVec(s, a[1..])[i]
        {
          assert v[1..][i] == v[i + 1] == s * a[i + 1];
        }
      }
      PolyAtScale(s, a[1..], t);
      var p, y := PolyAt(a[1..], t), PolyAt(v[1..], t);
      assert y == s * p;
      MulEq(t, y, s * p);
      assert t * (s * p) == s * (t * p);
    }
  }

  /** Trailing zero coefficients change nothing. */
  lemma {:induction false} PolyAtTrailingZeros(a: seq<real>, m: nat, t: real)
    ensures PolyAt(a + Sturm.Zeros(m), t) == PolyAt(a, t)
    decreases |a| + m
  {
    if |a| > 0 {
      assert (a + Sturm.Zeros(m))[1..] == a[1..] + Sturm.Zeros(m);
      PolyAtTrailingZeros(a[1..], m, t);
    } else if m > 0 {
      assert (a + Sturm.Zeros(m))[1..] == [] + Sturm.Zeros(m - 1);
      PolyAtTrailingZeros([], m - 1, t);
    }
  }

  /** k leading zero coefficients multiply by t^k: if a evaluates to v, Zeros(k) + a evaluates to t^k v. */
  lemma {:induction false} PolyAtLeadingZeros(k: nat, a: seq<real>, v: real, t: real)
    requires PolyAt(a, t) == v
    ensures PolyAt(Sturm.Zeros(k) + a, t) == Sturm.Pow(t, k) * v
    decreases k
  {
    if k > 0 {
      PolyAtLeadingZeros(k - 1, a, v, t);
      LeadingZeroStep(k, a, v, t);
    } else {
      NoLeadingZeros(a, v, t);
    }
  }

  lemma NoLeadingZeros(a: seq<real>, v: real, t: real)
    requires PolyAt(a, t) == v
    ensures PolyAt(Sturm.Zeros(0) + a, t) == Sturm.Pow(t, 0) * v
  {
    assert Sturm.Zeros(0) + a == a;
  }

  lemma {:induction false} LeadingZeroStep(k: nat, a: seq<real>, v: real, t: real)
    requires k > 0
    requires PolyAt(Sturm.Zeros(k - 1) + a, t) == Sturm.Pow(t, k - 1) * v
    ensures PolyAt(Sturm.Zeros(k) + a, t) == Sturm.Pow(t, k) * v
  {
    var z := Sturm.Zeros(k) + a;
    var z1 := z[1..];
    assert z1 == Sturm.Zeros(k - 1) + a;
    assert z[0] == 0.0;
  }

  lemma MulEq(a: real, b: real, c: real)
    requires b == c
    ensures a * b == a * c
  {
  }

  /** Appending a coefficient adds its term. */
  lemma {:induction false} PolyAtAppend(a: seq<real>, x: real, b: seq<real>, n: nat, t: real)
    requires b == a + [x] && n == |a|
    ensures PolyAt(b, t) == PolyAt(a, t) + Sturm.Pow(t, n) * x
    decreases |a|
  {
    if |a| > 0 {
      var b1 := b[1..];
      assert b1 == a[1..] + [x];
      PolyAtAppend(a[1..], x, b1, n - 1, t);
      assert PolyAt(b, t) == b[0] + t * PolyAt(b1, t);
      assert PolyAt(a, t) == a[0] + t * PolyAt(a[1..], t);
      AppendStep(PolyAt(b, t), PolyAt(a, t), PolyAt(b1, t), PolyAt(a[1..], t), a[0],
                 Sturm.Pow(t, n - 1), Sturm.Pow(t, n), x, t);
    } else {
      assert PolyAt(b, t) == x + t * PolyAt(b[1..], t);
      assert b[1..] == [];
    }
  }

  /** One step of `PolyAtAppend`, on the values alone. */
  lemma AppendStep(Pb: real, Pa: real, Pb1: real, Pa1: real, a0: real, w: real, pw: real, x: real, t: real)
    requires Pb == a0 + t * Pb1 && Pa == a0 + t * Pa1 && Pb1 == Pa1 + w * x && pw == t * w
    ensures Pb == Pa + pw * x
  {
    assert t * (Pa1 + w * x) == t * Pa1 + (t * w) * x;
  }

  /*************************************************************************
   * The cached part: C(t) . C'(t)
   *************************************************************************/

  /** The products D[j] . c, the coefficients of D(t) . c. */
  function DotRow(c: Point, D: seq<Point>): (r: seq<real>)
    ensures |r| == |D| && forall j :: 0 <= j < |D| ==> r[j] == Dot(D[j], c)
  {
    seq(|D|, j requires 0 <= j < |D| => Dot(D[j], c))
  }

  lemma {:induction false} DotRowValue(c: Point, D: seq<Point>, t: real)
    ensures PolyAt(DotRow(c, D), t) == Dot(PointsAt(D, t), c)
  {
    DotRowSplit(c, D);
    DotOfColumns(c, Column(D, X), Column(D, Y), t);
  }

  /** c.x xs + c.y ys evaluates to the dot product of (xs(t), ys(t)) with c. */
  lemma {:induction false} DotOfColumns(c: Point, xs: seq<real>, ys: seq<real>, t: real)
    requires |xs| == |ys|
    ensures PolyAt(AddVec(ScaleVec(c.x, xs), ScaleVec(c.y, ys)), t) == Dot(Point(PolyAt(xs, t), PolyAt(ys, t)), c)
  {
    var u, v := ScaleVec(c.x, xs), ScaleVec(c.y, ys);
    PolyAtAdd(u, v, t);
    PolyAtScale(c.x, xs, t);
    PolyAtScale(c.y, ys, t);
  }

  /** The dot-product row is c.x times the x column plus c.y times the y column. */
  lemma DotRowSplit(c: Point, D: seq<Point>)
    ensures DotRow(c, D) == AddVec(ScaleVec(c.x, Column(D, X)), ScaleVec(c.y, Column(D, Y)))
  {
    var sum := AddVec(ScaleVec(c.x, Column(D, X)), ScaleVec(c.y, Column(D, Y)));
    forall j | 0 <= j < |D|
      ensures DotRow(c, D)[j] == sum[j]
    {
      assert sum[j] == c.x * D[j].x + c.y * D[j].y;
    }
  }

  /** A row placed at offset k in a vector of the given size. */
  function Shifted(row: seq<real>, k: nat, size: nat): (r: seq<real>)
    requires k + |row| <= size
    ensures |r| == size
  {
    Sturm.Zeros(k) + (row + Sturm.Zeros(size - k - |row|))
  }

  lemma {:induction false} ShiftedValue(row: seq<real>, k: nat, size: nat, t: real)
    requires k + |row| <= size
    ensures PolyAt(Shifted(row, k, size), t) == Sturm.Pow(t, k) * PolyAt(row, t)
  {
    var m := size - k - |row|;
    var tail := row + Sturm.Zeros(m);
    assert Shifted(row, k, size) == Sturm.Zeros(k) + tail;
    PolyAtTrailingZeros(row, m, t);
    PolyAtLeadingZeros(k, tail, PolyAt(row, t), t);
  }

  /** `middleRows(k, |row|) += row`. */
  function AddAt(v: seq<real>, row: seq<real>, k: nat): (r: seq<real>)
    requires k + |row| <= |v|
    ensures |r| == |v|
  {
    seq(|v|, i requires 0 <= i < |v| => if k <= i < k + |row| then v[i] + row[i - k] else v[i])
  }

  lemma AddAtShifted(v: seq<real>, row: seq<real>, k: nat)
    requires k + |row| <= |v|
    ensures AddAt(v, row, k) == AddVec(v, Shifted(row, k, |v|))
  {
    var s := Shifted(row, k, |v|);
    forall i | 0 <= i < |v|
      ensures s[i] == if k <= i < k + |row| then row[i - k] else 0.0
    {
      if i < k {
        assert s[i] == Sturm.Zeros(k)[i];
      } else if i < k + |row| {
        assert s[i] == (row + Sturm.Zeros(|v| - k - |row|))[i - k];
      } else {
        assert s[i] == (row + Sturm.Zeros(|v| - k - |row|))[i - k];
      }
    }
  }

  /** The part after the first k passes of the accumulation loop. */
  function PartAfter(C: seq<Point>, D: seq<Point>, k: nat): (r: seq<real>)
    requires |D| >= 1 && k <= |C|
    ensures |r| == |C| + |D| - 1
  {
    if k == 0 then Sturm.Zeros(|C| + |D| - 1)
    else AddVec(PartAfter(C, D, k - 1), Shifted(DotRow(C[k - 1], D), k - 1, |C| + |D| - 1))
  }

  /**
   * The loop that fills the cached part: pass k adds D[j] . C[k] at
   * position k + j.
   */
  method ProjectionPart(C: seq<Point>, D: seq<Point>) returns (part: seq<real>)
    requires |D| >= 1
    ensures part == PartAfter(C, D, |C|)
  {
    var size := |C| + |D| - 1;
    part := Sturm.Zeros(size);
    var k := 0;
    while k < |C|
      invariant 0 <= k <= |C|
      invariant part == PartAfter(C, D, k)
    {
      var row := DotRow(C[k], D);
      AddAtShifted(part, row, k);
      part := AddAt(part, row, k);
      k := k + 1;
    }
  }

  /** The part after k passes evaluates to D(t) . (C[0] + C[1] t + ... + C[k-1] t^(k-1)). */
  lemma {:induction false} PartAfterValue(C: seq<Point>, D: seq<Point>, k: nat, t: real)
    requires |D| >= 1 && k <= |C|
    ensures PolyAt(PartAfter(C, D, k), t) == Dot(PointsAt(D, t), PointsTo(C, k, t))
  {
    if k == 0 {
      PartAfterNone(C, D, t);
    } else {
      PartAfterValue(C, D, k - 1, t);
      PartAfterStep(C, D, k, t);
      PrefixStep(C, D, k, t);
    }
  }

  lemma {:induction false} PartAfterNone(C: seq<Point>, D: seq<Point>, t: real)
    requires |D| >= 1
    ensures PolyAt(PartAfter(C, D, 0), t) == Dot(PointsAt(D, t), PointsTo(C, 0, t))
  {
    assert Sturm.Zeros(|C| + |D| - 1) == [] + Sturm.Zeros(|C| + |D| - 1);
    PolyAtTrailingZeros([], |C| + |D| - 1, t);
  }

  /** D(t) . (first k terms) is D(t) . (first k - 1 terms) plus t^(k-1) D(t) . C[k-1]. */
  lemma PrefixStep(C: seq<Point>, D: seq<Point>, k: nat, t: real)
    requires 1 <= k <= |C|
    ensures Dot(PointsAt(D, t), PointsTo(C, k, t))
      == Dot(PointsAt(D, t), PointsTo(C, k - 1, t)) + Sturm.Pow(t, k - 1) * Dot(PointsAt(D, t), C[k - 1])
  {
    var j := k - 1;
    PrefixPoints(C, k, t);
    DotStep(PointsAt(D, t), PointsTo(C, j, t), C[j], Sturm.Pow(t, j), PointsTo(C, k, t));
  }

  /** The first k terms are the first k - 1 terms plus t^(k-1) C[k-1]. */
  lemma PrefixPoints(C: seq<Point>, k: nat, t: real)
    requires 1 <= k <= |C|
    ensures PointsTo(C, k, t).x == PointsTo(C, k - 1, t).x + Sturm.Pow(t, k - 1) * C[k - 1].x
    ensures PointsTo(C, k, t).y == PointsTo(C, k - 1, t).y + Sturm.Pow(t, k - 1) * C[k - 1].y
  {
    var j := k - 1;
    assert Column(C, X)[j] == C[j].x && Column(C, Y)[j] == C[j].y;
    MulEq(Sturm.Pow(t, j), Column(C, X)[j], C[j].x);
    MulEq(Sturm.Pow(t, j), Column(C, Y)[j], C[j].y);
  }

  /** Pass k - 1 adds t^(k-1) D(t) . C[k-1]. */
  lemma PartAfterStep(C: seq<Point>, D: seq<Point>, k: nat, t: real)
    requires |D| >= 1 && 1 <= k <= |C|
    ensures PolyAt(PartAfter(C, D, k), t) == PolyAt(PartAfter(C, D, k - 1), t) + Sturm.Pow(t, k - 1) * Dot(PointsAt(D, t), C[k - 1])
  {
    var size := |C| + |D| - 1;
    var j := k - 1;
    var prev := PartAfter(C, D, j);
    var row := DotRow(C[j], D);
    var sh := Shifted(row, j, size);
    assert PartAfter(C, D, k) == AddVec(prev, sh);
    PolyAtAdd(prev, sh, t);
    ShiftedValue(row, j, size, t);
    DotRowValue(C[j], D, t);
    MulEq(Sturm.Pow(t, j), PolyAt(row, t), Dot(PointsAt(D, t), C[j]));
  }

  lemma DotStep(a: Point, b: Point, c: Point, w: real, n: Point)
    requires n.x == b.x + w * c.x && n.y == b.y + w * c.y
    ensures Dot(a, n) == Dot(a, b) + w * Dot(a, c)
  {
  }

  /**
   * The polynomial for a point q: the cached part with q . D[j] taken off
   * coefficient j.
   */
  function ProjectionPoly(part: seq<real>, D: seq<Point>, q: Point): (r: seq<real>)
    requires |D| <= |part|
    ensures |r| == |part|
  {
    seq(|part|, i requires 0 <= i < |part| => if i < |D| then part[i] - Dot(D[i], q) else part[i])
  }

  /**
   * The projection polynomial is (C(t) - q) . D(t): with D the derivative's
   * polynomial, its roots are the parameters where the distance to q is
   * stationary.
   */
  lemma {:induction false} ProjectionPolyValue(C: seq<Point>, D: seq<Point>, q: Point, t: real)
    requires |C| >= 1 && |D| >= 1
    ensures PolyAt(ProjectionPoly(PartAfter(C, D, |C|), D, q), t) == Dot(Sub(PointsAt(C, t), q), PointsAt(D, t))
  {
    var part := PartAfter(C, D, |C|);
    ProjectionPolyOffset(part, D, q, t);
    PartAfterValue(C, D, |C|, t);
    PolyToAll(Column(C, X), t);
    PolyToAll(Column(C, Y), t);
    assert PointsTo(C, |C|, t) == PointsAt(C, t);
    DotSub(PointsAt(C, t), q, PointsAt(D, t));
  }

  /**
   * With the curve's own power forms, the projection polynomial at t is
   * (B(t) - q) . B'(t), where B' is the derivative curve: its roots are the
   * parameters where the curve's tangent is perpendicular to q - B(t).
   */
  lemma {:induction false} ProjectionPolyOfCurve(P: seq<Point>, q: Point, t: real)
    requires |P| >= 2
    ensures var D := PowerPoly(Derivative(P));
      PolyAt(ProjectionPoly(PartAfter(PowerPoly(P), D, |P|), D, q), t) == Dot(Sub(Value(P, t), q), Value(Derivative(P), t))
  {
    var D := PowerPoly(Derivative(P));
    ProjectionPolyValue(PowerPoly(P), D, q, t);
    PowerPointsValue(P, t);
    PowerPointsValue(Derivative(P), t);
  }

  /** The power form evaluated coordinatewise is the curve. */
  lemma {:induction false} PowerPointsValue(P: seq<Point>, t: real)
    ensures PointsAt(PowerPoly(P), t) == Value(P, t)
  {
    PointsAtHorner(PowerPoly(P), t);
    PowerPolyValue(P, t);
  }

  /** One column of the curve's power form evaluates to that coordinate of the curve. */
  lemma {:induction false} PowerCoeffsValue(P: seq<Point>, axis: Axis, t: real)
    ensures PolyAt(PowerCoeffs(P, axis), t) == Coord(Value(P, t), axis)
  {
    assert PowerCoeffs(P, axis) == Column(PowerPoly(P), axis);
    PowerPointsValue(P, t);
  }

  /**
   * The polynomial `roots()` hands the solver for one axis, the power-form
   * column with its trailing zeros trimmed, is that coordinate of the curve.
   */
  lemma {:induction false} AxisPolynomialValue(P: seq<Point>, axis: Axis, t: real)
    ensures PolyAt(TrimTrailing(PowerCoeffs(P, axis)), t) == Coord(Value(P, t), axis)
  {
    var c := PowerCoeffs(P, axis);
    var r := TrimTrailing(c);
    assert c == r + Sturm.Zeros(|c| - |r|);
    PolyAtTrailingZeros(r, |c| - |r|, t);
    PowerCoeffsValue(P, axis, t);
  }

  /** Coordinatewise evaluation and Horner's rule on points agree. */
  lemma {:induction false} PointsAtHorner(C: seq<Point>, t: real)
    ensures PointsAt(C, t) == PowerValue(C, t)
    decreases |C|
  {
    if |C| > 0 {
      assert Column(C, X)[1..] == Column(C[1..], X);
      assert Column(C, Y)[1..] == Column(C[1..], Y);
      PointsAtHorner(C[1..], t);
    }
  }

  /** Taking q . D[j] off the coefficients takes q . D(t) off the value. */
  lemma {:induction false} ProjectionPolyOffset(part: seq<real>, D: seq<Point>, q: Point, t: real)
    requires |D| <= |part|
    ensures PolyAt(ProjectionPoly(part, D, q), t) == PolyAt(part, t) - Dot(PointsAt(D, t), q)
  {
    var size := |part|;
    var sh := Shifted(DotRow(q, D), 0, size);
    var neg := ScaleVec(-1.0, sh);
    assert ProjectionPoly(part, D, q) == AddVec(part, neg) by {
      forall i | 0 <= i < size
        ensures ProjectionPoly(part, D, q)[i] == AddVec(part, neg)[i]
      {
        if i < |D| {
          assert sh[i] == DotRow(q, D)[i];
        } else {
          assert sh[i] == Sturm.Zeros(size - |D|)[i - |D|];
        }
      }
    }
    PolyAtAdd(part, neg, t);
    NegatedShiftValue(D, q, size, t);
  }

  lemma {:induction false} NegatedShiftValue(D: seq<Point>, q: Point, size: nat, t: real)
    requires |D| <= size
    ensures PolyAt(ScaleVec(-1.0, Shifted(DotRow(q, D), 0, size)), t) == -Dot(PointsAt(D, t), q)
  {
    PolyAtScale(-1.0, Shifted(DotRow(q, D), 0, size), t);
    ShiftedValue(DotRow(q, D), 0, size, t);
    DotRowValue(q, D, t);
    assert Sturm.Pow(t, 0) == 1.0;
  }

  lemma DotSub(a: Point, q: Point, b: Point)
    ensures Dot(Sub(a, q), b) == Dot(b, a) - Dot(b, q)
  {
  }

  /*************************************************************************
   * Choosing the nearest candidate
   *************************************************************************/

  /** The squared distance from q to the curve point at t. */
  function DistAt(P: seq<Point>, q: Point, t: real): real
  {
    Norm2(Sub(q, Value(P, t)))
  }

  /**
   * t lies in [0, 1] and is at least as near to q as both ends and every
   * candidate in [0, 1].
   */
  predicate Nearest(P: seq<Point>, q: Point, candidates: seq<real>, t: real)
  {
    && 0.0 <= t <= 1.0
    && DistAt(P, q, t) <= DistAt(P, q, 0.0) && DistAt(P, q, t) <= DistAt(P, q, 1.0)
    && (forall i :: 0 <= i < |candidates| && 0.0 <= candidates[i] <= 1.0 ==> DistAt(P, q, t) <= DistAt(P, q, candidates[i]))
  }

  /**
   * How ties are broken: with no candidate taken (`chosen` is -1) t is an
   * end, and 0 only when strictly nearer than 1; a candidate is taken only
   * when strictly nearer than both ends and every earlier candidate in range.
   */
  predicate TieBreak(P: seq<Point>, q: Point, candidates: seq<real>, t: real, chosen: int)
  {
    && -1 <= chosen < |candidates|
    && (chosen == -1 ==> (t == 1.0 || (t == 0.0 && DistAt(P, q, 0.0) < DistAt(P, q, 1.0))))
    && (chosen == -1 && t == 1.0 ==> DistAt(P, q, 1.0) <= DistAt(P, q, 0.0))
    && (chosen >= 0 ==> (t == candidates[chosen]
      && DistAt(P, q, t) < DistAt(P, q, 0.0) && DistAt(P, q, t) < DistAt(P, q, 1.0)
      && forall i :: 0 <= i < chosen && 0.0 <= candidates[i] <= 1.0 ==> DistAt(P, q, t) < DistAt(P, q, candidates[i])))
  }

  /**
   * The selection loop of `projectPoint`, comparing squared distances (the
   * same order as distances). It starts from the nearer end point, 1 on a
   * tie, and moves to a candidate in [0, 1] only when it is strictly nearer
   * than the best so far; `chosen` is the index of the candidate taken, or -1.
   */
  method Select(P: seq<Point>, q: Point, candidates: seq<real>) returns (t: real, ghost chosen: int)
    ensures Nearest(P, q, candidates, t)
    ensures TieBreak(P, q, candidates, t, chosen)
  {
    t := if DistAt(P, q, 0.0) < DistAt(P, q, 1.0) then 0.0 else 1.0;
    var min := DistAt(P, q, t);
    chosen := -1;
    var k := 0;
    while k < |candidates|
      invariant 0 <= k <= |candidates|
      invariant 0.0 <= t <= 1.0 && min == DistAt(P, q, t)
      invariant min <= DistAt(P, q, 0.0) && min <= DistAt(P, q, 1.0)
      invariant forall i :: 0 <= i < k && 0.0 <= candidates[i] <= 1.0 ==> min <= DistAt(P, q, candidates[i])
      invariant -1 <= chosen < k
      invariant chosen == -1 ==> (t == 1.0 || (t == 0.0 && DistAt(P, q, 0.0) < DistAt(P, q, 1.0)))
      invariant chosen == -1 && t == 1.0 ==> DistAt(P, q, 1.0) <= DistAt(P, q, 0.0)
      invariant chosen >= 0 ==> (t == candidates[chosen]
        && min < DistAt(P, q, 0.0) && min < DistAt(P, q, 1.0)
        && forall i :: 0 <= i < chosen && 0.0 <= candidates[i] <= 1.0 ==> min < DistAt(P, q, candidates[i]))
    {
      var c := candidates[k];
      if 0.0 <= c <= 1.0 {
        var dist := DistAt(P, q, c);
        if dist < min {
          t, min, chosen := c, dist, k;
        }
      }
      k := k + 1;
    }
  }

  /**
   * The candidates: the solver's roots of the trimmed projection
   * polynomial, when it has degree at least one.
   */
  function Candidates(poly: seq<real>, solve: Solver): seq<real>
  {
    var trimmed := TrimTrailing(poly);
    if |trimmed| > 1 then solve(trimmed) else []
  }
}
