/**
 * The value algebra of one Bezier curve: evaluation, derivative, reversal,
 * degree elevation and reduction, splitting, end points, tangent and normal,
 * the power-basis coefficients, root filtering and the bounding box.
 *
 * A curve is its sequence of N control points. The library evaluates a curve
 * as (power-basis row) x (Bernstein matrix) x (control points); with exact
 * reals that is the same polynomial as the de Casteljau recurrence
 *   B(P, t) = (1 - t) B(P[..N-1], t) + t B(P[1..], t),
 * which is the definition used here.
 */
module Bezier {
  import opened Geometry
  import Sturm

  function Last<T>(s: seq<T>): T
    requires |s| > 0
  {
    s[|s| - 1]
  }

  /*************************************************************************
   * Evaluation
   *************************************************************************/

  /** `valueAt(t)`: the curve point at parameter t; an empty curve gives (0,0). */
  function Value(P: seq<Point>, t: real): Point
    decreases |P|
  {
    if |P| == 0 then Origin
    else if |P| == 1 then P[0]
    else Lerp(Value(P[..|P| - 1], t), Value(P[1..], t), t)
  }


  /** The curve starts at its first control point. */
  lemma {:induction false} ValueAtZero(P: seq<Point>)
    requires |P| >= 1
    ensures Value(P, 0.0) == P[0]
    decreases |P|
  {
    if |P| > 1 {
      ValueAtZero(P[..|P| - 1]);
    }
  }

  /** The curve ends at its last control point. */
  lemma {:induction false} ValueAtOne(P: seq<Point>)
    requires |P| >= 1
    ensures Value(P, 1.0) == Last(P)
    decreases |P|
  {
    if |P| > 1 {
      ValueAtOne(P[1..]);
    }
  }

  /** Evaluation is linear in the control points: scaling. */
  lemma {:induction false} ValueScale(c: real, P: seq<Point>, t: real)
    requires |P| >= 1
    ensures Value(ScaleAll(c, P), t) == Scale(c, Value(P, t))
    decreases |P|
  {
    var Q := ScaleAll(c, P);
    if |P| > 1 {
      var P0, P1 := P[..|P| - 1], P[1..];
      assert Q[..|Q| - 1] == ScaleAll(c, P0);
      assert Q[1..] == ScaleAll(c, P1);
      ValueScale(c, P0, t);
      ValueScale(c, P1, t);
      assert Value(Q, t) == Lerp(Value(Q[..|Q| - 1], t), Value(Q[1..], t), t);
      assert Value(Q[..|Q| - 1], t) == Scale(c, Value(P0, t));
      assert Value(Q[1..], t) == Scale(c, Value(P1, t));
      LerpScale(c, Value(P0, t), Value(P1, t), t);
      assert Value(P, t) == Lerp(Value(P0, t), Value(P1, t), t);
    }
  }

  lemma LerpScale(c: real, a: Point, b: Point, t: real)
    ensures Lerp(Scale(c, a), Scale(c, b), t) == Scale(c, Lerp(a, b, t))
  {
    BlendScale(1.0 - t, t, c, a.x, b.x);
    BlendScale(1.0 - t, t, c, a.y, b.y);
    assert Lerp(Scale(c, a), Scale(c, b), t).x == Scale(c, Lerp(a, b, t)).x;
    assert Lerp(Scale(c, a), Scale(c, b), t).y == Scale(c, Lerp(a, b, t)).y;
  }

  lemma BlendScale(s: real, t: real, c: real, x: real, y: real)
    ensures s * (c * x) + t * (c * y) == c * (s * x + t * y)
  {
  }

  /** Evaluation is linear in the control points: differences. */
  lemma {:induction false} ValueSub(A: seq<Point>, B: seq<Point>, t: real)
    requires |A| == |B| >= 1
    ensures Value(SubAll(A, B), t) == Sub(Value(A, t), Value(B, t))
    decreases |A|
  {
    var D := SubAll(A, B);
    if |A| > 1 {
      var A0, A1, B0, B1 := A[..|A| - 1], A[1..], B[..|B| - 1], B[1..];
      assert D[..|D| - 1] == SubAll(A0, B0);
      assert D[1..] == SubAll(A1, B1);
      ValueSub(A0, B0, t);
      ValueSub(A1, B1, t);
      assert Value(D, t) == Lerp(Value(D[..|D| - 1], t), Value(D[1..], t), t);
      assert Value(D[..|D| - 1], t) == Sub(Value(A0, t), Value(B0, t));
      assert Value(D[1..], t) == Sub(Value(A1, t), Value(B1, t));
      LerpSub(Value(A0, t), Value(A1, t), Value(B0, t), Value(B1, t), t);
      assert Value(A, t) == Lerp(Value(A0, t), Value(A1, t), t);
      assert Value(B, t) == Lerp(Value(B0, t), Value(B1, t), t);
    }
  }

  lemma LerpSub(a1: Point, a2: Point, b1: Point, b2: Point, t: real)
    ensures Lerp(Sub(a1, b1), Sub(a2, b2), t) == Sub(Lerp(a1, a2, t), Lerp(b1, b2, t))
  {
    BlendSub(1.0 - t, t, a1.x, a2.x, b1.x, b2.x);
    BlendSub(1.0 - t, t, a1.y, a2.y, b1.y, b2.y);
    assert Lerp(Sub(a1, b1), Sub(a2, b2), t).x == Sub(Lerp(a1, a2, t), Lerp(b1, b2, t)).x;
    assert Lerp(Sub(a1, b1), Sub(a2, b2), t).y == Sub(Lerp(a1, a2, t), Lerp(b1, b2, t)).y;
  }

  lemma BlendSub(s: real, t: real, a1: real, a2: real, b1: real, b2: real)
    ensures s * (a1 - b1) + t * (a2 - b2) == (s * a1 + t * a2) - (s * b1 + t * b2)
  {
  }

  function ScaleAll(c: real, P: seq<Point>): (r: seq<Point>)
    ensures |r| == |P|
  {
    seq(|P|, k requires 0 <= k < |P| => Scale(c, P[k]))
  }

  function SubAll(A: seq<Point>, B: seq<Point>): (r: seq<Point>)
    requires |A| == |B|
    ensures |r| == |A|
  {
    seq(|A|, k requires 0 <= k < |A| => Sub(A[k], B[k]))
  }

  /*************************************************************************
   * Reversal
   *************************************************************************/

  /** `reverse`: the control points in the opposite order. */
  function Reversed(P: seq<Point>): (r: seq<Point>)
    ensures |r| == |P|
  {
    seq(|P|, k requires 0 <= k < |P| => P[|P| - 1 - k])
  }

  /** Reversing twice gives back the original control points. */
  lemma ReversedTwice(P: seq<Point>)
    ensures Reversed(Reversed(P)) == P
  {
  }

  /** The reversed curve runs through the same points backwards. */
  lemma {:induction false} ValueOfReversed(P: seq<Point>, t: real)
    ensures Value(Reversed(P), t) == Value(P, 1.0 - t)
    decreases |P|
  {
    var R := Reversed(P);
    if |P| > 1 {
      assert |R| == |P|;
      assert R[..|R| - 1] == Reversed(P[1..]);
      assert R[1..] == Reversed(P[..|P| - 1]);
      ValueOfReversed(P[1..], t);
      ValueOfReversed(P[..|P| - 1], t);
      LerpFlip(Value(P[..|P| - 1], 1.0 - t), Value(P[1..], 1.0 - t), t);
    } else if |P| == 1 {
      assert R == P;
    }
  }

  /** Blending from b towards a by t is blending from a towards b by 1 - t. */
  lemma LerpFlip(a: Point, b: Point, t: real)
    ensures Lerp(b, a, t) == Lerp(a, b, 1.0 - t)
  {
    LerpMix(b, a, t);
    LerpMix(a, b, 1.0 - t);
  }

  /*************************************************************************
   * Derivative
   *************************************************************************/

  /**
   * `derivative()`: the hodograph. A one-point curve gives the single point
   * (0,0); otherwise point k is (N-1) (P[k+1] - P[k]).
   */
  function Derivative(P: seq<Point>): (D: seq<Point>)
    requires |P| >= 1
    ensures |D| == if |P| == 1 then 1 else |P| - 1
  {
    if |P| == 1 then [Origin]
    else ScaleAll((|P| - 1) as real, SubAll(P[1..], P[..|P| - 1]))
  }

  /**
   * The derivative curve evaluated at t is N-1 times the difference of the
   * two last de Casteljau points at t: the exact derivative of B(P, t),
   * whose direction is the final de Casteljau segment.
   */
  lemma {:induction false} DerivativeValue(P: seq<Point>, t: real)
    requires |P| >= 2
    ensures Value(Derivative(P), t)
         == Scale((|P| - 1) as real, Sub(Value(P[1..], t), Value(P[..|P| - 1], t)))
  {
    ValueSub(P[1..], P[..|P| - 1], t);
    ValueScale((|P| - 1) as real, SubAll(P[1..], P[..|P| - 1]), t);
  }

  /** The end tangents point along the first and the last control legs. */
  lemma DerivativeAtEnds(P: seq<Point>)
    requires |P| >= 2
    ensures Value(Derivative(P), 0.0) == Scale((|P| - 1) as real, Sub(P[1], P[0]))
    ensures Value(Derivative(P), 1.0) == Scale((|P| - 1) as real, Sub(Last(P), P[|P| - 2]))
  {
    DerivativeValue(P, 0.0);
    DerivativeValue(P, 1.0);
    ValueAtZero(P[1..]);
    ValueAtZero(P[..|P| - 1]);
    ValueAtOne(P[1..]);
    ValueAtOne(P[..|P| - 1]);
  }

  /** Reversing a curve reverses and negates its derivative. */
  lemma DerivativeOfReversed(P: seq<Point>)
    requires |P| >= 2
    ensures Derivative(Reversed(P)) == ScaleAll(-1.0, Reversed(Derivative(P)))
  {
    var n := |P|;
    var c := (n - 1) as real;
    var D := Derivative(P);
    var RP := Reversed(P);
    var L := Derivative(RP);
    var RD := Reversed(D);
    var R := ScaleAll(-1.0, RD);
    assert |RP| == n;
    assert |L| == |R| == n - 1;
    forall k | 0 <= k < n - 1
      ensures L[k] == R[k]
    {
      var a, b := P[n - 2 - k], P[n - 1 - k];
      assert RP[k + 1] == a && RP[k] == b;
      DerivativePoint(RP, k);
      DerivativePoint(P, n - 2 - k);
      assert RD[k] == D[n - 2 - k];
      assert R[k] == Scale(-1.0, Scale(c, Sub(b, a)));
      NegatedDifference(c, a, b);
    }
  }

  lemma NegatedDifference(c: real, a: Point, b: Point)
    ensures Scale(c, Sub(a, b)) == Scale(-1.0, Scale(c, Sub(b, a)))
  {
  }

  /** `derivative(n)`, which rejects n = 0. */
  datatype DerivativeError = InvalidArgument

  datatype DerivativeResult = Derived(points: seq<Point>) | Failed(error: DerivativeError)

  function Iterated(P: seq<Point>, n: nat): (D: seq<Point>)
    requires |P| >= 1
    ensures |D| >= 1
    decreases n
  {
    if n == 0 then P else Iterated(Derivative(P), n - 1)
  }

  /** One more derivative of the n-th derivative is the (n+1)-th: the loop of `derivative(n)`. */
  lemma {:induction false} IteratedStep(P: seq<Point>, n: nat)
    requires |P| >= 1
    ensures Iterated(P, n + 1) == Derivative(Iterated(P, n))
    decreases n
  {
    if n > 0 {
      IteratedStep(Derivative(P), n - 1);
    }
  }

  /** Point k of the derivative of a curve of two or more points is (N-1) (P[k+1] - P[k]). */
  lemma DerivativePoint(P: seq<Point>, k: nat)
    requires |P| >= 2 && k < |P| - 1
    ensures Derivative(P)[k] == Scale((|P| - 1) as real, Sub(P[k + 1], P[k]))
  {
    assert SubAll(P[1..], P[..|P| - 1])[k] == Sub(P[k + 1], P[k]);
  }

  /** `derivative(n)`: the n-th derivative curve; `n == 0` is an invalid argument. */
  function DerivativeN(P: seq<Point>, n: nat): (r: DerivativeResult)
    requires |P| >= 1
    ensures r.Failed? <==> n == 0
    ensures n == 1 ==> r == Derived(Derivative(P))
    ensures r.Derived? ==> |r.points| == if |P| > n then |P| - n else 1
  {
    if n == 0 then Failed(InvalidArgument)
    else
      IteratedCount(P, n);
      Derived(Iterated(P, n))
  }

  lemma {:induction false} IteratedCount(P: seq<Point>, n: nat)
    requires |P| >= 1
    ensures |Iterated(P, n)| == if |P| > n then |P| - n else 1
    decreases n
  {
    if n > 0 {
      IteratedCount(Derivative(P), n - 1);
    }
  }

  /** `tangentAt(t, false)`: the derivative's value at t. */
  function TangentAt(P: seq<Point>, t: real): Point
    requires |P| >= 1
  {
    Value(Derivative(P), t)
  }

  /** `normalAt(t, false)`: the tangent turned a quarter to the left. */
  function NormalAt(P: seq<Point>, t: real): (n: Point)
    requires |P| >= 1
    ensures Dot(n, TangentAt(P, t)) == 0.0
    ensures Norm2(n) == Norm2(TangentAt(P, t))
    ensures TangentAt(P, t).x * n.y - TangentAt(P, t).y * n.x == Norm2(TangentAt(P, t))
  {
    var d := TangentAt(P, t);
    LeftTurn(d);
    Point(-d.y, d.x)
  }

  /** (-d.y, d.x) is orthogonal to d, as long as d, and turned to its left. */
  lemma LeftTurn(d: Point)
    ensures Dot(Point(-d.y, d.x), d) == 0.0 && Norm2(Point(-d.y, d.x)) == Norm2(d)
    ensures d.x * d.x - d.y * -d.y == Norm2(d)
  {
  }

  /** `endPoints()`: the first and last control points, which the curve passes through. */
  function EndPoints(P: seq<Point>): (r: (Point, Point))
    requires |P| >= 1
    ensures r == (Value(P, 0.0), Value(P, 1.0))
  {
    ValueAtZero(P);
    ValueAtOne(P);
    (P[0], Last(P))
  }

  /*************************************************************************
   * Coefficient matrices applied to control points
   *************************************************************************/

  /** One row of a coefficient matrix times the control-point matrix. */
  function RowTimes(row: seq<real>, P: seq<Point>): Point
    requires |row| == |P|
  {
    RowFrom(row, P, 0)
  }

  /** The sum of row[j] P[j] over j = i .. |P| - 1. */
  function RowFrom(row: seq<real>, P: seq<Point>, i: nat): Point
    requires |row| == |P| && i <= |P|
    decreases |P| - i
  {
    if i == |P| then Origin else Add(Scale(row[i], P[i]), RowFrom(row, P, i + 1))
  }

  /** A coefficient matrix (rows of equal length) times the control-point matrix. */
  function MatTimes(M: seq<seq<real>>, P: seq<Point>): (r: seq<Point>)
    requires forall i :: 0 <= i < |M| ==> |M[i]| == |P|
    ensures |r| == |M|
  {
    seq(|M|, i requires 0 <= i < |M| => RowTimes(M[i], P))
  }

  /** A zero coefficient contributes nothing. */
  lemma RowFromDropZero(row: seq<real>, P: seq<Point>, i: nat)
    requires |row| == |P| && i < |P| && row[i] == 0.0
    ensures RowFrom(row, P, i) == RowFrom(row, P, i + 1)
  {
    var rest := RowFrom(row, P, i + 1);
    assert RowFrom(row, P, i) == Add(Scale(row[i], P[i]), rest);
    assert Scale(row[i], P[i]) == Origin;
    assert Add(Origin, rest) == rest;
  }

  /** Zero coefficients i .. lo - 1 contribute nothing. */
  lemma {:induction false} RowFromSkipZeros(row: seq<real>, P: seq<Point>, i: nat, lo: nat)
    requires |row| == |P| && i <= lo <= |P|
    requires forall j :: i <= j < lo ==> row[j] == 0.0
    ensures RowFrom(row, P, i) == RowFrom(row, P, lo)
    decreases lo - i
  {
    if i < lo {
      assert row[i] == 0.0;
      RowFromDropZero(row, P, i);
      RowFromSkipZeros(row, P, i + 1, lo);
      assert RowFrom(row, P, i) == RowFrom(row, P, i + 1) == RowFrom(row, P, lo);
    }
  }

  /** Coefficients that are all zero from i on give the origin. */
  lemma {:induction false} RowFromAllZero(row: seq<real>, P: seq<Point>, i: nat)
    requires |row| == |P| && i <= |P|
    requires forall j :: i <= j < |P| ==> row[j] == 0.0
    ensures RowFrom(row, P, i) == Origin
  {
    RowFromSkipZeros(row, P, i, |P|);
  }

  /** A row that is 1 at i and zero after it picks P[i]. */
  lemma {:induction false} RowFromSingle(row: seq<real>, P: seq<Point>, i: nat)
    requires |row| == |P| && i < |P| && row[i] == 1.0
    requires forall j :: i < j < |P| ==> row[j] == 0.0
    ensures RowFrom(row, P, i) == P[i]
  {
    RowFromAllZero(row, P, i + 1);
    assert RowFrom(row, P, i) == Add(Scale(row[i], P[i]), Origin);
    assert Scale(row[i], P[i]) == P[i];
  }

  /** A row whose only non-zero coefficients from i on are at i and i + 1. */
  lemma RowFromPair(row: seq<real>, P: seq<Point>, i: nat)
    requires |row| == |P| && i + 2 <= |P|
    requires forall j :: i + 2 <= j < |P| ==> row[j] == 0.0
    ensures RowFrom(row, P, i) == Add(Scale(row[i], P[i]), Scale(row[i + 1], P[i + 1]))
  {
    RowFromAllZero(row, P, i + 2);
    var second := Scale(row[i + 1], P[i + 1]);
    assert RowFrom(row, P, i + 1) == Add(second, Origin);
    assert Add(second, Origin) == second;
  }

  /*************************************************************************
   * Degree elevation and reduction
   *************************************************************************/

  /**
   * `elevateOrderCoeffs(n)`: the (n+1) x n matrix with 1 - k/n on the
   * diagonal and k/n just below it.
   */
  function ElevateOrderCoeffs(n: nat): (E: seq<seq<real>>)
    ensures |E| == n + 1
    ensures forall i :: 0 <= i < n + 1 ==> |E[i]| == n
  {
    seq(n + 1, i requires 0 <= i < n + 1 =>
      seq(n, j requires 0 <= j < n =>
        if j == i then 1.0 - (j as real) / (n as real)
        else if j == i - 1 then (i as real) / (n as real)
        else 0.0))
  }

  /** The non-zero entries of row i of the elevation matrix. */
  lemma ElevateRow(n: nat, i: nat)
    requires i <= n
    ensures var row := ElevateOrderCoeffs(n)[i];
      && (i < n ==> row[i] == 1.0 - (i as real) / (n as real))
      && (0 < i ==> row[i - 1] == (i as real) / (n as real))
      && (forall j :: 0 <= j < n && j != i && j != i - 1 ==> row[j] == 0.0)
  {
  }

  /** `elevateOrder`: the same curve described by N+1 control points. */
  function Elevated(P: seq<Point>): (Q: seq<Point>)
    ensures |Q| == |P| + 1
  {
    MatTimes(ElevateOrderCoeffs(|P|), P)
  }

  /** The empty curve elevates to the single point (0,0): a 1 x 0 matrix times no points. */
  lemma ElevatedEmpty()
    ensures Elevated([]) == [Origin]
  {
    assert Elevated([])[0] == RowFrom(ElevateOrderCoeffs(0)[0], [], 0);
  }

  /**
   * The elevated curve keeps both end points, and each interior point is the
   * blend (k/N) P[k-1] + (1 - k/N) P[k].
   */
  lemma ElevatedAt(P: seq<Point>, k: nat)
    requires |P| >= 1 && k <= |P|
    ensures var n := |P| as real;
      Elevated(P)[k] ==
        if k == 0 then P[0]
        else if k == |P| then Last(P)
        else Add(Scale((k as real) / n, P[k - 1]), Scale(1.0 - (k as real) / n, P[k]))
  {
    if k == 0 {
      ElevatedStart(P);
    } else if k == |P| {
      ElevatedEnd(P);
    } else {
      ElevatedInterior(P, k);
    }
  }

  /** Every point of the elevated curve at once. */
  lemma ElevatedPoints(P: seq<Point>)
    requires |P| >= 1
    ensures Elevated(P)[0] == P[0] && Last(Elevated(P)) == Last(P)
    ensures forall k :: 0 < k < |P| ==>
      Elevated(P)[k] == Add(Scale((k as real) / (|P| as real), P[k - 1]), Scale(1.0 - (k as real) / (|P| as real), P[k]))
  {
    ElevatedStart(P);
    ElevatedEnd(P);
    forall k | 0 < k < |P|
      ensures Elevated(P)[k] == Add(Scale((k as real) / (|P| as real), P[k - 1]), Scale(1.0 - (k as real) / (|P| as real), P[k]))
    {
      ElevatedInterior(P, k);
    }
  }

  lemma ElevatedStart(P: seq<Point>)
    requires |P| >= 1
    ensures Elevated(P)[0] == P[0]
  {
    var row := ElevateOrderCoeffs(|P|)[0];
    assert Elevated(P)[0] == RowFrom(row, P, 0);
    ElevateRow(|P|, 0);
    assert row[0] == 1.0;
    RowFromSingle(row, P, 0);
  }

  lemma ElevatedEnd(P: seq<Point>)
    requires |P| >= 1
    ensures Elevated(P)[|P|] == Last(P)
  {
    var n := |P|;
    var row := ElevateOrderCoeffs(n)[n];
    assert Elevated(P)[n] == RowFrom(row, P, 0);
    ElevateRow(n, n);
    assert (n as real) / (n as real) == 1.0;
    assert row[n - 1] == 1.0;
    RowFromSkipZeros(row, P, 0, n - 1);
    RowFromSingle(row, P, n - 1);
  }

  lemma ElevatedInterior(P: seq<Point>, k: nat)
    requires 0 < k < |P|
    ensures var n := |P| as real;
      Elevated(P)[k] == Add(Scale((k as real) / n, P[k - 1]), Scale(1.0 - (k as real) / n, P[k]))
  {
    var n := |P|;
    var row := ElevateOrderCoeffs(n)[k];
    assert Elevated(P)[k] == RowFrom(row, P, 0);
    ElevateRow(n, k);
    RowFromSkipZeros(row, P, 0, k - 1);
    RowFromPair(row, P, k - 1);
  }

  /** a A + b B, point by point. */
  function Blend(a: real, A: seq<Point>, b: real, B: seq<Point>): (r: seq<Point>)
    requires |A| == |B|
    ensures |r| == |A|
  {
    seq(|A|, k requires 0 <= k < |A| => Add(Scale(a, A[k]), Scale(b, B[k])))
  }

  /** Evaluation is linear in the control points: a blend of two curves. */
  lemma {:induction false} ValueBlend(a: real, A: seq<Point>, b: real, B: seq<Point>, t: real)
    requires |A| == |B| >= 1
    ensures Value(Blend(a, A, b, B), t) == Add(Scale(a, Value(A, t)), Scale(b, Value(B, t)))
    decreases |A|
  {
    var D := Blend(a, A, b, B);
    if |A| > 1 {
      var A0, A1, B0, B1 := A[..|A| - 1], A[1..], B[..|B| - 1], B[1..];
      assert D[..|D| - 1] == Blend(a, A0, b, B0);
      assert D[1..] == Blend(a, A1, b, B1);
      ValueBlend(a, A0, b, B0, t);
      ValueBlend(a, A1, b, B1, t);
      LerpBlend(a, b, Value(A0, t), Value(A1, t), Value(B0, t), Value(B1, t), t);
    }
  }

  lemma LerpBlend(a: real, b: real, p1: Point, p2: Point, q1: Point, q2: Point, t: real)
    ensures Lerp(Add(Scale(a, p1), Scale(b, q1)), Add(Scale(a, p2), Scale(b, q2)), t)
         == Add(Scale(a, Lerp(p1, p2, t)), Scale(b, Lerp(q1, q2, t)))
  {
    LerpAdd(Scale(a, p1), Scale(b, q1), Scale(a, p2), Scale(b, q2), t);
    LerpScale(a, p1, p2, t);
    LerpScale(b, q1, q2, t);
  }

  lemma LerpAdd(u1: Point, v1: Point, u2: Point, v2: Point, t: real)
    ensures Lerp(Add(u1, v1), Add(u2, v2), t) == Add(Lerp(u1, u2, t), Lerp(v1, v2, t))
  {
    BlendAdd(1.0 - t, t, u1.x, v1.x, u2.x, v2.x);
    BlendAdd(1.0 - t, t, u1.y, v1.y, u2.y, v2.y);
    assert Lerp(Add(u1, v1), Add(u2, v2), t).x == Add(Lerp(u1, u2, t), Lerp(v1, v2, t)).x;
    assert Lerp(Add(u1, v1), Add(u2, v2), t).y == Add(Lerp(u1, u2, t), Lerp(v1, v2, t)).y;
  }

  lemma BlendAdd(s: real, t: real, u1: real, v1: real, u2: real, v2: real)
    ensures s * (u1 + v1) + t * (u2 + v2) == (s * u1 + t * u2) + (s * v1 + t * v2)
  {
  }

  /** Weights that add up to one leave a point where it is. */
  lemma BlendSame(a: real, b: real, p: Point)
    requires a + b == 1.0
    ensures Add(Scale(a, p), Scale(b, p)) == p
  {
    assert a * p.x + b * p.x == (a + b) * p.x;
    assert a * p.y + b * p.y == (a + b) * p.y;
  }

  /** The weights of elevating N points, written with those of elevating N - 1. */
  lemma ElevateWeights(n: real, k: real)
    requires n > 1.0
    ensures (n - 1.0) / n + 1.0 / n == 1.0
    ensures ((n - 1.0) / n) * (k / (n - 1.0)) == k / n
    ensures ((n - 1.0) / n) * (1.0 - k / (n - 1.0)) == 1.0 - (k + 1.0) / n
  {
    var a, r := (n - 1.0) / n, k / (n - 1.0);
    assert a * n == n - 1.0;
    assert r * (n - 1.0) == k;
    assert a * r * n == k;
  }

  lemma BlendInit(n: real, k: real, p: Point, q: Point)
    requires n > 1.0
    ensures var a, r := (n - 1.0) / n, k / (n - 1.0);
      Add(Scale(a, Add(Scale(r, p), Scale(1.0 - r, q))), Scale(1.0 / n, q)) == Add(Scale(k / n, p), Scale(1.0 - k / n, q))
  {
    ElevateWeights(n, k);
    assert (k + 1.0) / n == k / n + 1.0 / n;
    CombineInit((n - 1.0) / n, k / (n - 1.0), 1.0 / n, k / n, p, q);
  }

  lemma BlendShift(n: real, k: real, p: Point, q: Point)
    requires n > 1.0
    ensures var a, r := (n - 1.0) / n, k / (n - 1.0);
      Add(Scale(a, Add(Scale(r, p), Scale(1.0 - r, q))), Scale(1.0 / n, p)) == Add(Scale((k + 1.0) / n, p), Scale(1.0 - (k + 1.0) / n, q))
  {
    ElevateWeights(n, k);
    assert (k + 1.0) / n == k / n + 1.0 / n;
    CombineShift((n - 1.0) / n, k / (n - 1.0), 1.0 / n, (k + 1.0) / n, p, q);
  }

  /** a (r p + (1-r) q) + b q is c p + (1-c) q when the weights of p and of q agree. */
  lemma CombineInit(a: real, r: real, b: real, c: real, p: Point, q: Point)
    requires a * r == c && a * (1.0 - r) + b == 1.0 - c
    ensures Add(Scale(a, Add(Scale(r, p), Scale(1.0 - r, q))), Scale(b, q)) == Add(Scale(c, p), Scale(1.0 - c, q))
  {
    var u, v := Add(Scale(a, Add(Scale(r, p), Scale(1.0 - r, q))), Scale(b, q)), Add(Scale(c, p), Scale(1.0 - c, q));
    MixCoords(a, r, b, p, q, q);
    PairCoords(c, 1.0 - c, p, q);
    InitCoord(a, r, b, c, p.x, q.x);
    InitCoord(a, r, b, c, p.y, q.y);
    SameCoords(u, v);
  }

  /** a (r p + (1-r) q) + b p is c p + (1-c) q when the weights of p and of q agree. */
  lemma CombineShift(a: real, r: real, b: real, c: real, p: Point, q: Point)
    requires a * r + b == c && a * (1.0 - r) == 1.0 - c
    ensures Add(Scale(a, Add(Scale(r, p), Scale(1.0 - r, q))), Scale(b, p)) == Add(Scale(c, p), Scale(1.0 - c, q))
  {
    var u, v := Add(Scale(a, Add(Scale(r, p), Scale(1.0 - r, q))), Scale(b, p)), Add(Scale(c, p), Scale(1.0 - c, q));
    MixCoords(a, r, b, p, q, p);
    PairCoords(c, 1.0 - c, p, q);
    ShiftCoord(a, r, b, c, p.x, q.x);
    ShiftCoord(a, r, b, c, p.y, q.y);
    SameCoords(u, v);
  }

  lemma SameCoords(u: Point, v: Point)
    requires u.x == v.x && u.y == v.y
    ensures u == v
  {
  }

  /** The coordinates of a (r p + (1-r) q) + b z. */
  lemma MixCoords(a: real, r: real, b: real, p: Point, q: Point, z: Point)
    ensures var u := Add(Scale(a, Add(Scale(r, p), Scale(1.0 - r, q))), Scale(b, z));
      u.x == a * (r * p.x + (1.0 - r) * q.x) + b * z.x && u.y == a * (r * p.y + (1.0 - r) * q.y) + b * z.y
  {
  }

  /** The coordinates of c p + d q. */
  lemma PairCoords(c: real, d: real, p: Point, q: Point)
    ensures var v := Add(Scale(c, p), Scale(d, q));
      v.x == c * p.x + d * q.x && v.y == c * p.y + d * q.y
  {
  }

  lemma InitCoord(a: real, r: real, b: real, c: real, x: real, y: real)
    requires a * r == c && a * (1.0 - r) + b == 1.0 - c
    ensures a * (r * x + (1.0 - r) * y) + b * y == c * x + (1.0 - c) * y
  {
    Expand(a, r, x, y);
    assert (a * (1.0 - r)) * y + b * y == (a * (1.0 - r) + b) * y;
  }

  lemma ShiftCoord(a: real, r: real, b: real, c: real, x: real, y: real)
    requires a * r + b == c && a * (1.0 - r) == 1.0 - c
    ensures a * (r * x + (1.0 - r) * y) + b * x == c * x + (1.0 - c) * y
  {
    Expand(a, r, x, y);
    assert (a * r) * x + b * x == (a * r + b) * x;
  }

  /** a (r x + (1-r) y), expanded. */
  lemma Expand(a: real, r: real, x: real, y: real)
    ensures a * (r * x + (1.0 - r) * y) == (a * r) * x + (a * (1.0 - r)) * y
  {
  }

  /** The first N points of the elevated curve blend the elevated N - 1 first points with P. */
  lemma ElevatedInit(P: seq<Point>)
    requires |P| >= 2
    ensures var n := |P| as real;
      Elevated(P)[..|P|] == Blend((n - 1.0) / n, Elevated(P[..|P| - 1]), 1.0 / n, P)
  {
    forall k | 0 <= k < |P|
      ensures Elevated(P)[k] == Add(Scale((|P| as real - 1.0) / (|P| as real), Elevated(P[..|P| - 1])[k]), Scale(1.0 / (|P| as real), P[k]))
    {
      ElevatedInitAt(P, k);
    }
  }

  lemma ElevatedInitAt(P: seq<Point>, k: nat)
    requires 2 <= |P| && k < |P|
    ensures var n := |P| as real;
      Elevated(P)[k] == Add(Scale((n - 1.0) / n, Elevated(P[..|P| - 1])[k]), Scale(1.0 / n, P[k]))
  {
    var n, P0 := |P|, P[..|P| - 1];
    var E, E0 := Elevated(P), Elevated(P0);
    var a, b := (n as real - 1.0) / (n as real), 1.0 / (n as real);
    ElevateWeights(n as real, 0.0);
    if k == 0 {
      ElevatedStart(P);
      ElevatedStart(P0);
      BlendSame(a, b, P[0]);
    } else if k == n - 1 {
      ElevatedInterior(P, k);
      ElevatedEnd(P0);
      ElevateWeights(n as real, (n - 1) as real);
      assert 1.0 - (k as real) / (n as real) == b;
    } else {
      ElevatedInterior(P, k);
      ElevatedInterior(P0, k);
      BlendInit(n as real, k as real, P[k - 1], P[k]);
    }
  }

  /** The last N points of the elevated curve blend the elevated N - 1 last points with P. */
  lemma ElevatedTail(P: seq<Point>)
    requires |P| >= 2
    ensures var n := |P| as real;
      Elevated(P)[1..] == Blend((n - 1.0) / n, Elevated(P[1..]), 1.0 / n, P)
  {
    forall k | 0 <= k < |P|
      ensures Elevated(P)[k + 1] == Add(Scale((|P| as real - 1.0) / (|P| as real), Elevated(P[1..])[k]), Scale(1.0 / (|P| as real), P[k]))
    {
      ElevatedTailAt(P, k);
    }
  }

  lemma ElevatedTailAt(P: seq<Point>, k: nat)
    requires 2 <= |P| && k < |P|
    ensures var n := |P| as real;
      Elevated(P)[k + 1] == Add(Scale((n - 1.0) / n, Elevated(P[1..])[k]), Scale(1.0 / n, P[k]))
  {
    var n, P1 := |P|, P[1..];
    var E, E1 := Elevated(P), Elevated(P1);
    var a, b := (n as real - 1.0) / (n as real), 1.0 / (n as real);
    ElevateWeights(n as real, 0.0);
    if k == n - 1 {
      ElevatedEnd(P);
      ElevatedEnd(P1);
      BlendSame(a, b, P[k]);
    } else if k == 0 {
      ElevatedInterior(P, 1);
      ElevatedStart(P1);
      assert 1.0 - b == a;
    } else {
      ElevatedInterior(P, k + 1);
      ElevatedInterior(P1, k);
      BlendShift(n as real, k as real, P[k], P[k + 1]);
      assert (k + 1) as real == k as real + 1.0;
    }
  }

  /** Elevation keeps the curve: the N+1 points run through the same values as the N points. */
  lemma {:induction false} ElevatedValue(P: seq<Point>, t: real)
    ensures Value(Elevated(P), t) == Value(P, t)
    decreases |P|
  {
    var E := Elevated(P);
    if |P| == 0 {
      ElevatedEmpty();
    } else if |P| == 1 {
      ElevatedPoints(P);
      assert E[..1] == [P[0]] && E[1..] == [P[0]];
      BlendSame(1.0 - t, t, P[0]);
    } else {
      var n := |P| as real;
      var a, b := (n - 1.0) / n, 1.0 / n;
      var P0, P1 := P[..|P| - 1], P[1..];
      ElevatedInit(P);
      ElevatedTail(P);
      ElevatedValue(P0, t);
      ElevatedValue(P1, t);
      ValueBlend(a, Elevated(P0), b, P, t);
      ValueBlend(a, Elevated(P1), b, P, t);
      var w := Value(P, t);
      LerpBlend(a, b, Value(P0, t), Value(P1, t), w, w, t);
      BlendSame(1.0 - t, t, w);
      ElevateWeights(n, 0.0);
      BlendSame(a, b, w);
    }
  }

  /**
   * Degree reduction of an N+1 point curve to N points, by forward
   * substitution: R[0] = Q[0], R[k] = (N Q[k] - k R[k-1]) / (N - k).
   * This is the exact inverse of `Elevated` on the curves that `Elevated`
   * produces, where the library's least-squares reduction is exact as well.
   */
  function Lowered(Q: seq<Point>): (R: seq<Point>)
    requires |Q| >= 1
    ensures |R| == |Q| - 1
  {
    LoweredPrefix(Q, |Q| - 1)
  }

  function LoweredPrefix(Q: seq<Point>, m: nat): (R: seq<Point>)
    requires 1 <= |Q| && m <= |Q| - 1
    ensures |R| == m
  {
    if m == 0 then []
    else
      var R := LoweredPrefix(Q, m - 1);
      var n, k := |Q| - 1, m - 1;
      if k == 0 then [Q[0]]
      else R + [Scale(1.0 / ((n - k) as real), Sub(Scale(n as real, Q[k]), Scale(k as real, Last(R))))]
  }

  /** Lowering an elevated curve gives back the original control points. */
  lemma LowerElevated(P: seq<Point>)
    ensures Lowered(Elevated(P)) == P
  {
    if |P| >= 1 {
      LowerElevatedPrefix(P, |P|);
    }
  }

  lemma {:induction false} LowerElevatedPrefix(P: seq<Point>, m: nat)
    requires 1 <= |P| && m <= |P|
    ensures LoweredPrefix(Elevated(P), m) == P[..m]
    decreases m
  {
    if m > 0 {
      var Q := Elevated(P);
      LowerElevatedPrefix(P, m - 1);
      var k := m - 1;
      if k == 0 {
        ElevatedStart(P);
        assert LoweredPrefix(Q, 1) == [Q[0]];
      } else {
        var n := |P|;
        var R := LoweredPrefix(Q, m - 1);
        assert R == P[..m - 1];
        assert Last(R) == P[k - 1];
        ElevatedInterior(P, k);
        var a := (k as real) / (n as real);
        assert Q[k] == Add(Scale(a, P[k - 1]), Scale(1.0 - a, P[k]));
        var X := Scale(1.0 / ((n - k) as real), Sub(Scale(n as real, Q[k]), Scale(k as real, Last(R))));
        assert LoweredPrefix(Q, m) == R + [X];
        ReduceStep(P[k - 1], P[k], n, k);
        assert Scale(n as real, Q[k]) == Scale(n as real, Add(Scale(a, P[k - 1]), Scale(1.0 - a, P[k])));
        assert X == P[k];
        PrefixSnoc(P, m);
      }
    }
  }

  lemma PrefixSnoc<T>(s: seq<T>, m: nat)
    requires 0 < m <= |s|
    ensures s[..m] == s[..m - 1] + [s[m - 1]]
  {
  }

  /** One forward-substitution step undoes one blend of the elevation matrix. */
  lemma ReduceStep(p: Point, q: Point, n: nat, k: nat)
    requires 0 < k < n
    ensures var a := (k as real) / (n as real);
      Scale(1.0 / ((n - k) as real),
            Sub(Scale(n as real, Add(Scale(a, p), Scale(1.0 - a, q))), Scale(k as real, p))) == q
  {
    var a := (k as real) / (n as real);
    var N, K := n as real, k as real;
    assert N * a == K;
    ReduceCoord(N, K, a, p.x, q.x);
    ReduceCoord(N, K, a, p.y, q.y);
  }

  lemma ReduceCoord(N: real, K: real, a: real, x: real, y: real)
    requires N > K > 0.0 && N * a == K
    ensures (1.0 / (N - K)) * (N * (a * x + (1.0 - a) * y) - K * x) == y
  {
    assert N * (a * x) == (N * a) * x;
    assert N * ((1.0 - a) * y) == (N * (1.0 - a)) * y;
    assert N * (1.0 - a) == N - K;
    assert N * (a * x + (1.0 - a) * y) - K * x == (N - K) * y;
    assert (1.0 / (N - K)) * ((N - K) * y) == ((1.0 / (N - K)) * (N - K)) * y;
    assert (1.0 / (N - K)) * (N - K) == 1.0;
  }

  /*************************************************************************
   * Splitting
   *************************************************************************/

  /**
   * `splittingCoeffsLeft(n, z) * P`: row i of the left matrix holds the
   * Bernstein weights of the first i+1 control points at z, so left point i
   * is the value at z of the sub-curve P[..i+1].
   */
  function SplitLeft(P: seq<Point>, z: real): (L: seq<Point>)
    ensures |L| == |P|
  {
    seq(|P|, i requires 0 <= i < |P| => Value(P[..i + 1], z))
  }

  /**
   * `splittingCoeffsRight(n, z) * P`: row k of the right matrix is row n-1-k
   * of the left matrix moved to start at column k, so right point k is the
   * value at z of the sub-curve P[k..].
   */
  function SplitRight(P: seq<Point>, z: real): (R: seq<Point>)
    ensures |R| == |P|
  {
    seq(|P|, k requires 0 <= k < |P| => Value(P[k..], z))
  }

  /** `splitCurve(z)`: the two halves of the curve at parameter z. */
  function SplitCurve(P: seq<Point>, z: real): (halves: (seq<Point>, seq<Point>))
    requires |P| >= 1
    ensures |halves.0| == |halves.1| == |P|
    ensures halves.0[0] == P[0] && Last(halves.1) == Last(P)
    ensures Last(halves.0) == halves.1[0] == Value(P, z)
  {
    assert P[..|P|] == P;
    (SplitLeft(P, z), SplitRight(P, z))
  }

  /** The halves of a split meet at the curve's value at z, and keep the curve's ends. */
  lemma {:induction false} SplitJoins(P: seq<Point>, z: real)
    requires |P| >= 1
    ensures Value(SplitLeft(P, z), 0.0) == P[0]
    ensures Value(SplitLeft(P, z), 1.0) == Value(P, z) == Value(SplitRight(P, z), 0.0)
    ensures Value(SplitRight(P, z), 1.0) == Last(P)
  {
    var h := SplitCurve(P, z);
    ValueAtZero(h.0);
    ValueAtOne(h.0);
    ValueAtZero(h.1);
    ValueAtOne(h.1);
  }

  /** The right half at z is the mirror image of the left half of the reversed curve at 1-z. */
  lemma SplitRightMirrorsLeft(P: seq<Point>, z: real)
    ensures SplitRight(P, z) == Reversed(SplitLeft(Reversed(P), 1.0 - z))
  {
    var n := |P|;
    forall k | 0 <= k < n
      ensures SplitRight(P, z)[k] == Reversed(SplitLeft(Reversed(P), 1.0 - z))[k]
    {
      var i := n - 1 - k;
      assert Reversed(P)[..i + 1] == Reversed(P[k..]);
      ValueOfReversed(P[k..], 1.0 - z);
    }
  }

  /**
   * The left half at z, run over [0, 1], traces the curve over [0, z]:
   * its value at s is the curve's value at z s.
   */
  lemma {:induction false} SplitLeftValue(P: seq<Point>, z: real, s: real)
    ensures Value(SplitLeft(P, z), s) == Value(P, z * s)
    decreases |P|
  {
    var n := |P|;
    var Q := SplitLeft(P, z);
    if n == 1 {
      assert P[..1] == P;
      assert Q == [P[0]];
    } else if n > 1 {
      var A, B := P[..n - 1], P[1..];
      var LA, LB := SplitLeft(A, z), SplitLeft(B, z);
      assert Q[..n - 1] == LA by {
        forall i | 0 <= i < n - 1
          ensures Q[i] == LA[i]
        {
          assert A[..i + 1] == P[..i + 1];
        }
      }
      assert Q[1..] == LerpAll(LA, LB, z) by {
        forall i | 0 <= i < n - 1
          ensures Q[i + 1] == Lerp(LA[i], LB[i], z)
        {
          var S := P[..i + 2];
          assert S[..|S| - 1] == A[..i + 1];
          assert S[1..] == B[..i + 1];
        }
      }
      SplitLeftValue(A, z, s);
      SplitLeftValue(B, z, s);
      ValueLerpAll(LA, LB, z, s);
      LerpNested(Value(A, z * s), Value(B, z * s), z, s);
    }
  }

  /**
   * The right half at z, run over [0, 1], traces the curve over [z, 1]:
   * its value at s is the curve's value at z + (1 - z) s.
   */
  lemma {:induction false} SplitRightValue(P: seq<Point>, z: real, s: real)
    ensures Value(SplitRight(P, z), s) == Value(P, z + (1.0 - z) * s)
  {
    SplitRightMirrorsLeft(P, z);
    MirroredLeftValue(P, z, s, 1.0 - z, 1.0 - s);
  }

  lemma MirroredLeftValue(P: seq<Point>, z: real, s: real, u: real, v: real)
    requires u == 1.0 - z && v == 1.0 - s
    ensures Value(Reversed(SplitLeft(Reversed(P), u)), s) == Value(P, z + (1.0 - z) * s)
  {
    var L := SplitLeft(Reversed(P), u);
    ValueOfReversed(L, s);
    SplitLeftValue(Reversed(P), u, v);
    ValueOfReversed(P, u * v);
    assert 1.0 - u * v == z + (1.0 - z) * s;
  }

  /** The parameter in [lo, hi] that corresponds to s in [0, 1]. */
  function Reparam(lo: real, hi: real, s: real): (t: real)
    ensures s == 0.0 ==> t == lo
    ensures s == 1.0 ==> t == hi
  {
    lo + (hi - lo) * s
  }

  /**
   * cp, run over [0, 1], traces the curve P over [lo, hi]. The quantifier
   * fires only on `Reparam` terms, so that a curve that traces itself does
   * not feed its own instances back.
   */
  ghost predicate Traces(cp: seq<Point>, P: seq<Point>, lo: real, hi: real)
  {
    forall s {:trigger Reparam(lo, hi, s)} :: Value(cp, s) == Value(P, Reparam(lo, hi, s))
  }

  /** A curve traces itself over [0, 1]. */
  lemma TracesWhole(P: seq<Point>)
    ensures Traces(P, P, 0.0, 1.0)
  {
    forall s
      ensures Value(P, s) == Value(P, Reparam(0.0, 1.0, s))
    {
      assert Reparam(0.0, 1.0, s) == s;
    }
  }

  /** A piece that traces P over [lo, hi] starts at P's value at lo and ends at its value at hi. */
  lemma {:induction false} TracesEnds(cp: seq<Point>, P: seq<Point>, lo: real, hi: real)
    requires |cp| >= 1 && Traces(cp, P, lo, hi)
    ensures cp[0] == Value(P, lo) && Last(cp) == Value(P, hi)
  {
    ValueAtZero(cp);
    ValueAtOne(cp);
    assert Value(cp, 0.0) == Value(P, Reparam(lo, hi, 0.0));
    assert Value(cp, 1.0) == Value(P, Reparam(lo, hi, 1.0));
  }

  /**
   * Splitting a piece that traces P over [lo, hi] at one half gives a left
   * half over [lo, m] and a right half over [m, hi], m the midpoint.
   */
  lemma HalvesTrace(cp: seq<Point>, P: seq<Point>, lo: real, hi: real)
    requires Traces(cp, P, lo, hi)
    ensures Traces(SplitLeft(cp, 0.5), P, lo, (lo + hi) / 2.0)
    ensures Traces(SplitRight(cp, 0.5), P, (lo + hi) / 2.0, hi)
  {
    var m := (lo + hi) / 2.0;
    forall s
      ensures Value(SplitLeft(cp, 0.5), s) == Value(P, Reparam(lo, m, s))
    {
      SplitLeftValue(cp, 0.5, s);
      assert Value(cp, 0.5 * s) == Value(P, Reparam(lo, hi, 0.5 * s));
      LeftHalfParameter(lo, hi, m, s);
    }
    forall s
      ensures Value(SplitRight(cp, 0.5), s) == Value(P, Reparam(m, hi, s))
    {
      SplitRightValue(cp, 0.5, s);
      assert Value(cp, 0.5 + (1.0 - 0.5) * s) == Value(P, Reparam(lo, hi, 0.5 + (1.0 - 0.5) * s));
      RightHalfParameter(lo, hi, m, s);
    }
  }

  lemma LeftHalfParameter(lo: real, hi: real, m: real, s: real)
    requires m == (lo + hi) / 2.0
    ensures Reparam(lo, hi, 0.5 * s) == Reparam(lo, m, s)
  {
  }

  lemma RightHalfParameter(lo: real, hi: real, m: real, s: real)
    requires m == (lo + hi) / 2.0
    ensures Reparam(lo, hi, 0.5 + (1.0 - 0.5) * s) == Reparam(m, hi, s)
  {
  }

  /** The left part at z traces the curve over [0, z], for any z. */
  lemma SplitLeftTraces(P: seq<Point>, z: real)
    ensures Traces(SplitLeft(P, z), P, 0.0, z)
  {
    forall s
      ensures Value(SplitLeft(P, z), s) == Value(P, Reparam(0.0, z, s))
    {
      SplitLeftValue(P, z, s);
      assert Reparam(0.0, z, s) == z * s;
    }
  }

  /** The right part at z traces the curve over [z, 1], for any z. */
  lemma SplitRightTraces(P: seq<Point>, z: real)
    ensures Traces(SplitRight(P, z), P, z, 1.0)
  {
    forall s
      ensures Value(SplitRight(P, z), s) == Value(P, Reparam(z, 1.0, s))
    {
      SplitRightValue(P, z, s);
    }
  }

  /**
   * Tracing composes: a piece of a piece of P over [c, d] is a piece of P,
   * over the image of its own interval [a, b] in [c, d].
   */
  lemma TracesCompose(x: seq<Point>, y: seq<Point>, P: seq<Point>, a: real, b: real, c: real, d: real)
    requires Traces(x, y, a, b) && Traces(y, P, c, d)
    ensures Traces(x, P, Reparam(c, d, a), Reparam(c, d, b))
  {
    var lo, hi := Reparam(c, d, a), Reparam(c, d, b);
    forall s
      ensures Value(x, s) == Value(P, Reparam(lo, hi, s))
    {
      var u := Reparam(a, b, s);
      assert Value(x, s) == Value(y, u);
      assert Value(y, u) == Value(P, Reparam(c, d, u));
      NestedParameter(a, b, c, d, s);
    }
  }

  lemma NestedParameter(a: real, b: real, c: real, d: real, s: real)
    ensures Reparam(c, d, Reparam(a, b, s)) == Reparam(Reparam(c, d, a), Reparam(c, d, b), s)
  {
    assert (d - c) * (a + (b - a) * s) == (d - c) * a + ((d - c) * b - (d - c) * a) * s;
  }

  /** Pointwise blend of two control-point sequences. */
  function LerpAll(A: seq<Point>, B: seq<Point>, z: real): (r: seq<Point>)
    requires |A| == |B|
    ensures |r| == |A|
  {
    seq(|A|, k requires 0 <= k < |A| => Lerp(A[k], B[k], z))
  }

  /** Evaluation is linear in the control points: blends. */
  lemma {:induction false} ValueLerpAll(A: seq<Point>, B: seq<Point>, z: real, s: real)
    requires |A| == |B| >= 1
    ensures Value(LerpAll(A, B, z), s) == Lerp(Value(A, s), Value(B, s), z)
    decreases |A|
  {
    var L := LerpAll(A, B, z);
    if |A| > 1 {
      var A0, A1, B0, B1 := A[..|A| - 1], A[1..], B[..|B| - 1], B[1..];
      assert L[..|L| - 1] == LerpAll(A0, B0, z);
      assert L[1..] == LerpAll(A1, B1, z);
      ValueLerpAll(A0, B0, z, s);
      ValueLerpAll(A1, B1, z, s);
      LerpSwap(Value(A0, s), Value(A1, s), Value(B0, s), Value(B1, s), z, s);
    }
  }

  /** Blending in s and in z commute. */
  lemma LerpSwap(a0: Point, a1: Point, b0: Point, b1: Point, z: real, s: real)
    ensures Lerp(Lerp(a0, b0, z), Lerp(a1, b1, z), s) == Lerp(Lerp(a0, a1, s), Lerp(b0, b1, s), z)
  {
    LerpMix(a0, b0, z);
    LerpMix(a1, b1, z);
    LerpMix(Lerp(a0, b0, z), Lerp(a1, b1, z), s);
    LerpMix(a0, a1, s);
    LerpMix(b0, b1, s);
    LerpMix(Lerp(a0, a1, s), Lerp(b0, b1, s), z);
    BlendSwap(a0.x, a1.x, b0.x, b1.x, z, s);
    BlendSwap(a0.y, a1.y, b0.y, b1.y, z, s);
  }

  lemma BlendSwap(a0: real, a1: real, b0: real, b1: real, z: real, s: real)
    ensures Mix(Mix(a0, b0, z), Mix(a1, b1, z), s) == Mix(Mix(a0, a1, s), Mix(b0, b1, s), z)
  {
  }

  /** Going a fraction s of the way to the point at z is going z s of the way. */
  lemma LerpNested(a: Point, b: Point, z: real, s: real)
    ensures Lerp(a, Lerp(a, b, z), s) == Lerp(a, b, z * s)
  {
    LerpMix(a, b, z);
    LerpMix(a, Lerp(a, b, z), s);
    LerpMix(a, b, z * s);
    BlendNested(a.x, b.x, z, s);
    BlendNested(a.y, b.y, z, s);
  }

  lemma BlendNested(a: real, b: real, z: real, s: real)
    ensures Mix(a, Mix(a, b, z), s) == Mix(a, b, z * s)
  {
  }

  /*************************************************************************
   * Power-basis coefficients
   *************************************************************************/

  function Binomial(n: nat, k: nat): nat
    decreases n
  {
    if k == 0 then 1
    else if n == 0 then 0
    else Binomial(n - 1, k - 1) + Binomial(n - 1, k)
  }

  function Sign(k: nat): real
  {
    if k % 2 == 0 then 1.0 else -1.0
  }

  /**
   * `bernsteinCoeffs(n)`: entry (j, i) is C(n-1, j) C(j, i) (-1)^(j-i) for
   * i <= j and 0 above the diagonal; this is the closed form of the library's
   * matrix exponential of the alternating sub-diagonal matrix, scaled by row.
   * The rows are given by `Entry`; `PowerPolyValue` shows that the power form
   * these coefficients produce evaluates to the curve.
   */
  function BernsteinCoeffs(n: nat): (B: seq<seq<real>>)
    ensures |B| == n
    ensures forall j :: 0 <= j < n ==> |B[j]| == n
  {
    seq(n, j requires 0 <= j < n =>
      seq(n, i requires 0 <= i < n => Entry(n - 1, j, i)))
  }

  /** C(m, j) C(j, i) (-1)^(j-i) on and below the diagonal, 0 above it. */
  function Entry(m: nat, j: nat, i: nat): real
  {
    if i <= j then (Binomial(m, j) as real) * (Binomial(j, i) as real) * Sign(j - i) else 0.0
  }

  /** `bernsteinCoeffs(N) * P`: row j holds the coefficient of t^j of the curve. */
  function PowerPoly(P: seq<Point>): (C: seq<Point>)
    ensures |C| == |P|
  {
    MatTimes(BernsteinCoeffs(|P|), P)
  }

  /** One column of `PowerPoly`, lowest degree first. */
  function PowerCoeffs(P: seq<Point>, axis: Axis): (c: seq<real>)
    ensures |c| == |P|
  {
    var C := PowerPoly(P);
    seq(|C|, j requires 0 <= j < |C| => Coord(C[j], axis))
  }

  /** The constant coefficient is the start point, the curve's value at t = 0. */
  lemma {:induction false} PowerPolyConstant(P: seq<Point>)
    requires |P| >= 1
    ensures PowerPoly(P)[0] == P[0] == Value(P, 0.0)
  {
    var row := BernsteinCoeffs(|P|)[0];
    assert row[0] == 1.0;
    RowFromSingle(row, P, 0);
    ValueAtZero(P);
  }

  /** A two-point curve is the line P0 + t (P1 - P0). */
  lemma PowerPolyLine(P: seq<Point>)
    requires |P| == 2
    ensures PowerPoly(P) == [P[0], Sub(P[1], P[0])]
  {
    BernsteinTwo();
    PowerPolySized(P, 2);
    LineRows(P, [1.0, 0.0], [-1.0, 1.0]);
  }

  /** The two-point matrix: 1 = 1, t = -P0 + P1. */
  lemma BernsteinTwo()
    ensures BernsteinCoeffs(2) == [[1.0, 0.0], [-1.0, 1.0]]
  {
    var B := BernsteinCoeffs(2);
    assert Binomial(1, 0) == 1 && Binomial(0, 0) == 1;
    assert Binomial(1, 1) == Binomial(0, 0) + Binomial(0, 1) == 1;
    assert B[0] == [1.0, 0.0];
    assert B[1] == [-1.0, 1.0];
  }

  lemma LineRows(P: seq<Point>, r0: seq<real>, r1: seq<real>)
    requires |P| == 2 && r0 == [1.0, 0.0] && r1 == [-1.0, 1.0]
    ensures MatTimes([r0, r1], P) == [P[0], Sub(P[1], P[0])]
  {
    var C := MatTimes([r0, r1], P);
    RowFromPair(r0, P, 0);
    RowFromPair(r1, P, 0);
    assert C[0] == Add(Scale(1.0, P[0]), Scale(0.0, P[1])) == P[0];
    assert C[1] == Add(Scale(-1.0, P[0]), Scale(1.0, P[1])) == Sub(P[1], P[0]);
  }

  /*************************************************************************
   * The power form evaluates to the curve
   *************************************************************************/

  /** A polynomial with point coefficients, lowest degree first, by Horner's rule. */
  function PowerValue(C: seq<Point>, t: real): Point
  {
    if |C| == 0 then Origin else Add(C[0], Scale(t, PowerValue(C[1..], t)))
  }

  /** The power-basis row (1, t, t^2, ..., t^(n-1)). */
  function PowerRow(t: real, n: nat): (row: seq<real>)
    ensures |row| == n
  {
    seq(n, j requires 0 <= j < n => Sturm.Pow(t, j))
  }

  /**
   * `valueAt(t)`: an empty curve gives (0,0); otherwise the power-basis row
   * at t times `bernsteinCoeffs(N)` times the control points. This is the
   * de Casteljau value.
   */
  function ValueAt(P: seq<Point>, t: real): (p: Point)
    ensures p == Value(P, t)
  {
    if |P| == 0 then Origin
    else
      PowerRowValue(PowerPoly(P), t);
      PowerPolyValue(P, t);
      RowTimes(PowerRow(t, |P|), PowerPoly(P))
  }

  /**
   * The vector overload of `valueAt`: row k of (power-basis matrix of the
   * parameters) x `bernsteinCoeffs(N)` x (control points), one point per
   * parameter, in order.
   */
  function Values(P: seq<Point>, ts: seq<real>): (r: seq<Point>)
    ensures |r| == |ts|
  {
    var C := PowerPoly(P);
    seq(|ts|, k requires 0 <= k < |ts| => RowTimes(PowerRow(ts[k], |P|), C))
  }

  /** The batched product gives, for each parameter, the curve's value there. */
  lemma {:induction false} ValuesAreValues(P: seq<Point>, ts: seq<real>)
    ensures forall k :: 0 <= k < |ts| ==> Values(P, ts)[k] == Value(P, ts[k])
  {
    forall k | 0 <= k < |ts|
      ensures Values(P, ts)[k] == Value(P, ts[k])
    {
      PowerRowValue(PowerPoly(P), ts[k]);
      PowerPolyValue(P, ts[k]);
    }
  }

  /**
   * The power form of the curve evaluates to the curve: for every t,
   * C[0] + C[1] t + ... + C[N-1] t^(N-1) with C = `PowerPoly(P)` is the
   * de Casteljau value of P at t.
   */
  lemma {:induction false} PowerPolyValue(P: seq<Point>, t: real)
    ensures PowerValue(PowerPoly(P), t) == Value(P, t)
    decreases |P|
  {
    var n := |P|;
    if n == 1 {
      PowerPolyConstant(P);
      assert PowerPoly(P) == [P[0]];
      assert PowerValue(PowerPoly(P), t) == Add(P[0], Scale(t, Origin));
    } else if n >= 2 {
      var A, B := P[..n - 1], P[1..];
      var CA, CB := PowerPoly(A), PowerPoly(B);
      PowerStep(P);
      PowerPolyValue(A, t);
      PowerPolyValue(B, t);
      PowerValueCombine(Pad(CA), Shift(CB), Shift(CA), t);
      PowerValuePad(CA, t);
      PowerValueShift(CB, t);
      PowerValueShift(CA, t);
      LerpAsStep(Value(A, t), Value(B, t), t);
    }
  }

  /** a + (t b - t a) is the blend (1 - t) a + t b. */
  lemma LerpAsStep(a: Point, b: Point, t: real)
    ensures Add(a, Sub(Scale(t, b), Scale(t, a))) == Lerp(a, b, t)
  {
  }

  /** The coefficients followed by a zero coefficient. */
  function Pad(C: seq<Point>): (r: seq<Point>)
    ensures |r| == |C| + 1
  {
    C + [Origin]
  }

  /** The coefficients multiplied by t: a zero constant term in front. */
  function Shift(C: seq<Point>): (r: seq<Point>)
    ensures |r| == |C| + 1
  {
    [Origin] + C
  }

  /** Coefficientwise X + (Y - Z). */
  function Combine(X: seq<Point>, Y: seq<Point>, Z: seq<Point>): (r: seq<Point>)
    requires |X| == |Y| == |Z|
    ensures |r| == |X|
  {
    seq(|X|, k requires 0 <= k < |X| => Add(X[k], Sub(Y[k], Z[k])))
  }

  lemma {:induction false} PowerValuePad(C: seq<Point>, t: real)
    ensures PowerValue(Pad(C), t) == PowerValue(C, t)
    decreases |C|
  {
    if |C| == 0 {
      assert PowerValue(Pad(C), t) == Add(Origin, Scale(t, PowerValue([], t)));
    } else {
      assert Pad(C)[1..] == Pad(C[1..]);
      PowerValuePad(C[1..], t);
    }
  }

  lemma {:induction false} PowerValueShift(C: seq<Point>, t: real)
    ensures PowerValue(Shift(C), t) == Scale(t, PowerValue(C, t))
  {
    assert Shift(C)[1..] == C;
  }

  lemma {:induction false} PowerValueCombine(X: seq<Point>, Y: seq<Point>, Z: seq<Point>, t: real)
    requires |X| == |Y| == |Z|
    ensures PowerValue(Combine(X, Y, Z), t) == Add(PowerValue(X, t), Sub(PowerValue(Y, t), PowerValue(Z, t)))
    decreases |X|
  {
    if |X| > 0 {
      var W := Combine(X, Y, Z);
      assert W[1..] == Combine(X[1..], Y[1..], Z[1..]);
      PowerValueCombine(X[1..], Y[1..], Z[1..], t);
      CombineHorner(X[0], Y[0], Z[0], PowerValue(X[1..], t), PowerValue(Y[1..], t), PowerValue(Z[1..], t), t);
    }
  }

  lemma CombineHorner(x: Point, y: Point, z: Point, u: Point, v: Point, w: Point, t: real)
    ensures Add(Add(x, Sub(y, z)), Scale(t, Add(u, Sub(v, w))))
         == Add(Add(x, Scale(t, u)), Sub(Add(y, Scale(t, v)), Add(z, Scale(t, w))))
  {
  }

  /**
   * The coefficient recurrence behind `PowerPolyValue`: with A the first
   * N-1 and B the last N-1 control points, the power form of P is that of A
   * plus t times the difference of the power forms of B and A.
   */
  lemma PowerStep(P: seq<Point>)
    requires |P| >= 2
    ensures PowerPoly(P) == Combine(Pad(PowerPoly(P[..|P| - 1])), Shift(PowerPoly(P[1..])), Shift(PowerPoly(P[..|P| - 1])))
  {
    var n := |P|;
    var A, B := P[..n - 1], P[1..];
    var R := Combine(Pad(PowerPoly(A)), Shift(PowerPoly(B)), Shift(PowerPoly(A)));
    forall j | 0 <= j < n
      ensures PowerPoly(P)[j] == R[j]
    {
      PowerStepAt(P, j);
    }
  }

  /** Coefficient j of the recurrence, as sums over all N control points. */
  lemma PowerStepAt(P: seq<Point>, j: nat)
    requires |P| >= 2 && j < |P|
    ensures var A, B := P[..|P| - 1], P[1..];
      PowerPoly(P)[j] == Add(Pad(PowerPoly(A))[j], Sub(Shift(PowerPoly(B))[j], Shift(PowerPoly(A))[j]))
  {
    var rows := StepRows(|P|, j);
    BernsteinRowStep(|P|, j);
    RowFromCombine(rows.0, rows.1, rows.2, P, 0);
    assert PowerPoly(P)[j] == RowFrom(BernsteinCoeffs(|P|)[j], P, 0);
    FirstStepTerm(P, j);
    SecondStepTerm(P, j);
    ThirdStepTerm(P, j);
  }

  lemma {:induction false} FirstStepTerm(P: seq<Point>, j: nat)
    requires |P| >= 2 && j < |P|
    ensures Pad(PowerPoly(P[..|P| - 1]))[j] == RowFrom(StepRows(|P|, j).0, P, 0)
  {
    if j < |P| - 1 {
      PowerPolySized(P[..|P| - 1], |P| - 1);
      PaddedRow(BernsteinCoeffs(|P| - 1), P, j, StepRows(|P|, j).0);
    } else {
      RowFromAllZero(Sturm.Zeros(|P|), P, 0);
    }
  }

  lemma {:induction false} SecondStepTerm(P: seq<Point>, j: nat)
    requires |P| >= 2 && j < |P|
    ensures Shift(PowerPoly(P[1..]))[j] == RowFrom(StepRows(|P|, j).1, P, 0)
  {
    if j >= 1 { SecondStepTail(P, j); } else { SecondStepHead(P); }
  }

  lemma {:induction false} SecondStepTail(P: seq<Point>, j: nat)
    requires |P| >= 2 && 1 <= j < |P|
    ensures Shift(PowerPoly(P[1..]))[j] == RowFrom(StepRows(|P|, j).1, P, 0)
  {
    var M, second := BernsteinCoeffs(|P| - 1), StepRows(|P|, j).1;
    assert A1: forall i :: 0 <= i < |M| ==> |M[i]| == |P| - 1;
    assert A2: second == [0.0] + M[j - 1];
    PowerPolySized(P[1..], |P| - 1);
    ShiftedTailRow(M, P, j, second);
  }

  lemma {:induction false} SecondStepHead(P: seq<Point>)
    requires |P| >= 2
    ensures Shift(PowerPoly(P[1..]))[0] == RowFrom(StepRows(|P|, 0).1, P, 0)
  {
    RowFromAllZero(StepRows(|P|, 0).1, P, 0);
  }

  lemma {:induction false} ThirdStepTerm(P: seq<Point>, j: nat)
    requires |P| >= 2 && j < |P|
    ensures Shift(PowerPoly(P[..|P| - 1]))[j] == RowFrom(StepRows(|P|, j).2, P, 0)
  {
    if j >= 1 {
      PowerPolySized(P[..|P| - 1], |P| - 1);
      ShiftedInitRow(BernsteinCoeffs(|P| - 1), P, j, StepRows(|P|, j).2);
    } else {
      RowFromAllZero(Sturm.Zeros(|P|), P, 0);
    }
  }

  lemma PowerPolySized(A: seq<Point>, n: nat)
    requires |A| == n
    ensures PowerPoly(A) == MatTimes(BernsteinCoeffs(n), A)
  {
  }

  /*
   * The three terms for any matrix M over N-1 points, so that the
   * entries of the Bernstein matrix stay out of these steps.
   */

  lemma {:induction false} PaddedRow(M: seq<seq<real>>, P: seq<Point>, j: nat, first: seq<real>)
    requires |P| >= 2 && j < |M|
    requires forall i :: 0 <= i < |M| ==> |M[i]| == |P| - 1
    requires first == M[j] + [0.0]
    ensures Pad(MatTimes(M, P[..|P| - 1]))[j] == RowFrom(first, P, 0)
  {
    RowFromInit(M[j], P, 0);
  }

  lemma {:induction false} ShiftedTailRow(M: seq<seq<real>>, P: seq<Point>, j: nat, second: seq<real>)
    requires |P| >= 2 && 1 <= j <= |M|
    requires forall i :: 0 <= i < |M| ==> |M[i]| == |P| - 1
    requires second == [0.0] + M[j - 1]
    ensures Shift(MatTimes(M, P[1..]))[j] == RowFrom(second, P, 0)
  {
    RowFromTail(M[j - 1], P, 0);
  }

  lemma {:induction false} ShiftedInitRow(M: seq<seq<real>>, P: seq<Point>, j: nat, third: seq<real>)
    requires |P| >= 2 && 1 <= j <= |M|
    requires forall i :: 0 <= i < |M| ==> |M[i]| == |P| - 1
    requires third == M[j - 1] + [0.0]
    ensures Shift(MatTimes(M, P[..|P| - 1]))[j] == RowFrom(third, P, 0)
  {
    RowFromInit(M[j - 1], P, 0);
  }

  /**
   * For row j of the N-point matrix, the three rows of the (N-1)-point
   * matrix it is made of, each widened to N columns: row j padded with a
   * zero, row j-1 behind a zero, and row j-1 padded with a zero (zero rows
   * where the index is out of range).
   */
  function StepRows(n: nat, j: nat): (rows: (seq<real>, seq<real>, seq<real>))
    requires n >= 2 && j < n
    ensures |rows.0| == |rows.1| == |rows.2| == n
    ensures j < n - 1 ==> rows.0 == BernsteinCoeffs(n - 1)[j] + [0.0]
    ensures j >= 1 ==> rows.1 == [0.0] + BernsteinCoeffs(n - 1)[j - 1] && rows.2 == BernsteinCoeffs(n - 1)[j - 1] + [0.0]
    ensures j == n - 1 ==> rows.0 == Sturm.Zeros(n)
    ensures j == 0 ==> rows.1 == Sturm.Zeros(n) && rows.2 == Sturm.Zeros(n)
  {
    var m := n - 1;
    (if j < m then BernsteinCoeffs(m)[j] + [0.0] else Sturm.Zeros(n),
     if j >= 1 then [0.0] + BernsteinCoeffs(m)[j - 1] else Sturm.Zeros(n),
     if j >= 1 then BernsteinCoeffs(m)[j - 1] + [0.0] else Sturm.Zeros(n))
  }

  /** Row j of the N-point matrix is the first step row plus the second minus the third. */
  lemma BernsteinRowStep(n: nat, j: nat)
    requires n >= 2 && j < n
    ensures var rows := StepRows(n, j);
      BernsteinCoeffs(n)[j] == CombineRows(rows.0, rows.1, rows.2)
  {
    var m := n - 1;
    var rows := StepRows(n, j);
    var R1, R2, R3 := rows.0, rows.1, rows.2;
    forall i | 0 <= i < n
      ensures BernsteinCoeffs(n)[j][i] == R1[i] + R2[i] - R3[i]
    {
      EntryStep(m, j, i);
      if j == m {
        BinomialAbove(m - 1, m);
      }
      if i == m {
        EntryAbove(m - 1, j);
        if j >= 1 {
          EntryAbove(m - 1, j - 1);
        }
      }
    }
  }

  /** Column m of a row built from C(m-1, .) is zero. */
  lemma EntryAbove(k: nat, j: nat)
    ensures Entry(k, j, k + 1) == 0.0
  {
    if k + 1 <= j {
      BinomialAbove(k, j);
    }
  }

  /** C(n, k) = 0 for k > n. */
  lemma {:induction false} BinomialAbove(n: nat, k: nat)
    requires k > n
    ensures Binomial(n, k) == 0
    decreases n
  {
    if n > 0 {
      BinomialAbove(n - 1, k - 1);
      BinomialAbove(n - 1, k);
    }
  }

  /**
   * The entry recurrence: the entry for m is the entry for m-1 plus the
   * entry for m-1 moved one down and one right, minus the entry for m-1
   * moved one down.
   */
  lemma EntryStep(m: nat, j: nat, i: nat)
    requires m >= 1
    ensures Entry(m, j, i) == Entry(m - 1, j, i)
      + (if j >= 1 && i >= 1 then Entry(m - 1, j - 1, i - 1) else 0.0)
      - (if j >= 1 then Entry(m - 1, j - 1, i) else 0.0)
  {
    if i <= j && j >= 1 {
      if i == 0 {
        EntryStepFirstColumn(m, j);
      } else if i == j {
        EntryStepDiagonal(m, j);
      } else {
        EntryStepInterior(m, j, i);
      }
    }
  }

  lemma EntryStepFirstColumn(m: nat, j: nat)
    requires m >= 1 && j >= 1
    ensures Entry(m, j, 0) == Entry(m - 1, j, 0) - Entry(m - 1, j - 1, 0)
  {
    assert Binomial(j, 0) == 1 && Binomial(j - 1, 0) == 1;
    SignStep(j - 1);
    EntryAlgebra(Binomial(m, j) as real, 1.0, Binomial(m - 1, j) as real, Binomial(m - 1, j - 1) as real,
      1.0, 0.0, Sign(j), Sign(j - 1));
  }

  lemma EntryStepDiagonal(m: nat, j: nat)
    requires m >= 1 && j >= 1
    ensures Entry(m, j, j) == Entry(m - 1, j, j) + Entry(m - 1, j - 1, j - 1) - Entry(m - 1, j - 1, j)
  {
    BinomialAbove(j - 1, j);
    assert Entry(m - 1, j - 1, j) == 0.0;
    SignStep(0);
    EntryAlgebra(Binomial(m, j) as real, Binomial(j, j) as real, Binomial(m - 1, j) as real, Binomial(m - 1, j - 1) as real,
      Binomial(j - 1, j - 1) as real, 0.0, Sign(0), Sign(1));
  }

  lemma EntryStepInterior(m: nat, j: nat, i: nat)
    requires m >= 1 && 1 <= i < j
    ensures Entry(m, j, i) == Entry(m - 1, j, i) + Entry(m - 1, j - 1, i - 1) - Entry(m - 1, j - 1, i)
  {
    SignStep(j - 1 - i);
    assert j - 1 - (i - 1) == j - i && j - 1 - i + 1 == j - i;
    EntryAlgebra(Binomial(m, j) as real, Binomial(j, i) as real, Binomial(m - 1, j) as real, Binomial(m - 1, j - 1) as real,
      Binomial(j - 1, i - 1) as real, Binomial(j - 1, i) as real, Sign(j - i), Sign(j - 1 - i));
  }

  lemma SignStep(k: nat)
    ensures Sign(k + 1) == -Sign(k)
  {
  }

  /** Pascal's rule in both factors: (a + b)(c + d) s = a (c + d) s + b c s - b d (-s). */
  lemma EntryAlgebra(X: real, Y: real, a: real, b: real, c: real, d: real, s: real, s1: real)
    requires X == a + b && Y == c + d && s1 == -s
    ensures X * Y * s == a * Y * s + b * c * s - b * d * s1
  {
  }

  /** Coefficientwise r1 + r2 - r3. */
  function CombineRows(r1: seq<real>, r2: seq<real>, r3: seq<real>): (r: seq<real>)
    requires |r1| == |r2| == |r3|
    ensures |r| == |r1|
  {
    seq(|r1|, i requires 0 <= i < |r1| => r1[i] + r2[i] - r3[i])
  }

  /** Coefficientwise r1 + r2 - r3 sums to the same combination of the sums. */
  lemma {:induction false} RowFromCombine(r1: seq<real>, r2: seq<real>, r3: seq<real>, P: seq<Point>, k: nat)
    requires |r1| == |r2| == |r3| == |P| && k <= |P|
    ensures RowFrom(CombineRows(r1, r2, r3), P, k) == Add(RowFrom(r1, P, k), Sub(RowFrom(r2, P, k), RowFrom(r3, P, k)))
    decreases |P| - k
  {
    if k < |P| {
      RowFromCombine(r1, r2, r3, P, k + 1);
      CombineTerm(r1[k], r2[k], r3[k], P[k],
        RowFrom(r1, P, k + 1), RowFrom(r2, P, k + 1), RowFrom(r3, P, k + 1));
    }
  }

  lemma CombineTerm(a: real, b: real, c: real, p: Point, u: Point, v: Point, w: Point)
    ensures Add(Scale(a + b - c, p), Add(u, Sub(v, w)))
         == Add(Add(Scale(a, p), u), Sub(Add(Scale(b, p), v), Add(Scale(c, p), w)))
  {
  }

  /** A row over the first N-1 points is the row padded with 0 over all N points. */
  lemma {:induction false} RowFromInit(r: seq<real>, P: seq<Point>, k: nat)
    requires |P| >= 1 && |r| == |P| - 1 && k <= |r|
    ensures RowFrom(r, P[..|P| - 1], k) == RowFrom(r + [0.0], P, k)
    decreases |r| - k
  {
    if k < |r| {
      var A, r0 := P[..|P| - 1], r + [0.0];
      RowFromInit(r, P, k + 1);
      assert A[k] == P[k] && r0[k] == r[k];
      assert RowFrom(r, A, k) == Add(Scale(r[k], A[k]), RowFrom(r, A, k + 1));
      assert RowFrom(r0, P, k) == Add(Scale(r0[k], P[k]), RowFrom(r0, P, k + 1));
    } else {
      RowFromDropZero(r + [0.0], P, k);
    }
  }

  /** A row over the last N-1 points is 0 followed by the row over all N points. */
  lemma {:induction false} RowFromTail(r: seq<real>, P: seq<Point>, k: nat)
    requires |P| >= 1 && |r| == |P| - 1 && k <= |r|
    ensures RowFrom(r, P[1..], k) == RowFrom([0.0] + r, P, k + 1)
    ensures k == 0 ==> RowFrom(r, P[1..], 0) == RowFrom([0.0] + r, P, 0)
    decreases |r| - k
  {
    if k < |r| {
      RowFromTail(r, P, k + 1);
    }
    if k == 0 {
      RowFromDropZero([0.0] + r, P, 0);
    }
  }

  /** The power-basis row times the coefficients is Horner's value. */
  lemma {:induction false} PowerRowValue(C: seq<Point>, t: real)
    ensures RowTimes(PowerRow(t, |C|), C) == PowerValue(C, t)
  {
    PowerRowFrom(C, t, 0);
  }

  lemma {:induction false} PowerRowFrom(C: seq<Point>, t: real, k: nat)
    requires k <= |C|
    ensures RowFrom(PowerRow(t, |C|), C, k) == Scale(Sturm.Pow(t, k), PowerValue(C[k..], t))
    decreases |C| - k
  {
    if k < |C| {
      var w, pw, v := Sturm.Pow(t, k), Sturm.Pow(t, k + 1), PowerValue(C[k + 1..], t);
      PowerRowFrom(C, t, k + 1);
      assert C[k..][1..] == C[k + 1..];
      assert pw == t * w;
      HornerTerm(w, t, C[k], v);
    }
  }

  lemma HornerTerm(w: real, t: real, c: Point, v: Point)
    ensures Add(Scale(w, c), Scale(t * w, v)) == Scale(w, Add(c, Scale(t, v)))
  {
  }

  /*************************************************************************
   * trimZeroes
   *************************************************************************/

  /**
   * `trimZeroes`: drops trailing exact zeros, so the result is a prefix of
   * the input that is empty or ends in a non-zero value.
   */
  function TrimTrailing(v: seq<real>): (r: seq<real>)
    ensures |r| <= |v| && r == v[..|r|]
    ensures r == [] || Last(r) != 0.0
    ensures forall k :: |r| <= k < |v| ==> v[k] == 0.0
    decreases |v|
  {
    if |v| == 0 || Last(v) != 0.0 then v else TrimTrailing(v[..|v| - 1])
  }

  /** The index-decrement loop of `trimZeroes`. */
  method TrimZeroes(v: seq<real>) returns (r: seq<real>)
    ensures r == TrimTrailing(v)
  {
    var idx := |v|;
    while idx > 0 && v[idx - 1] == 0.0
      invariant 0 <= idx <= |v|
      invariant TrimTrailing(v[..idx]) == TrimTrailing(v)
      decreases idx
    {
      assert v[..idx - 1] == v[..idx][..idx - 1];
      idx := idx - 1;
    }
    assert v[..idx] == v[..|v|][..idx];
    r := v[..idx];
  }

  /*************************************************************************
   * Roots, extrema and the bounding box
   *************************************************************************/

  /**
   * The library's polynomial solver (Eigen's companion-matrix eigenvalue
   * solver) is a foreign numeric routine: it is passed in as a function from
   * coefficients (lowest degree first) to the real roots it reports.
   */
  type Solver = seq<real> -> seq<real>

  /** Keeps, in order, the parameters inside [0, 1]. */
  function InUnit(ts: seq<real>): (r: seq<real>)
    ensures forall t :: t in r <==> t in ts && 0.0 <= t <= 1.0
    ensures |r| <= |ts|
  {
    if |ts| == 0 then []
    else (if 0.0 <= ts[0] <= 1.0 then [ts[0]] else []) + InUnit(ts[1..])
  }

  /** The solver's roots of one coordinate polynomial, when it has degree at least one. */
  function AxisRoots(P: seq<Point>, axis: Axis, solve: Solver): seq<real>
  {
    var trimmed := TrimTrailing(PowerCoeffs(P, axis));
    if |trimmed| > 1 then solve(trimmed) else []
  }

  /**
   * `roots()`: the in-range roots of the x polynomial, then those of the y
   * polynomial; nothing for a curve of fewer than two points.
   */
  function Roots(P: seq<Point>, solve: Solver): (r: seq<real>)
    ensures forall t :: t in r ==> 0.0 <= t <= 1.0
    ensures |P| <= 1 ==> r == []
    ensures |P| > 1 ==> forall t :: 0.0 <= t <= 1.0 ==>
      (t in r <==> t in AxisRoots(P, X, solve) || t in AxisRoots(P, Y, solve))
  {
    if |P| > 1 then InUnit(AxisRoots(P, X, solve)) + InUnit(AxisRoots(P, Y, solve)) else []
  }

  /** `extrema()`: the roots of the derivative curve. */
  function Extrema(P: seq<Point>, solve: Solver): seq<real>
    requires |P| >= 1
  {
    Roots(Derivative(P), solve)
  }

  /** The smallest coordinate of a non-empty point list. */
  function MinCoord(pts: seq<Point>, axis: Axis): (m: real)
    requires |pts| >= 1
    ensures forall i :: 0 <= i < |pts| ==> m <= Coord(pts[i], axis)
    ensures exists i :: 0 <= i < |pts| && m == Coord(pts[i], axis)
    decreases |pts|
  {
    if |pts| == 1 then Coord(pts[0], axis)
    else
      var rest := MinCoord(pts[1..], axis);
      var c := Coord(pts[0], axis);
      assert forall i :: 1 <= i < |pts| ==> pts[1..][i - 1] == pts[i];
      if c <= rest then c else rest
  }

  /** The largest coordinate of a non-empty point list. */
  function MaxCoord(pts: seq<Point>, axis: Axis): (m: real)
    requires |pts| >= 1
    ensures forall i :: 0 <= i < |pts| ==> Coord(pts[i], axis) <= m
    ensures exists i :: 0 <= i < |pts| && m == Coord(pts[i], axis)
    decreases |pts|
  {
    if |pts| == 1 then Coord(pts[0], axis)
    else
      var rest := MaxCoord(pts[1..], axis);
      var c := Coord(pts[0], axis);
      assert forall i :: 1 <= i < |pts| ==> pts[1..][i - 1] == pts[i];
      if c >= rest then c else rest
  }

  /** Coordinate `axis` of one of the points is c. */
  predicate Reached(c: real, pts: seq<Point>, axis: Axis)
  {
    exists i :: 0 <= i < |pts| && c == Coord(pts[i], axis)
  }

  /** The coordinatewise min/max box of a non-empty point list. */
  function BoxOf(pts: seq<Point>): (b: Box)
    requires |pts| >= 1
    ensures forall i :: 0 <= i < |pts| ==> Contains(b, pts[i])
    ensures b.min.x <= b.max.x && b.min.y <= b.max.y
    ensures Reached(b.min.x, pts, X) && Reached(b.min.y, pts, Y)
    ensures Reached(b.max.x, pts, X) && Reached(b.max.y, pts, Y)
  {
    Box(Point(MinCoord(pts, X), MinCoord(pts, Y)), Point(MaxCoord(pts, X), MaxCoord(pts, Y)))
  }

  /** The curve over [0, 1] stays inside the box of its control points. */
  lemma {:induction false} ValueInBox(P: seq<Point>, t: real)
    requires |P| >= 1 && 0.0 <= t <= 1.0
    ensures Contains(BoxOf(P), Value(P, t))
    decreases |P|
  {
    if |P| > 1 {
      var L, R := P[..|P| - 1], P[1..];
      ValueInBox(L, t);
      ValueInBox(R, t);
      PartsIn(P, L, R);
      var p, q := Value(L, t), Value(R, t);
      SubBox(P, L, p);
      SubBox(P, R, q);
      MixContained(BoxOf(P), p, q, t);
    }
  }

  /** Both de Casteljau parts of P are made of P's points. */
  lemma PartsIn(P: seq<Point>, L: seq<Point>, R: seq<Point>)
    requires |P| > 1 && L == P[..|P| - 1] && R == P[1..]
    ensures forall i :: 0 <= i < |L| ==> L[i] in P
    ensures forall i :: 0 <= i < |R| ==> R[i] in P
  {
    assert forall i :: 0 <= i < |R| ==> R[i] == P[i + 1];
  }

  /** A point in the box of some of P's points is in the box of P. */
  lemma SubBox(P: seq<Point>, Q: seq<Point>, p: Point)
    requires |Q| >= 1 && forall i :: 0 <= i < |Q| ==> Q[i] in P
    requires Contains(BoxOf(Q), p)
    ensures Contains(BoxOf(P), p)
  {
    var b := BoxOf(Q);
    ReachedInside(P, Q, b.min.x, X);
    ReachedInside(P, Q, b.min.y, Y);
    ReachedInside(P, Q, b.max.x, X);
    ReachedInside(P, Q, b.max.y, Y);
  }

  /** A coordinate reached by some of P's points lies between the sides of P's box. */
  lemma ReachedInside(P: seq<Point>, Q: seq<Point>, c: real, axis: Axis)
    requires |Q| >= 1 && forall i :: 0 <= i < |Q| ==> Q[i] in P
    requires Reached(c, Q, axis)
    ensures Coord(BoxOf(P).min, axis) <= c <= Coord(BoxOf(P).max, axis)
  {
    var i :| 0 <= i < |Q| && c == Coord(Q[i], axis);
    var j :| 0 <= j < |P| && P[j] == Q[i];
    assert Contains(BoxOf(P), P[j]);
  }

  /** A point of the segment between two points of a box is in the box. */
  lemma MixContained(b: Box, p: Point, q: Point, t: real)
    requires Contains(b, p) && Contains(b, q) && 0.0 <= t <= 1.0
    ensures Contains(b, Lerp(p, q, t))
  {
    MixBetween(b.min.x, b.max.x, p.x, q.x, t);
    MixBetween(b.min.y, b.max.y, p.y, q.y, t);
  }

  lemma MixBetween(lo: real, hi: real, x: real, y: real, t: real)
    requires lo <= x <= hi && lo <= y <= hi && 0.0 <= t <= 1.0
    ensures lo <= (1.0 - t) * x + t * y <= hi
  {
    assert (1.0 - t) * (x - lo) >= 0.0 && t * (y - lo) >= 0.0;
    assert (1.0 - t) * (hi - x) >= 0.0 && t * (hi - y) >= 0.0;
    assert (1.0 - t) * x + t * y - lo == (1.0 - t) * (x - lo) + t * (y - lo);
    assert hi - ((1.0 - t) * x + t * y) == (1.0 - t) * (hi - x) + t * (hi - y);
  }

  /**
   * `boundingBox()`: the box of the curve's values at its extrema together
   * with both end points.
   */
  function BoundingBox(P: seq<Point>, solve: Solver): (b: Box)
    requires |P| >= 1
    ensures Contains(b, P[0]) && Contains(b, Last(P))
    ensures forall t :: t in Extrema(P, solve) ==> Contains(b, Value(P, t))
    ensures Touches(b.min.x, P, Extrema(P, solve), X) && Touches(b.min.y, P, Extrema(P, solve), Y)
    ensures Touches(b.max.x, P, Extrema(P, solve), X) && Touches(b.max.y, P, Extrema(P, solve), Y)
  {
    BoxThrough(P, Extrema(P, solve))
  }

  /** The box of P's values at ts together with both end points. */
  function BoxThrough(P: seq<Point>, ts: seq<real>): (b: Box)
    requires |P| >= 1
    ensures Contains(b, P[0]) && Contains(b, Last(P))
    ensures forall t :: t in ts ==> Contains(b, Value(P, t))
    ensures Touches(b.min.x, P, ts, X) && Touches(b.min.y, P, ts, Y)
    ensures Touches(b.max.x, P, ts, X) && Touches(b.max.y, P, ts, Y)
  {
    var pts := Values(P, ts) + [P[0], Last(P)];
    ValuesAreValues(P, ts);
    assert pts[|pts| - 2] == P[0] && pts[|pts| - 1] == Last(P);
    assert forall i :: 0 <= i < |ts| ==> pts[i] == Value(P, ts[i]);
    var b := BoxOf(pts);
    ReachedTouches(P, ts, pts, b.min.x, X);
    ReachedTouches(P, ts, pts, b.min.y, Y);
    ReachedTouches(P, ts, pts, b.max.x, X);
    ReachedTouches(P, ts, pts, b.max.y, Y);
    b
  }

  /** Coordinate `axis` of an end point of P, or of its value at one of ts, is c. */
  predicate Touches(c: real, P: seq<Point>, ts: seq<real>, axis: Axis)
    requires |P| >= 1
  {
    || c == Coord(P[0], axis)
    || c == Coord(Last(P), axis)
    || exists t :: t in ts && c == Coord(Value(P, t), axis)
  }

  lemma ReachedTouches(P: seq<Point>, ts: seq<real>, pts: seq<Point>, c: real, axis: Axis)
    requires |P| >= 1 && |pts| == |ts| + 2
    requires pts[|pts| - 2] == P[0] && pts[|pts| - 1] == Last(P)
    requires forall i :: 0 <= i < |ts| ==> pts[i] == Value(P, ts[i])
    requires Reached(c, pts, axis)
    ensures Touches(c, P, ts, axis)
  {
    var i :| 0 <= i < |pts| && c == Coord(pts[i], axis);
    if i < |ts| {
      var t := ts[i];
      assert t in ts && c == Coord(Value(P, t), axis);
    } else if i == |ts| {
      assert c == Coord(P[0], axis);
    } else {
      assert c == Coord(Last(P), axis);
    }
  }
}
