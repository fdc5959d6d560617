/**
 * `polyline`: flattening a curve into a polyline with an explicit stack of
 * subcurves. The top subcurve is accepted when its interior control points
 * are close enough to evenly spaced points on the chord, and is otherwise
 * replaced by its two halves (left half on top).
 */
module Flatten {
  import opened Geometry
  import opened Bezier

  /**
   * The flatness measure of control point k on one axis: the square of
   * C(n-1, k) times its distance from the k-th of n evenly spaced points
   * between the first and the last control point.
   */
  function Deviation(cp: seq<Point>, axis: Axis, k: nat): (r: real)
    requires |cp| >= 2 && k < |cp|
    ensures r >= 0.0
  {
    var n := |cp|;
    var step := (Coord(cp[n - 1], axis) - Coord(cp[0], axis)) / ((n - 1) as real);
    var d := (Binomial(n - 1, k) as real) * (Coord(cp[k], axis) - Coord(cp[0], axis) - (k as real) * step);
    d * d
  }

  /** The largest deviation among control points 1 .. hi (`maxCoeff` over that range). */
  function MaxDeviation(cp: seq<Point>, axis: Axis, hi: nat): real
    requires 1 <= hi < |cp|
  {
    if hi == 1 then Deviation(cp, axis, 1)
    else
      var m := MaxDeviation(cp, axis, hi - 1);
      var d := Deviation(cp, axis, hi);
      if m < d then d else m
  }

  /** `MaxDeviation` bounds every deviation in its range and is one of them. */
  lemma {:induction false} MaxDeviationIsMax(cp: seq<Point>, axis: Axis, hi: nat)
    requires 1 <= hi < |cp|
    ensures forall j :: 1 <= j <= hi ==> Deviation(cp, axis, j) <= MaxDeviation(cp, axis, hi)
    ensures exists j :: 1 <= j <= hi && MaxDeviation(cp, axis, hi) == Deviation(cp, axis, j)
  {
    if hi == 1 {
      assert MaxDeviation(cp, axis, hi) == Deviation(cp, axis, 1);
    } else {
      MaxDeviationIsMax(cp, axis, hi - 1);
      var k :| 1 <= k <= hi - 1 && MaxDeviation(cp, axis, hi - 1) == Deviation(cp, axis, k);
      if MaxDeviation(cp, axis, hi - 1) < Deviation(cp, axis, hi) {
        assert MaxDeviation(cp, axis, hi) == Deviation(cp, axis, hi);
      } else {
        assert MaxDeviation(cp, axis, hi) == Deviation(cp, axis, k);
      }
    }
  }

  /**
   * The acceptance test `X.maxCoeff() + Y.maxCoeff() <= 16 flatness^2` over
   * the interior control points 1 .. n-2; a curve of two points has none and
   * is always flat.
   */
  predicate Flat(cp: seq<Point>, flatness: real)
  {
    |cp| <= 2 || MaxDeviation(cp, X, |cp| - 2) + MaxDeviation(cp, Y, |cp| - 2) <= 16.0 * flatness * flatness
  }

  /** A flat subcurve keeps every interior control point within the bound on both axes. */
  lemma FlatBoundsEachPoint(cp: seq<Point>, flatness: real, k: nat)
    requires |cp| >= 3 && 1 <= k <= |cp| - 2
    requires Flat(cp, flatness)
    ensures Deviation(cp, X, k) + Deviation(cp, Y, k) <= 16.0 * flatness * flatness
  {
    MaxDeviationIsMax(cp, X, |cp| - 2);
    MaxDeviationIsMax(cp, Y, |cp| - 2);
  }

  /** Control points that sit on the chord, evenly spaced, form a flat subcurve for any flatness. */
  lemma EvenlySpacedIsFlat(cp: seq<Point>, flatness: real)
    requires |cp| >= 3
    requires forall k :: 0 <= k < |cp| ==> cp[k] == Lerp(cp[0], cp[|cp| - 1], (k as real) / ((|cp| - 1) as real))
    ensures Flat(cp, flatness)
  {
    var n := |cp|;
    forall axis: Axis, k: nat | 1 <= k <= n - 2
      ensures Deviation(cp, axis, k) == 0.0
    {
      EvenlySpacedDeviation(cp, axis, k);
    }
    MaxDeviationIsMax(cp, X, n - 2);
    MaxDeviationIsMax(cp, Y, n - 2);
  }

  lemma EvenlySpacedDeviation(cp: seq<Point>, axis: Axis, k: nat)
    requires |cp| >= 3 && 1 <= k <= |cp| - 2
    requires cp[k] == Lerp(cp[0], cp[|cp| - 1], (k as real) / ((|cp| - 1) as real))
    ensures Deviation(cp, axis, k) == 0.0
  {
    var n := |cp|;
    var a, b := Coord(cp[0], axis), Coord(cp[n - 1], axis);
    var m := (n - 1) as real;
    var s := (k as real) / m;
    assert Coord(cp[k], axis) == (1.0 - s) * a + s * b;
    var step := (b - a) / m;
    assert (k as real) * step == s * (b - a);
    assert Coord(cp[k], axis) - a - (k as real) * step == 0.0;
  }

  /**
   * The pieces accepted so far are joined end to end, start at P[0], are
   * flat, and the polyline lists P[0] followed by their end points.
   */
  ghost predicate Traced(P: seq<Point>, flatness: real, poly: seq<Point>, pieces: seq<seq<Point>>)
    requires |P| >= 1
  {
    && |poly| == |pieces| + 1 && poly[0] == P[0]
    && (forall j {:trigger pieces[j]} :: 0 <= j < |pieces| ==> |pieces[j]| == |P| && Flat(pieces[j], flatness) && poly[j + 1] == Last(pieces[j]))
    && (pieces != [] ==> pieces[0][0] == P[0])
    && (forall j {:trigger pieces[j]} :: 0 < j < |pieces| ==> pieces[j][0] == poly[j])
  }

  /**
   * The subcurves still on the stack: each has |P| points, the top one
   * starts where the polyline ends, each one ends where the one above it
   * starts, and the bottom one ends at the curve's last point.
   */
  ghost predicate Pending(P: seq<Point>, poly: seq<Point>, stack: seq<seq<Point>>)
    requires |P| >= 1 && |poly| >= 1
  {
    && (forall j :: 0 <= j < |stack| ==> |stack[j]| == |P|)
    && (stack != [] ==> stack[|stack| - 1][0] == Last(poly) && Last(stack[0]) == Last(P))
    && (forall j :: 0 <= j < |stack| - 1 ==> Last(stack[j + 1]) == stack[j][0])
    && (stack == [] ==> Last(poly) == Last(P))
  }

  /** Accepting the flat subcurve on top of the stack extends the trace by its end point. */
  lemma AcceptTop(P: seq<Point>, flatness: real, poly: seq<Point>, pieces: seq<seq<Point>>, stack: seq<seq<Point>>)
    requires |P| >= 1 && Traced(P, flatness, poly, pieces) && Pending(P, poly, stack)
    requires stack != [] && Flat(stack[|stack| - 1], flatness)
    ensures Traced(P, flatness, poly + [Last(stack[|stack| - 1])], pieces + [stack[|stack| - 1]])
    ensures Pending(P, poly + [Last(stack[|stack| - 1])], stack[..|stack| - 1])
  {
    var cp := stack[|stack| - 1];
    var poly', pieces' := poly + [Last(cp)], pieces + [cp];
    forall j | 0 <= j < |pieces'|
      ensures |pieces'[j]| == |P| && Flat(pieces'[j], flatness) && poly'[j + 1] == Last(pieces'[j])
    {
      if j < |pieces| {
        assert pieces'[j] == pieces[j] && poly'[j + 1] == poly[j + 1];
      }
    }
    forall j | 0 < j < |pieces'|
      ensures pieces'[j][0] == poly'[j]
    {
      if j < |pieces| {
        assert pieces'[j] == pieces[j] && poly'[j] == poly[j];
      }
    }
    var rest := stack[..|stack| - 1];
    forall j | 0 <= j < |rest| - 1
      ensures Last(rest[j + 1]) == rest[j][0]
    {
      assert rest[j + 1] == stack[j + 1] && rest[j] == stack[j];
    }
  }

  /** Replacing the top of the stack by its two halves, right below left, keeps the chain. */
  lemma SplitTop(P: seq<Point>, poly: seq<Point>, stack: seq<seq<Point>>)
    requires |P| >= 1 && |poly| >= 1 && Pending(P, poly, stack) && stack != []
    ensures
      var halves := SplitCurve(stack[|stack| - 1], 0.5);
      Pending(P, poly, stack[..|stack| - 1] + [halves.1, halves.0])
  {
    var cp := stack[|stack| - 1];
    var halves := SplitCurve(cp, 0.5);
    var rest := stack[..|stack| - 1];
    var s' := rest + [halves.1, halves.0];
    forall j | 0 <= j < |s'|
      ensures |s'[j]| == |P|
    {
      if j < |rest| {
        assert s'[j] == stack[j];
      }
    }
    forall j | 0 <= j < |s'| - 1
      ensures Last(s'[j + 1]) == s'[j][0]
    {
      if j + 1 < |rest| {
        assert s'[j + 1] == stack[j + 1] && s'[j] == stack[j];
      } else if j + 1 == |rest| {
        assert s'[j + 1] == halves.1 && s'[j] == stack[j];
      }
    }
    if rest != [] {
      assert s'[0] == stack[0];
    }
  }

  /**
   * The polyline's points are the curve's values at the parameters `knots`,
   * which rise strictly from 0 and stay within [0, 1]; piece j is the part
   * of the curve between knots j and j + 1. Stated one accepted piece at a
   * time, in the order `polyline` appends them; `AlongEverywhere` gives the
   * same facts for every index.
   */
  ghost predicate Along(P: seq<Point>, poly: seq<Point>, pieces: seq<seq<Point>>, knots: seq<real>)
    decreases |pieces|
  {
    && |knots| == |poly| == |pieces| + 1
    && if pieces == [] then
         knots[0] == 0.0 && poly[0] == Value(P, 0.0)
       else
         var n := |pieces|;
         && Along(P, poly[..n], pieces[..n - 1], knots[..n])
         && knots[n - 1] < knots[n] <= 1.0
         && Traces(pieces[n - 1], P, knots[n - 1], knots[n])
         && poly[n] == Value(P, knots[n])
  }

  /** What `Along` says about each index: rising knots in [0, 1], points on the curve, pieces between knots. */
  lemma {:induction false} AlongEverywhere(P: seq<Point>, poly: seq<Point>, pieces: seq<seq<Point>>, knots: seq<real>)
    requires Along(P, poly, pieces, knots)
    ensures |knots| == |poly| == |pieces| + 1 && knots[0] == 0.0
    ensures forall j, k :: 0 <= j < k < |knots| ==> knots[j] < knots[k]
    ensures forall j :: 0 <= j < |knots| ==> 0.0 <= knots[j] <= 1.0
    ensures forall j :: 0 <= j < |poly| ==> poly[j] == Value(P, knots[j])
    ensures forall j :: 0 <= j < |pieces| ==> Traces(pieces[j], P, knots[j], knots[j + 1])
    decreases |pieces|
  {
    if pieces != [] {
      var n := |pieces|;
      var poly0, pieces0, knots0 := poly[..n], pieces[..n - 1], knots[..n];
      AlongEverywhere(P, poly0, pieces0, knots0);
      forall j, k | 0 <= j < k < |knots|
        ensures knots[j] < knots[k]
      {
        if k < n {
          assert knots[j] == knots0[j] && knots[k] == knots0[k];
        } else if j < n - 1 {
          assert knots0[j] < knots0[n - 1];
        }
      }
      forall j | 0 <= j < |knots|
        ensures 0.0 <= knots[j] <= 1.0
      {
        if j < n {
          assert knots[j] == knots0[j];
        } else {
          assert knots0[0] <= knots0[n - 1];
        }
      }
      forall j | 0 <= j < |poly|
        ensures poly[j] == Value(P, knots[j])
      {
        if j < n {
          assert poly[j] == poly0[j] && knots[j] == knots0[j];
        }
      }
      forall j | 0 <= j < |pieces|
        ensures Traces(pieces[j], P, knots[j], knots[j + 1])
      {
        if j < n - 1 {
          assert pieces[j] == pieces0[j] && knots[j] == knots0[j] && knots[j + 1] == knots0[j + 1];
        }
      }
    }
  }

  /** The last knot of a trace, together with the last polyline point. */
  lemma {:induction false} AlongLast(P: seq<Point>, poly: seq<Point>, pieces: seq<seq<Point>>, knots: seq<real>)
    requires Along(P, poly, pieces, knots)
    ensures |knots| == |poly| >= 1 && Last(poly) == Value(P, Last(knots)) && 0.0 <= Last(knots) <= 1.0
  {
    AlongEverywhere(P, poly, pieces, knots);
  }

  /**
   * The parameter intervals of the subcurves still on the stack: the top one
   * starts at `from`, each one starts where the one below it ends, and the
   * bottom one ends at 1; once the stack is empty, `from` has reached 1.
   */
  ghost predicate Spans(P: seq<Point>, stack: seq<seq<Point>>, spans: seq<(real, real)>, from: real)
  {
    && |spans| == |stack|
    && (forall j {:trigger stack[j]} :: 0 <= j < |stack| ==> spans[j].0 < spans[j].1 <= 1.0 && Traces(stack[j], P, spans[j].0, spans[j].1))
    && (stack != [] ==> spans[|spans| - 1].0 == from && spans[0].1 == 1.0)
    && (forall j :: 0 <= j < |spans| - 1 ==> spans[j + 1].1 == spans[j].0)
    && (stack == [] ==> from == 1.0)
  }

  /** Accepting the top of the stack adds the end of its interval as the next knot. */
  lemma {:induction false} AcceptAlong(P: seq<Point>, poly: seq<Point>, pieces: seq<seq<Point>>, knots: seq<real>,
                    stack: seq<seq<Point>>, spans: seq<(real, real)>)
    requires |P| >= 1 && |poly| >= 1 && Pending(P, poly, stack) && stack != []
    requires Along(P, poly, pieces, knots) && Spans(P, stack, spans, Last(knots))
    ensures
      var n := |stack|;
      Along(P, poly + [Last(stack[n - 1])], pieces + [stack[n - 1]], knots + [spans[n - 1].1])
  {
    var n := |stack|;
    var cp, lo, hi := stack[n - 1], spans[n - 1].0, spans[n - 1].1;
    TracesEnds(cp, P, lo, hi);
    var poly', pieces', knots' := poly + [Last(cp)], pieces + [cp], knots + [hi];
    var m := |pieces'|;
    assert poly'[..m] == poly && pieces'[..m - 1] == pieces && knots'[..m] == knots;
  }

  /** What is left on the stack after accepting its top starts at the end of the top's interval. */
  lemma AcceptSpans(P: seq<Point>, stack: seq<seq<Point>>, spans: seq<(real, real)>, from: real)
    requires Spans(P, stack, spans, from) && stack != []
    ensures Spans(P, stack[..|stack| - 1], spans[..|spans| - 1], spans[|spans| - 1].1)
  {
    var n := |stack|;
    var rest, rspans := stack[..n - 1], spans[..n - 1];
    forall j | 0 <= j < |rest|
      ensures rspans[j].0 < rspans[j].1 <= 1.0 && Traces(rest[j], P, rspans[j].0, rspans[j].1)
    {
      assert rest[j] == stack[j] && rspans[j] == spans[j];
    }
    if rest != [] {
      assert spans[n - 1].1 == spans[n - 2].0;
    }
  }

  /** Splitting the top of the stack splits its interval at the midpoint, left half on top. */
  lemma SplitAlong(P: seq<Point>, stack: seq<seq<Point>>, spans: seq<(real, real)>, from: real)
    requires Spans(P, stack, spans, from) && stack != [] && |stack[|stack| - 1]| >= 1
    ensures
      var n := |stack|;
      var halves := SplitCurve(stack[n - 1], 0.5);
      var lo, hi := spans[n - 1].0, spans[n - 1].1;
      Spans(P, stack[..n - 1] + [halves.1, halves.0],
            spans[..n - 1] + [((lo + hi) / 2.0, hi), (lo, (lo + hi) / 2.0)], from)
  {
    var n := |stack|;
    var cp, lo, hi := stack[n - 1], spans[n - 1].0, spans[n - 1].1;
    var halves := SplitCurve(cp, 0.5);
    var m := (lo + hi) / 2.0;
    HalvesTrace(cp, P, lo, hi);
    var s', p' := stack[..n - 1] + [halves.1, halves.0], spans[..n - 1] + [(m, hi), (lo, m)];
    forall j | 0 <= j < |s'|
      ensures p'[j].0 < p'[j].1 <= 1.0 && Traces(s'[j], P, p'[j].0, p'[j].1)
    {
      if j < n - 1 {
        assert s'[j] == stack[j] && p'[j] == spans[j];
      }
    }
    forall j | 0 <= j < |p'| - 1
      ensures p'[j + 1].1 == p'[j].0
    {
      if j + 1 < n - 1 {
        assert p'[j + 1] == spans[j + 1] && p'[j] == spans[j];
      } else if j + 1 == n - 1 {
        assert p'[j] == spans[j];
      }
    }
    if n > 1 {
      assert p'[0] == spans[0];
    }
  }

  /**
   * A complete flattening of P: the trace reaches the curve's last point at
   * parameter 1, and a two-point curve is its own polyline.
   */
  ghost predicate Flattened(P: seq<Point>, flatness: real, poly: seq<Point>, pieces: seq<seq<Point>>, knots: seq<real>)
  {
    && |P| >= 2
    && Traced(P, flatness, poly, pieces)
    && Along(P, poly, pieces, knots) && Last(knots) == 1.0
    && Last(poly) == Last(P)
    && (|P| == 2 ==> poly == [P[0], P[1]])
  }

  /** The loop invariant of `Polyline`: the trace so far and the stack still to do. */
  ghost predicate Flattening(P: seq<Point>, flatness: real, poly: seq<Point>, pieces: seq<seq<Point>>,
                             knots: seq<real>, stack: seq<seq<Point>>, spans: seq<(real, real)>)
  {
    && |P| >= 1 && Traced(P, flatness, poly, pieces) && Pending(P, poly, stack)
    && Along(P, poly, pieces, knots) && Spans(P, stack, spans, Last(knots))
  }

  /** Before the loop: nothing accepted yet, the whole curve over [0, 1] on the stack. */
  lemma StartFlattening(P: seq<Point>, flatness: real)
    requires |P| >= 1
    ensures Flattening(P, flatness, [P[0]], [], [0.0], [P], [(0.0, 1.0)])
  {
    TracesWhole(P);
    TracesEnds(P, P, 0.0, 1.0);
  }

  /** Accepting the flat top of the stack keeps the invariant. */
  lemma AcceptStep(P: seq<Point>, flatness: real, poly: seq<Point>, pieces: seq<seq<Point>>,
                   knots: seq<real>, stack: seq<seq<Point>>, spans: seq<(real, real)>,
                   poly': seq<Point>, pieces': seq<seq<Point>>, knots': seq<real>,
                   stack': seq<seq<Point>>, spans': seq<(real, real)>)
    requires Flattening(P, flatness, poly, pieces, knots, stack, spans)
    requires stack != [] && Flat(stack[|stack| - 1], flatness)
    requires poly' == poly + [Last(stack[|stack| - 1])] && pieces' == pieces + [stack[|stack| - 1]]
    requires knots' == knots + [spans[|spans| - 1].1] && stack' == stack[..|stack| - 1] && spans' == spans[..|spans| - 1]
    ensures Flattening(P, flatness, poly', pieces', knots', stack', spans')
  {
    AcceptTop(P, flatness, poly, pieces, stack);
    AcceptAlong(P, poly, pieces, knots, stack, spans);
    AcceptSpans(P, stack, spans, Last(knots));
    assert Last(knots') == spans[|spans| - 1].1;
  }

  /** Replacing the top of the stack by its halves, over the halves of its interval, keeps the invariant. */
  lemma SplitStep(P: seq<Point>, flatness: real, poly: seq<Point>, pieces: seq<seq<Point>>,
                  knots: seq<real>, stack: seq<seq<Point>>, spans: seq<(real, real)>,
                  stack': seq<seq<Point>>, spans': seq<(real, real)>)
    requires Flattening(P, flatness, poly, pieces, knots, stack, spans) && stack != []
    requires
      var halves := SplitCurve(stack[|stack| - 1], 0.5);
      var lo, hi := spans[|spans| - 1].0, spans[|spans| - 1].1;
      && stack' == stack[..|stack| - 1] + [halves.1, halves.0]
      && spans' == spans[..|spans| - 1] + [((lo + hi) / 2.0, hi), (lo, (lo + hi) / 2.0)]
    ensures Flattening(P, flatness, poly, pieces, knots, stack', spans')
  {
    SplitTop(P, poly, stack);
    SplitAlong(P, stack, spans, Last(knots));
  }

  /** Every subcurve on the stack has as many control points as P. */
  predicate SameDegree(P: seq<Point>, stack: seq<seq<Point>>)
  {
    forall j :: 0 <= j < |stack| ==> |stack[j]| == |P|
  }

  /**
   * The flattening loop as a function: the polyline and whether the stack
   * emptied, after at most `budget` more passes from the given stack and
   * polyline. Each pass accepts the top subcurve when it is flat and
   * otherwise replaces it by its two halves, left half on top.
   */
  function Run(P: seq<Point>, flatness: real, stack: seq<seq<Point>>, poly: seq<Point>, budget: nat): (seq<Point>, bool)
    requires |P| >= 1 && SameDegree(P, stack)
    decreases budget
  {
    if stack == [] || budget == 0 then (poly, stack == [])
    else
      var cp := stack[|stack| - 1];
      if Flat(cp, flatness) then
        Run(P, flatness, stack[..|stack| - 1], poly + [Last(cp)], budget - 1)
      else
        var halves := SplitCurve(cp, 0.5);
        Run(P, flatness, stack[..|stack| - 1] + [halves.1, halves.0], poly, budget - 1)
  }

  /** One pass of `Run`, for the loop of `Polyline`. */
  lemma RunPass(P: seq<Point>, flatness: real, stack: seq<seq<Point>>, poly: seq<Point>, budget: nat)
    requires |P| >= 1 && SameDegree(P, stack) && stack != [] && budget > 0
    ensures
      var n := |stack|;
      var halves := SplitCurve(stack[n - 1], 0.5);
      && SameDegree(P, stack[..n - 1])
      && SameDegree(P, stack[..n - 1] + [halves.1, halves.0])
      && Run(P, flatness, stack, poly, budget) ==
         if Flat(stack[n - 1], flatness) then Run(P, flatness, stack[..n - 1], poly + [Last(stack[n - 1])], budget - 1)
         else Run(P, flatness, stack[..n - 1] + [halves.1, halves.0], poly, budget - 1)
  {
  }

  /**
   * The accepted pieces and the knots that go with `Run`: the same passes,
   * recording each accepted subcurve and the end of its parameter interval.
   */
  ghost function RunTrace(P: seq<Point>, flatness: real, stack: seq<seq<Point>>, spans: seq<(real, real)>,
                          pieces: seq<seq<Point>>, knots: seq<real>, budget: nat): (seq<seq<Point>>, seq<real>)
    requires |P| >= 1 && SameDegree(P, stack) && |spans| == |stack|
    decreases budget
  {
    if stack == [] || budget == 0 then (pieces, knots)
    else
      var n := |stack|;
      var cp, lo, hi := stack[n - 1], spans[n - 1].0, spans[n - 1].1;
      if Flat(cp, flatness) then
        RunTrace(P, flatness, stack[..n - 1], spans[..n - 1], pieces + [cp], knots + [hi], budget - 1)
      else
        var halves := SplitCurve(cp, 0.5);
        RunTrace(P, flatness, stack[..n - 1] + [halves.1, halves.0],
                 spans[..n - 1] + [((lo + hi) / 2.0, hi), (lo, (lo + hi) / 2.0)], pieces, knots, budget - 1)
  }

  /**
   * The outcome of the loop: a trace of flat pieces along the curve which,
   * when the stack emptied, reaches the curve's last point at parameter 1.
   */
  ghost predicate RunOk(P: seq<Point>, flatness: real, r: (seq<Point>, bool), t: (seq<seq<Point>>, seq<real>))
  {
    && |P| >= 1
    && Traced(P, flatness, r.0, t.0) && Along(P, r.0, t.0, t.1)
    && (r.1 ==> Last(r.0) == Last(P) && Last(t.1) == 1.0)
  }

  /** From any state that satisfies the loop invariant, the passes that remain end in `RunOk`. */
  lemma {:induction false} RunKeeps(P: seq<Point>, flatness: real, poly: seq<Point>, pieces: seq<seq<Point>>,
                                    knots: seq<real>, stack: seq<seq<Point>>, spans: seq<(real, real)>, budget: nat)
    requires Flattening(P, flatness, poly, pieces, knots, stack, spans)
    ensures SameDegree(P, stack) && |spans| == |stack|
    ensures RunOk(P, flatness, Run(P, flatness, stack, poly, budget), RunTrace(P, flatness, stack, spans, pieces, knots, budget))
    decreases budget, 1
  {
    if stack != [] && budget != 0 {
      if Flat(stack[|stack| - 1], flatness) {
        AcceptThenRun(P, flatness, poly, pieces, knots, stack, spans, budget);
      } else {
        SplitThenRun(P, flatness, poly, pieces, knots, stack, spans, budget);
      }
    }
  }

  lemma {:induction false} AcceptThenRun(P: seq<Point>, flatness: real, poly: seq<Point>, pieces: seq<seq<Point>>,
                                         knots: seq<real>, stack: seq<seq<Point>>, spans: seq<(real, real)>, budget: nat)
    requires Flattening(P, flatness, poly, pieces, knots, stack, spans)
    requires stack != [] && budget > 0 && Flat(stack[|stack| - 1], flatness)
    ensures SameDegree(P, stack) && |spans| == |stack|
    ensures RunOk(P, flatness, Run(P, flatness, stack, poly, budget), RunTrace(P, flatness, stack, spans, pieces, knots, budget))
    decreases budget, 0
  {
    var n := |stack|;
    var cp, hi := stack[n - 1], spans[n - 1].1;
    var poly', pieces', knots' := poly + [Last(cp)], pieces + [cp], knots + [hi];
    AcceptStep(P, flatness, poly, pieces, knots, stack, spans, poly', pieces', knots', stack[..n - 1], spans[..n - 1]);
    RunKeeps(P, flatness, poly', pieces', knots', stack[..n - 1], spans[..n - 1], budget - 1);
    assert Run(P, flatness, stack, poly, budget) == Run(P, flatness, stack[..n - 1], poly', budget - 1);
    assert RunTrace(P, flatness, stack, spans, pieces, knots, budget)
        == RunTrace(P, flatness, stack[..n - 1], spans[..n - 1], pieces', knots', budget - 1);
  }

  lemma {:induction false} SplitThenRun(P: seq<Point>, flatness: real, poly: seq<Point>, pieces: seq<seq<Point>>,
                                        knots: seq<real>, stack: seq<seq<Point>>, spans: seq<(real, real)>, budget: nat)
    requires Flattening(P, flatness, poly, pieces, knots, stack, spans)
    requires stack != [] && budget > 0 && !Flat(stack[|stack| - 1], flatness)
    ensures SameDegree(P, stack) && |spans| == |stack|
    ensures RunOk(P, flatness, Run(P, flatness, stack, poly, budget), RunTrace(P, flatness, stack, spans, pieces, knots, budget))
    decreases budget, 0
  {
    var n := |stack|;
    var cp, lo, hi := stack[n - 1], spans[n - 1].0, spans[n - 1].1;
    var halves := SplitCurve(cp, 0.5);
    var stack' := stack[..n - 1] + [halves.1, halves.0];
    var spans' := spans[..n - 1] + [((lo + hi) / 2.0, hi), (lo, (lo + hi) / 2.0)];
    SplitStep(P, flatness, poly, pieces, knots, stack, spans, stack', spans');
    RunKeeps(P, flatness, poly, pieces, knots, stack', spans', budget - 1);
    assert Run(P, flatness, stack, poly, budget) == Run(P, flatness, stack', poly, budget - 1);
    assert RunTrace(P, flatness, stack, spans, pieces, knots, budget)
        == RunTrace(P, flatness, stack', spans', pieces, knots, budget - 1);
  }

  /**
   * `polyline(flatness)` with the loop limited to `fuel` passes: the
   * polyline and whether the stack emptied. A two-point curve is its own
   * polyline.
   */
  function FlattenOf(P: seq<Point>, flatness: real, fuel: nat): (seq<Point>, bool)
    requires |P| >= 2
  {
    if |P| == 2 then ([P[0], P[1]], true) else Run(P, flatness, [P], [P[0]], fuel)
  }

  /** The accepted pieces and the knots of `FlattenOf`. */
  ghost function TraceOf(P: seq<Point>, flatness: real, fuel: nat): (seq<seq<Point>>, seq<real>)
    requires |P| >= 2
  {
    if |P| == 2 then ([P], [0.0, 1.0]) else RunTrace(P, flatness, [P], [(0.0, 1.0)], [], [0.0], fuel)
  }

  /**
   * What `polyline` promises: the result starts at P[0] and lists the end
   * points of a chain of flat pieces joined end to end; its points are values
   * of the curve at strictly rising parameters from 0, each piece is the part
   * of the curve between two consecutive ones, and when the stack emptied the
   * last parameter is 1 and the last point is the curve's last point.
   */
  lemma {:induction false} FlattenOfTraces(P: seq<Point>, flatness: real, fuel: nat)
    requires |P| >= 2
    ensures
      var r, t := FlattenOf(P, flatness, fuel), TraceOf(P, flatness, fuel);
      && Traced(P, flatness, r.0, t.0) && Along(P, r.0, t.0, t.1)
      && r.0[0] == P[0]
      && (r.1 ==> Flattened(P, flatness, r.0, t.0, t.1))
      && (|P| == 2 ==> r == ([P[0], P[1]], true))
  {
    if |P| == 2 {
      TracesWhole(P);
      TracesEnds(P, P, 0.0, 1.0);
      var poly := [P[0], P[1]];
      assert poly[..1] == [P[0]] && [P][..0] == [] && [0.0, 1.0][..1] == [0.0];
      assert Along(P, [P[0]], [], [0.0]);
    } else {
      StartFlattening(P, flatness);
      RunKeeps(P, flatness, [P[0]], [], [0.0], [P], [(0.0, 1.0)], fuel);
    }
  }

  /**
   * `polyline(flatness)`: the stack starts with the whole curve and the loop
   * runs at most `fuel` times; `complete` says the stack emptied.
   */
  method Polyline(P: seq<Point>, flatness: real, fuel: nat) returns (poly: seq<Point>, complete: bool)
    requires |P| >= 2
    ensures (poly, complete) == FlattenOf(P, flatness, fuel)
  {
    if |P| == 2 {
      return [P[0], P[1]], true;
    }
    poly := [P[0]];
    var stack := [P];
    var budget := fuel;
    while stack != [] && budget > 0
      invariant SameDegree(P, stack)
      invariant Run(P, flatness, stack, poly, budget) == FlattenOf(P, flatness, fuel)
      decreases budget
    {
      var cp := stack[|stack| - 1];
      RunPass(P, flatness, stack, poly, budget);
      if Flat(cp, flatness) {
        stack := stack[..|stack| - 1];
        poly := poly + [Last(cp)];
      } else {
        var halves := SplitCurve(cp, 0.5);
        stack := stack[..|stack| - 1] + [halves.1, halves.0];
      }
      budget := budget - 1;
    }
    complete := stack == [];
  }
}
