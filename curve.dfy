/**
 * The `Curve` class: a control-point sequence, the point count N_ and the
 * lazily filled caches that hang off it (derivative, roots, bounding box,
 * polyline and the point-independent part of the projection polynomial).
 *
 * `Valid()` says that N_ is the number of control points and that every
 * cache that is present holds what would be computed from the current
 * points. Every mutator rewrites the points and then calls `ResetCache`,
 * which clears all five caches together.
 */
module Curves {
  import opened Geometry
  import opened Bezier
  import Sturm
  import Flatten
  import Intersect
  import Projection
  import Curvature

  datatype Option<T> = None | Some(value: T)

  /** The outcome of a mutator that may refuse: the `logic_error`s of the library. */
  datatype Outcome = Done | OnlyQuadraticOrCubic | CannotLowerFurther

  /** A cached polyline is reused when the requested flatness is this close to the cached one. */
  const FlatnessTolerance: real := 0.0000000001

  /**
   * The candidates of `projectPoint` for q: the solver's roots of the
   * projection polynomial built from the curve's power-basis coefficients
   * and those of its derivative.
   */
  function ProjectionCandidates(P: seq<Point>, q: Point, solve: Solver): seq<real>
    requires |P| >= 2
  {
    var D := PowerPoly(Derivative(P));
    Projection.Candidates(Projection.ProjectionPoly(Projection.PartAfter(PowerPoly(P), D, |P|), D, q), solve)
  }

  /*
   * What each cache holds when it is filled: the value the uncached
   * computation gives for the control points P.
   */

  ghost predicate DerivativeCached(P: seq<Point>, cache: Option<seq<Point>>)
  {
    cache.Some? ==> |P| >= 1 && cache.value == Derivative(P)
  }

  ghost predicate RootsCached(P: seq<Point>, solve: Solver, cache: Option<seq<real>>)
  {
    cache.Some? ==> cache.value == Roots(P, solve)
  }

  ghost predicate BoxCached(P: seq<Point>, solve: Solver, cache: Option<Box>)
  {
    cache.Some? ==> |P| >= 1 && cache.value == BoundingBox(P, solve)
  }

  /** A cached polyline is the complete result of flattening P at the cached flatness. */
  ghost predicate PolylineCached(P: seq<Point>, cache: Option<seq<Point>>, flatness: real, fuel: nat)
  {
    cache.Some? ==> |P| >= 2 && Flatten.FlattenOf(P, flatness, fuel) == (cache.value, true)
  }

  ghost predicate PartCached(P: seq<Point>, cache: Option<seq<real>>, D: seq<Point>)
  {
    cache.Some? ==>
      && |P| >= 2
      && D == PowerPoly(Derivative(P))
      && cache.value == Projection.PartAfter(PowerPoly(P), D, |P|)
  }

  class Curve {
    var points: seq<Point>
    var n: nat
    const solve: Solver
    var cachedDerivative: Option<seq<Point>>
    var cachedRoots: Option<seq<real>>
    var cachedBox: Option<Box>
    var cachedPolyline: Option<seq<Point>>
    var cachedFlatness: real
    ghost var cachedFuel: nat
    var cachedPart: Option<seq<real>>
    var cachedPartDerivative: seq<Point>

    /** N_ is the number of control points and every filled cache is up to date. */
    ghost predicate Valid()
      reads this
    {
      && n == |points|
      && DerivativeCached(points, cachedDerivative)
      && RootsCached(points, solve, cachedRoots)
      && BoxCached(points, solve, cachedBox)
      && PolylineCached(points, cachedPolyline, cachedFlatness, cachedFuel)
      && PartCached(points, cachedPart, cachedPartDerivative)
    }

    /** N_ is the point count and no cache is filled. */
    predicate Cleared()
      reads this
    {
      && n == |points|
      && cachedDerivative.None? && cachedRoots.None? && cachedBox.None?
      && cachedPolyline.None? && cachedPart.None?
    }

    constructor (P: seq<Point>, solve: Solver)
      ensures points == P && this.solve == solve
      ensures Cleared() && Valid()
    {
      points := P;
      n := |P|;
      this.solve := solve;
      cachedDerivative := None;
      cachedRoots := None;
      cachedBox := None;
      cachedPolyline := None;
      cachedFlatness := 0.0;
      cachedFuel := 0;
      cachedPart := None;
      cachedPartDerivative := [];
    }

    /**
     * `resetCache`: N_ becomes the row count and the five caches are
     * cleared at once. The stored derivative polynomial of the projection
     * cache is left in place, as in the library; it is only read together
     * with a filled projection cache.
     */
    method ResetCache()
      modifies this
      ensures points == old(points)
      ensures Cleared() && Valid()
      ensures cachedPartDerivative == old(cachedPartDerivative) && cachedFlatness == old(cachedFlatness)
    {
      n := |points|;
      cachedDerivative := None;
      cachedRoots := None;
      cachedBox := None;
      cachedPolyline := None;
      cachedPart := None;
    }

    /** `operator=`: copies the other curve's control points and resets the caches. */
    method Assign(other: Curve)
      modifies this
      ensures points == old(other.points)
      ensures Cleared() && Valid()
    {
      points := other.points;
      ResetCache();
    }

    /** `order()`: N_ - 1 as an unsigned 32-bit value, which wraps for an empty curve. */
    function Order(): (r: nat)
      reads this
      requires Valid()
      ensures |points| >= 1 ==> r + 1 == |points|
      ensures |points| == 0 ==> r == 0xFFFF_FFFF
    {
      if n == 0 then 0xFFFF_FFFF else n - 1
    }

    /** `endPoints()`: the first and last control points, the curve's values at 0 and 1. */
    function EndPointsOf(): (r: (Point, Point))
      reads this
      requires |points| >= 1
      ensures r == (Value(points, 0.0), Value(points, 1.0))
    {
      EndPoints(points)
    }

    /** `reverse`: the control points in the opposite order; a second call restores them. */
    method Reverse()
      requires Valid()
      modifies this
      ensures points == Reversed(old(points))
      ensures Reversed(points) == old(points)
      ensures Cleared() && Valid()
    {
      ReversedTwice(points);
      points := Reversed(points);
      ResetCache();
    }

    /** `moveControlPoint(idx, p)`: point idx becomes p; every other point and the count stay. */
    method MoveControlPoint(idx: nat, p: Point)
      requires idx < |points|
      modifies this
      ensures points == old(points)[idx := p]
      ensures |points| == old(|points|) && points[idx] == p
      ensures forall j :: 0 <= j < |points| && j != idx ==> points[j] == old(points[j])
      ensures Cleared() && Valid()
    {
      points := points[idx := p];
      ResetCache();
    }

    /**
     * `elevateOrder`: N+1 points describing the same curve; the end points
     * stay and point k is (k/N) P[k-1] + (1 - k/N) P[k] (`ElevatedPoints`).
     * An empty curve becomes the single point (0,0).
     */
    method ElevateOrder()
      modifies this
      ensures points == Elevated(old(points)) && |points| == old(|points|) + 1
      ensures old(|points|) == 0 ==> points == [Origin]
      ensures old(|points|) >= 1 ==> points[0] == old(points[0]) && Last(points) == Last(old(points))
      ensures Lowered(points) == old(points)
      ensures Cleared() && Valid()
    {
      var P := points;
      if |P| == 0 {
        ElevatedEmpty();
      } else {
        ElevatedPoints(P);
      }
      LowerElevated(P);
      points := Elevated(P);
      ResetCache();
    }

    /**
     * `lowerOrder`: a two-point curve is refused before anything changes;
     * otherwise the points become the reduced curve.
     */
    method LowerOrder() returns (r: Outcome)
      requires Valid() && |points| >= 1
      modifies this
      ensures r == CannotLowerFurther <==> old(|points|) == 2
      ensures r == CannotLowerFurther ==> unchanged(this)
      ensures r != CannotLowerFurther ==> r == Done && points == Lowered(old(points)) && Cleared() && Valid()
      ensures Valid()
    {
      if |points| == 2 {
        return CannotLowerFurther;
      }
      points := Lowered(points);
      ResetCache();
      r := Done;
    }

    /**
     * `manipulateCurvature(t, B)`: curves other than quadratics and cubics
     * are refused before anything changes; otherwise the curve keeps its end
     * points and passes through B at t.
     */
    method ManipulateCurvature(t: real, B: Point) returns (r: Outcome)
      requires Valid()
      requires (|points| == 3 || |points| == 4) ==> 0.0 < t < 1.0
      modifies this
      ensures r == OnlyQuadraticOrCubic <==> old(|points|) != 3 && old(|points|) != 4
      ensures r == OnlyQuadraticOrCubic ==> unchanged(this)
      ensures r != OnlyQuadraticOrCubic ==>
        && r == Done
        && points == Curvature.Manipulate(old(points), t, B).points
        && |points| == old(|points|) && points[0] == old(points[0]) && Last(points) == Last(old(points))
        && Value(points, t) == B
        && Cleared()
      ensures Valid()
    {
      var m := Curvature.Manipulate(points, t, B);
      if m.OnlyQuadraticOrCubic? {
        return OnlyQuadraticOrCubic;
      }
      Curvature.ManipulatePassesThrough(points, t, B);
      points := m.points;
      ResetCache();
      r := Done;
    }

    /** `derivative()`: filled into its cache on first use. */
    method Derivative() returns (d: seq<Point>)
      requires Valid() && |points| >= 1
      modifies this
      ensures points == old(points) && cachedDerivative == Some(d)
      ensures d == Bezier.Derivative(points)
      ensures |points| == 1 ==> d == [Origin]
      ensures |points| >= 2 ==> |d| == |points| - 1
      ensures |points| >= 2 ==> forall k :: 0 <= k < |d| ==> d[k] == Scale((|points| - 1) as real, Sub(points[k + 1], points[k]))
      ensures cachedRoots == old(cachedRoots) && cachedBox == old(cachedBox)
      ensures cachedPolyline == old(cachedPolyline) && cachedPart == old(cachedPart)
      ensures Valid()
    {
      if cachedDerivative.None? {
        cachedDerivative := Some(Bezier.Derivative(points));
      }
      d := cachedDerivative.value;
      if |points| >= 2 {
        forall k | 0 <= k < |d|
          ensures d[k] == Scale((|points| - 1) as real, Sub(points[k + 1], points[k]))
        {
          DerivativePoint(points, k);
        }
      }
    }

    /**
     * `derivative(n)`: n = 0 is an invalid argument; otherwise the derivative
     * is taken n times in a loop.
     */
    method DerivativeN(k: nat) returns (r: DerivativeResult)
      requires Valid() && |points| >= 1
      modifies this
      ensures points == old(points)
      ensures r == Bezier.DerivativeN(points, k)
      ensures Valid()
    {
      if k == 0 {
        return Failed(InvalidArgument);
      }
      var d := Derivative();
      var j := 1;
      while j < k
        invariant points == old(points) && Valid()
        invariant 1 <= j <= k
        invariant d == Iterated(points, j)
      {
        IteratedStep(points, j);
        d := Bezier.Derivative(d);
        j := j + 1;
      }
      r := Derived(d);
    }

    /** `roots()`: the in-range roots of both coordinate polynomials, cached. */
    method Roots() returns (ts: seq<real>)
      requires Valid()
      modifies this
      ensures points == old(points) && cachedRoots == Some(ts)
      ensures ts == Bezier.Roots(points, solve)
      ensures forall t :: t in ts ==> 0.0 <= t <= 1.0
      ensures |points| <= 1 ==> ts == []
      ensures Valid()
    {
      if cachedRoots.None? {
        cachedRoots := Some(Bezier.Roots(points, solve));
      }
      ts := cachedRoots.value;
    }

    /** `extrema()`: the roots of the derivative curve. */
    method Extrema() returns (ts: seq<real>)
      requires Valid() && |points| >= 1
      modifies this
      ensures points == old(points) && Valid()
      ensures ts == Bezier.Extrema(points, solve)
      ensures forall t :: t in ts ==> 0.0 <= t <= 1.0
    {
      var d := Derivative();
      ts := Bezier.Roots(d, solve);
    }

    /** `boundingBox()`: contains both end points and the values at the extrema; cached. */
    method BoundingBox() returns (b: Box)
      requires Valid() && |points| >= 1
      modifies this
      ensures points == old(points) && cachedBox == Some(b)
      ensures b == Bezier.BoundingBox(points, solve)
      ensures Contains(b, points[0]) && Contains(b, Last(points))
      ensures forall t :: t in Bezier.Extrema(points, solve) ==> Contains(b, Value(points, t))
      ensures Valid()
    {
      if cachedBox.None? {
        var ext := Extrema();
        cachedBox := Some(BoxThrough(points, ext));
      }
      b := cachedBox.value;
    }

    /**
     * `polyline(flatness)`: rebuilt when nothing is cached or the cached
     * flatness differs from the requested one by at least 1e-10, and
     * returned unchanged from the cache otherwise. The flattening loop runs
     * at most `fuel` times; only a complete polyline is cached. The result
     * is the flattening of the curve at `used`, the flatness it was traced
     * with, under a pass limit `usedFuel`; `pieces` and `knots` are the
     * accepted subcurves and their parameters.
     */
    method Polyline(flatness: real, fuel: nat)
      returns (poly: seq<Point>, complete: bool, ghost used: real, ghost usedFuel: nat,
               ghost pieces: seq<seq<Point>>, ghost knots: seq<real>)
      requires Valid() && |points| >= 2
      modifies this
      ensures points == old(points) && Valid()
      ensures (poly, complete) == Flatten.FlattenOf(points, used, usedFuel)
      ensures (pieces, knots) == Flatten.TraceOf(points, used, usedFuel)
      ensures Flatten.Traced(points, used, poly, pieces)
      ensures Flatten.Along(points, poly, pieces, knots)
      ensures complete ==> Last(knots) == 1.0
      ensures Sturm.Abs(used - flatness) < FlatnessTolerance
      ensures poly[0] == points[0]
      ensures complete ==> Last(poly) == Last(points)
      ensures |points| == 2 ==> complete && poly == [points[0], points[1]]
      ensures old(cachedPolyline).Some? && Sturm.Abs(old(cachedFlatness) - flatness) < FlatnessTolerance ==>
        complete && poly == old(cachedPolyline).value && cachedPolyline == old(cachedPolyline)
      ensures !(old(cachedPolyline).Some? && Sturm.Abs(old(cachedFlatness) - flatness) < FlatnessTolerance) ==>
        used == flatness && usedFuel == fuel
      ensures !(old(cachedPolyline).Some? && Sturm.Abs(old(cachedFlatness) - flatness) < FlatnessTolerance) && complete ==>
        cachedPolyline == Some(poly) && cachedFlatness == flatness
    {
      if cachedPolyline.Some? && Sturm.Abs(cachedFlatness - flatness) < FlatnessTolerance {
        poly, complete, used, usedFuel := cachedPolyline.value, true, cachedFlatness, cachedFuel;
      } else {
        poly, complete := Flatten.Polyline(points, flatness, fuel);
        used, usedFuel := flatness, fuel;
        if complete {
          StorePolyline(flatness, fuel, poly);
        }
      }
      Flatten.FlattenOfTraces(points, used, usedFuel);
      pieces, knots := Flatten.TraceOf(points, used, usedFuel).0, Flatten.TraceOf(points, used, usedFuel).1;
    }

    /** Caches a complete polyline together with the flatness it was traced with. */
    method StorePolyline(flatness: real, ghost fuel: nat, poly: seq<Point>)
      requires Valid() && PolylineCached(points, Some(poly), flatness, fuel)
      modifies this
      ensures points == old(points) && Valid()
      ensures cachedFlatness == flatness && cachedPolyline == Some(poly) && cachedFuel == fuel
    {
      cachedFlatness, cachedPolyline, cachedFuel := flatness, Some(poly), fuel;
    }

    /**
     * The work list `intersections` starts from: the pair of whole curves
     * against another curve, every pair of pieces cut at the sorted extrema
     * against itself.
     */
    method StartPairs(other: Curve, eps: real) returns (work: seq<Intersect.Pair>)
      requires Valid() && |points| >= 1 && |other.points| >= 1
      modifies this
      ensures points == old(points) && Valid()
      ensures other != this ==> work == [Intersect.Pair(points, other.points)]
      ensures other == this ==>
        var ts := Intersect.Sort(Bezier.Extrema(points, solve));
        var subs := if ts == [] then [] else Intersect.Pieces(points, ts, eps);
        work == Intersect.PairsBefore(subs, |subs|)
      ensures forall k :: 0 <= k < |work| ==> Intersect.NonEmptyParts(work[k])
    {
      if other != this {
        work := [Intersect.Pair(points, other.points)];
      } else {
        var ext := Extrema();
        var ts := Intersect.Sort(ext);
        var subs := Intersect.SplitAtExtrema(points, ts, eps);
        Intersect.PairsOfNonEmpty(subs);
        work := Intersect.AllPairs(subs);
      }
    }

    /**
     * `intersections(curve, epsilon)`. Against another curve the work list
     * starts with the pair of whole curves. Against itself the curve is cut
     * at its sorted extrema and every pair of pieces k < i is queued. The
     * reported points are pairwise at least epsilon apart, and each is the
     * centre of a converged pair of subcurves: the parts of a start pair,
     * each over an interval inside [0, 1] (for a self-intersection the
     * pieces themselves are the curve over PieceSpans, by PiecesTrace).
     * When the work list empties, every point where the two curves meet lies
     * closer than 2 epsilon to a reported point.
     */
    method Intersections(other: Curve, eps: real, fuel: nat)
      returns (found: seq<Point>, complete: bool, ghost start: seq<Intersect.Pair>,
               ghost witnesses: seq<Intersect.Pair>, ghost origins: seq<Intersect.Origin>)
      requires Valid() && other.Valid()
      requires |points| >= 1 && |other.points| >= 1
      modifies this
      ensures points == old(points) && Valid()
      ensures other != this ==> start == [Intersect.Pair(points, other.points)]
      ensures other == this ==>
        var ts := Intersect.Sort(Bezier.Extrema(points, solve));
        var subs := if ts == [] then [] else Intersect.Pieces(points, ts, eps);
        start == Intersect.PairsBefore(subs, |subs|)
      ensures Intersect.Separated(found, eps)
      ensures |witnesses| == |found|
      ensures forall i :: 0 <= i < |found| ==>
        Intersect.NonEmptyParts(witnesses[i]) && Intersect.Examine(witnesses[i], eps) == Intersect.Converged(found[i])
      ensures Intersect.Descended(start, witnesses, origins)
      ensures complete ==> Intersect.Found(start, found, eps)
      ensures complete && other != this ==>
        forall s, u :: 0.0 <= s <= 1.0 && 0.0 <= u <= 1.0 && Bezier.Value(points, s) == Bezier.Value(other.points, u) ==>
          Intersect.Near(found, Bezier.Value(points, s), eps)
      ensures start == [] ==> complete && found == []
    {
      var work := StartPairs(other, eps);
      start := work;
      found, complete, witnesses, origins := Intersect.Clip(work, eps, fuel);
      if complete && other != this {
        forall s, u | 0.0 <= s <= 1.0 && 0.0 <= u <= 1.0 && Bezier.Value(points, s) == Bezier.Value(other.points, u)
          ensures Intersect.Near(found, Bezier.Value(points, s), eps)
        {
          assert Intersect.Common(start, 0, s, u);
        }
      }
    }

    /**
     * `projectPoint(point)`: the cached part of the projection polynomial is
     * filled on first use; the solver's roots of the polynomial for q are
     * the candidates, and the result is the parameter in [0, 1] nearest to q
     * among the end points and the in-range candidates. An end-point tie
     * picks 1; among candidates the earliest nearest one wins.
     */
    method ProjectPoint(q: Point) returns (t: real, ghost chosen: int)
      requires Valid() && |points| >= 2
      modifies this
      ensures points == old(points) && cachedPart.Some? && Valid()
      ensures Projection.Nearest(points, q, ProjectionCandidates(points, q, solve), t)
      ensures Projection.TieBreak(points, q, ProjectionCandidates(points, q, solve), t, chosen)
    {
      var part, D := PartCache();
      var poly := Projection.ProjectionPoly(part, D, q);
      var cands := Projection.Candidates(poly, solve);
      t, chosen := Projection.Select(points, q, cands);
    }

    /** The projection cache of `projectPoint`, filled on first use. */
    method PartCache() returns (part: seq<real>, D: seq<Point>)
      requires Valid() && |points| >= 2
      modifies this
      ensures points == old(points) && Valid() && cachedPart == Some(part) && cachedPartDerivative == D
      ensures D == PowerPoly(Bezier.Derivative(points))
      ensures part == Projection.PartAfter(PowerPoly(points), D, |points|)
    {
      if cachedPart.None? {
        var C := PowerPoly(points);
        var d := Derivative();
        D := PowerPoly(d);
        part := Projection.ProjectionPart(C, D);
        cachedPart := Some(part);
        cachedPartDerivative := D;
      } else {
        part, D := cachedPart.value, cachedPartDerivative;
      }
    }
  }
}
