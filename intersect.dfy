/**
 * `intersections`: bounding-box clipping over a work list of subcurve pairs.
 * A pair whose control-point boxes are disjoint is dropped; a pair whose
 * boxes both have a diagonal shorter than epsilon yields the centre of the
 * first box, unless a point within epsilon was already reported; any other
 * pair is replaced by the pairs of halves of its parts (a part that is
 * already small is kept whole). For a self-intersection the curve is first
 * cut at its sorted extrema and every pair of distinct pieces is queued.
 */
module Intersect {
  import opened Geometry
  import opened Bezier

  /** Two parts of curves examined together. */
  datatype Pair = Pair(a: seq<Point>, b: seq<Point>)

  predicate NonEmptyParts(pr: Pair)
  {
    |pr.a| >= 1 && |pr.b| >= 1
  }

  /*************************************************************************
   * Cutting a curve at its extrema
   *************************************************************************/

  predicate Sorted(s: seq<real>)
  {
    forall i, j :: 0 <= i < j < |s| ==> s[i] <= s[j]
  }

  function Insert(x: real, s: seq<real>): (r: seq<real>)
    requires Sorted(s)
    ensures Sorted(r) && multiset(r) == multiset(s) + multiset{x}
  {
    if s == [] || x <= s[0] then [x] + s
    else
      var r := Insert(x, s[1..]);
      InsertBehind(s, x, r);
      [s[0]] + r
  }

  /**
   * When x goes after the head of s, the head followed by x inserted into
   * the tail is sorted and holds the elements of s and x.
   */
  lemma InsertBehind(s: seq<real>, x: real, r: seq<real>)
    requires Sorted(s) && s != [] && s[0] < x
    requires Sorted(r) && multiset(r) == multiset(s[1..]) + multiset{x}
    ensures Sorted([s[0]] + r) && multiset([s[0]] + r) == multiset(s) + multiset{x}
  {
    assert s == [s[0]] + s[1..];
    forall k | 0 <= k < |r|
      ensures s[0] <= r[k]
    {
      assert r[k] in multiset(r);
      if r[k] != x {
        assert r[k] in multiset(s[1..]);
        assert r[k] in s[1..];
      }
    }
  }

  /** `std::sort` of the extrema: the same values in ascending order. */
  function Sort(s: seq<real>): (r: seq<real>)
    ensures Sorted(r) && multiset(r) == multiset(s)
  {
    if s == [] then []
    else
      assert s == [s[0]] + s[1..];
      Insert(s[0], Sort(s[1..]))
  }

  /** A later extremum, re-expressed as a parameter of the right-hand remainder after a cut at t. */
  function Rescale(x: real, t: real): real
  {
    if t == 1.0 then x else (x - t) / (1.0 - t)
  }

  function RescaleAll(xs: seq<real>, t: real): (r: seq<real>)
    ensures |r| == |xs|
    ensures forall i :: 0 <= i < |xs| ==> r[i] == Rescale(xs[i], t)
  {
    seq(|xs|, i requires 0 <= i < |xs| => Rescale(xs[i], t))
  }

  /**
   * The pieces of cp cut at the parameters ts in turn: the left part up to
   * ts[0] - eps/2, then the pieces of the right part from ts[0] + eps/2 cut
   * at the remaining parameters, rescaled to that part.
   */
  function Pieces(cp: seq<Point>, ts: seq<real>, eps: real): (r: seq<seq<Point>>)
    ensures |r| == |ts| + 1
    ensures forall j :: 0 <= j < |r| ==> |r[j]| == |cp|
    decreases |ts|
  {
    if ts == [] then [cp]
    else [SplitLeft(cp, ts[0] - eps / 2.0)] + Pieces(SplitRight(cp, ts[0] + eps / 2.0), RescaleAll(ts[1..], ts[0]), eps)
  }

  /** The first piece starts where cp starts and the last ends where cp ends. */
  lemma {:induction false} PiecesKeepEnds(cp: seq<Point>, ts: seq<real>, eps: real)
    requires |cp| >= 1
    ensures Pieces(cp, ts, eps)[0][0] == cp[0]
    ensures Last(Last(Pieces(cp, ts, eps))) == Last(cp)
    decreases |ts|
  {
    if ts != [] {
      var left := SplitCurve(cp, ts[0] - eps / 2.0).0;
      var right := SplitCurve(cp, ts[0] + eps / 2.0).1;
      PiecesKeepEnds(right, RescaleAll(ts[1..], ts[0]), eps);
    }
  }

  /** A parameter interval [lo, hi]. */
  datatype Span = Span(lo: real, hi: real)

  /** The interval that `inner`, taken in the parameter of a piece over `outer`, covers. */
  function Image(outer: Span, inner: Span): (r: Span)
    ensures inner.lo == 0.0 ==> r.lo == outer.lo
    ensures inner.hi == 1.0 ==> r.hi == outer.hi
  {
    Span(Reparam(outer.lo, outer.hi, inner.lo), Reparam(outer.lo, outer.hi, inner.hi))
  }

  /**
   * The parameter intervals of cp that the pieces cover: [0, ts[0] - eps/2]
   * for the first, then the intervals of the remaining pieces of the part
   * over [ts[0] + eps/2, 1], carried back into cp's parameter.
   */
  function PieceSpans(ts: seq<real>, eps: real): (r: seq<Span>)
    ensures |r| == |ts| + 1
    decreases |ts|
  {
    if ts == [] then [Span(0.0, 1.0)]
    else
      var rest := PieceSpans(RescaleAll(ts[1..], ts[0]), eps);
      [Span(0.0, ts[0] - eps / 2.0)] + seq(|rest|, j requires 0 <= j < |rest| => Image(Span(ts[0] + eps / 2.0, 1.0), rest[j]))
  }

  /** Every piece is the curve cp itself over the matching interval of PieceSpans. */
  lemma {:induction false} PiecesTrace(cp: seq<Point>, ts: seq<real>, eps: real)
    ensures forall j :: 0 <= j < |ts| + 1 ==>
      Traces(Pieces(cp, ts, eps)[j], cp, PieceSpans(ts, eps)[j].lo, PieceSpans(ts, eps)[j].hi)
    decreases |ts|
  {
    if ts == [] {
      TracesWhole(cp);
    } else {
      var z1, z2 := ts[0] - eps / 2.0, ts[0] + eps / 2.0;
      var right := SplitRight(cp, z2);
      var rts := RescaleAll(ts[1..], ts[0]);
      var pieces, spans := Pieces(cp, ts, eps), PieceSpans(ts, eps);
      var sub, subSpans := Pieces(right, rts, eps), PieceSpans(rts, eps);
      SplitLeftTraces(cp, z1);
      SplitRightTraces(cp, z2);
      PiecesTrace(right, rts, eps);
      forall j | 0 <= j < |ts| + 1
        ensures Traces(pieces[j], cp, spans[j].lo, spans[j].hi)
      {
        if j > 0 {
          assert pieces[j] == sub[j - 1];
          assert spans[j] == Image(Span(z2, 1.0), subSpans[j - 1]);
          TracesCompose(sub[j - 1], right, cp, subSpans[j - 1].lo, subSpans[j - 1].hi, z2, 1.0);
        }
      }
    }
  }

  /**
   * The subcurve loop of a self-intersection: no extrema leave no pieces;
   * otherwise the last piece is cut at each parameter in turn and the
   * parameters after it are rescaled.
   */
  method SplitAtExtrema(P: seq<Point>, ts: seq<real>, eps: real) returns (subcurves: seq<seq<Point>>)
    ensures subcurves == if ts == [] then [] else Pieces(P, ts, eps)
  {
    subcurves := [];
    var t := ts;
    var k := 0;
    while k < |t|
      invariant |t| == |ts| && 0 <= k <= |t|
      invariant k == 0 <==> subcurves == []
      invariant k == 0 ==> t == ts
      invariant k > 0 ==> subcurves[..|subcurves| - 1] + Pieces(Last(subcurves), t[k..], eps) == Pieces(P, ts, eps)
    {
      var cp := if subcurves == [] then P else Last(subcurves);
      if subcurves != [] {
        subcurves := subcurves[..|subcurves| - 1];
      }
      assert t[k..] == [t[k]] + t[k + 1..];
      subcurves := subcurves + [SplitLeft(cp, t[k] - eps / 2.0), SplitRight(cp, t[k] + eps / 2.0)];
      var rest := RescaleAll(t[k + 1..], t[k]);
      t := t[..k + 1] + rest;
      assert t[k + 1..] == rest;
      k := k + 1;
    }
    if k > 0 {
      assert t[k..] == [];
      assert subcurves[..|subcurves| - 1] + [Last(subcurves)] == subcurves;
    }
  }

  /*************************************************************************
   * All pairs of pieces
   *************************************************************************/

  /** The pairs (subs[k], subs[i]) for k < i, row by row in k. */
  function PairsBefore(subs: seq<seq<Point>>, k: nat): (r: seq<Pair>)
    requires k <= |subs|
  {
    if k == 0 then [] else PairsBefore(subs, k - 1) + PairRow(subs, k - 1)
  }

  function PairRow(subs: seq<seq<Point>>, k: nat): (r: seq<Pair>)
    requires k < |subs|
    ensures |r| == |subs| - k - 1
  {
    seq(|subs| - k - 1, j requires 0 <= j < |subs| - k - 1 => Pair(subs[k], subs[k + 1 + j]))
  }

  /** A pair is queued exactly when it is two pieces in order k < i. */
  lemma {:induction false} PairsBeforeMembers(subs: seq<seq<Point>>, k: nat, pr: Pair)
    requires k <= |subs|
    ensures pr in PairsBefore(subs, k) <==> exists m, i :: 0 <= m < k && m < i < |subs| && pr == Pair(subs[m], subs[i])
  {
    if k > 0 {
      PairsBeforeMembers(subs, k - 1, pr);
      var row := PairRow(subs, k - 1);
      if pr in row {
        var j :| 0 <= j < |row| && row[j] == pr;
        assert pr == Pair(subs[k - 1], subs[k + j]);
      }
      if exists m, i :: 0 <= m < k && m < i < |subs| && pr == Pair(subs[m], subs[i]) {
        var m, i :| 0 <= m < k && m < i < |subs| && pr == Pair(subs[m], subs[i]);
        if m == k - 1 {
          assert row[i - k] == pr;
        }
      }
    }
  }

  /** Pairs of non-empty pieces have non-empty parts, as the work list requires. */
  lemma {:induction false} PairsOfNonEmpty(subs: seq<seq<Point>>)
    requires forall j :: 0 <= j < |subs| ==> |subs[j]| >= 1
    ensures forall pr :: pr in PairsBefore(subs, |subs|) ==> NonEmptyParts(pr)
  {
    forall pr | pr in PairsBefore(subs, |subs|)
      ensures NonEmptyParts(pr)
    {
      PairsBeforeMembers(subs, |subs|, pr);
    }
  }

  /** n pieces give n(n-1)/2 pairs. */
  lemma {:induction false} PairsBeforeCount(subs: seq<seq<Point>>, k: nat)
    requires k <= |subs|
    ensures 2 * |PairsBefore(subs, k)| == k * (2 * |subs| - k - 1)
  {
    if k > 0 {
      PairsBeforeCount(subs, k - 1);
    }
  }

  /** The nested loop that queues every pair of pieces k < i. */
  method AllPairs(subs: seq<seq<Point>>) returns (pairs: seq<Pair>)
    ensures pairs == PairsBefore(subs, |subs|)
  {
    pairs := [];
    var k := 0;
    while k < |subs|
      invariant 0 <= k <= |subs|
      invariant pairs == PairsBefore(subs, k)
    {
      var i := k + 1;
      while i < |subs|
        invariant k + 1 <= i <= |subs|
        invariant pairs == PairsBefore(subs, k) + PairRow(subs, k)[..i - k - 1]
      {
        assert PairRow(subs, k)[..i - k] == PairRow(subs, k)[..i - k - 1] + [Pair(subs[k], subs[i])];
        pairs := pairs + [Pair(subs[k], subs[i])];
        i := i + 1;
      }
      assert PairRow(subs, k)[..i - k - 1] == PairRow(subs, k);
      k := k + 1;
    }
  }

  /*************************************************************************
   * The clipping work list
   *************************************************************************/

  /** The `bbox` lambda: the box of a part's control points. */
  function PartBox(cp: seq<Point>): Box
    requires |cp| >= 1
  {
    BoxOf(cp)
  }

  predicate Small(cp: seq<Point>, eps: real)
    requires |cp| >= 1
  {
    NormBelow(Diagonal(PartBox(cp)), eps)
  }

  /** A part that is already small stays whole; otherwise its right half, then its left half. */
  function Halves(cp: seq<Point>, eps: real): (r: seq<seq<Point>>)
    requires |cp| >= 1
    ensures |r| == if Small(cp, eps) then 1 else 2
    ensures forall j :: 0 <= j < |r| ==> |r[j]| == |cp|
    ensures Small(cp, eps) ==> r == [cp]
    ensures !Small(cp, eps) ==> r[0] == SplitCurve(cp, 0.5).1 && r[1] == SplitCurve(cp, 0.5).0
  {
    if Small(cp, eps) then [cp] else [SplitRight(cp, 0.5), SplitLeft(cp, 0.5)]
  }

  /** The new pairs in the order they are pushed: for each b part, for each a part. */
  function CrossPairs(as_: seq<seq<Point>>, bs: seq<seq<Point>>): (r: seq<Pair>)
    ensures |r| == |as_| * |bs|
    decreases |bs|
  {
    if bs == [] then []
    else CrossPairs(as_, bs[..|bs| - 1]) + seq(|as_|, j requires 0 <= j < |as_| => Pair(as_[j], Last(bs)))
  }

  /** Pair (a part i, b part j) sits at position j |as| + i: every combination, b-major. */
  lemma {:induction false} CrossPairsAt(as_: seq<seq<Point>>, bs: seq<seq<Point>>, j: nat, i: nat)
    requires j < |bs| && i < |as_|
    ensures j * |as_| + i < |CrossPairs(as_, bs)|
    ensures CrossPairs(as_, bs)[j * |as_| + i] == Pair(as_[i], bs[j])
    decreases |bs|
  {
    var m, n := |as_|, |bs|;
    var front := bs[..n - 1];
    var prefix: seq<Pair> := CrossPairs(as_, front);
    var row: seq<Pair> := seq(m, k requires 0 <= k < m => Pair(as_[k], Last(bs)));
    assert CrossPairs(as_, bs) == prefix + row;
    RowMajorBound(j, i, m, n);
    if j < n - 1 {
      CrossPairsAt(as_, front, j, i);
      assert front[j] == bs[j];
    } else {
      assert |prefix| == m * (n - 1) == (n - 1) * m;
      assert j * m + i == |prefix| + i;
      assert Last(bs) == bs[j];
      assert (prefix + row)[|prefix| + i] == row[i] == Pair(as_[i], bs[j]);
    }
  }

  lemma RowMajorBound(j: nat, i: nat, m: nat, n: nat)
    requires j < n && i < m
    ensures j * m + i < n * m
    ensures j < n - 1 ==> j * m + i < (n - 1) * m
    ensures j == n - 1 ==> j * m + i == (n - 1) * m + i
  {
    assert (j + 1) * m == j * m + m;
    MulMonotone(j + 1, n, m);
    if j < n - 1 {
      MulMonotone(j + 1, n - 1, m);
    }
  }

  lemma MulMonotone(a: nat, b: nat, m: nat)
    requires a <= b
    ensures a * m <= b * m
  {
    assert b * m == a * m + (b - a) * m;
  }

  lemma {:induction false} CrossPairsParts(as_: seq<seq<Point>>, bs: seq<seq<Point>>, n: nat, m: nat)
    requires forall j :: 0 <= j < |as_| ==> |as_[j]| == n
    requires forall j :: 0 <= j < |bs| ==> |bs[j]| == m
    ensures forall j :: 0 <= j < |CrossPairs(as_, bs)| ==> |CrossPairs(as_, bs)[j].a| == n && |CrossPairs(as_, bs)[j].b| == m
    decreases |bs|
  {
    if bs != [] {
      var prefix: seq<Pair> := CrossPairs(as_, bs[..|bs| - 1]);
      CrossPairsParts(as_, bs[..|bs| - 1], n, m);
      var row: seq<Pair> := seq(|as_|, j requires 0 <= j < |as_| => Pair(as_[j], Last(bs)));
      assert CrossPairs(as_, bs) == prefix + row;
      forall j | 0 <= j < |prefix + row|
        ensures |(prefix + row)[j].a| == n && |(prefix + row)[j].b| == m
      {
        if j >= |prefix| {
          assert (prefix + row)[j] == Pair(as_[j - |prefix|], Last(bs));
        }
      }
    }
  }

  /** What one pass of the loop makes of the pair on top. */
  datatype Verdict = Disjoint | Converged(center: Point) | Refine(next: seq<Pair>)

  function Examine(pr: Pair, eps: real): (v: Verdict)
    requires NonEmptyParts(pr)
    ensures v.Disjoint? <==> !Intersects(PartBox(pr.a), PartBox(pr.b))
    ensures v.Converged? <==> Intersects(PartBox(pr.a), PartBox(pr.b)) && Small(pr.a, eps) && Small(pr.b, eps)
    ensures v.Converged? ==> v.center == Center(PartBox(pr.a)) && Contains(PartBox(pr.a), v.center)
    ensures v.Refine? ==> |v.next| == 2 || |v.next| == 4
  {
    if !Intersects(PartBox(pr.a), PartBox(pr.b)) then Disjoint
    else if Small(pr.a, eps) && Small(pr.b, eps) then
      CenterContained(PartBox(pr.a));
      Converged(Center(PartBox(pr.a)))
    else Refine(CrossPairs(Halves(pr.a, eps), Halves(pr.b, eps)))
  }

  /** Refining keeps the number of control points of each side. */
  lemma RefineKeepsSizes(pr: Pair, eps: real)
    requires NonEmptyParts(pr)
    requires Examine(pr, eps).Refine?
    ensures forall j :: 0 <= j < |Examine(pr, eps).next| ==>
      |Examine(pr, eps).next[j].a| == |pr.a| && |Examine(pr, eps).next[j].b| == |pr.b|
  {
    CrossPairsParts(Halves(pr.a, eps), Halves(pr.b, eps), |pr.a|, |pr.b|);
  }

  /** No reported point is closer than eps to the candidate: the `none_of` test. */
  predicate FarFromAll(points: seq<Point>, c: Point, eps: real)
  {
    forall i :: 0 <= i < |points| ==> !NormBelow(Sub(points[i], c), eps)
  }

  /** Every later point is at least eps away from every earlier one. */
  predicate Separated(points: seq<Point>, eps: real)
  {
    forall i, j :: 0 <= i < j < |points| ==> !NormBelow(Sub(points[i], points[j]), eps)
  }

  lemma AppendSeparated(points: seq<Point>, c: Point, eps: real)
    requires Separated(points, eps) && FarFromAll(points, c, eps)
    ensures Separated(points + [c], eps)
  {
    var q := points + [c];
    forall i, j | 0 <= i < j < |q|
      ensures !NormBelow(Sub(q[i], q[j]), eps)
    {
      if j == |points| {
        assert q[j] == c && q[i] == points[i];
      } else {
        assert q[i] == points[i] && q[j] == points[j];
      }
    }
  }

  /** Every pair still to examine has non-empty sides. */
  predicate AllNonEmpty(work: seq<Pair>)
  {
    forall j :: 0 <= j < |work| ==> NonEmptyParts(work[j])
  }

  /**
   * The reported points are separated by eps and each is the centre of its
   * witness, a pair whose examination converged.
   */
  ghost predicate Reported(points: seq<Point>, witnesses: seq<Pair>, eps: real)
  {
    && Separated(points, eps)
    && |witnesses| == |points|
    && forall i :: 0 <= i < |points| ==> NonEmptyParts(witnesses[i]) && Examine(witnesses[i], eps) == Converged(points[i])
  }

  lemma ReportConverged(points: seq<Point>, witnesses: seq<Pair>, pr: Pair, eps: real)
    requires Reported(points, witnesses, eps) && NonEmptyParts(pr) && Examine(pr, eps).Converged?
    requires FarFromAll(points, Examine(pr, eps).center, eps)
    ensures Reported(points + [Examine(pr, eps).center], witnesses + [pr], eps)
  {
    var c := Examine(pr, eps).center;
    AppendSeparated(points, c, eps);
    var P, W := points + [c], witnesses + [pr];
    forall i | 0 <= i < |P|
      ensures NonEmptyParts(W[i]) && Examine(W[i], eps) == Converged(P[i])
    {
      if i == |points| {
        assert W[i] == pr && P[i] == c;
      } else {
        assert W[i] == witnesses[i] && P[i] == points[i];
      }
    }
  }

  lemma PopKeepsNonEmpty(work: seq<Pair>)
    requires AllNonEmpty(work) && work != []
    ensures NonEmptyParts(work[|work| - 1]) && AllNonEmpty(work[..|work| - 1])
  {
  }

  lemma RefineKeepsNonEmpty(work: seq<Pair>, pr: Pair, eps: real)
    requires AllNonEmpty(work) && NonEmptyParts(pr) && Examine(pr, eps).Refine?
    ensures AllNonEmpty(work + Examine(pr, eps).next)
  {
    RefineKeepsSizes(pr, eps);
    var next := Examine(pr, eps).next;
    forall j | 0 <= j < |work + next|
      ensures NonEmptyParts((work + next)[j])
    {
      if j < |work| {
        assert (work + next)[j] == work[j];
      } else {
        assert (work + next)[j] == next[j - |work|];
      }
    }
  }

  /*************************************************************************
   * Where a queued pair comes from
   *************************************************************************/

  /** Start pair k, and the intervals of its two parts that a queued pair covers. */
  datatype Origin = Origin(k: nat, a: Span, b: Span)

  predicate Inside(sp: Span)
  {
    0.0 <= sp.lo < sp.hi <= 1.0
  }

  /** Each part of pr is the matching part of st over an interval inside [0, 1]. */
  ghost predicate Within(pr: Pair, st: Pair, o: Origin)
  {
    && Inside(o.a) && Inside(o.b)
    && Traces(pr.a, st.a, o.a.lo, o.a.hi)
    && Traces(pr.b, st.b, o.b.lo, o.b.hi)
  }

  /** Every pair of the list is a pair of pieces of the start pair its origin names. */
  ghost predicate Descended(start: seq<Pair>, pairs: seq<Pair>, origins: seq<Origin>)
  {
    && |origins| == |pairs|
    && forall j {:trigger pairs[j]} :: 0 <= j < |pairs| ==>
         origins[j].k < |start| && Within(pairs[j], start[origins[j].k], origins[j])
  }

  /** Each start pair covers the whole of both its parts. */
  function StartOrigins(n: nat): (r: seq<Origin>)
    ensures |r| == n
    ensures forall j :: 0 <= j < n ==> r[j] == Origin(j, Span(0.0, 1.0), Span(0.0, 1.0))
  {
    seq(n, j requires 0 <= j < n => Origin(j, Span(0.0, 1.0), Span(0.0, 1.0)))
  }

  lemma StartDescended(start: seq<Pair>)
    ensures Descended(start, start, StartOrigins(|start|))
  {
    forall j | 0 <= j < |start|
      ensures Within(start[j], start[j], StartOrigins(|start|)[j])
    {
      TracesWhole(start[j].a);
      TracesWhole(start[j].b);
    }
  }

  /** The intervals of Halves(cp, eps) when cp covers sp: sp itself, or its right then left half. */
  function HalfSpans(cp: seq<Point>, eps: real, sp: Span): (r: seq<Span>)
    requires |cp| >= 1
    ensures |r| == |Halves(cp, eps)|
  {
    var m := (sp.lo + sp.hi) / 2.0;
    if Small(cp, eps) then [sp] else [Span(m, sp.hi), Span(sp.lo, m)]
  }

  lemma HalvesWithin(cp: seq<Point>, P: seq<Point>, eps: real, sp: Span)
    requires |cp| >= 1 && Inside(sp) && Traces(cp, P, sp.lo, sp.hi)
    ensures forall i :: 0 <= i < |Halves(cp, eps)| ==>
      Inside(HalfSpans(cp, eps, sp)[i]) && Traces(Halves(cp, eps)[i], P, HalfSpans(cp, eps, sp)[i].lo, HalfSpans(cp, eps, sp)[i].hi)
  {
    var m := (sp.lo + sp.hi) / 2.0;
    if !Small(cp, eps) {
      HalvesTrace(cp, P, sp.lo, sp.hi);
      assert Halves(cp, eps) == [SplitRight(cp, 0.5), SplitLeft(cp, 0.5)];
      assert HalfSpans(cp, eps, sp) == [Span(m, sp.hi), Span(sp.lo, m)];
    } else {
      assert Halves(cp, eps) == [cp] && HalfSpans(cp, eps, sp) == [sp];
    }
  }

  /** The origins of CrossPairs(as_, bs) when part i of as_ covers sa[i] and part j of bs covers sb[j]. */
  function CrossOrigins(k: nat, sa: seq<Span>, sb: seq<Span>): (r: seq<Origin>)
    ensures |r| == |sa| * |sb|
    decreases |sb|
  {
    if sb == [] then []
    else CrossOrigins(k, sa, sb[..|sb| - 1]) + seq(|sa|, j requires 0 <= j < |sa| => Origin(k, sa[j], Last(sb)))
  }

  lemma {:induction false} CrossWithin(st: Pair, k: nat, as_: seq<seq<Point>>, bs: seq<seq<Point>>, sa: seq<Span>, sb: seq<Span>)
    requires |sa| == |as_| && |sb| == |bs|
    requires forall i :: 0 <= i < |as_| ==> Inside(sa[i]) && Traces(as_[i], st.a, sa[i].lo, sa[i].hi)
    requires forall j :: 0 <= j < |bs| ==> Inside(sb[j]) && Traces(bs[j], st.b, sb[j].lo, sb[j].hi)
    ensures forall j :: 0 <= j < |CrossPairs(as_, bs)| ==>
      CrossOrigins(k, sa, sb)[j].k == k && Within(CrossPairs(as_, bs)[j], st, CrossOrigins(k, sa, sb)[j])
    decreases |bs|
  {
    if bs != [] {
      var n := |bs|;
      var prefix, oprefix := CrossPairs(as_, bs[..n - 1]), CrossOrigins(k, sa, sb[..n - 1]);
      CrossWithin(st, k, as_, bs[..n - 1], sa, sb[..n - 1]);
      var row: seq<Pair> := seq(|as_|, j requires 0 <= j < |as_| => Pair(as_[j], Last(bs)));
      var orow: seq<Origin> := seq(|sa|, j requires 0 <= j < |sa| => Origin(k, sa[j], Last(sb)));
      assert CrossPairs(as_, bs) == prefix + row;
      assert CrossOrigins(k, sa, sb) == oprefix + orow;
      forall j | 0 <= j < |prefix + row|
        ensures (oprefix + orow)[j].k == k && Within((prefix + row)[j], st, (oprefix + orow)[j])
      {
        if j < |prefix| {
          assert (prefix + row)[j] == prefix[j] && (oprefix + orow)[j] == oprefix[j];
        } else {
          assert Last(bs) == bs[n - 1] && Last(sb) == sb[n - 1];
          assert (prefix + row)[j] == row[j - |prefix|] && (oprefix + orow)[j] == orow[j - |prefix|];
        }
      }
    }
  }

  /** The origins of the pairs that refining pr, from origin o, pushes. */
  function NextOrigins(pr: Pair, o: Origin, eps: real): (r: seq<Origin>)
    requires NonEmptyParts(pr)
  {
    CrossOrigins(o.k, HalfSpans(pr.a, eps, o.a), HalfSpans(pr.b, eps, o.b))
  }

  /** Refining a pair of pieces of a start pair pushes pairs of smaller pieces of the same start pair. */
  lemma RefineDescended(start: seq<Pair>, work: seq<Pair>, origins: seq<Origin>, pr: Pair, o: Origin, eps: real)
    requires Descended(start, work, origins)
    requires NonEmptyParts(pr) && o.k < |start| && Within(pr, start[o.k], o)
    requires Examine(pr, eps).Refine?
    ensures Descended(start, work + Examine(pr, eps).next, origins + NextOrigins(pr, o, eps))
  {
    var st := start[o.k];
    var as_, bs := Halves(pr.a, eps), Halves(pr.b, eps);
    var sa, sb := HalfSpans(pr.a, eps, o.a), HalfSpans(pr.b, eps, o.b);
    HalvesWithin(pr.a, st.a, eps, o.a);
    HalvesWithin(pr.b, st.b, eps, o.b);
    CrossWithin(st, o.k, as_, bs, sa, sb);
    var next, onext := CrossPairs(as_, bs), CrossOrigins(o.k, sa, sb);
    assert Examine(pr, eps).next == next;
    assert Descended(start, next, onext);
    ConcatDescended(start, work, origins, next, onext);
  }

  lemma ConcatDescended(start: seq<Pair>, pairs: seq<Pair>, origins: seq<Origin>, more: seq<Pair>, omore: seq<Origin>)
    requires Descended(start, pairs, origins) && Descended(start, more, omore)
    ensures Descended(start, pairs + more, origins + omore)
  {
    var n := |pairs|;
    forall j | 0 <= j < n + |more|
      ensures (origins + omore)[j].k < |start| && Within((pairs + more)[j], start[(origins + omore)[j].k], (origins + omore)[j])
    {
      if j < n {
        assert (pairs + more)[j] == pairs[j] && (origins + omore)[j] == origins[j];
      } else {
        assert (pairs + more)[j] == more[j - n] && (origins + omore)[j] == omore[j - n];
      }
    }
  }

  lemma PopDescended(start: seq<Pair>, work: seq<Pair>, origins: seq<Origin>)
    requires Descended(start, work, origins) && work != []
    ensures origins[|work| - 1].k < |start| && Within(work[|work| - 1], start[origins[|work| - 1].k], origins[|work| - 1])
    ensures Descended(start, work[..|work| - 1], origins[..|work| - 1])
  {
    var n := |work|;
    var top := work[n - 1];
    assert origins[n - 1].k < |start| && Within(top, start[origins[n - 1].k], origins[n - 1]);
    forall j | 0 <= j < n - 1
      ensures origins[j].k < |start| && Within(work[..n - 1][j], start[origins[j].k], origins[j])
    {
      assert work[..n - 1][j] == work[j];
    }
  }

  lemma AppendDescended(start: seq<Pair>, pairs: seq<Pair>, origins: seq<Origin>, pr: Pair, o: Origin)
    requires Descended(start, pairs, origins)
    requires o.k < |start| && Within(pr, start[o.k], o)
    ensures Descended(start, pairs + [pr], origins + [o])
  {
    ConcatDescended(start, pairs, origins, [pr], [o]);
  }

  /*************************************************************************
   * No common point is lost
   *************************************************************************/

  predicate InSpan(s: real, sp: Span)
  {
    sp.lo <= s <= sp.hi
  }

  /** Start pair k meets itself at parameter s of its first part and u of its second. */
  ghost predicate Common(start: seq<Pair>, k: int, s: real, u: real)
  {
    && 0 <= k < |start| && 0.0 <= s <= 1.0 && 0.0 <= u <= 1.0
    && Value(start[k].a, s) == Value(start[k].b, u)
  }

  /** Some queued pair of start pair k covers parameters s and u. */
  ghost predicate Pending(from: seq<Origin>, k: int, s: real, u: real)
  {
    exists j :: 0 <= j < |from| && from[j].k == k && InSpan(s, from[j].a) && InSpan(u, from[j].b)
  }

  /** Some reported point lies closer than 2 eps to c. */
  ghost predicate Near(points: seq<Point>, c: Point, eps: real)
  {
    exists i :: 0 <= i < |points| && Norm2(Sub(points[i], c)) < 4.0 * eps * eps
  }

  /** Every common point is still queued or already has a reported point near it. */
  ghost predicate Covered(start: seq<Pair>, from: seq<Origin>, points: seq<Point>, eps: real)
  {
    forall k, s, u {:trigger Common(start, k, s, u)} :: Common(start, k, s, u) ==>
      Pending(from, k, s, u) || Near(points, Value(start[k].a, s), eps)
  }

  /** Every common point of every start pair has a reported point near it. */
  ghost predicate Found(start: seq<Pair>, points: seq<Point>, eps: real)
  {
    forall k, s, u {:trigger Common(start, k, s, u)} :: Common(start, k, s, u) ==>
      Near(points, Value(start[k].a, s), eps)
  }

  lemma StartCovered(start: seq<Pair>, eps: real)
    ensures Covered(start, StartOrigins(|start|), [], eps)
  {
    var from := StartOrigins(|start|);
    forall k, s, u | Common(start, k, s, u)
      ensures Pending(from, k, s, u)
    {
      assert from[k].k == k && InSpan(s, from[k].a) && InSpan(u, from[k].b);
    }
  }

  lemma EmptyCovered(start: seq<Pair>, points: seq<Point>, eps: real)
    requires Covered(start, [], points, eps)
    ensures Found(start, points, eps)
  {
  }

  /** A point the start curve takes inside the interval a piece traces lies in the piece's box. */
  lemma TracedInBox(cp: seq<Point>, P: seq<Point>, sp: Span, s: real)
    requires |cp| >= 1 && Inside(sp) && Traces(cp, P, sp.lo, sp.hi) && InSpan(s, sp)
    ensures Contains(PartBox(cp), Value(P, s))
  {
    var sigma := LocalParam(sp, s);
    TracesAt(cp, P, sp.lo, sp.hi, sigma);
    ValueInBox(cp, sigma);
  }

  /** The parameter of a piece over sp at which it reaches parameter s of its curve. */
  lemma LocalParam(sp: Span, s: real) returns (sigma: real)
    requires Inside(sp) && InSpan(s, sp)
    ensures 0.0 <= sigma <= 1.0 && Reparam(sp.lo, sp.hi, sigma) == s
  {
    var w := sp.hi - sp.lo;
    sigma := (s - sp.lo) / w;
    assert w * sigma == s - sp.lo;
    assert w * (1.0 - sigma) == sp.hi - s;
  }

  lemma TracesAt(cp: seq<Point>, P: seq<Point>, lo: real, hi: real, sigma: real)
    requires Traces(cp, P, lo, hi)
    ensures Value(cp, sigma) == Value(P, Reparam(lo, hi, sigma))
  {
  }

  /** A common point covered by a pair lies in the boxes of both its parts. */
  lemma TopContains(start: seq<Pair>, pr: Pair, o: Origin, s: real, u: real)
    requires NonEmptyParts(pr) && o.k < |start| && Within(pr, start[o.k], o)
    requires Common(start, o.k, s, u) && InSpan(s, o.a) && InSpan(u, o.b)
    ensures Contains(PartBox(pr.a), Value(start[o.k].a, s))
    ensures Contains(PartBox(pr.b), Value(start[o.k].a, s))
    ensures Intersects(PartBox(pr.a), PartBox(pr.b))
  {
    var st := start[o.k];
    TracedInBox(pr.a, st.a, o.a, s);
    TracedInBox(pr.b, st.b, o.b, u);
    SharedPointIntersects(PartBox(pr.a), PartBox(pr.b), Value(st.a, s));
  }

  /** Without the pair on top, a pending common point is pending below it or covered by the top. */
  lemma PendingPop(from: seq<Origin>, k: int, s: real, u: real) returns (top: bool)
    requires Pending(from, k, s, u) && from != []
    ensures top ==> Last(from).k == k && InSpan(s, Last(from).a) && InSpan(u, Last(from).b)
    ensures !top ==> Pending(from[..|from| - 1], k, s, u)
  {
    var j :| 0 <= j < |from| && from[j].k == k && InSpan(s, from[j].a) && InSpan(u, from[j].b);
    top := j == |from| - 1;
    if !top {
      assert from[..|from| - 1][j] == from[j];
    }
  }

  lemma PendingAppend(from: seq<Origin>, more: seq<Origin>, k: int, s: real, u: real)
    requires Pending(from, k, s, u)
    ensures Pending(from + more, k, s, u)
  {
    var j :| 0 <= j < |from| && from[j].k == k && InSpan(s, from[j].a) && InSpan(u, from[j].b);
    assert (from + more)[j] == from[j];
  }

  lemma PendingPrepend(from: seq<Origin>, more: seq<Origin>, k: int, s: real, u: real)
    requires Pending(more, k, s, u)
    ensures Pending(from + more, k, s, u)
  {
    var j :| 0 <= j < |more| && more[j].k == k && InSpan(s, more[j].a) && InSpan(u, more[j].b);
    assert (from + more)[|from| + j] == more[j];
  }

  lemma NearAppend(points: seq<Point>, c: Point, p: Point, eps: real)
    requires Near(points, c, eps)
    ensures Near(points + [p], c, eps)
  {
    var i :| 0 <= i < |points| && Norm2(Sub(points[i], c)) < 4.0 * eps * eps;
    assert (points + [p])[i] == points[i];
  }

  /** The points after a converged pair: its center is appended unless a point lies within eps of it. */
  function AfterConverged(points: seq<Point>, c: Point, eps: real): seq<Point>
  {
    if FarFromAll(points, c, eps) then points + [c] else points
  }

  /** A point of the box of a converged pair ends up near a reported point. */
  lemma ConvergedNear(points: seq<Point>, pr: Pair, eps: real, x: Point)
    requires NonEmptyParts(pr) && Examine(pr, eps).Converged? && Contains(PartBox(pr.a), x)
    ensures Near(AfterConverged(points, Examine(pr, eps).center, eps), x, eps)
  {
    var c := Examine(pr, eps).center;
    var box := PartBox(pr.a);
    CenterClose(box, x);
    assert Norm2(Diagonal(box)) < eps * eps;
    if FarFromAll(points, c, eps) {
      assert (points + [c])[|points|] == c;
    } else {
      var i :| 0 <= i < |points| && NormBelow(Sub(points[i], c), eps);
      DetourBound(points[i], c, x);
    }
  }

  /** The intervals of the halves of a part together cover the interval of the part. */
  lemma HalfCovers(cp: seq<Point>, eps: real, sp: Span, s: real) returns (i: nat)
    requires |cp| >= 1 && InSpan(s, sp)
    ensures i < |HalfSpans(cp, eps, sp)| && InSpan(s, HalfSpans(cp, eps, sp)[i])
  {
    var m := (sp.lo + sp.hi) / 2.0;
    i := if Small(cp, eps) || s >= m then 0 else 1;
  }

  /** Origin (part i of sa, part j of sb) sits at position j |sa| + i, like its pair. */
  lemma {:induction false} CrossOriginsAt(k: nat, sa: seq<Span>, sb: seq<Span>, j: nat, i: nat)
    requires j < |sb| && i < |sa|
    ensures j * |sa| + i < |CrossOrigins(k, sa, sb)|
    ensures CrossOrigins(k, sa, sb)[j * |sa| + i] == Origin(k, sa[i], sb[j])
    decreases |sb|
  {
    var m, n := |sa|, |sb|;
    var front := sb[..n - 1];
    var prefix: seq<Origin> := CrossOrigins(k, sa, front);
    var row: seq<Origin> := seq(m, q requires 0 <= q < m => Origin(k, sa[q], Last(sb)));
    assert CrossOrigins(k, sa, sb) == prefix + row;
    RowMajorBound(j, i, m, n);
    if j < n - 1 {
      CrossOriginsAt(k, sa, front, j, i);
      assert front[j] == sb[j];
    } else {
      assert |prefix| == m * (n - 1) == (n - 1) * m;
      assert j * m + i == |prefix| + i;
      assert Last(sb) == sb[j];
      assert (prefix + row)[|prefix| + i] == row[i] == Origin(k, sa[i], sb[j]);
    }
  }

  /** The pairs that refining a pair pushes cover every pair of parameters it covered. */
  lemma RefineCovers(pr: Pair, o: Origin, eps: real, s: real, u: real)
    requires NonEmptyParts(pr) && InSpan(s, o.a) && InSpan(u, o.b)
    ensures Pending(NextOrigins(pr, o, eps), o.k, s, u)
  {
    var sa, sb := HalfSpans(pr.a, eps, o.a), HalfSpans(pr.b, eps, o.b);
    var i := HalfCovers(pr.a, eps, o.a, s);
    var j := HalfCovers(pr.b, eps, o.b, u);
    CrossCovers(o.k, sa, sb, i, j, s, u);
  }

  lemma CrossCovers(k: nat, sa: seq<Span>, sb: seq<Span>, i: nat, j: nat, s: real, u: real)
    requires i < |sa| && j < |sb| && InSpan(s, sa[i]) && InSpan(u, sb[j])
    ensures Pending(CrossOrigins(k, sa, sb), k, s, u)
  {
    CrossOriginsAt(k, sa, sb, j, i);
    var idx := j * |sa| + i;
    assert CrossOrigins(k, sa, sb)[idx] == Origin(k, sa[i], sb[j]);
  }

  /** Dropping a pair with disjoint boxes loses no common point. */
  lemma CoveredDisjoint(start: seq<Pair>, from: seq<Origin>, points: seq<Point>, pr: Pair, eps: real)
    requires Covered(start, from, points, eps) && from != []
    requires NonEmptyParts(pr) && Last(from).k < |start| && Within(pr, start[Last(from).k], Last(from))
    requires Examine(pr, eps).Disjoint?
    ensures Covered(start, from[..|from| - 1], points, eps)
  {
    var o := Last(from);
    forall k, s, u | Common(start, k, s, u) && !Near(points, Value(start[k].a, s), eps)
      ensures Pending(from[..|from| - 1], k, s, u)
    {
      var top := PendingPop(from, k, s, u);
      if top {
        TopContains(start, pr, o, s, u);
        assert false;
      }
    }
  }

  /** A converged pair leaves each common point it covered near a reported point. */
  lemma CoveredConverged(start: seq<Pair>, from: seq<Origin>, points: seq<Point>, pr: Pair, eps: real)
    requires Covered(start, from, points, eps) && from != []
    requires NonEmptyParts(pr) && Last(from).k < |start| && Within(pr, start[Last(from).k], Last(from))
    requires Examine(pr, eps).Converged?
    ensures Covered(start, from[..|from| - 1], AfterConverged(points, Examine(pr, eps).center, eps), eps)
  {
    var o := Last(from);
    var c := Examine(pr, eps).center;
    var after := AfterConverged(points, c, eps);
    forall k, s, u | Common(start, k, s, u)
      ensures Pending(from[..|from| - 1], k, s, u) || Near(after, Value(start[k].a, s), eps)
    {
      var x := Value(start[k].a, s);
      if Near(points, x, eps) {
        if FarFromAll(points, c, eps) {
          NearAppend(points, x, c, eps);
        }
      } else {
        var top := PendingPop(from, k, s, u);
        if top {
          TopContains(start, pr, o, s, u);
          ConvergedNear(points, pr, eps, x);
        }
      }
    }
  }

  /** The pairs that refining pushes cover what the refined pair covered. */
  lemma CoveredRefine(start: seq<Pair>, from: seq<Origin>, points: seq<Point>, pr: Pair, eps: real)
    requires Covered(start, from, points, eps) && from != [] && NonEmptyParts(pr)
    ensures Covered(start, from[..|from| - 1] + NextOrigins(pr, Last(from), eps), points, eps)
  {
    var o := Last(from);
    var rest, next := from[..|from| - 1], NextOrigins(pr, o, eps);
    forall k, s, u | Common(start, k, s, u) && !Near(points, Value(start[k].a, s), eps)
      ensures Pending(rest + next, k, s, u)
    {
      var top := PendingPop(from, k, s, u);
      if top {
        RefineCovers(pr, o, eps, s, u);
        PendingPrepend(rest, next, k, s, u);
      } else {
        PendingAppend(rest, next, k, s, u);
      }
    }
  }

  /**
   * The clipping loop over the work list, run at most `fuel` times;
   * `complete` says the work list emptied. The points come out separated by
   * eps, and each is the verdict of a pair that converged; that pair is a
   * pair of pieces of a start pair, each part the start pair's part over an
   * interval inside [0, 1]. When the work list empties, no common point of a
   * start pair is missed: each lies closer than 2 eps to a reported point.
   */
  method Clip(start: seq<Pair>, eps: real, fuel: nat)
    returns (points: seq<Point>, complete: bool, ghost witnesses: seq<Pair>, ghost origins: seq<Origin>)
    requires forall j :: 0 <= j < |start| ==> NonEmptyParts(start[j])
    ensures Separated(points, eps)
    ensures |witnesses| == |points|
    ensures forall i :: 0 <= i < |points| ==> NonEmptyParts(witnesses[i]) && Examine(witnesses[i], eps) == Converged(points[i])
    ensures Descended(start, witnesses, origins)
    ensures complete ==> Found(start, points, eps)
    ensures start == [] ==> complete && points == []
  {
    points := [];
    witnesses, origins := [], [];
    var work := start;
    ghost var from := StartOrigins(|start|);
    StartDescended(start);
    StartCovered(start, eps);
    var budget := fuel;
    while work != [] && budget > 0
      invariant AllNonEmpty(work)
      invariant Descended(start, work, from)
      invariant Reported(points, witnesses, eps)
      invariant Descended(start, witnesses, origins)
      invariant Covered(start, from, points, eps)
      invariant start == [] ==> points == [] && work == []
      decreases budget
    {
      PopKeepsNonEmpty(work);
      PopDescended(start, work, from);
      var pr := work[|work| - 1];
      ghost var o := from[|work| - 1];
      ghost var queued := from;
      work := work[..|work| - 1];
      from := from[..|from| - 1];
      var v := Examine(pr, eps);
      if v.Converged? {
        CoveredConverged(start, queued, points, pr, eps);
        if FarFromAll(points, v.center, eps) {
          ReportConverged(points, witnesses, pr, eps);
          AppendDescended(start, witnesses, origins, pr, o);
          points := points + [v.center];
          witnesses, origins := witnesses + [pr], origins + [o];
        }
      } else if v.Refine? {
        CoveredRefine(start, queued, points, pr, eps);
        RefineKeepsNonEmpty(work, pr, eps);
        RefineDescended(start, work, from, pr, o, eps);
        work := work + v.next;
        from := from + NextOrigins(pr, o, eps);
      } else {
        CoveredDisjoint(start, queued, points, pr, eps);
      }
      budget := budget - 1;
    }
    complete := work == [];
    if complete {
      EmptyCovered(start, points, eps);
    }
  }
}
