# Bezier curves and Sturm root isolation, in Dafny

This project models the core of a small C++ library for planar Bezier curves:

- the `Curve` class, with its control points, its lazily filled caches and the
  operations that change the curve in place;
- the pure algebra behind those operations: evaluation, derivatives, order
  elevation and reduction, splitting, the power basis, roots, extrema and
  bounding boxes;
- flattening into a polyline;
- curve/curve intersection by bounding-box clipping;
- projection of a point onto the curve;
- curvature manipulation;
- the Sturm-chain root isolator used for polynomials with coefficients given
  highest degree first.

Real numbers stand in for `double` throughout. Two substitutions follow from
that:

- Norms are compared through their squares. That gives the same order and
  needs no square root.
- Eigen's polynomial solver, whose results the library filters and uses, is a
  parameter `Solver` (a function from coefficients to real roots). Properties
  that depend on the solver are stated for every solver.

Module layout, one file each:

| Module | Contents |
|---|---|
| `Geometry` | points, vectors and axis-aligned boxes |
| `Bezier` | the pure curve algebra of `src/bezier.cpp` |
| `Sturm` | `chain`, `interval` and `roots` of `include/Bezier/sturm.h` |
| `Flatten` | `polyline` |
| `Intersect` | `intersections` |
| `Projection` | `projectPoint` |
| `Curvature` | `manipulateCurvature` |
| `Curves` | the `Curve` class itself |

The class keeps the source's caches as `Option` fields. Its invariant `Valid()`
says that every filled cache holds exactly the value its specification function
gives for the current control points.

Where the library's description and its code differ, the model follows the
code:

- Self-intersection is described as skipping adjacent pieces that share a
  split point. The code (src/bezier.cpp:382-384) queues every pair k < i,
  adjacent ones included, and so does `Intersect.AllPairs`.
- An out-of-range control-point index is described as an invalid-argument
  error. `moveControlPoint` (src/bezier.cpp:149-153) has no check, so
  `Curves.Curve.MoveControlPoint` requires a valid index instead of
  returning an error. Only a zero derivative order is refused with an error,
  as in src/bezier.cpp:274.

## Model

| member | source | states |
|---|---|---|
| Geometry.SharedPointIntersects | src/bezier.cpp:400-402 | two boxes that share a point are never discarded as disjoint, in either order |
| Geometry.CenterContained | src/bezier.cpp:407 | the centre of a well-formed box lies inside it, so the point reported for a converged pair lies in its first part's box |
| Bezier.ValueAt | src/bezier.cpp:201-208 | the power-basis row at t times `bernsteinCoeffs(N)` times the control points is the de Casteljau value of the curve at t; an empty curve gives (0,0) |
| Bezier.ValuesAreValues | src/bezier.cpp:210-225 | the batched product (power-basis matrix of all parameters times `bernsteinCoeffs(N)` times the points) gives, row by row, the curve's value at each parameter, as repeated single calls do |
| Bezier.ValueAtZero | src/bezier.cpp:201-208 | the curve starts at its first control point |
| Bezier.ValueAtOne | src/bezier.cpp:201-208 | the curve ends at its last control point |
| Bezier.ValueScale | src/bezier.cpp:201-208 | evaluation is linear: scaling every control point scales the value |
| Bezier.ValueSub | src/bezier.cpp:201-208 | evaluation is linear: the value of a pointwise difference is the difference of values |
| Bezier.ReversedTwice | src/bezier.cpp:143-147 | reversing the control points twice gives them back |
| Bezier.ValueOfReversed | src/bezier.cpp:143-147 | the reversed curve traces the same path backwards: its value at t is the original value at 1 - t |
| Bezier.Derivative | src/bezier.cpp:259-269 | a one-point curve has a one-point derivative; otherwise the derivative has one point fewer |
| Bezier.DerivativePoint | src/bezier.cpp:266 | derivative control point k is (N - 1)(P[k+1] - P[k]) |
| Bezier.DerivativeValue | src/bezier.cpp:259-269 | the derivative curve's value is (N - 1) times the difference of the two de Casteljau sub-values, i.e. the hodograph |
| Bezier.DerivativeAtEnds | src/bezier.cpp:259-269 | the end tangents are (N - 1)(P[1] - P[0]) and (N - 1)(P[N-1] - P[N-2]) |
| Bezier.DerivativeOfReversed | src/bezier.cpp:143-147 | the derivative of the reversed curve is the negated reversed derivative |
| Bezier.IteratedStep | src/bezier.cpp:271-279 | taking n + 1 derivatives is one more derivative of the n-th |
| Bezier.DerivativeN | src/bezier.cpp:271-279 | n = 0 is refused; n = 1 is the first derivative; otherwise the result has max(N - n, 1) points |
| Bezier.IteratedCount | src/bezier.cpp:271-279 | the n-th derivative has max(N - n, 1) control points |
| Bezier.NormalAt | src/bezier.cpp:253-257 | the normal is orthogonal to the tangent, has its length, and is the tangent turned a quarter to the left: the cross product of tangent and normal is the tangent's squared length |
| Bezier.EndPoints | src/bezier.cpp:53 | the end points are the curve's values at 0 and 1 |
| Bezier.ElevateRow | src/bezier.cpp:620-629 | row i of the elevation matrix has 1 - i/n on the diagonal, i/n just below it, and zeros elsewhere |
| Bezier.ElevatedAt | src/bezier.cpp:187-191 | the elevated curve keeps both end points; interior point k is (k/N) P[k-1] + (1 - k/N) P[k] |
| Bezier.ElevatedEmpty | src/bezier.cpp:620-629 | the empty curve elevates to the single point (0,0), the product of a 1 x 0 matrix with no points |
| Bezier.ElevatedPoints | src/bezier.cpp:187-191 | the whole elevated curve at once: both end points kept and every interior point k equal to (k/N) P[k-1] + (1 - k/N) P[k] |
| Bezier.Lowered | src/bezier.cpp:193-199 | lowering removes exactly one control point |
| Bezier.LowerElevated | src/bezier.cpp:631-640 | lowering undoes elevation exactly: `Lowered(Elevated(P)) == P` |
| Bezier.ElevatedValue | src/bezier.cpp:187-191 | elevation keeps the curve: the elevated points have the same de Casteljau value at every t |
| Bezier.SplitCurve | src/bezier.cpp:340-343 | both halves have N points; the left one starts at P[0], the right one ends at the last point, and they meet at the curve's value at z |
| Bezier.SplitJoins | src/bezier.cpp:580-597 | the left half runs from P[0] to the value at z, the right half from there to the last point |
| Bezier.SplitLeftValue | src/bezier.cpp:580-597 | the left half traces the curve over [0, z]: its value at s is the curve's value at z s, for every s |
| Bezier.SplitRightValue | src/bezier.cpp:599-618 | the right half traces the curve over [z, 1]: its value at s is the curve's value at z + (1 - z) s, for every s |
| Bezier.HalvesTrace | src/bezier.cpp:340-343 | halving a piece that traces the curve over [lo, hi] gives a left half over [lo, m] and a right half over [m, hi], m the midpoint |
| Bezier.SplitRightMirrorsLeft | src/bezier.cpp:599-618 | the right splitting matrix is the left one for the reversed curve at 1 - z, reversed |
| Bezier.PowerPolyValue | src/bezier.cpp:567-578 | the power form `bernsteinCoeffs(N) * P`, evaluated at t, is the curve's de Casteljau value at t, for every curve and every t |
| Bezier.PowerStep | src/bezier.cpp:567-578 | the power form of N points is the power form of the first N - 1 points, plus t times the power form of the last N - 1, minus t times the first: the recurrence behind the matrix's rows |
| Bezier.PowerPolyConstant | src/bezier.cpp:567-578 | the constant term of the power form is the curve's value at 0 |
| Bezier.PowerPolyLine | src/bezier.cpp:567-578 | a two-point curve has power form P[0] + t (P[1] - P[0]) |
| Bezier.TrimTrailing | src/bezier.cpp:13-19 | the result is the longest prefix whose last entry is not zero; every dropped entry was zero |
| Bezier.TrimZeroes | src/bezier.cpp:13-19 | the loop computes exactly `TrimTrailing` |
| Bezier.InUnit | src/bezier.cpp:308-311 | a parameter is kept if and only if it is a root lying in [0, 1] |
| Projection.AxisPolynomialValue | src/bezier.cpp:290-304 | the coefficients handed to the solver for one axis, trailing zeros trimmed, evaluate to that coordinate of the curve |
| Bezier.Roots | src/bezier.cpp:285-316 | every root reported lies in [0, 1]; a curve of at most one point has none; for N > 1 a parameter in [0, 1] is reported exactly when the solver returns it for the x or y power polynomial |
| Bezier.MinCoord | src/bezier.cpp:330-333 | the minimum is attained and bounds every point from below |
| Bezier.MaxCoord | src/bezier.cpp:330-333 | the maximum is attained and bounds every point from above |
| Bezier.BoxOf | src/bezier.cpp:329-335 | the box contains every point it was built from and is well formed, and each of its four sides is attained: its coordinate is that coordinate of one of the points |
| Bezier.ValueInBox | src/bezier.cpp:387-402 | the curve over [0, 1] stays in the box of its control points, which is why a pair whose `bbox` boxes are disjoint cannot meet |
| Bezier.BoundingBox | src/bezier.cpp:320-338 | the box contains both end points and the curve's value at every extremum, and each side is touched: its coordinate is that of an end point or of the value at an extremum |
| Bezier.BoxThrough | src/bezier.cpp:322-337 | the box of the end points and of the curve's values at the given parameters contains all of them, and each side is touched by one of them |
| Curvature.EndWeights | src/bezier.cpp:160-162 | for 0 < t < 1 both end weights are positive and their sum lies strictly between 0 and 1 |
| Curvature.Ratio | src/bezier.cpp:160-161 | r is positive and r times the end-weight sum is one minus that sum |
| Curvature.AbsRatio | src/bezier.cpp:160-161 | the absolute value of (s - 1)/s is the positive ratio (1 - s)/s |
| Curvature.FirstWeight | src/bezier.cpp:162 | u times the end-weight sum is (1 - t)^(N-1) |
| Curvature.Manipulate | src/bezier.cpp:155-185 | the operation is refused exactly for curves that are neither quadratic nor cubic; otherwise it keeps the size and both end points |
| Curvature.UndoLeft | src/bezier.cpp:179-182 | the computed point x satisfies (1 - t) x + t a = e |
| Curvature.UndoRight | src/bezier.cpp:180-181 | the computed point x satisfies (1 - t) a + t x = e |
| Curvature.ManipulatePassesThrough | src/bezier.cpp:155-185 | after manipulation the curve passes through B at t, for quadratics and cubics |
| Curvature.QuadraticPassesThrough | src/bezier.cpp:169-171 | replacing the middle point by A makes the quadratic pass through B at t |
| Curvature.CubicPassesThrough | src/bezier.cpp:172-183 | replacing the two middle points makes the cubic pass through B at t |
| Curvature.CubicAnchor | src/bezier.cpp:160-165 | A is the point that carries the interior weight 3t(1 - t) in B |
| Curvature.CubicBlendStep | src/bezier.cpp:173-178 | the shifted de Casteljau points e1 and e2 blend to B at t |
| Flatten.Deviation | src/bezier.cpp:79-82 | the flatness measure of a control point is never negative |
| Flatten.MaxDeviationIsMax | src/bezier.cpp:84 | the maximum is attained by some interior point and bounds all of them |
| Flatten.FlatBoundsEachPoint | src/bezier.cpp:84 | an accepted subcurve keeps every interior control point within 16 flatness^2 |
| Flatten.EvenlySpacedIsFlat | src/bezier.cpp:79-84 | control points evenly spaced on the chord are accepted at any flatness |
| Flatten.Polyline | src/bezier.cpp:55-104 | the stack loop computes exactly `FlattenOf`, the polyline and whether the stack emptied within the fuel |
| Flatten.FlattenOfTraces | src/bezier.cpp:55-104 | the polyline starts at P[0] and lists the end points of a chain of flat pieces joined end to end; its points are the curve's values at strictly rising parameters from 0, each piece is the curve itself between two consecutive ones, and when the stack empties the last parameter is 1 and the last point is the curve's last point; a two-point curve gives its two points |
| Flatten.AlongEverywhere | src/bezier.cpp:75-97 | the parameters of the polyline's points rise strictly within [0, 1], each point is the curve's value at its parameter, and each accepted piece traces the curve between its two parameters |
| Flatten.AcceptStep | src/bezier.cpp:84-88 | accepting the flat top of the stack keeps the loop invariant: the new point is the curve's value at the end of the top piece's interval |
| Flatten.SplitStep | src/bezier.cpp:89-96 | splitting the top of the stack into its right and then its left half, over the two halves of its interval, keeps the loop invariant |
| Flatten.AcceptTop | src/bezier.cpp:84-88 | popping a flat subcurve and appending its last point extends the chain of flat pieces and keeps the stack joined end to end |
| Flatten.SplitTop | src/bezier.cpp:89-96 | replacing the top subcurve by its right half and then its left half keeps the stack joined end to end and ending at the curve's last point |
| Intersect.Insert | src/bezier.cpp:361 | inserting into a sorted list keeps it sorted and adds exactly that element |
| Intersect.Sort | src/bezier.cpp:361 | the result is sorted and a permutation of the input |
| Intersect.RescaleAll | src/bezier.cpp:378 | each later extremum is rescaled to the remaining piece |
| Intersect.Pieces | src/bezier.cpp:360-379 | splitting at m parameters gives m + 1 subcurves, each with N points |
| Intersect.PiecesTrace | src/bezier.cpp:360-379 | every piece is the curve itself over its interval of `PieceSpans`: [0, t0 - eps/2] first, then the intervals of the remaining pieces of the part after t0 + eps/2 |
| Intersect.PiecesKeepEnds | src/bezier.cpp:360-379 | the first subcurve starts at the curve's first point and the last one ends at its last point |
| Intersect.SplitAtExtrema | src/bezier.cpp:360-379 | the loop computes exactly the pieces, and nothing when there are no extrema |
| Intersect.PairsBeforeMembers | src/bezier.cpp:382-384 | a pair is queued if and only if it is (subcurve k, subcurve i) with k < i |
| Intersect.PairsOfNonEmpty | src/bezier.cpp:382-384 | every queued pair joins two non-empty subcurves |
| Intersect.PairsBeforeCount | src/bezier.cpp:382-384 | m subcurves give m(m - 1)/2 pairs |
| Intersect.AllPairs | src/bezier.cpp:382-384 | the nested loop queues exactly those pairs |
| Intersect.Halves | src/bezier.cpp:420-440 | a subcurve whose box diagonal is below epsilon is kept whole; a larger one becomes its right half and then its left half at 0.5, each with the same number of points |
| Intersect.CrossPairsAt | src/bezier.cpp:444-446 | every half of one part is paired with every half of the other: the pair (a-half i, b-half j) sits at position j |as| + i |
| Intersect.CrossPairsParts | src/bezier.cpp:444-446 | the new pairs keep the sizes of their parts |
| Intersect.Examine | src/bezier.cpp:394-446 | a pair is discarded exactly when its boxes are disjoint, and converges exactly when the boxes meet and both diagonals are below epsilon (centre of the first box, which lies in that box); otherwise it is refined into 2 or 4 pairs |
| Intersect.RefineDescended | src/bezier.cpp:416-446 | refining a pair of pieces of a start pair queues only pairs of pieces of the same start pair, over subintervals of the parents' intervals |
| Intersect.RefineKeepsSizes | src/bezier.cpp:416-446 | refined pairs keep the sizes of their parts |
| Intersect.AppendSeparated | src/bezier.cpp:406-410 | adding a point that is at least epsilon from every reported point keeps the reported points pairwise epsilon apart |
| Intersect.ReportConverged | src/bezier.cpp:404-410 | recording the centre of a converged pair that is epsilon-far from every reported point keeps the points separated and each one witnessed by a converged pair |
| Intersect.Clip | src/bezier.cpp:392-447 | the reported points are pairwise at least epsilon apart; each one is the centre of the first box of a converged pair whose two parts are the two curves of one starting pair, each over an interval inside [0, 1], so a pair whose boxes are disjoint never contributes; an empty queue reports nothing; when the queue empties, every point where the two curves of a starting pair meet lies closer than 2 epsilon to a reported point |
| Intersect.TracedInBox | src/bezier.cpp:397-398 | where a queued part traces its starting curve over [lo, hi], the starting curve's value at any s in [lo, hi] lies in the part's box |
| Intersect.CoveredDisjoint | src/bezier.cpp:400-402 | dropping a pair with disjoint boxes loses no meeting point: every one stays covered by a queued pair or near a reported point |
| Intersect.ConvergedNear | src/bezier.cpp:404-412 | a point in the first box of a converged pair is closer than 2 epsilon to a reported point afterwards, whether the centre was appended or a point within epsilon of it was already there |
| Intersect.CoveredConverged | src/bezier.cpp:404-412 | after a converged pair every meeting point it covered lies near a reported point, and the others stay covered |
| Intersect.RefineCovers | src/bezier.cpp:420-446 | the halves of a refined pair cover every pair of parameters the pair covered |
| Intersect.CoveredRefine | src/bezier.cpp:415-446 | replacing a pair by its refinement keeps every meeting point covered by a queued pair or near a reported point |
| Projection.PolyAtAdd | src/bezier.cpp:459-462 | evaluating a power polynomial is additive |
| Projection.PolyAtScale | src/bezier.cpp:459-462 | evaluating a power polynomial is homogeneous |
| Projection.PartAfter | src/bezier.cpp:459-462 | the accumulated product polynomial has |C| + |D| - 1 coefficients |
| Projection.ProjectionPart | src/bezier.cpp:456-466 | the loop accumulates exactly the product polynomial |
| Projection.PartAfterValue | src/bezier.cpp:459-462 | after k rows the product polynomial evaluates to D(t) · (first k terms of C)(t) |
| Projection.ProjectionPolyValue | src/bezier.cpp:468-470 | for power forms C and D, the projection polynomial evaluates to (C(t) - q) · D(t) |
| Projection.ProjectionPolyOfCurve | src/bezier.cpp:452-470 | built from the curve and its derivative curve, the projection polynomial at t is (B(t) - q) · B'(t): its roots are the parameters where the tangent is perpendicular to the offset from q |
| Projection.Select | src/bezier.cpp:480-495 | the result lies in [0, 1] and is at least as close as both ends and every in-range candidate; the end 0 wins only when strictly closer than 1; a candidate wins only when strictly closer than the ends and every earlier candidate |
| Sturm.TrimLeading | include/Bezier/sturm.h:53-58 | the result is empty or starts with a non-zero coefficient, and shrinks when the first coefficient is zero |
| Sturm.TrimLeadingSuffix | include/Bezier/sturm.h:53-58 | the result is a suffix of the input and every dropped coefficient was zero |
| Sturm.EvalTrimLeading | include/Bezier/sturm.h:53-58 | trimming never changes the polynomial's value |
| Sturm.TrimLeadingZeros | include/Bezier/sturm.h:53-58 | the bounded loop computes exactly `TrimLeading` |
| Sturm.TrimAsWritten | include/Bezier/sturm.h:53-58 | the unbounded loop agrees with `TrimLeading`, but only on input that has a non-zero coefficient |
| Sturm.TrimPastEndWitness | include/Bezier/sturm.h:40-76 | for p = 0.0005 t^2, the chain reaches pseudo-division with a remainder that is all zero, which the unbounded trim cannot handle |
| Sturm.CancelLeading | include/Bezier/sturm.h:71-75 | one cancellation step keeps the length and zeroes the leading coefficient |
| Sturm.EvalCancelLeading | include/Bezier/sturm.h:71-75 | r = (cancelled r) + L t^X b, as polynomials |
| Sturm.PseudoRem | include/Bezier/sturm.h:68-77 | the remainder is empty or shorter than the divisor, and is trimmed |
| Sturm.PseudoDivision | include/Bezier/sturm.h:68-77 | a = quotient · b + remainder at every t |
| Sturm.PseudoDivide | include/Bezier/sturm.h:68-77 | the loop computes exactly that remainder, which is empty or shorter than the divisor |
| Sturm.SubtractLeading | include/Bezier/sturm.h:71-75 | the inner loop computes exactly one cancellation step |
| Sturm.DerivativeRow | include/Bezier/sturm.h:31-33 | the derivative row has the polynomial's length |
| Sturm.DerivativeLoop | include/Bezier/sturm.h:31-33 | the loop fills row 1 with exactly the derivative's coefficients |
| Sturm.NotNearlyConstant | include/Bezier/sturm.h:40 | a row that fails the near-constant test has a non-zero coefficient before its last one |
| Sturm.RemainderRow | include/Bezier/sturm.h:43-50 | the loop computes exactly the negated remainder row |
| Sturm.MainStepDivides | include/Bezier/sturm.h:43-50 | row i-2 = (T t + M) · row i-1 − row i at every t: the row is the negated remainder |
| Sturm.NextRow | include/Bezier/sturm.h:43-79 | one step of the main loop gives a row of the polynomial's length, zero before column i: when the leading coefficient of row i-1 exceeds epsilon, the negated remainder of the two rows before it; otherwise the pseudo-remainder of the trimmed rows, inflated and not negated |
| Sturm.ChainExtend | include/Bezier/sturm.h:35-80 | appending a row built by one step keeps the rows a Sturm chain of the polynomial |
| Sturm.ChainUnique | include/Bezier/sturm.h:27-82 | two row sequences that both satisfy the chain conditions for the same polynomial and both stop only at a nearly constant row are equal: the chain is a function of the polynomial |
| Sturm.Chain | include/Bezier/sturm.h:27-82 | row 0 is the polynomial, row 1 its derivative, each later row follows from the two before it by one step (the negated remainder on the direct branch, the un-negated pseudo-remainder on the other); every row has the polynomial's length; the chain stops early only at a nearly constant row, so the rows are determined by the polynomial (`Sturm.ChainUnique`) |
| Sturm.SignChanges | include/Bezier/sturm.h:101-108 | the number of sign changes is at most one less than the number of values |
| Sturm.Interval | include/Bezier/sturm.h:91-110 | the loop computes the difference of the sign-change counts at t1 and t2, which lies within plus or minus (rows - 1) |
| Sturm.CountChanges | include/Bezier/sturm.h:101-108 | the loop counts exactly the sign changes of both value vectors |
| Sturm.RootNum | include/Bezier/sturm.h:131 | the unsigned cast is the count modulo 2^32 |
| Sturm.Iterate | include/Bezier/sturm.h:126-171 | a zero count drops the interval; a narrow interval emits the midpoint of its left half; otherwise both halves are queued, except that a single-root interval that has not passed the shape filter is queued exactly when it passes it; the result is `Step`, the function the search tree is built from |
| Sturm.WidthMonotone | include/Bezier/sturm.h:175-185 | more halvings never give a wider interval |
| Sturm.WidthInverse | include/Bezier/sturm.h:175-185 | after k halvings the width is at most 1/(k + 1) |
| Sturm.Threshold | include/Bezier/sturm.h:175-185 | for every positive epsilon some depth is narrower than epsilon, so the search is finite |
| Sturm.PushedQueued | include/Bezier/sturm.h:175-185 | queued halves are two levels deeper and still above the depth bound |
| Sturm.PopWeight | include/Bezier/sturm.h:175-185 | processing an interval strictly decreases the weight of the queue |
| Sturm.EmittedInRange | include/Bezier/sturm.h:139-144 | every emitted root lies in [0, 1] and comes from a narrow subinterval with a non-zero count |
| Sturm.Start | include/Bezier/sturm.h:173 | the first `iterate`, on [0, 1], queues only depth-1 intervals and emits only roots in [0, 1] with a narrow witnessing subinterval |
| Sturm.Visit | include/Bezier/sturm.h:175-185 | each half of a popped interval yields zero or two intervals two levels deeper, still above the depth bound, and emits only roots in [0, 1] with a narrow witnessing subinterval |
| Sturm.Roots | include/Bezier/sturm.h:119-188 | the search terminates; the chain it counts with is the one `chain` builds, stopping only where `chain` stops (hence unique by `Sturm.ChainUnique`); the roots are exactly `Search`, the depth-first walk of the bisection tree in the order the stack pops it; every reported root lies in [0, 1] and is the midpoint of the left half of a narrow subinterval whose Sturm count for that chain is not zero; looking for all roots, a non-zero count on [0, 1] reports at least one root |
| Sturm.Pop | include/Bezier/sturm.h:175-185 | one pass of the loop (pop, `iterate` on both halves) keeps the reported roots followed by the stack's subtrees unchanged, and lowers the stack's weight |
| Sturm.ExploreAllAppend | include/Bezier/sturm.h:175-185 | the subtrees of a stack S + T are those of T (popped first) followed by those of S |
| Sturm.ExploreFinds | include/Bezier/sturm.h:126-185 | looking for all roots, the subtree of a queued interval with a non-zero Sturm count reports at least one root |
| Sturm.SearchFinds | include/Bezier/sturm.h:119-188 | looking for all roots, the whole search reports at least one root when the Sturm count on [0, 1] is not zero |
| Curves.Curve.constructor | src/bezier.cpp:21-32 | a new curve holds the given points and has every cache empty |
| Curves.Curve.ResetCache | src/bezier.cpp:551-559 | every cache is emptied and the points are unchanged; the stored derivative of the projection polynomial and the cached flatness are kept |
| Curves.Curve.Assign | src/bezier.cpp:34-39 | the curve takes the other curve's points and empties its caches |
| Curves.Curve.Order | src/bezier.cpp:41 | the order is one less than the point count, wrapping to 2^32 - 1 for an empty curve |
| Curves.Curve.EndPointsOf | src/bezier.cpp:53 | the end points are the curve's values at 0 and 1 |
| Curves.Curve.Reverse | src/bezier.cpp:143-147 | the points are reversed and the caches emptied |
| Curves.Curve.MoveControlPoint | src/bezier.cpp:149-153 | exactly point idx changes and the caches are emptied |
| Curves.Curve.ElevateOrder | src/bezier.cpp:187-191 | the new points are `Elevated` of the old ones: one point more, the single point (0,0) for an empty curve, otherwise both ends kept and interior points as in `Bezier.ElevatedPoints`; lowering them gives the old points back, and the caches are emptied |
| Curves.Curve.LowerOrder | src/bezier.cpp:193-199 | a two-point curve is refused and left untouched; otherwise the points are lowered and the caches emptied |
| Curves.Curve.ManipulateCurvature | src/bezier.cpp:155-185 | curves that are neither quadratic nor cubic are refused and left untouched; otherwise the new curve keeps its ends and passes through B at t |
| Curves.Curve.Derivative | src/bezier.cpp:259-269 | the cached derivative is filled with (N - 1)(P[k+1] - P[k]), or the origin for a one-point curve; the other caches are unchanged |
| Curves.Curve.DerivativeN | src/bezier.cpp:271-279 | the loop returns the n-th derivative and refuses n = 0 |
| Curves.Curve.Roots | src/bezier.cpp:285-316 | the roots cache is filled; every root lies in [0, 1] |
| Curves.Curve.Extrema | src/bezier.cpp:318 | the extrema are the derivative's roots, all in [0, 1] |
| Curves.Curve.BoundingBox | src/bezier.cpp:320-338 | the box cache is filled with a box containing both ends and every extremum value |
| Curves.Curve.Polyline | src/bezier.cpp:55-104 | a cached polyline is returned unchanged when the flatness matches within 1e-10; otherwise a fresh one is traced with the requested flatness and, when complete, cached with it; either way it has the properties of `Flatten.FlattenOfTraces` |
| Curves.Curve.StorePolyline | src/bezier.cpp:100-101 | the polyline cache takes the traced polyline and its flatness, and the class invariant still holds |
| Curves.Curve.Intersections | src/bezier.cpp:345-450 | another curve starts from the single pair of both curves; the curve itself starts from every pair of its pieces split at the extrema; the reported points are pairwise epsilon apart, each the centre of a converged pair of pieces of one starting pair; when the queue empties, every point where the two curves meet (or two pieces meet) lies closer than 2 epsilon to a reported point |
| Curves.Curve.StartPairs | src/bezier.cpp:349-385 | the starting work list is the pair of both curves for another curve, and every ordered pair of pieces cut at the sorted extrema for the curve itself; every queued pair has non-empty sides |
| Curves.Curve.ProjectPoint | src/bezier.cpp:452-496 | the product-polynomial cache is filled; for the solver's roots of the projection polynomial the result satisfies `Projection.Nearest` and `Projection.TieBreak`: it lies in [0, 1], is at least as close to q as both ends and every in-range root, the end 0 wins only when strictly closer than 1, and a root wins only when strictly closer than the ends and every earlier root |
| Curves.Curve.PartCache | src/bezier.cpp:456-466 | the projection cache holds the derivative's power form and the product polynomial built from it, filled on first use |

## Left out

- The polynomial solver (Eigen's `PolynomialSolver`) is a parameter. Nothing is claimed about the roots it returns.
- The matrix exponential that builds `bernsteinCoeffs` is not modelled. `BernsteinCoeffs` is its closed form, entry (j, i) = C(n-1, j) C(j, i) (-1)^(j-i); `Bezier.PowerPolyValue` proves that the power form it gives evaluates to the de Casteljau value at every t.
- The matrix inverses in `splittingCoeffsLeft`/`splittingCoeffsRight` are replaced by de Casteljau splitting. This is the operation those matrices perform.
- `lowerOrderCoeffs` is not modelled as the least-squares pseudo-inverse. It is modelled as forward substitution from the first point.
  - Bezier.Lowered: agrees with the least-squares result exactly on curves that are elevations of a lower-order curve, which is what `LowerElevated` proves. On other curves the two differ.
- `binomial` uses `tgamma` on doubles. The model uses exact integer binomials.
- Floating point is left out: rounding, NaN and infinities are not modelled.
- `length`, `iterateByLength`, `curvatureAt`, `curvatureDerivativeAt`, `applyContinuity`, the `normalize` flags of `tangentAt`/`normalAt`, and the static memo maps of coefficient matrices are not part of this model. They use square roots, numerical integration or matrix inversion.
- `controlPoints` and `controlPoint` are plain reads of the `points` field and have no member of their own.
- Flatten.Polyline: the loop carries a `fuel` bound and `complete` reports whether the stack emptied; termination of flattening is not proved, because it rests on the subdivision converging.
- Curves.Curve.Polyline: the same fuel bound; a polyline is cached only when complete.
- Intersect.Clip: the loop carries a `fuel` bound and `complete` reports whether the queue emptied; termination of clipping is not proved, for the same reason. The source loops until the queue is empty. The completeness clause (every common point lies closer than 2 eps to a reported point) is therefore stated only for a run that emptied the queue. How many passes a given input needs is not stated.
- Curves.Curve.Intersections: the same fuel bound as `Intersect.Clip`.
- Curves.Curve.Intersections: requires both curves to have at least one control point. For an empty curve the `bbox` lambda takes `minCoeff`/`maxCoeff` of an empty column (src/bezier.cpp:387-390), and against itself `extrema()` reads the derivative of an empty curve, so that case has no meaningful result to model.
- Curves.Curve.LowerOrder: requires at least one control point. For a curve with no points `lowerOrderCoeffs` computes `n - 1` on an unsigned value (src/bezier.cpp:635), so that case has no meaningful result to model. The one-point curve is modelled.
- Sturm.Roots: requires eps > 0 and a non-empty polynomial. With eps <= 0 the test `a_b - a < epsilon` (include/Bezier/sturm.h:132) never holds. Over the reals the bisection then never ends. In doubles it ends only when rounding stops the interval from shrinking.
- Flatten.Polyline: requires at least two control points. For a single point the source computes `N_ - 2` as an unsigned value and sizes its work arrays from it (src/bezier.cpp:70-72), so that case has no meaningful result to model.
- Flatten.Polyline: on accepting a flat piece the model appends that piece's last point `Last(cp)`, the intended value. The source takes `cp` as a reference to `subcurves.back()` (src/bezier.cpp:76) and reads `cp.row(N_ - 1)` only after `subcurves.pop_back()` (src/bezier.cpp:86-87). That is a read through an invalidated reference, which is undefined behaviour in C++. The model does not capture it, and the same holds for `Curves.Curve.Polyline`.
- Curves.Curve.Polyline: requires at least two control points, for the same reason.
- On the pseudo-division branch of the Sturm chain the row is stored without negation, as the source does, while the direct branch negates. The model keeps this sign difference and proves no root-counting property that would depend on the chain being a Sturm sequence on that branch.
- Curves.Curve.ManipulateCurvature: requires 0 < t < 1 for quadratics and cubics, and so do Curvature.Manipulate and its lemmas. At t = 0 or t = 1 the source divides by zero. For t < 0 or t > 1 the source is defined, but the `fabs` in src/bezier.cpp:161 flips the sign of the ratio, so the manipulated curve misses B. For example, P = (0,0), (1,1), (2,0) with t = 2 and B = (5,5) gives the value (-29,-45) at t = 2.
- Curves.Curve.MoveControlPoint: requires a valid index. The source writes out of bounds otherwise.
- Bezier.Derivative, Bezier.BoundingBox and Curves.Curve.ProjectPoint require the point counts on which the source is defined (at least one point; at least two for projection). For fewer points the source reads an empty matrix.
- Intersect.Rescale: the source divides by 1 - t, which is a division by zero when an extremum is exactly 1; the model leaves the later parameters unchanged in that case.
- Curves.Curve.Extrema: fills the derivative cache, but the derivative curve's own roots cache is not modelled; the roots are recomputed each time.
- The derivative object's own nested caches (for example `derivative().derivative()`) are not modelled. `Curves.Curve.DerivativeN` recomputes them.

## Findings

| source | as written | input that shows it | evidently intended | confidence | as-written member | corrected member |
|---|---|---|---|---|---|---|
| include/Bezier/sturm.h:53-58 | `trim` advances `k` while `p(k) == 0.0` with no bound on `k`, so a row that is all zero is read past its end | `roots` on 0.0005 t^2 (coefficients 0.0005, 0, 0) with the default epsilon 0.001: the derivative row is not nearly constant and its leading coefficient is not above epsilon, so row 2 comes from pseudo-division of (0.0005, 0, 0) by (0.001, 0), whose first cancellation leaves (0, 0, 0) | stop at the end and return the empty row, as `trimZeroes` in src/bezier.cpp:13-19 does | not executed | Sturm.TrimAsWritten, Sturm.TrimPastEndWitness | Sturm.TrimLeadingZeros, Sturm.PseudoDivide |
