/**
 * Sturm-sequence root isolation on [0, 1].
 *
 * Polynomials are coefficient sequences, highest degree first. A chain is a
 * list of rows of equal width n = |polynomial|, each row aligned so that its
 * last column is the constant term; row i is zero before column i.
 */
module Sturm {

  /*************************************************************************
   * Polynomials
   *************************************************************************/

  /** The value at t of a polynomial given highest degree first. */
  function Eval(p: seq<real>, t: real): real
    decreases |p|
  {
    if |p| == 0 then 0.0 else Eval(p[..|p| - 1], t) * t + p[|p| - 1]
  }

  function Pow(t: real, k: nat): real
  {
    if k == 0 then 1.0 else t * Pow(t, k - 1)
  }

  function Zeros(k: nat): (z: seq<real>)
    ensures |z| == k && forall i :: 0 <= i < k ==> z[i] == 0.0
  {
    seq(k, _ => 0.0)
  }

  lemma {:induction false} EvalAllZero(p: seq<real>, t: real)
    requires forall j :: 0 <= j < |p| ==> p[j] == 0.0
    ensures Eval(p, t) == 0.0
    decreases |p|
  {
    if |p| > 0 {
      EvalAllZero(p[..|p| - 1], t);
    }
  }

  /** Leading zero coefficients do not change a polynomial. */
  lemma {:induction false} EvalLeadingZeros(p: seq<real>, k: nat, t: real)
    requires k <= |p|
    requires forall j :: 0 <= j < k ==> p[j] == 0.0
    ensures Eval(p, t) == Eval(p[k..], t)
    decreases |p|
  {
    if |p| > k {
      var q := p[..|p| - 1];
      EvalLeadingZeros(q, k, t);
      assert q[k..] == p[k..][..|p[k..]| - 1];
    } else {
      EvalAllZero(p, t);
    }
  }

  /** Appending X zero coefficients multiplies by t^X. */
  lemma {:induction false} EvalAppendZeros(p: seq<real>, x: nat, t: real)
    ensures Eval(p + Zeros(x), t) == Eval(p, t) * Pow(t, x)
    decreases x
  {
    if x > 0 {
      EvalAppendZeros(p, x - 1, t);
      AppendZeroStep(p, x, t);
    } else {
      assert p + Zeros(0) == p;
    }
  }

  lemma AppendZeroStep(p: seq<real>, x: nat, t: real)
    requires x > 0 && Eval(p + Zeros(x - 1), t) == Eval(p, t) * Pow(t, x - 1)
    ensures Eval(p + Zeros(x), t) == Eval(p, t) * Pow(t, x)
  {
    var s := p + Zeros(x);
    assert s[..|s| - 1] == p + Zeros(x - 1) && s[|s| - 1] == 0.0;
  }

  /** Evaluation is linear: Eval(p - c q) = Eval(p) - c Eval(q). */
  lemma {:induction false} EvalCombination(p: seq<real>, q: seq<real>, c: real, d: seq<real>, t: real)
    requires |p| == |q| == |d|
    requires forall k :: 0 <= k < |d| ==> d[k] == p[k] - c * q[k]
    ensures Eval(d, t) == Eval(p, t) - c * Eval(q, t)
    decreases |d|
  {
    if |d| > 0 {
      var m := |d| - 1;
      EvalCombination(p[..m], q[..m], c, d[..m], t);
      CombineStep(Eval(d, t), Eval(p, t), Eval(q, t), Eval(d[..m], t), Eval(p[..m], t), Eval(q[..m], t),
                  c, t, d[m], p[m], q[m]);
    }
  }

  /** One Horner step of `EvalCombination`, on the values alone. */
  lemma CombineStep(Ed: real, Ep: real, Eq: real, ed: real, ep: real, eq: real,
                    c: real, t: real, dm: real, pm: real, qm: real)
    requires ed == ep - c * eq && dm == pm - c * qm
    requires Ed == ed * t + dm && Ep == ep * t + pm && Eq == eq * t + qm
    ensures Ed == Ep - c * Eq
  {
    assert (ep - c * eq) * t == ep * t - (c * eq) * t;
    assert (c * eq) * t == c * (eq * t);
  }

  /*************************************************************************
   * Trimming leading zeros
   *************************************************************************/

  /** The polynomial without its leading zero coefficients; empty when all are zero. */
  function TrimLeading(p: seq<real>): (r: seq<real>)
    ensures |r| <= |p|
    ensures r == [] || r[0] != 0.0
    ensures |p| > 0 && p[0] == 0.0 ==> |r| < |p|
    decreases |p|
  {
    if |p| == 0 || p[0] != 0.0 then p else TrimLeading(p[1..])
  }

  lemma {:induction false} TrimLeadingSuffix(p: seq<real>)
    ensures TrimLeading(p) == p[|p| - |TrimLeading(p)|..]
    decreases |p|
  {
    if |p| > 0 && p[0] == 0.0 {
      var q := p[1..];
      var r := TrimLeading(q);
      assert TrimLeading(p) == r;
      TrimLeadingSuffix(q);
      assert q[|q| - |r|..] == p[|p| - |r|..];
    }
  }

  lemma {:induction false} TrimLeadingSkipsZeros(p: seq<real>)
    ensures forall j :: 0 <= j < |p| - |TrimLeading(p)| ==> p[j] == 0.0
    decreases |p|
  {
    if |p| > 0 && p[0] == 0.0 {
      var q := p[1..];
      var r := TrimLeading(q);
      assert TrimLeading(p) == r;
      TrimLeadingSkipsZeros(q);
      forall j | 1 <= j < |p| - |r|
        ensures p[j] == 0.0
      {
        assert p[j] == q[j - 1];
      }
    }
  }

  lemma {:induction false} TrimLeadingNonEmpty(p: seq<real>)
    requires exists j :: 0 <= j < |p| && p[j] != 0.0
    ensures TrimLeading(p) != []
  {
    TrimLeadingSkipsZeros(p);
  }

  lemma {:induction false} EvalTrimLeading(p: seq<real>, t: real)
    ensures Eval(TrimLeading(p), t) == Eval(p, t)
  {
    TrimLeadingSuffix(p);
    TrimLeadingSkipsZeros(p);
    EvalLeadingZeros(p, |p| - |TrimLeading(p)|, t);
  }

  /**
   * The `trim` helper with a bound on the index: it skips leading zeros and
   * returns the rest, which is empty when every coefficient is zero.
   */
  method TrimLeadingZeros(p: seq<real>) returns (r: seq<real>)
    ensures r == TrimLeading(p)
  {
    var k := 0;
    while k < |p| && p[k] == 0.0
      invariant 0 <= k <= |p|
      invariant TrimLeading(p[k..]) == TrimLeading(p)
      decreases |p| - k
    {
      assert p[k..][1..] == p[k + 1..];
      k := k + 1;
    }
    r := p[k..];
  }

  /**
   * The `trim` helper as written: `while (p(k) == 0.0) k++` has no bound,
   * so it is only defined when some coefficient is non-zero.
   */
  method TrimAsWritten(p: seq<real>) returns (r: seq<real>)
    requires exists j :: 0 <= j < |p| && p[j] != 0.0
    ensures r == TrimLeading(p) && r != []
  {
    var k := 0;
    while p[k] == 0.0
      invariant 0 <= k < |p|
      invariant forall j :: 0 <= j < k ==> p[j] == 0.0
      invariant TrimLeading(p[k..]) == TrimLeading(p)
      decreases |p| - k
    {
      assert p[k..][1..] == p[k + 1..];
      k := k + 1;
    }
    r := p[k..];
  }

  /*************************************************************************
   * Pseudo-division
   *************************************************************************/

  /** One pass of the pseudo-division loop: subtract L b, aligned at the leading term. */
  function CancelLeading(r: seq<real>, b: seq<real>): (c: seq<real>)
    requires 1 <= |b| <= |r| && b[0] != 0.0
    ensures |c| == |r| && c[0] == 0.0
  {
    var L := r[0] / b[0];
    seq(|r|, k requires 0 <= k < |r| => if k < |b| then r[k] - L * b[k] else r[k])
  }

  /** Removing the leading term subtracts L t^X b(t), where X = |r| - |b|. */
  lemma {:induction false} EvalCancelLeading(r: seq<real>, b: seq<real>, t: real)
    requires 1 <= |b| <= |r| && b[0] != 0.0
    ensures Eval(r, t) == Eval(CancelLeading(r, b), t) + TermValue(LeadTerm(r, b), t) * Eval(b, t)
  {
    var L := r[0] / b[0];
    var x := |r| - |b|;
    var q := b + Zeros(x);
    var c := CancelLeading(r, b);
    forall k | 0 <= k < |c|
      ensures c[k] == r[k] - L * q[k]
    {
      if k >= |b| {
        assert q[k] == 0.0;
      }
    }
    EvalCombination(r, q, L, c, t);
    EvalAppendZeros(b, x, t);
    Regroup(Eval(r, t), Eval(c, t), L, Eval(b, t), Pow(t, x));
  }

  lemma Regroup(er: real, ec: real, L: real, eb: real, w: real)
    requires ec == er - L * (eb * w)
    ensures er == ec + (L * w) * eb
  {
    assert L * (eb * w) == (L * w) * eb;
  }

  /** Cancelling the leading term and trimming subtracts L t^X b(t). */
  lemma {:induction false} CancelThenTrim(r: seq<real>, b: seq<real>, t: real)
    requires 1 <= |b| <= |r| && b[0] != 0.0
    ensures Eval(r, t) == Eval(TrimLeading(CancelLeading(r, b)), t) + TermValue(LeadTerm(r, b), t) * Eval(b, t)
  {
    EvalTrimLeading(CancelLeading(r, b), t);
    EvalCancelLeading(r, b, t);
  }

  /** A quotient term L t^X accumulated by the pseudo-division loop. */
  datatype Term = Term(coef: real, degree: nat)

  function TermValue(x: Term, t: real): real
  {
    x.coef * Pow(t, x.degree)
  }

  function TermsEval(q: seq<Term>, t: real): real
  {
    if |q| == 0 then 0.0 else TermValue(q[0], t) + TermsEval(q[1..], t)
  }

  function LeadTerm(r: seq<real>, b: seq<real>): Term
    requires 1 <= |b| <= |r| && b[0] != 0.0
  {
    Term(r[0] / b[0], |r| - |b|)
  }

  /**
   * The remainder the pseudo-division loop leaves: it repeats
   * "cancel the leading term, trim" while r is non-empty and not shorter than b.
   */
  function PseudoRem(r: seq<real>, b: seq<real>): (rem: seq<real>)
    requires |b| >= 1 && b[0] != 0.0
    ensures rem == [] || |rem| < |b|
    ensures |rem| <= |r|
    ensures (r == [] || r[0] != 0.0) ==> (rem == [] || rem[0] != 0.0)
    decreases |r|
  {
    if |r| == 0 || |r| < |b| then r
    else PseudoRem(TrimLeading(CancelLeading(r, b)), b)
  }

  /** The quotient terms matching `PseudoRem`. */
  function PseudoQuot(r: seq<real>, b: seq<real>): seq<Term>
    requires |b| >= 1 && b[0] != 0.0
    decreases |r|
  {
    if |r| == 0 || |r| < |b| then []
    else [LeadTerm(r, b)] + PseudoQuot(TrimLeading(CancelLeading(r, b)), b)
  }

  /** The arithmetic of one pseudo-division step. */
  lemma StepAlgebra(ea: real, en: real, lead: real, eb: real, q: real, er: real, qa: real)
    requires ea == en + lead * eb
    requires en == q * eb + er
    requires qa == lead + q
    ensures ea == qa * eb + er
  {
  }

  /** One unfolding of `PseudoRem` and `PseudoQuot`. */
  lemma {:induction false} PseudoStep(a: seq<real>, b: seq<real>, t: real)
    requires |b| >= 1 && b[0] != 0.0 && |a| >= |b|
    ensures PseudoRem(a, b) == PseudoRem(TrimLeading(CancelLeading(a, b)), b)
    ensures TermsEval(PseudoQuot(a, b), t)
         == TermValue(LeadTerm(a, b), t) + TermsEval(PseudoQuot(TrimLeading(CancelLeading(a, b)), b), t)
  {
    var q := PseudoQuot(TrimLeading(CancelLeading(a, b)), b);
    assert PseudoQuot(a, b) == [LeadTerm(a, b)] + q;
    assert PseudoQuot(a, b)[1..] == q;
  }

  /** One step of `PseudoDivision`: the identity for the trimmed remainder gives it for r. */
  lemma {:induction false} PseudoDivisionStep(a: seq<real>, b: seq<real>, t: real)
    requires |b| >= 1 && b[0] != 0.0 && |a| >= |b|
    requires var next := TrimLeading(CancelLeading(a, b));
      Eval(next, t) == TermsEval(PseudoQuot(next, b), t) * Eval(b, t) + Eval(PseudoRem(next, b), t)
    ensures Eval(a, t) == TermsEval(PseudoQuot(a, b), t) * Eval(b, t) + Eval(PseudoRem(a, b), t)
  {
    var next := TrimLeading(CancelLeading(a, b));
    CancelThenTrim(a, b, t);
    var lead := TermValue(LeadTerm(a, b), t);
    var q := PseudoQuot(next, b);
    PseudoStep(a, b, t);
    StepAlgebra(Eval(a, t), Eval(next, t), lead, Eval(b, t), TermsEval(q, t), Eval(PseudoRem(next, b), t), TermsEval(PseudoQuot(a, b), t));
  }

  /** Pseudo-division is division: a(t) = q(t) b(t) + rem(t) for every t. */
  lemma {:induction false} PseudoDivision(a: seq<real>, b: seq<real>, t: real)
    requires |b| >= 1 && b[0] != 0.0
    ensures Eval(a, t) == TermsEval(PseudoQuot(a, b), t) * Eval(b, t) + Eval(PseudoRem(a, b), t)
    decreases |a|
  {
    if |a| == 0 || |a| < |b| {
      assert PseudoQuot(a, b) == [];
      assert PseudoRem(a, b) == a;
    } else {
      PseudoDivision(TrimLeading(CancelLeading(a, b)), b, t);
      PseudoDivisionStep(a, b, t);
    }
  }

  /**
   * The pseudo-division loop of `chain`: each pass cancels the leading term
   * of r and trims it, until r is empty or shorter than the divisor b.
   */
  method PseudoDivide(a: seq<real>, b: seq<real>) returns (r: seq<real>)
    requires |b| >= 1 && b[0] != 0.0
    ensures r == PseudoRem(a, b)
    ensures r == [] || |r| < |b|
  {
    r := a;
    while |r| > 0 && |r| >= |b|
      invariant PseudoRem(r, b) == PseudoRem(a, b)
      decreases |r|
    {
      PseudoStep(r, b, 0.0);
      r := SubtractLeading(r, b);
      r := TrimLeadingZeros(r);
    }
  }

  /** The inner loop of a pseudo-division pass: r[k] -= L b[k] over the columns of b. */
  method SubtractLeading(r: seq<real>, b: seq<real>) returns (c: seq<real>)
    requires 1 <= |b| <= |r| && b[0] != 0.0
    ensures c == CancelLeading(r, b)
  {
    var L := r[0] / b[0];
    c := r;
    var k := 0;
    while k < |b|
      invariant 0 <= k <= |b| && |c| == |r|
      invariant forall j :: 0 <= j < k ==> c[j] == r[j] - L * b[j]
      invariant forall j :: k <= j < |c| ==> c[j] == r[j]
    {
      c := c[k := c[k] - L * b[k]];
      k := k + 1;
    }
    forall j | 0 <= j < |c|
      ensures c[j] == CancelLeading(r, b)[j]
    {
    }
  }

  /*************************************************************************
   * The chain
   *************************************************************************/

  /** The value of a coefficient, 0 past the end (the chain's padding columns). */
  function At(row: seq<real>, c: nat): real
  {
    if c < |row| then row[c] else 0.0
  }

  predicate ZeroBefore(row: seq<real>, k: nat)
  {
    forall c :: 0 <= c < k && c < |row| ==> row[c] == 0.0
  }

  function SumSq(v: seq<real>): (s: real)
    ensures s >= 0.0
  {
    if |v| == 0 then 0.0 else v[0] * v[0] + SumSq(v[1..])
  }

  function Abs(x: real): real
  {
    if x < 0.0 then -x else x
  }

  /**
   * The early-exit test `|d1.norm() - |d1_last|| < eps`: the row is nearly
   * a constant. Since the norm is never below the last entry's magnitude,
   * for eps > 0 the test is `sumsq < (|last| + eps)^2`.
   */
  predicate NearlyConstant(tail: seq<real>, eps: real)
  {
    |tail| >= 1 && 0.0 < eps && SumSq(tail) < (Abs(tail[|tail| - 1]) + eps) * (Abs(tail[|tail| - 1]) + eps)
  }

  /** A row that is not nearly constant has a non-zero non-constant coefficient. */
  lemma {:induction false} NotNearlyConstant(tail: seq<real>, eps: real)
    requires |tail| >= 1 && eps > 0.0
    requires !NearlyConstant(tail, eps)
    ensures exists j :: 0 <= j < |tail| - 1 && tail[j] != 0.0
  {
    if forall j :: 0 <= j < |tail| - 1 ==> tail[j] == 0.0 {
      OnlyLastNearlyConstant(tail, eps);
      assert false;
    }
  }

  /** A row whose only non-zero entry is its last is nearly constant. */
  lemma OnlyLastNearlyConstant(tail: seq<real>, eps: real)
    requires |tail| >= 1 && eps > 0.0
    requires forall j :: 0 <= j < |tail| - 1 ==> tail[j] == 0.0
    ensures NearlyConstant(tail, eps)
  {
    var last := tail[|tail| - 1];
    SumSqOnlyLast(tail);
    AbsSquare(last);
    BelowSquare(SumSq(tail), Abs(last), eps);
  }

  lemma BelowSquare(s: real, c: real, eps: real)
    requires s == c * c && c >= 0.0 && eps > 0.0
    ensures s < (c + eps) * (c + eps)
  {
    SquareGrows(c, eps);
  }

  lemma AbsSquare(x: real)
    ensures x * x == Abs(x) * Abs(x)
  {
    if x < 0.0 {
      assert Abs(x) == -x;
      assert (-x) * (-x) == x * x;
    }
  }

  lemma SquareGrows(c: real, eps: real)
    requires c >= 0.0 && eps > 0.0
    ensures c * c < (c + eps) * (c + eps)
  {
    assert (c + eps) * (c + eps) == c * c + (2.0 * c + eps) * eps;
    assert (2.0 * c + eps) * eps > 0.0;
  }

  lemma {:induction false} SumSqOnlyLast(v: seq<real>)
    requires |v| >= 1
    requires forall j :: 0 <= j < |v| - 1 ==> v[j] == 0.0
    ensures SumSq(v) == v[|v| - 1] * v[|v| - 1]
    decreases |v|
  {
    if |v| > 1 {
      SumSqOnlyLast(v[1..]);
    }
  }

  /** Row 1 of the chain: the derivative, aligned one column to the right. */
  function DerivativeRow(p: seq<real>): (d: seq<real>)
    ensures |d| == |p|
  {
    seq(|p|, j requires 0 <= j < |p| => if j == 0 then 0.0 else ((|p| - j) as real) * p[j - 1])
  }

  /**
   * Row i when row i-1 has a usable leading coefficient: with quotient
   * T t + M, T = A[i-2]/B[i-1] and M = (A[i-1] - T B[i])/B[i-1], column
   * i+j is -(A[i+j] - M B[i+j] - T B[i+j+1]).
   */
  function NegRemainderRow(A: seq<real>, B: seq<real>, i: nat): (R: seq<real>)
    requires |A| == |B| && 2 <= i < |A| && B[i - 1] != 0.0
    ensures |R| == |A|
  {
    seq(|A|, c requires 0 <= c < |A| => if c < i then 0.0 else RemainderCoef(A, B, QuotLead(A, B, i), QuotConst(A, B, i), c))
  }

  /** The leading quotient coefficient T of the main chain step. */
  function QuotLead(A: seq<real>, B: seq<real>, i: nat): real
    requires |A| == |B| && 2 <= i < |A| && B[i - 1] != 0.0
  {
    A[i - 2] / B[i - 1]
  }

  /** The constant quotient coefficient M of the main chain step. */
  function QuotConst(A: seq<real>, B: seq<real>, i: nat): real
    requires |A| == |B| && 2 <= i < |A| && B[i - 1] != 0.0
  {
    (A[i - 1] - QuotLead(A, B, i) * B[i]) / B[i - 1]
  }

  /** Column c of the negated remainder of A by T t + M times B. */
  function RemainderCoef(A: seq<real>, B: seq<real>, T: real, M: real, c: nat): real
    requires c < |A| && c < |B|
  {
    -(A[c] - M * B[c] - T * At(B, c + 1))
  }

  /** The inner `for j` loop of `chain` that fills row i from rows i-2 and i-1. */
  method RemainderRow(A: seq<real>, B: seq<real>, i: nat) returns (R: seq<real>)
    requires |A| == |B| && 2 <= i < |A| && B[i - 1] != 0.0
    ensures R == NegRemainderRow(A, B, i)
  {
    var n := |A|;
    var T := QuotLead(A, B, i);
    var M := QuotConst(A, B, i);
    R := Zeros(n);
    var j := 0;
    while j < n - i
      invariant 0 <= j <= n - i && |R| == n
      invariant forall c :: 0 <= c < n ==> R[c] == if i <= c < i + j then RemainderCoef(A, B, T, M, c) else 0.0
    {
      R := R[i + j := RemainderCoef(A, B, T, M, i + j)];
      j := j + 1;
    }
    ghost var expected := NegRemainderRow(A, B, i);
    forall c | 0 <= c < n
      ensures R[c] == expected[c]
    {
    }
  }

  /**
   * The main chain step is a polynomial division: when rows i-2 and i-1 are
   * zero before columns i-2 and i-1, A(t) = (T t + M) B(t) - R(t).
   */
  lemma {:induction false} MainStepDivides(A: seq<real>, B: seq<real>, i: nat, t: real)
    requires |A| == |B| && 2 <= i < |A| && B[i - 1] != 0.0
    requires ZeroBefore(A, i - 2) && ZeroBefore(B, i - 1)
    ensures QuotientIdentity(Eval(A, t), Eval(B, t), Eval(NegRemainderRow(A, B, i), t), QuotLead(A, B, i), QuotConst(A, B, i), t)
  {
    var T := QuotLead(A, B, i);
    var M := QuotConst(A, B, i);
    DivideBack(A[i - 2], B[i - 1]);
    DivideBack(A[i - 1] - T * B[i], B[i - 1]);
    MainStepColumns(A, B, NegRemainderRow(A, B, i), i, T, M);
    ShiftDivision(A, B, NegRemainderRow(A, B, i), T, M, t);
  }

  /** Coefficientwise A = T (B shifted left) + M B - R, with B[0] = 0, gives A(t) = (T t + M) B(t) - R(t). */
  lemma {:induction false} ShiftDivision(A: seq<real>, B: seq<real>, R: seq<real>, T: real, M: real, t: real)
    requires |A| == |B| == |R| && |B| >= 1 && B[0] == 0.0
    requires forall c :: 0 <= c < |A| ==> A[c] == T * At(B, c + 1) + M * B[c] - R[c]
    ensures QuotientIdentity(Eval(A, t), Eval(B, t), Eval(R, t), T, M, t)
  {
    var S := B[1..] + [0.0];
    forall c | 0 <= c < |A|
      ensures A[c] == T * S[c] + M * B[c] - R[c]
    {
      assert S[c] == At(B, c + 1);
    }
    EvalThreeTerms(A, S, B, R, T, M, t);
    EvalShifted(B, t);
    QuotientAlgebra(Eval(A, t), Eval(S, t), Eval(B, t), Eval(R, t), T, M, t);
  }

  predicate Combines(ea: real, es: real, eb: real, er: real, T: real, M: real)
  {
    ea == T * es + M * eb - er
  }

  predicate Product(x: real, y: real, z: real)
  {
    x == y * z
  }

  predicate QuotientIdentity(ea: real, eb: real, er: real, T: real, M: real, t: real)
  {
    ea == (T * t + M) * eb - er
  }

  lemma QuotientAlgebra(ea: real, es: real, eb: real, er: real, T: real, M: real, t: real)
    requires Combines(ea, es, eb, er, T, M)
    requires Product(es, t, eb)
    ensures QuotientIdentity(ea, eb, er, T, M, t)
  {
  }

  /** Column by column, A = T (B shifted left) + M B - R for the main chain step. */
  lemma MainStepColumns(A: seq<real>, B: seq<real>, R: seq<real>, i: nat, T: real, M: real)
    requires |A| == |B| == |R| && 2 <= i < |A|
    requires ZeroBefore(A, i - 2) && ZeroBefore(B, i - 1)
    requires forall c :: 0 <= c < |R| ==> R[c] == if c < i then 0.0 else RemainderCoef(A, B, T, M, c)
    requires T * B[i - 1] == A[i - 2]
    requires M * B[i - 1] == A[i - 1] - T * B[i]
    ensures forall c :: 0 <= c < |A| ==> A[c] == T * At(B, c + 1) + M * B[c] - R[c]
  {
    forall c | 0 <= c < |A|
      ensures A[c] == T * At(B, c + 1) + M * B[c] - R[c]
    {
      if c < i - 2 {
        assert A[c] == 0.0 && B[c] == 0.0 && At(B, c + 1) == 0.0 && R[c] == 0.0;
      } else if c == i - 2 {
        assert B[c] == 0.0 && R[c] == 0.0 && At(B, c + 1) == B[i - 1];
      } else if c == i - 1 {
        assert R[c] == 0.0 && At(B, c + 1) == B[i];
      } else {
        assert R[c] == RemainderCoef(A, B, T, M, c);
      }
    }
  }

  lemma DivideBack(x: real, y: real)
    requires y != 0.0
    ensures x / y * y == x
  {
  }

  /** Coefficientwise A = T S + M B - R gives the same relation between values. */
  lemma {:induction false} EvalThreeTerms(A: seq<real>, S: seq<real>, B: seq<real>, R: seq<real>, T: real, M: real, t: real)
    requires |A| == |S| == |B| == |R|
    requires forall c :: 0 <= c < |A| ==> A[c] == T * S[c] + M * B[c] - R[c]
    ensures Combines(Eval(A, t), Eval(S, t), Eval(B, t), Eval(R, t), T, M)
    decreases |A|
  {
    if |A| > 0 {
      var m := |A| - 1;
      EvalThreeTerms(A[..m], S[..m], B[..m], R[..m], T, M, t);
      ThreeTermsStep(Eval(A[..m], t), Eval(S[..m], t), Eval(B[..m], t), Eval(R[..m], t), A[m], S[m], B[m], R[m], T, M, t);
    }
  }

  /** One Horner step keeps the relation between the values. */
  lemma ThreeTermsStep(ea: real, es: real, eb: real, er: real, a: real, s: real, b: real, r: real, T: real, M: real, t: real)
    requires Combines(ea, es, eb, er, T, M)
    requires a == T * s + M * b - r
    ensures Combines(ea * t + a, es * t + s, eb * t + b, er * t + r, T, M)
  {
    assert ea * t == T * (es * t) + M * (eb * t) - er * t;
  }

  /** Shifting a row left by one column (its leading coefficient being zero) multiplies it by t. */
  lemma {:induction false} EvalShifted(B: seq<real>, t: real)
    requires |B| >= 1 && B[0] == 0.0
    ensures Product(Eval(B[1..] + [0.0], t), t, Eval(B, t))
  {
    var S := B[1..] + [0.0];
    assert S[..|S| - 1] == B[1..];
    EvalLeadingZeros(B, 1, t);
  }

  /** `inflate`: a remainder placed so that its last coefficient is the constant term. */
  function Inflate(r: seq<real>, n: nat): (row: seq<real>)
    requires |r| <= n
    ensures |row| == n
  {
    Zeros(n - |r|) + r
  }

  /** What `chain` stores in row i (i >= 2), given rows i-2 and i-1. */
  predicate StepRow(A: seq<real>, B: seq<real>, R: seq<real>, i: nat, eps: real)
    requires |A| == |B| && 2 <= i < |A|
  {
    if Abs(B[i - 1]) > eps then
      B[i - 1] != 0.0 && R == NegRemainderRow(A, B, i)
    else
      var a := TrimLeading(A[i - 2..]);
      var b := TrimLeading(B[i - 1..]);
      b != [] && |PseudoRem(a, b)| <= |A| && R == Inflate(PseudoRem(a, b), |A|)
  }

  /** Row i of a chain follows from rows i-2 and i-1, row i-1 not being nearly constant. */
  predicate ChainLink(rows: seq<seq<real>>, i: nat, eps: real)
  {
    && 2 <= i < |rows| && |rows[i - 2]| == |rows[i - 1]| && i < |rows[i - 1]|
    && !NearlyConstant(rows[i - 1][i - 1..], eps)
    && StepRow(rows[i - 2], rows[i - 1], rows[i], i, eps)
  }

  /**
   * What `chain` builds for p: row 0 is p and row 1 its derivative (when p
   * has two or more coefficients); every row has |p| columns, row i has its
   * first i entries zero, and each later row follows from the two before it.
   */
  predicate IsChain(rows: seq<seq<real>>, p: seq<real>, eps: real)
  {
    && 1 <= |rows| <= |p|
    && (forall i :: 0 <= i < |rows| ==> |rows[i]| == |p| && ZeroBefore(rows[i], i))
    && rows[0] == p
    && (|p| >= 2 ==> |rows| >= 2 && rows[1] == DerivativeRow(p))
    && (forall i :: 2 <= i < |rows| ==> ChainLink(rows, i, eps))
  }

  /**
   * `chain`: row 0 is the polynomial and row 1 its derivative; each later
   * row comes from the two before it, by division when the leading
   * coefficient of row i-1 exceeds eps and by pseudo-division otherwise.
   * The chain stops early at a row that is nearly constant.
   */
  method Chain(p: seq<real>, eps: real) returns (rows: seq<seq<real>>)
    requires |p| >= 1 && eps > 0.0
    ensures IsChain(rows, p, eps)
    ensures 2 <= |rows| < |p| ==> NearlyConstant(rows[|rows| - 1][|rows| - 1..], eps)
  {
    var n := |p|;
    if n == 1 {
      rows := ChainOne(p, eps);
      return;
    }
    var d := DerivativeLoop(p);
    rows := ChainStart(p, d, eps);
    var i := 2;
    while i < n
      invariant 2 <= i <= n && |rows| == i
      invariant IsChain(rows, p, eps)
    {
      var stop, next := ChainStep(rows, p, i, eps);
      if stop {
        StopsAt(rows, i, eps);
        return;
      }
      rows := next;
      i := i + 1;
    }
  }

  /**
   * One pass of the main loop of `chain`: stop when row i-1 is nearly
   * constant, otherwise append row i.
   */
  method ChainStep(rows: seq<seq<real>>, p: seq<real>, i: nat, eps: real) returns (stop: bool, next: seq<seq<real>>)
    requires IsChain(rows, p, eps) && |rows| == i && 2 <= i < |p| && eps > 0.0
    ensures stop <==> NearlyConstant(rows[i - 1][i - 1..], eps)
    ensures !stop ==> |next| == i + 1 && IsChain(next, p, eps)
  {
    var A, B := rows[i - 2], rows[i - 1];
    stop := NearlyConstant(B[i - 1..], eps);
    if stop {
      next := rows;
      return;
    }
    var row := NextRow(A, B, i, eps);
    ChainExtend(rows, row, p, i, eps);
    next := rows + [row];
  }

  /** The early exit: the last row's tail is nearly constant. */
  lemma StopsAt(rows: seq<seq<real>>, i: nat, eps: real)
    requires |rows| == i >= 1 && i - 1 <= |rows[i - 1]|
    requires NearlyConstant(rows[i - 1][i - 1..], eps)
    ensures NearlyConstant(rows[|rows| - 1][|rows| - 1..], eps)
  {
  }

  /**
   * A chain that stops only where `chain` stops is unique: any two of them
   * for the same polynomial are equal, row by row.
   */
  lemma ChainUnique(r1: seq<seq<real>>, r2: seq<seq<real>>, p: seq<real>, eps: real)
    requires IsChain(r1, p, eps) && (2 <= |r1| < |p| ==> NearlyConstant(r1[|r1| - 1][|r1| - 1..], eps))
    requires IsChain(r2, p, eps) && (2 <= |r2| < |p| ==> NearlyConstant(r2[|r2| - 1][|r2| - 1..], eps))
    ensures r1 == r2
  {
    var m := if |r1| < |r2| then |r1| else |r2|;
    ChainPrefixesAgree(r1, r2, p, eps, m);
    StopBeforeEnd(r1, r2, p, eps);
    StopBeforeEnd(r2, r1, p, eps);
  }

  /** A chain that has stopped cannot be the proper prefix of another chain of the same polynomial. */
  lemma StopBeforeEnd(r1: seq<seq<real>>, r2: seq<seq<real>>, p: seq<real>, eps: real)
    requires IsChain(r1, p, eps) && (2 <= |r1| < |p| ==> NearlyConstant(r1[|r1| - 1][|r1| - 1..], eps))
    requires IsChain(r2, p, eps)
    requires forall j :: 0 <= j < |r1| && j < |r2| ==> r1[j] == r2[j]
    ensures |r2| <= |r1|
  {
    PrefixNotStopped(r1, r2, p, eps);
  }

  /** A row of a chain that has a successor is not nearly constant. */
  lemma PrefixNotStopped(r1: seq<seq<real>>, r2: seq<seq<real>>, p: seq<real>, eps: real)
    requires IsChain(r1, p, eps) && IsChain(r2, p, eps)
    requires forall j :: 0 <= j < |r1| && j < |r2| ==> r1[j] == r2[j]
    ensures 2 <= |r1| < |r2| ==> !NearlyConstant(r1[|r1| - 1][|r1| - 1..], eps)
  {
    if 2 <= |r1| < |r2| {
      var k := |r1|;
      assert ChainLink(r2, k, eps);
      assert r2[k - 1] == r1[k - 1];
    }
  }

  /** Two chains of the same polynomial agree on their common rows. */
  lemma {:induction false} ChainPrefixesAgree(r1: seq<seq<real>>, r2: seq<seq<real>>, p: seq<real>, eps: real, k: nat)
    requires IsChain(r1, p, eps) && IsChain(r2, p, eps)
    requires k <= |r1| && k <= |r2|
    ensures forall j :: 0 <= j < k ==> r1[j] == r2[j]
    decreases k
  {
    if k > 0 {
      ChainPrefixesAgree(r1, r2, p, eps, k - 1);
      if k - 1 >= 2 {
        assert ChainLink(r1, k - 1, eps) && ChainLink(r2, k - 1, eps);
        assert r1[k - 3] == r2[k - 3] && r1[k - 2] == r2[k - 2];
      }
    }
  }

  /** Row 0 alone is the whole chain of a constant. */
  function ChainOne(p: seq<real>, eps: real): (rows: seq<seq<real>>)
    requires |p| == 1
    ensures |rows| == 1 && IsChain(rows, p, eps)
  {
    [p]
  }

  /** Rows 0 and 1 alone form a chain. */
  function ChainStart(p: seq<real>, d: seq<real>, eps: real): (rows: seq<seq<real>>)
    requires |p| >= 2 && d == DerivativeRow(p)
    ensures |rows| == 2 && IsChain(rows, p, eps)
  {
    [p, d]
  }

  /** Appending a row built by one step keeps a chain a chain. */
  lemma ChainExtend(rows: seq<seq<real>>, row: seq<real>, p: seq<real>, i: nat, eps: real)
    requires IsChain(rows, p, eps) && |rows| == i && 2 <= i < |p|
    requires |row| == |p| && ZeroBefore(row, i)
    requires !NearlyConstant(rows[i - 1][i - 1..], eps)
    requires StepRow(rows[i - 2], rows[i - 1], row, i, eps)
    ensures IsChain(rows + [row], p, eps)
  {
    var next := rows + [row];
    forall k | 0 <= k < i + 1
      ensures |next[k]| == |p| && ZeroBefore(next[k], k)
    {
      if k < i {
        assert next[k] == rows[k];
      }
    }
    forall k | 2 <= k < i + 1
      ensures ChainLink(next, k, eps)
    {
      assert next[k - 2] == rows[k - 2] && next[k - 1] == rows[k - 1];
      if k < i {
        assert ChainLink(rows, k, eps);
        assert next[k] == rows[k];
      } else {
        assert next[k] == row;
      }
    }
    assert next[0] == p && next[1] == rows[1];
  }

  /** The loop that fills row 1 with the derivative's coefficients. */
  method DerivativeLoop(p: seq<real>) returns (d: seq<real>)
    requires |p| >= 2
    ensures d == DerivativeRow(p)
  {
    var n := |p|;
    d := Zeros(n);
    var j := 1;
    while j < n
      invariant 1 <= j <= n && |d| == n
      invariant forall c :: 0 <= c < n ==> d[c] == if 1 <= c < j then ((n - c) as real) * p[c - 1] else 0.0
    {
      d := d[j := ((n - j) as real) * p[j - 1]];
      j := j + 1;
    }
    forall c | 0 <= c < n
      ensures d[c] == DerivativeRow(p)[c]
    {
    }
  }

  /** One step of the main loop of `chain`: row i from rows i-2 and i-1. */
  method NextRow(A: seq<real>, B: seq<real>, i: nat, eps: real) returns (row: seq<real>)
    requires |A| == |B| && 2 <= i < |A| && eps > 0.0
    requires !NearlyConstant(B[i - 1..], eps)
    ensures |row| == |A| && ZeroBefore(row, i)
    ensures StepRow(A, B, row, i, eps)
  {
    var n := |A|;
    if Abs(B[i - 1]) > eps {
      row := RemainderRow(A, B, i);
    } else {
      NotNearlyConstant(B[i - 1..], eps);
      TrimLeadingNonEmpty(B[i - 1..]);
      var a := TrimLeadingZeros(A[i - 2..]);
      var b := TrimLeadingZeros(B[i - 1..]);
      var r := PseudoDivide(a, b);
      row := Inflate(r, n);
    }
  }

  /**
   * The pseudo branch can meet a row that cancels to all zeros. For the
   * polynomial 0.0005 t^2 with eps = 0.001, row 1 is (0, 0.001, 0): it is not
   * nearly constant and its leading coefficient is not above eps, so row 2
   * is built by pseudo-division of (0.0005, 0, 0) by (0.001, 0). The first
   * cancellation leaves (0, 0, 0), on which the unbounded `trim` loop reads
   * past the end (`TrimAsWritten` cannot be called on it). The bounded trim
   * returns the empty row instead, and so does the remainder.
   */
  lemma TrimPastEndWitness()
    ensures var p := [0.0005, 0.0, 0.0];
      var d := DerivativeRow(p);
      && d == [0.0, 0.001, 0.0]
      && !NearlyConstant(d[1..], ChainEpsilon)
      && !(Abs(d[1]) > ChainEpsilon)
      && TrimLeading(p[0..]) == p
      && TrimLeading(d[1..]) == [0.001, 0.0]
      && CancelLeading(p, [0.001, 0.0]) == [0.0, 0.0, 0.0]
      && !(exists j :: 0 <= j < 3 && CancelLeading(p, [0.001, 0.0])[j] != 0.0)
      && TrimLeading(CancelLeading(p, [0.001, 0.0])) == []
      && PseudoRem(p, [0.001, 0.0]) == []
  {
    var p := [0.0005, 0.0, 0.0];
    var d := DerivativeRow(p);
    assert d == [0.0, 0.001, 0.0];
    assert d[1..] == [0.001, 0.0];
    assert SumSq(d[1..]) == 0.001 * 0.001 by {
      assert d[1..][1..] == [0.0];
      assert [0.0][1..] == [];
    }
    assert TrimLeading(d[1..]) == [0.001, 0.0];
    var c := CancelLeading(p, [0.001, 0.0]);
    assert c == [0.0, 0.0, 0.0];
    assert TrimLeading(c) == [] by {
      assert c[1..] == [0.0, 0.0];
      assert c[1..][1..] == [0.0];
      assert c[1..][1..][1..] == [];
    }
  }

  /*************************************************************************
   * Counting sign changes
   *************************************************************************/

  /** Every chain row evaluated at t. */
  function RowValues(rows: seq<seq<real>>, t: real): (v: seq<real>)
    ensures |v| == |rows|
  {
    seq(|rows|, i requires 0 <= i < |rows| => Eval(rows[i], t))
  }

  /** `signbit` of a real: set for negative values. */
  predicate SignBit(x: real)
  {
    x < 0.0
  }

  /** The number of k with signbit(v[k-1]) != signbit(v[k]). */
  function SignChanges(v: seq<real>): (s: nat)
    ensures s <= if |v| == 0 then 0 else |v| - 1
    decreases |v|
  {
    if |v| <= 1 then 0
    else SignChanges(v[..|v| - 1]) + (if SignBit(v[|v| - 2]) != SignBit(v[|v| - 1]) then 1 else 0)
  }

  /** The root count `interval` reports for [t1, t2]. */
  function RootCount(rows: seq<seq<real>>, t1: real, t2: real): int
  {
    SignChanges(RowValues(rows, t1)) - SignChanges(RowValues(rows, t2))
  }

  /**
   * `interval`: sign changes of the chain at t1 minus sign changes at t2,
   * each counted by the loop over consecutive rows.
   */
  method Interval(rows: seq<seq<real>>, t1: real, t2: real) returns (count: int)
    ensures count == RootCount(rows, t1, t2)
    ensures |rows| >= 1 ==> -(|rows| - 1) <= count <= |rows| - 1
  {
    var v1 := RowValues(rows, t1);
    var v2 := RowValues(rows, t2);
    var count1, count2 := CountChanges(v1, v2);
    count := count1 - count2;
  }

  /** The loop of `interval`: sign changes along both value vectors at once. */
  method CountChanges(v1: seq<real>, v2: seq<real>) returns (count1: int, count2: int)
    requires |v1| == |v2|
    ensures count1 == SignChanges(v1) && count2 == SignChanges(v2)
  {
    count1, count2 := 0, 0;
    if |v1| == 0 {
      return;
    }
    var k := 1;
    while k < |v1|
      invariant 1 <= k <= |v1|
      invariant count1 == SignChanges(v1[..k]) && count2 == SignChanges(v2[..k])
    {
      SignChangesStep(v1, k);
      SignChangesStep(v2, k);
      if SignBit(v1[k - 1]) != SignBit(v1[k]) {
        count1 := count1 + 1;
      }
      if SignBit(v2[k - 1]) != SignBit(v2[k]) {
        count2 := count2 + 1;
      }
      k := k + 1;
    }
    assert v1[..k] == v1 && v2[..k] == v2;
  }

  /** Extending a prefix by one value adds the sign change at its end, if any. */
  lemma SignChangesStep(v: seq<real>, k: nat)
    requires 1 <= k < |v|
    ensures SignChanges(v[..k + 1]) == SignChanges(v[..k]) + (if SignBit(v[k - 1]) != SignBit(v[k]) then 1 else 0)
  {
    assert v[..k + 1][..k] == v[..k];
  }

  /*************************************************************************
   * Root isolation by bisection
   *************************************************************************/

  /** `RootTypeFlag`. */
  const Convex: bv32 := 1
  const Concave: bv32 := 2
  const Inflection: bv32 := 4
  const All: bv32 := 8

  predicate HasFlag(rootType: bv32, flag: bv32)
  {
    rootType & flag != 0
  }

  /** The shape test on the polynomial's values at the interval's ends. */
  predicate FilterAccepts(rootType: bv32, ga: real, gb: real)
  {
    || (HasFlag(rootType, Convex) && ga <= 0.0 && gb > 0.0)
    || (HasFlag(rootType, Concave) && ga > 0.0 && gb <= 0.0)
    || (HasFlag(rootType, Inflection) && ((ga >= 0.0 && gb >= 0.0) || (ga <= 0.0 && gb <= 0.0)))
  }

  /** An interval [a, b] with the flag saying it already passed the shape filter. */
  datatype Item = Item(a: real, b: real, flag: bool)

  /** The `static_cast<uint>` of the signed root count: the count modulo 2^32. */
  function RootNum(count: int): (n: int)
    ensures 0 <= n < 0x1_0000_0000
    ensures n == 0 ==> count % 0x1_0000_0000 == 0
  {
    count % 0x1_0000_0000
  }

  /**
   * What `iterate` makes of one interval [a, b] with midpoint m: the
   * intervals it queues and the roots it emits. A zero count gives nothing;
   * a non-zero count with m - a < eps gives the midpoint of the left half;
   * a single-root interval not yet through the shape filter, under a mask
   * without the All bit, is halved (now flagged) only when it passes the
   * filter; any other interval is halved keeping its flag.
   */
  function Step(rows: seq<seq<real>>, it: Item, rootType: bv32, eps: real): (seq<Item>, seq<real>)
    requires |rows| >= 1
  {
    var m := (it.a + it.b) / 2.0;
    var num := RootNum(RootCount(rows, it.a, it.b));
    if num == 0 then ([], [])
    else if m - it.a < eps then ([], [(it.a + m) / 2.0])
    else if num == 1 && rootType != All && !it.flag && !HasFlag(rootType, All) then
      if FilterAccepts(rootType, Eval(rows[0], it.a), Eval(rows[0], it.b)) then ([Item(it.a, m, true), Item(m, it.b, true)], [])
      else ([], [])
    else ([Item(it.a, m, it.flag), Item(m, it.b, it.flag)], [])
  }

  /**
   * The `iterate` step on one interval [a, b] with midpoint m: a zero count
   * drops it; a non-zero count with m - a < eps emits the midpoint of the
   * left half; otherwise the halves [a, m] and [m, b] are queued, unless a
   * single-root interval fails the shape filter.
   */
  method Iterate(rows: seq<seq<real>>, it: Item, rootType: bv32, eps: real)
    returns (pushed: seq<Item>, emitted: seq<real>)
    requires |rows| >= 1
    ensures var m := (it.a + it.b) / 2.0;
      var num := RootNum(RootCount(rows, it.a, it.b));
      && (num == 0 ==> pushed == [] && emitted == [])
      && (num != 0 && m - it.a < eps ==> pushed == [] && emitted == [(it.a + m) / 2.0])
      && (emitted == [] || (num != 0 && m - it.a < eps && emitted == [(it.a + m) / 2.0]))
      && (pushed == [] || (m - it.a >= eps && emitted == [] && pushed == [Item(it.a, m, pushed[0].flag), Item(m, it.b, pushed[0].flag)]))
      && (it.flag && pushed != [] ==> pushed[0].flag)
    ensures var m := (it.a + it.b) / 2.0;
      var num := RootNum(RootCount(rows, it.a, it.b));
      (num != 0 && m - it.a >= eps && (num != 1 || rootType == All || it.flag || HasFlag(rootType, All)))
        ==> pushed == [Item(it.a, m, it.flag), Item(m, it.b, it.flag)]
    ensures var m := (it.a + it.b) / 2.0;
      var ga, gb := Eval(rows[0], it.a), Eval(rows[0], it.b);
      (RootNum(RootCount(rows, it.a, it.b)) == 1 && m - it.a >= eps && rootType != All && !it.flag && !HasFlag(rootType, All))
        ==> (pushed != [] <==> FilterAccepts(rootType, ga, gb)) && (pushed != [] ==> pushed[0].flag)
    ensures (pushed, emitted) == Step(rows, it, rootType, eps)
  {
    var a, b, flag := it.a, it.b, it.flag;
    var m := (a + b) / 2.0;
    var count := Interval(rows, a, b);
    var rootNum := RootNum(count);
    if rootNum != 0 && m - a < eps {
      rootNum := 1;
    }
    if rootNum == 0 {
      return [], [];
    }
    if rootNum == 1 {
      if m - a < eps {
        return [], [(a + m) / 2.0];
      } else if rootType != All && !flag {
        var ga := Eval(rows[0], a);
        var gb := Eval(rows[0], b);
        if rootType & All == 0 {
          if HasFlag(rootType, Convex) && ga <= 0.0 && gb > 0.0 {
            flag := true;
          }
          if HasFlag(rootType, Concave) && ga > 0.0 && gb <= 0.0 {
            flag := true;
          }
          if HasFlag(rootType, Inflection) && ((ga >= 0.0 && gb >= 0.0) || (ga <= 0.0 && gb <= 0.0)) {
            flag := true;
          }
          if !flag {
            return [], [];
          }
        }
      }
    }
    pushed := [Item(a, m, flag), Item(m, b, flag)];
    emitted := [];
  }

  /** The epsilon `roots` passes to `chain`. */
  const ChainEpsilon: real := 0.001

  /**
   * A reported root is the midpoint of the left half of some subinterval
   * [a, b] of [0, 1] whose half-width is below eps and whose root count is
   * not zero.
   */
  ghost predicate EmittedFrom(rows: seq<seq<real>>, r: real, eps: real)
  {
    exists a: real, b: real :: 0.0 <= a < b <= 1.0 && (a + b) / 2.0 - a < eps
      && RootCount(rows, a, b) != 0 && r == (a + (a + b) / 2.0) / 2.0
  }

  /** The width 2^-d of an interval after d halvings of [0, 1]. */
  function Width(d: nat): (r: real)
    ensures r > 0.0
  {
    if d == 0 then 1.0 else Width(d - 1) / 2.0
  }

  function Pow4(d: nat): (r: nat)
    ensures r >= 1
  {
    if d == 0 then 1 else 4 * Pow4(d - 1)
  }

  lemma {:induction false} WidthMonotone(d: nat, e: nat)
    requires d <= e
    ensures Width(e) <= Width(d)
    decreases e
  {
    if d < e {
      WidthMonotone(d, e - 1);
    }
  }

  /** Halving k times leaves at most 1/(k+1). */
  lemma {:induction false} WidthInverse(k: nat)
    ensures (k as real + 1.0) * Width(k) <= 1.0
  {
    if k > 0 {
      WidthInverse(k - 1);
      var w := Width(k - 1);
      var c := (k - 1) as real + 1.0;
      assert c * w <= 1.0;
      assert Width(k) == w / 2.0;
      assert (c + 1.0) * (w / 2.0) <= c * w;
    }
  }

  /** A stack interval at depth d has width 2^-d, at least eps, inside [0, 1]. */
  ghost predicate Queued(it: Item, d: nat, eps: real, K: nat)
  {
    && 0.0 <= it.a && it.b <= 1.0
    && it.b - it.a == Width(d)
    && eps <= it.b - it.a
    && d < K
  }

  function Level(d: nat, K: nat): nat
  {
    if d < K then K - d else 0
  }

  /** The termination measure: 4^(K - d) summed over the stack. */
  ghost function Weight(ds: seq<nat>, K: nat): nat
  {
    if ds == [] then 0 else Weight(ds[..|ds| - 1], K) + Pow4(Level(ds[|ds| - 1], K))
  }

  lemma {:induction false} WeightAppend(ds: seq<nat>, es: seq<nat>, K: nat)
    ensures Weight(ds + es, K) == Weight(ds, K) + Weight(es, K)
    decreases |es|
  {
    if es != [] {
      var m := |es| - 1;
      assert (ds + es)[..|ds + es| - 1] == ds + es[..m];
      WeightAppend(ds, es[..m], K);
    } else {
      assert ds + es == ds;
    }
  }

  /** Depths allowed on the stack are below K, where 2^-K < eps. */
  lemma {:induction false} DepthBound(d: nat, eps: real, K: nat, w: real)
    requires Width(K) < eps
    requires w == Width(d) && eps <= w
    ensures d < K
  {
    if d >= K {
      WidthMonotone(K, d);
      assert false;
    }
  }

  /**
   * The items pushed by `iterate` on one half of a queued interval are
   * queued at depth d + 2.
   */
  lemma {:induction false} PushedQueued(parent: Item, d: nat, half: Item, pushed: seq<Item>, eps: real, K: nat)
    requires Width(K) < eps
    requires Queued(parent, d, eps, K)
    requires half.b - half.a == (parent.b - parent.a) / 2.0
    requires parent.a <= half.a && half.b <= parent.b
    requires var m := (half.a + half.b) / 2.0;
      pushed == [] || (m - half.a >= eps && pushed == [Item(half.a, m, pushed[0].flag), Item(m, half.b, pushed[0].flag)])
    ensures forall j :: 0 <= j < |pushed| ==> Queued(pushed[j], d + 2, eps, K)
    ensures |pushed| == 0 || |pushed| == 2
    ensures pushed != [] ==> d + 2 < K
  {
    if pushed != [] {
      var w := parent.b - parent.a;
      assert Width(d + 2) == w / 4.0;
      assert pushed[0].b - pushed[0].a == w / 4.0;
      assert pushed[1].b - pushed[1].a == w / 4.0;
      DepthBound(d + 2, eps, K, w / 4.0);
    }
  }

  lemma {:induction false} PopWeight(rest: seq<nat>, d: nat, n1: nat, n2: nat, K: nat)
    requires d + 2 < K || (n1 == 0 && n2 == 0)
    requires n1 <= 2 && n2 <= 2
    ensures Weight(rest + Repeat(d + 2, n1) + Repeat(d + 2, n2), K) < Weight(rest + [d], K)
  {
    var front := rest + Repeat(d + 2, n1);
    WeightAppend(front, Repeat(d + 2, n2), K);
    WeightAppend(rest, Repeat(d + 2, n1), K);
    WeightAppend(rest, [d], K);
    assert Weight([d], K) == Pow4(Level(d, K)) by {
      assert [d][..0] == [];
    }
    var w := Weight(rest, K);
    if d + 2 < K {
      var q := Pow4(Level(d + 2, K));
      RepeatWeight(d + 2, n1, K);
      RepeatWeight(d + 2, n2, K);
      LevelTwoDown(d, K);
      ChildrenLighter(w, n1, n2, q);
    } else {
      assert Repeat(d + 2, n1) == [] && Repeat(d + 2, n2) == [];
      assert Weight([], K) == 0;
    }
  }

  /** Two levels up the weight grows sixteen-fold. */
  lemma LevelTwoDown(d: nat, K: nat)
    requires d + 2 < K
    ensures Pow4(Level(d, K)) == 16 * Pow4(Level(d + 2, K))
  {
    assert Level(d, K) == Level(d + 2, K) + 2;
  }

  lemma ChildrenLighter(w: nat, n1: nat, n2: nat, q: nat)
    requires n1 <= 2 && n2 <= 2 && q >= 1
    ensures w + n1 * q + n2 * q < w + 16 * q
  {
    assert n1 * q <= 2 * q;
    assert n2 * q <= 2 * q;
  }

  function Repeat(d: nat, k: nat): (s: seq<nat>)
    ensures |s| == k
  {
    seq(k, _ => d)
  }

  lemma {:induction false} RepeatWeight(d: nat, k: nat, K: nat)
    ensures Weight(Repeat(d, k), K) == k * Pow4(Level(d, K))
    decreases k
  {
    if k > 0 {
      assert Repeat(d, k)[..k - 1] == Repeat(d, k - 1);
      RepeatWeight(d, k - 1, K);
    }
  }

  /** A number of halvings that brings the width below a positive eps. */
  ghost function Threshold(eps: real): (K: nat)
    requires eps > 0.0
    ensures Width(K) < eps
  {
    var f := (1.0 / eps).Floor;
    assert f >= 0;
    var K := f as nat + 1;
    WidthInverse(K);
    WidthBelow(K, eps);
    K
  }

  lemma {:induction false} WidthBelow(K: nat, eps: real)
    requires eps > 0.0 && K as real > 1.0 / eps
    requires (K as real + 1.0) * Width(K) <= 1.0
    ensures Width(K) < eps
  {
    if Width(K) >= eps {
      ScaleAbove(K as real, eps, 1.0 / eps, Width(K));
      assert false;
    }
  }

  /** With k > 1/e and w >= e, (k + 1) w exceeds 1. */
  lemma ScaleAbove(k: real, e: real, inv: real, w: real)
    requires e > 0.0 && k > inv && inv == 1.0 / e && w >= e
    ensures (k + 1.0) * w > 1.0
  {
    assert inv * e == 1.0;
    assert k * e > inv * e;
    assert (k + 1.0) * w >= (k + 1.0) * e;
  }

  /** Every stack entry is queued at its ghost depth. */
  ghost predicate AllQueued(stack: seq<Item>, depths: seq<nat>, eps: real, K: nat)
  {
    |stack| == |depths| && forall j :: 0 <= j < |stack| ==> Queued(stack[j], depths[j], eps, K)
  }

  /** Every reported root is in [0, 1] and witnessed by a subinterval. */
  ghost predicate AllEmitted(rows: seq<seq<real>>, roots: seq<real>, eps: real)
  {
    forall r :: r in roots ==> 0.0 <= r <= 1.0 && EmittedFrom(rows, r, eps)
  }

  lemma EmittedExtend(rows: seq<seq<real>>, roots: seq<real>, e1: seq<real>, e2: seq<real>, eps: real)
    requires AllEmitted(rows, roots, eps)
    requires forall r :: r in e1 ==> 0.0 <= r <= 1.0 && EmittedFrom(rows, r, eps)
    requires forall r :: r in e2 ==> 0.0 <= r <= 1.0 && EmittedFrom(rows, r, eps)
    ensures AllEmitted(rows, roots + e1 + e2, eps)
  {
  }

  /*************************************************************************
   * The search tree
   *************************************************************************/

  /**
   * The roots that popping the interval `it`, queued at depth d, leads to,
   * in the order they are reported: `iterate` on its left half, on its right
   * half, then the subtrees of what the two queued, the last queued first.
   */
  ghost function Explore(rows: seq<seq<real>>, it: Item, rootType: bv32, eps: real, d: nat, K: nat): seq<real>
    requires |rows| >= 1 && Width(K) < eps && Queued(it, d, eps, K)
    decreases Pow4(Level(d, K)), 0
  {
    ChildrenQueued(rows, it, rootType, eps, d, K);
    var kids := Kids(rows, it, rootType, eps);
    KidRoots(rows, it, rootType, eps) + ExploreAll(rows, kids, Repeat(d + 2, |kids|), rootType, eps, K)
  }

  /** What `iterate` queues for the two halves of `it`, the left half's first. */
  function Kids(rows: seq<seq<real>>, it: Item, rootType: bv32, eps: real): seq<Item>
    requires |rows| >= 1
  {
    var m := (it.a + it.b) / 2.0;
    Step(rows, Item(it.a, m, it.flag), rootType, eps).0 + Step(rows, Item(m, it.b, it.flag), rootType, eps).0
  }

  /** What `iterate` reports for the two halves of `it`, the left half's first. */
  function KidRoots(rows: seq<seq<real>>, it: Item, rootType: bv32, eps: real): seq<real>
    requires |rows| >= 1
  {
    var m := (it.a + it.b) / 2.0;
    Step(rows, Item(it.a, m, it.flag), rootType, eps).1 + Step(rows, Item(m, it.b, it.flag), rootType, eps).1
  }

  /** The roots a stack of queued intervals leads to: the top's subtree first. */
  ghost function ExploreAll(rows: seq<seq<real>>, stack: seq<Item>, depths: seq<nat>, rootType: bv32, eps: real, K: nat): seq<real>
    requires |rows| >= 1 && Width(K) < eps && AllQueued(stack, depths, eps, K)
    decreases Weight(depths, K), 1
  {
    if stack == [] then []
    else
      var n := |stack| - 1;
      Explore(rows, stack[n], rootType, eps, depths[n], K) + ExploreAll(rows, stack[..n], depths[..n], rootType, eps, K)
  }

  /**
   * The whole search: `iterate` on [0, 1], then the subtrees of what it
   * queued.
   */
  ghost function Search(rows: seq<seq<real>>, rootType: bv32, eps: real): seq<real>
    requires |rows| >= 1 && eps > 0.0
  {
    var K := Threshold(eps);
    var s := Step(rows, Item(0.0, 1.0, false), rootType, eps);
    StartQueued(rows, rootType, eps, K);
    s.1 + ExploreAll(rows, s.0, Repeat(1, |s.0|), rootType, eps, K)
  }

  /** What `iterate` queues for the two halves of a queued interval sits at depth d + 2 and weighs less. */
  lemma ChildrenQueued(rows: seq<seq<real>>, it: Item, rootType: bv32, eps: real, d: nat, K: nat)
    requires |rows| >= 1 && Width(K) < eps && Queued(it, d, eps, K)
    ensures var kids := Kids(rows, it, rootType, eps);
      && AllQueued(kids, Repeat(d + 2, |kids|), eps, K)
      && (kids != [] ==> d + 2 < K)
      && Weight(Repeat(d + 2, |kids|), K) < Pow4(Level(d, K))
  {
    var m := (it.a + it.b) / 2.0;
    var left, right := Item(it.a, m, it.flag), Item(m, it.b, it.flag);
    var p1, p2 := Step(rows, left, rootType, eps).0, Step(rows, right, rootType, eps).0;
    StepShape(rows, left, rootType, eps);
    StepShape(rows, right, rootType, eps);
    PushedQueued(it, d, left, p1, eps, K);
    PushedQueued(it, d, right, p2, eps, K);
    KidsQueued(p1, p2, d + 2, eps, K);
    KidsLighter(|p1 + p2|, d, K);
  }

  lemma KidsQueued(p1: seq<Item>, p2: seq<Item>, d: nat, eps: real, K: nat)
    requires forall j :: 0 <= j < |p1| ==> Queued(p1[j], d, eps, K)
    requires forall j :: 0 <= j < |p2| ==> Queued(p2[j], d, eps, K)
    ensures AllQueued(p1 + p2, Repeat(d, |p1 + p2|), eps, K)
  {
    var kids := p1 + p2;
    forall j | 0 <= j < |kids|
      ensures Queued(kids[j], d, eps, K)
    {
      if j < |p1| {
        assert kids[j] == p1[j];
      } else {
        assert kids[j] == p2[j - |p1|];
      }
    }
  }

  /** At most four intervals two levels down weigh less than their parent. */
  lemma KidsLighter(k: nat, d: nat, K: nat)
    requires k <= 4 && (k > 0 ==> d + 2 < K) && d < K
    ensures Weight(Repeat(d + 2, k), K) < Pow4(Level(d, K))
  {
    RepeatWeight(d + 2, k, K);
    if k > 0 {
      LevelTwoDown(d, K);
      var q := Pow4(Level(d + 2, K));
      assert k * q <= 4 * q;
    }
  }

  /** What the first `iterate`, on [0, 1], queues sits at depth 1. */
  lemma StartQueued(rows: seq<seq<real>>, rootType: bv32, eps: real, K: nat)
    requires |rows| >= 1 && Width(K) < eps
    ensures var p := Step(rows, Item(0.0, 1.0, false), rootType, eps).0;
      AllQueued(p, Repeat(1, |p|), eps, K)
  {
    var p := Step(rows, Item(0.0, 1.0, false), rootType, eps).0;
    if p != [] {
      assert Width(1) == 0.5;
      DepthBound(1, eps, K, 0.5);
    }
  }

  /** Stacking T on S: T's subtrees are all reported before S's. */
  lemma {:induction false} ExploreAllAppend(rows: seq<seq<real>>, S: seq<Item>, ds: seq<nat>, T: seq<Item>, es: seq<nat>, rootType: bv32, eps: real, K: nat)
    requires |rows| >= 1 && Width(K) < eps
    requires AllQueued(S, ds, eps, K) && AllQueued(T, es, eps, K)
    ensures AllQueued(S + T, ds + es, eps, K)
    ensures ExploreAll(rows, S + T, ds + es, rootType, eps, K)
         == ExploreAll(rows, T, es, rootType, eps, K) + ExploreAll(rows, S, ds, rootType, eps, K)
    decreases |T|
  {
    QueuedAppend(S, ds, T, es, eps, K);
    if T == [] {
      assert S + T == S && ds + es == ds;
    } else {
      var n := |T| - 1;
      QueuedPrefix(T, es, n, eps, K);
      ExploreAllAppend(rows, S, ds, T[..n], es[..n], rootType, eps, K);
      AppendPop(rows, S, ds, T, es, rootType, eps, K);
      ExploreAllPop(rows, T, es, rootType, eps, K);
      var x := Explore(rows, T[n], rootType, eps, es[n], K);
      var a, b := ExploreAll(rows, T[..n], es[..n], rootType, eps, K), ExploreAll(rows, S, ds, rootType, eps, K);
      var all, mid := ExploreAll(rows, S + T, ds + es, rootType, eps, K), ExploreAll(rows, S + T[..n], ds + es[..n], rootType, eps, K);
      Reassociate(all, x, mid, a, b);
    }
  }

  /** Popping S + T pops T's top. */
  lemma AppendPop(rows: seq<seq<real>>, S: seq<Item>, ds: seq<nat>, T: seq<Item>, es: seq<nat>, rootType: bv32, eps: real, K: nat)
    requires |rows| >= 1 && Width(K) < eps && T != []
    requires AllQueued(S + T, ds + es, eps, K) && AllQueued(T, es, eps, K)
    ensures var n := |T| - 1;
      && AllQueued(S + T[..n], ds + es[..n], eps, K)
      && ExploreAll(rows, S + T, ds + es, rootType, eps, K)
         == Explore(rows, T[n], rootType, eps, es[n], K) + ExploreAll(rows, S + T[..n], ds + es[..n], rootType, eps, K)
  {
    AppendLast(S, T);
    AppendLast(ds, es);
    ExploreAllPop(rows, S + T, ds + es, rootType, eps, K);
  }

  lemma Reassociate(all: seq<real>, x: seq<real>, mid: seq<real>, a: seq<real>, b: seq<real>)
    requires all == x + mid && mid == a + b
    ensures all == (x + a) + b
  {
  }

  /** A non-empty stack leads to its top's subtree, then to the rest's. */
  lemma ExploreAllPop(rows: seq<seq<real>>, stack: seq<Item>, depths: seq<nat>, rootType: bv32, eps: real, K: nat)
    requires |rows| >= 1 && Width(K) < eps && AllQueued(stack, depths, eps, K) && stack != []
    ensures var n := |stack| - 1;
      && Queued(stack[n], depths[n], eps, K)
      && AllQueued(stack[..n], depths[..n], eps, K)
      && ExploreAll(rows, stack, depths, rootType, eps, K)
         == Explore(rows, stack[n], rootType, eps, depths[n], K) + ExploreAll(rows, stack[..n], depths[..n], rootType, eps, K)
  {
  }

  lemma QueuedAppend(S: seq<Item>, ds: seq<nat>, T: seq<Item>, es: seq<nat>, eps: real, K: nat)
    requires AllQueued(S, ds, eps, K) && AllQueued(T, es, eps, K)
    ensures AllQueued(S + T, ds + es, eps, K)
  {
    forall j | 0 <= j < |S + T|
      ensures Queued((S + T)[j], (ds + es)[j], eps, K)
    {
      if j < |S| {
        assert (S + T)[j] == S[j] && (ds + es)[j] == ds[j];
      } else {
        assert (S + T)[j] == T[j - |S|] && (ds + es)[j] == es[j - |S|];
      }
    }
  }

  lemma QueuedPrefix(T: seq<Item>, es: seq<nat>, n: nat, eps: real, K: nat)
    requires AllQueued(T, es, eps, K) && n <= |T|
    ensures AllQueued(T[..n], es[..n], eps, K)
  {
    forall j | 0 <= j < n
      ensures Queued(T[..n][j], es[..n][j], eps, K)
    {
      assert T[..n][j] == T[j] && es[..n][j] == es[j];
    }
  }

  /** The sign-change counts of a chain differ by less than its length. */
  lemma CountBound(rows: seq<seq<real>>, a: real, b: real)
    requires |rows| >= 1
    ensures -(|rows| - 1) <= RootCount(rows, a, b) <= |rows| - 1
  {
  }

  /** With fewer than 2^32 rows, the cast count is zero only for a zero count. */
  lemma RootNumZero(rows: seq<seq<real>>, a: real, b: real)
    requires 1 <= |rows| <= 0x1_0000_0000
    ensures RootNum(RootCount(rows, a, b)) == 0 <==> RootCount(rows, a, b) == 0
  {
    CountBound(rows, a, b);
  }

  /**
   * Completeness when every root is wanted: a queued interval whose count
   * is not zero leads to at least one reported root, since one of its halves
   * keeps a non-zero count all the way down.
   */
  lemma {:induction false} ExploreFinds(rows: seq<seq<real>>, it: Item, eps: real, d: nat, K: nat)
    requires 1 <= |rows| <= 0x1_0000_0000 && Width(K) < eps && Queued(it, d, eps, K)
    requires RootCount(rows, it.a, it.b) != 0
    ensures Explore(rows, it, All, eps, d, K) != []
    decreases Level(d, K), 0
  {
    ExploreUnfold(rows, it, All, eps, d, K);
    var kids := Kids(rows, it, All, eps);
    var found, j, h := HalfFinds(rows, it, eps);
    if !found {
      KidFinds(rows, kids, d + 2, j, h, eps, K);
    }
    JoinNonEmpty(KidRoots(rows, it, All, eps), ExploreAll(rows, kids, Repeat(d + 2, |kids|), All, eps, K));
  }

  /**
   * A half of an interval with a non-zero count keeps a non-zero count:
   * either `iterate` reports a root for it, or it queues both of its halves.
   */
  lemma HalfFinds(rows: seq<seq<real>>, it: Item, eps: real) returns (found: bool, j: nat, h: Item)
    requires 1 <= |rows| <= 0x1_0000_0000 && RootCount(rows, it.a, it.b) != 0
    ensures found ==> KidRoots(rows, it, All, eps) != []
    ensures !found ==> var kids := Kids(rows, it, All, eps);
      && RootCount(rows, h.a, h.b) != 0 && j + 1 < |kids|
      && kids[j] == Item(h.a, (h.a + h.b) / 2.0, h.flag) && kids[j + 1] == Item((h.a + h.b) / 2.0, h.b, h.flag)
  {
    var m := (it.a + it.b) / 2.0;
    var left, right := Item(it.a, m, it.flag), Item(m, it.b, it.flag);
    var s1, s2 := Step(rows, left, All, eps), Step(rows, right, All, eps);
    var first := RootCount(rows, left.a, left.b) != 0;
    h, j := if first then left else right, if first then 0 else |s1.0|;
    StepAll(rows, h, eps);
    var sh := Step(rows, h, All, eps);
    found := sh.1 != [];
    if found {
      assert sh.1 == s1.1 || sh.1 == s2.1;
    } else {
      var kids := s1.0 + s2.0;
      assert j + 1 < |kids| && kids[j] == sh.0[0] && kids[j + 1] == sh.0[1];
    }
  }

  /**
   * When the two halves of an interval with a non-zero count sit side by
   * side on a stack, the stack leads to at least one root.
   */
  lemma {:induction false} KidFinds(rows: seq<seq<real>>, kids: seq<Item>, d: nat, j: nat, h: Item, eps: real, K: nat)
    requires 1 <= |rows| <= 0x1_0000_0000 && Width(K) < eps && AllQueued(kids, Repeat(d, |kids|), eps, K)
    requires RootCount(rows, h.a, h.b) != 0 && j + 1 < |kids|
    requires kids[j] == Item(h.a, (h.a + h.b) / 2.0, h.flag) && kids[j + 1] == Item((h.a + h.b) / 2.0, h.b, h.flag)
    ensures ExploreAll(rows, kids, Repeat(d, |kids|), All, eps, K) != []
    decreases Level(d, K), 1
  {
    var mh := (h.a + h.b) / 2.0;
    var jc := if RootCount(rows, h.a, mh) != 0 then j else j + 1;
    var c := kids[jc];
    assert Queued(c, Repeat(d, |kids|)[jc], eps, K);
    assert RootCount(rows, c.a, c.b) != 0;
    ExploreFinds(rows, c, eps, d, K);
    ExploreAllHas(rows, kids, Repeat(d, |kids|), jc, All, eps, K);
  }

  /** Explore, unfolded once. */
  lemma ExploreUnfold(rows: seq<seq<real>>, it: Item, rootType: bv32, eps: real, d: nat, K: nat)
    requires |rows| >= 1 && Width(K) < eps && Queued(it, d, eps, K)
    ensures var kids := Kids(rows, it, rootType, eps);
      && AllQueued(kids, Repeat(d + 2, |kids|), eps, K)
      && (kids != [] ==> d + 2 < K)
      && Explore(rows, it, rootType, eps, d, K)
         == KidRoots(rows, it, rootType, eps) + ExploreAll(rows, kids, Repeat(d + 2, |kids|), rootType, eps, K)
  {
    ChildrenQueued(rows, it, rootType, eps, d, K);
  }

  /** `iterate` either queues nothing or both halves under one flag, and emits only for a narrow interval. */
  lemma StepShape(rows: seq<seq<real>>, it: Item, rootType: bv32, eps: real)
    requires |rows| >= 1
    ensures var m := (it.a + it.b) / 2.0;
      var s := Step(rows, it, rootType, eps);
      && (s.0 == [] || (m - it.a >= eps && s.1 == [] && s.0 == [Item(it.a, m, s.0[0].flag), Item(m, it.b, s.0[0].flag)]))
      && (s.1 == [] || (RootNum(RootCount(rows, it.a, it.b)) != 0 && m - it.a < eps && s.1 == [(it.a + m) / 2.0]))
  {
  }

  /** When every root is wanted, an interval with a non-zero count either emits a root or is halved. */
  lemma StepAll(rows: seq<seq<real>>, it: Item, eps: real)
    requires 1 <= |rows| <= 0x1_0000_0000 && RootCount(rows, it.a, it.b) != 0
    ensures var m := (it.a + it.b) / 2.0;
      var s := Step(rows, it, All, eps);
      s.1 != [] || s.0 == [Item(it.a, m, it.flag), Item(m, it.b, it.flag)]
  {
    RootNumZero(rows, it.a, it.b);
  }

  /** The subtree of every stack entry is part of what the stack leads to. */
  lemma {:induction false} ExploreAllHas(rows: seq<seq<real>>, stack: seq<Item>, depths: seq<nat>, j: nat, rootType: bv32, eps: real, K: nat)
    requires |rows| >= 1 && Width(K) < eps && AllQueued(stack, depths, eps, K) && j < |stack|
    ensures Explore(rows, stack[j], rootType, eps, depths[j], K) != [] ==> ExploreAll(rows, stack, depths, rootType, eps, K) != []
    decreases |stack|
  {
    var n := |stack| - 1;
    ExploreAllPop(rows, stack, depths, rootType, eps, K);
    var x, r := Explore(rows, stack[n], rootType, eps, depths[n], K), ExploreAll(rows, stack[..n], depths[..n], rootType, eps, K);
    var y := Explore(rows, stack[j], rootType, eps, depths[j], K);
    if j < n {
      ExploreAllHas(rows, stack[..n], depths[..n], j, rootType, eps, K);
      assert stack[..n][j] == stack[j] && depths[..n][j] == depths[j];
      assert y != [] ==> r != [];
    } else {
      assert j == n;
    }
    JoinNonEmpty(x, r);
  }

  lemma JoinNonEmpty<T>(x: seq<T>, r: seq<T>)
    ensures x != [] || r != [] ==> x + r != []
  {
    assert |x + r| == |x| + |r|;
  }

  /**
   * When every root is wanted and [0, 1] has a non-zero count, the search
   * reports at least one root.
   */
  lemma SearchFinds(rows: seq<seq<real>>, eps: real)
    requires 1 <= |rows| <= 0x1_0000_0000 && eps > 0.0
    requires RootCount(rows, 0.0, 1.0) != 0
    ensures Search(rows, All, eps) != []
  {
    var K := Threshold(eps);
    var whole := Item(0.0, 1.0, false);
    var s := Step(rows, whole, All, eps);
    StartQueued(rows, All, eps, K);
    RootNumZero(rows, 0.0, 1.0);
    if s.1 == [] {
      var ps := Repeat(1, |s.0|);
      var j := if RootCount(rows, 0.0, 0.5) != 0 then 0 else 1;
      assert RootCount(rows, s.0[j].a, s.0[j].b) != 0;
      ExploreFinds(rows, s.0[j], eps, 1, K);
      ExploreAllHas(rows, s.0, ps, j, All, eps, K);
    }
  }

  /**
   * One round of the loop in `roots`: pops the top interval and examines
   * both of its halves. The roots reported so far, followed by those the
   * stack leads to, stay the same, and the stack gets lighter.
   */
  method Pop(rows: seq<seq<real>>, rootType: bv32, eps: real, stack: seq<Item>, roots: seq<real>, ghost depths: seq<nat>, ghost K: nat)
    returns (stack': seq<Item>, roots': seq<real>, ghost depths': seq<nat>)
    requires |rows| >= 1 && Width(K) < eps && stack != []
    requires AllQueued(stack, depths, eps, K) && AllEmitted(rows, roots, eps)
    ensures AllQueued(stack', depths', eps, K) && AllEmitted(rows, roots', eps)
    ensures Weight(depths', K) < Weight(depths, K)
    ensures roots' + ExploreAll(rows, stack', depths', rootType, eps, K) == roots + ExploreAll(rows, stack, depths, rootType, eps, K)
  {
    var init := stack[..|stack| - 1];
    var top := stack[|stack| - 1];
    ghost var d := depths[|depths| - 1];
    ghost var rest := depths[..|depths| - 1];
    SplitLast(stack);
    SplitLast(depths);
    QueuedPrefix(stack, depths, |init|, eps, K);
    var m := (top.a + top.b) / 2.0;
    var left, right := Item(top.a, m, top.flag), Item(m, top.b, top.flag);
    var p1, e1 := Visit(rows, left, rootType, eps, top, d, K);
    var p2, e2 := Visit(rows, right, rootType, eps, top, d, K);
    EmittedExtend(rows, roots, e1, e2, eps);
    SearchPop(rows, init, rest, top, d, rootType, eps, K, roots, left, p1, e1, right, p2, e2);
    stack', roots', depths' := init + p1 + p2, roots + e1 + e2, rest + Repeat(d + 2, |p1|) + Repeat(d + 2, |p2|);
  }

  /**
   * `roots`: builds the chain, examines [0, 1], then pops intervals and
   * examines both halves of each, until the stack is empty. Every reported
   * root lies in [0, 1] and comes from a subinterval whose half-width is
   * below eps and whose chain count is non-zero.
   */
  method Roots(p: seq<real>, rootType: bv32, eps: real) returns (roots: seq<real>, ghost rows: seq<seq<real>>)
    requires |p| >= 1 && eps > 0.0
    ensures IsChain(rows, p, ChainEpsilon)
    ensures 2 <= |rows| < |p| ==> NearlyConstant(rows[|rows| - 1][|rows| - 1..], ChainEpsilon)
    ensures forall r :: r in roots ==> 0.0 <= r <= 1.0
    ensures forall r :: r in roots ==> EmittedFrom(rows, r, eps)
    ensures roots == Search(rows, rootType, eps)
    ensures rootType == All && RootCount(rows, 0.0, 1.0) != 0 && |p| <= 0x1_0000_0000 ==> roots != []
  {
    var chain := Chain(p, ChainEpsilon);
    rows := chain;
    ghost var K := Threshold(eps);
    var stack, emitted := Start(chain, rootType, eps, K);
    roots := emitted;
    ghost var depths: seq<nat> := Repeat(1, |stack|);
    while stack != []
      invariant AllQueued(stack, depths, eps, K)
      invariant AllEmitted(rows, roots, eps)
      invariant Search(rows, rootType, eps) == roots + ExploreAll(rows, stack, depths, rootType, eps, K)
      decreases Weight(depths, K)
    {
      stack, roots, depths := Pop(chain, rootType, eps, stack, roots, depths, K);
    }
    if rootType == All && RootCount(rows, 0.0, 1.0) != 0 && |p| <= 0x1_0000_0000 {
      SearchFinds(rows, eps);
    }
  }

  /**
   * Popping the top interval and pushing what `iterate` queues for its two
   * halves keeps the roots reported so far, followed by those the stack
   * leads to, unchanged.
   */
  lemma SearchPop(rows: seq<seq<real>>, init: seq<Item>, rest: seq<nat>, top: Item, d: nat, rootType: bv32, eps: real, K: nat,
                  roots: seq<real>, left: Item, p1: seq<Item>, e1: seq<real>, right: Item, p2: seq<Item>, e2: seq<real>)
    requires |rows| >= 1 && Width(K) < eps
    requires AllQueued(init + [top], rest + [d], eps, K)
    requires left == Item(top.a, (top.a + top.b) / 2.0, top.flag) && right == Item((top.a + top.b) / 2.0, top.b, top.flag)
    requires (p1, e1) == Step(rows, left, rootType, eps) && (p2, e2) == Step(rows, right, rootType, eps)
    ensures AllQueued(init + p1 + p2, rest + Repeat(d + 2, |p1|) + Repeat(d + 2, |p2|), eps, K)
    ensures Weight(rest + Repeat(d + 2, |p1|) + Repeat(d + 2, |p2|), K) < Weight(rest + [d], K)
    ensures roots + ExploreAll(rows, init + [top], rest + [d], rootType, eps, K)
         == (roots + e1 + e2) + ExploreAll(rows, init + p1 + p2, rest + Repeat(d + 2, |p1|) + Repeat(d + 2, |p2|), rootType, eps, K)
  {
    var S, ds := init + [top], rest + [d];
    SnocParts(init, top);
    SnocParts(rest, d);
    ExploreAllPop(rows, S, ds, rootType, eps, K);
    ExploreUnfold(rows, top, rootType, eps, d, K);
    KidsOfHalves(rows, top, rootType, eps, left, p1, e1, right, p2, e2);
    var kids, ks := p1 + p2, Repeat(d + 2, |p1 + p2|);
    ExploreAllAppend(rows, init, rest, kids, ks, rootType, eps, K);
    ConcatAssoc(init, p1, p2);
    RepeatConcat(d + 2, |p1|, |p2|);
    ConcatAssoc(rest, Repeat(d + 2, |p1|), Repeat(d + 2, |p2|));
    QueuedPrefix(S, ds, |init|, eps, K);
    QueuedAppend(init, rest, kids, ks, eps, K);
    StepShape(rows, left, rootType, eps);
    StepShape(rows, right, rootType, eps);
    PopWeight(rest, d, |p1|, |p2|, K);
    var a, b := ExploreAll(rows, kids, ks, rootType, eps, K), ExploreAll(rows, init, rest, rootType, eps, K);
    RegroupRoots(roots, e1, e2, a, b);
  }

  lemma KidsOfHalves(rows: seq<seq<real>>, it: Item, rootType: bv32, eps: real,
                     left: Item, p1: seq<Item>, e1: seq<real>, right: Item, p2: seq<Item>, e2: seq<real>)
    requires |rows| >= 1
    requires left == Item(it.a, (it.a + it.b) / 2.0, it.flag) && right == Item((it.a + it.b) / 2.0, it.b, it.flag)
    requires (p1, e1) == Step(rows, left, rootType, eps) && (p2, e2) == Step(rows, right, rootType, eps)
    ensures Kids(rows, it, rootType, eps) == p1 + p2 && KidRoots(rows, it, rootType, eps) == e1 + e2
  {
  }

  lemma AppendLast<T>(s: seq<T>, t: seq<T>)
    requires t != []
    ensures var u, n := s + t, |t| - 1; u[..|u| - 1] == s + t[..n] && u[|u| - 1] == t[n]
  {
  }

  lemma SplitLast<T>(s: seq<T>)
    requires s != []
    ensures s == s[..|s| - 1] + [s[|s| - 1]]
  {
  }

  lemma SnocParts<T>(init: seq<T>, top: T)
    ensures var S := init + [top]; S[..|S| - 1] == init && S[|S| - 1] == top
  {
  }

  lemma ConcatAssoc<T>(x: seq<T>, p: seq<T>, q: seq<T>)
    ensures x + p + q == x + (p + q)
  {
  }

  lemma RepeatConcat(d: nat, m: nat, n: nat)
    ensures Repeat(d, m) + Repeat(d, n) == Repeat(d, m + n)
  {
  }

  lemma RegroupRoots(roots: seq<real>, e1: seq<real>, e2: seq<real>, a: seq<real>, b: seq<real>)
    ensures roots + (e1 + e2 + a + b) == (roots + e1 + e2) + (a + b)
  {
  }

  /**
   * The first `iterate`, on [0, 1]: what it queues is queued at depth 1, and
   * what it emits is a root in [0, 1] witnessed by [0, 1].
   */
  method Start(rows: seq<seq<real>>, rootType: bv32, eps: real, ghost K: nat)
    returns (pushed: seq<Item>, emitted: seq<real>)
    requires |rows| >= 1 && Width(K) < eps
    ensures forall j :: 0 <= j < |pushed| ==> Queued(pushed[j], 1, eps, K)
    ensures forall r :: r in emitted ==> 0.0 <= r <= 1.0 && EmittedFrom(rows, r, eps)
    ensures (pushed, emitted) == Step(rows, Item(0.0, 1.0, false), rootType, eps)
  {
    var whole := Item(0.0, 1.0, false);
    pushed, emitted := Iterate(rows, whole, rootType, eps);
    EmittedInRange(rows, whole, emitted, eps);
    if pushed != [] {
      assert Width(1) == 0.5;
      DepthBound(1, eps, K, 0.5);
    }
  }

  /**
   * `iterate` on one half of a popped interval that was queued at depth d:
   * what it queues is queued at depth d + 2, and what it emits is a root in
   * [0, 1] witnessed by that half.
   */
  method Visit(rows: seq<seq<real>>, half: Item, rootType: bv32, eps: real, ghost parent: Item, ghost d: nat, ghost K: nat)
    returns (pushed: seq<Item>, emitted: seq<real>)
    requires |rows| >= 1 && Width(K) < eps
    requires Queued(parent, d, eps, K)
    requires half.b - half.a == (parent.b - parent.a) / 2.0
    requires parent.a <= half.a && half.b <= parent.b
    ensures forall j :: 0 <= j < |pushed| ==> Queued(pushed[j], d + 2, eps, K)
    ensures |pushed| == 0 || |pushed| == 2
    ensures pushed != [] ==> d + 2 < K
    ensures forall r :: r in emitted ==> 0.0 <= r <= 1.0 && EmittedFrom(rows, r, eps)
    ensures (pushed, emitted) == Step(rows, half, rootType, eps)
  {
    pushed, emitted := Iterate(rows, half, rootType, eps);
    PushedQueued(parent, d, half, pushed, eps, K);
    EmittedInRange(rows, half, emitted, eps);
  }

  /** A root emitted for a subinterval of [0, 1] is in [0, 1] and witnessed by that interval. */
  lemma {:induction false} EmittedInRange(rows: seq<seq<real>>, it: Item, emitted: seq<real>, eps: real)
    requires 0.0 <= it.a < it.b <= 1.0
    requires var m := (it.a + it.b) / 2.0;
      emitted == [] || (RootNum(RootCount(rows, it.a, it.b)) != 0 && m - it.a < eps && emitted == [(it.a + m) / 2.0])
    ensures forall r :: r in emitted ==> 0.0 <= r <= 1.0 && EmittedFrom(rows, r, eps)
  {
    if emitted != [] {
      var a, b := it.a, it.b;
      assert 0.0 <= a < b <= 1.0 && (a + b) / 2.0 - a < eps
        && RootCount(rows, a, b) != 0 && emitted[0] == (a + (a + b) / 2.0) / 2.0;
    }
  }
}
