/** The local linear fit of the next value on the delay vector over the accepted neighbours:
    the averaged moment matrix, the averaged right-hand side and the normal equations. */
module Regression {
  import opened LinearAlgebra
  import opened Embedding

  /** Point f can be a neighbour: full delay vector and a successor inside the series. */
  ghost predicate Fittable(s: seq<real>, idx: seq<int>, f: int)
  {
    HasDelayVector(s, idx, f) && f + Tau < |s|
  }

  ghost predicate AllFittable(s: seq<real>, idx: seq<int>, fs: seq<int>)
  {
    forall k :: 0 <= k < |fs| ==> Fittable(s, idx, fs[k])
  }

  /** The regressors of point f: a leading 1 for the intercept, then the delay coordinates. */
  function Augmented(s: seq<real>, idx: seq<int>, f: int): (x: seq<real>)
    requires HasDelayVector(s, idx, f)
    ensures |x| == |idx| + 1 && x[0] == 1.0
    ensures forall j :: 0 <= j < |idx| ==> x[j + 1] == s[f - idx[j]]
  {
    [1.0] + seq(|idx|, j requires 0 <= j < |idx| => s[f - idx[j]])
  }

  /** The product of regressors i and j of point f. */
  function MomentTerm(s: seq<real>, idx: seq<int>, f: int, i: int, j: int): real
    requires HasDelayVector(s, idx, f) && 0 <= i <= |idx| && 0 <= j <= |idx|
  {
    Augmented(s, idx, f)[i] * Augmented(s, idx, f)[j]
  }

  /** Sum over the neighbours of the product of regressors i and j. */
  function MomentSum(s: seq<real>, idx: seq<int>, fs: seq<int>, i: int, j: int): real
    requires AllFittable(s, idx, fs) && 0 <= i <= |idx| && 0 <= j <= |idx|
    decreases |fs|
  {
    if |fs| == 0 then 0.0
    else MomentSum(s, idx, fs[..|fs| - 1], i, j) + MomentTerm(s, idx, fs[|fs| - 1], i, j)
  }

  /** The successor of point f times its regressor i. */
  function RhsTerm(s: seq<real>, idx: seq<int>, f: int, i: int): real
    requires Fittable(s, idx, f) && 0 <= i <= |idx|
  {
    s[f + Tau] * Augmented(s, idx, f)[i]
  }

  /** Sum over the neighbours of the successor value times regressor i. */
  function RhsSum(s: seq<real>, idx: seq<int>, fs: seq<int>, i: int): real
    requires AllFittable(s, idx, fs) && 0 <= i <= |idx|
    decreases |fs|
  {
    if |fs| == 0 then 0.0
    else RhsSum(s, idx, fs[..|fs| - 1], i) + RhsTerm(s, idx, fs[|fs| - 1], i)
  }

  /** Sum over the neighbours of delay coordinate j. */
  function CoordSum(s: seq<real>, idx: seq<int>, fs: seq<int>, j: int): real
    requires AllFittable(s, idx, fs) && 0 <= j < |idx|
    decreases |fs|
  {
    if |fs| == 0 then 0.0 else CoordSum(s, idx, fs[..|fs| - 1], j) + s[fs[|fs| - 1] - idx[j]]
  }

  /** The averaged moment matrix of the regressors over the neighbours. */
  function Moments(s: seq<real>, idx: seq<int>, fs: seq<int>): (M: seq<seq<real>>)
    requires AllFittable(s, idx, fs) && |fs| >= 1
    ensures |M| == |idx| + 1 && IsSquare(M)
  {
    seq(|idx| + 1, i requires 0 <= i <= |idx| =>
      seq(|idx| + 1, j requires 0 <= j <= |idx| => MomentSum(s, idx, fs, i, j) / (|fs| as real)))
  }

  /** The averaged right-hand side of the normal equations. */
  function Rhs(s: seq<real>, idx: seq<int>, fs: seq<int>): (b: seq<real>)
    requires AllFittable(s, idx, fs) && |fs| >= 1
    ensures |b| == |idx| + 1
  {
    seq(|idx| + 1, i requires 0 <= i <= |idx| => RhsSum(s, idx, fs, i) / (|fs| as real))
  }

  /** The value the fit with coefficients c predicts for the successor of point t. */
  function Forecast(s: seq<real>, idx: seq<int>, c: seq<real>, t: int): real
    requires HasDelayVector(s, idx, t) && |c| == |idx| + 1
  {
    Dot(Augmented(s, idx, t), c)
  }

  /** Sum over the neighbours of regressor i times the forecast residual. */
  function ResidualMoment(s: seq<real>, idx: seq<int>, fs: seq<int>, c: seq<real>, i: int): real
    requires AllFittable(s, idx, fs) && |c| == |idx| + 1 && 0 <= i <= |idx|
    decreases |fs|
  {
    if |fs| == 0 then 0.0
    else
      var f := fs[|fs| - 1];
      ResidualMoment(s, idx, fs[..|fs| - 1], c, i) + Augmented(s, idx, f)[i] * (Forecast(s, idx, c, f) - s[f + Tau])
  }

  lemma AllFittablePrefix(s: seq<real>, idx: seq<int>, fs: seq<int>, n: int)
    requires AllFittable(s, idx, fs) && 0 <= n <= |fs|
    ensures AllFittable(s, idx, fs[..n])
  {
  }

  /** Row 0 of the moments holds the count and the coordinates. */
  lemma MomentTermFirstRow(s: seq<real>, idx: seq<int>, f: int, b: int)
    requires HasDelayVector(s, idx, f) && 0 <= b <= |idx|
    ensures MomentTerm(s, idx, f, 0, b) == if b == 0 then 1.0 else s[f - idx[b - 1]]
  {
  }

  /** Below row 0 the moments are products of two coordinates. */
  lemma MomentTermCoords(s: seq<real>, idx: seq<int>, f: int, a: int, b: int)
    requires HasDelayVector(s, idx, f) && 1 <= a <= |idx| && 1 <= b <= |idx|
    ensures MomentTerm(s, idx, f, a, b) == s[f - idx[b - 1]] * s[f - idx[a - 1]]
  {
  }

  /** The right-hand side term: the successor, times a coordinate below entry 0. */
  lemma RhsTermValue(s: seq<real>, idx: seq<int>, f: int, i: int)
    requires Fittable(s, idx, f) && 0 <= i <= |idx|
    ensures RhsTerm(s, idx, f, i) == if i == 0 then s[f + Tau] else s[f + Tau] * s[f - idx[i - 1]]
  {
  }

  /** Adding neighbour fs[n] to the first n adds the product of its regressors i and j. */
  lemma MomentSumSnoc(s: seq<real>, idx: seq<int>, fs: seq<int>, n: int, i: int, j: int)
    requires AllFittable(s, idx, fs) && 0 <= n < |fs| && 0 <= i <= |idx| && 0 <= j <= |idx|
    ensures AllFittable(s, idx, fs[..n]) && AllFittable(s, idx, fs[..n + 1])
    ensures MomentSum(s, idx, fs[..n + 1], i, j) == MomentSum(s, idx, fs[..n], i, j) + MomentTerm(s, idx, fs[n], i, j)
  {
    var p := fs[..n + 1];
    assert p[..|p| - 1] == fs[..n] && p[|p| - 1] == fs[n];
  }

  /** Adding neighbour fs[n] to the first n adds its successor times its regressor i. */
  lemma RhsSumSnoc(s: seq<real>, idx: seq<int>, fs: seq<int>, n: int, i: int)
    requires AllFittable(s, idx, fs) && 0 <= n < |fs| && 0 <= i <= |idx|
    ensures AllFittable(s, idx, fs[..n]) && AllFittable(s, idx, fs[..n + 1])
    ensures RhsSum(s, idx, fs[..n + 1], i) == RhsSum(s, idx, fs[..n], i) + RhsTerm(s, idx, fs[n], i)
  {
    var p := fs[..n + 1];
    assert p[..|p| - 1] == fs[..n] && p[|p| - 1] == fs[n];
  }

  lemma {:induction false} MomentSumSymmetric(s: seq<real>, idx: seq<int>, fs: seq<int>, i: int, j: int)
    requires AllFittable(s, idx, fs) && 0 <= i <= |idx| && 0 <= j <= |idx|
    ensures MomentSum(s, idx, fs, i, j) == MomentSum(s, idx, fs, j, i)
    decreases |fs|
  {
    if |fs| > 0 {
      MomentSumSymmetric(s, idx, fs[..|fs| - 1], i, j);
    }
  }

  /** The moment matrix is symmetric. */
  lemma MomentsSymmetric(s: seq<real>, idx: seq<int>, fs: seq<int>, i: int, j: int)
    requires AllFittable(s, idx, fs) && |fs| >= 1 && 0 <= i <= |idx| && 0 <= j <= |idx|
    ensures Moments(s, idx, fs)[i][j] == Moments(s, idx, fs)[j][i]
  {
    MomentSumSymmetric(s, idx, fs, i, j);
  }

  lemma {:induction false} MomentSumCount(s: seq<real>, idx: seq<int>, fs: seq<int>)
    requires AllFittable(s, idx, fs)
    ensures MomentSum(s, idx, fs, 0, 0) == |fs| as real
    decreases |fs|
  {
    if |fs| > 0 {
      MomentSumCount(s, idx, fs[..|fs| - 1]);
    }
  }

  /** The intercept entry of the moment matrix is one. */
  lemma MomentsCorner(s: seq<real>, idx: seq<int>, fs: seq<int>)
    requires AllFittable(s, idx, fs) && |fs| >= 1
    ensures Moments(s, idx, fs)[0][0] == 1.0
  {
    var n := |fs| as real;
    MomentSumCount(s, idx, fs);
    assert Moments(s, idx, fs)[0][0] == MomentSum(s, idx, fs, 0, 0) / n;
    assert n / n == 1.0;
  }

  lemma {:induction false} MomentSumFirstRow(s: seq<real>, idx: seq<int>, fs: seq<int>, j: int)
    requires AllFittable(s, idx, fs) && 0 <= j < |idx|
    ensures MomentSum(s, idx, fs, 0, j + 1) == CoordSum(s, idx, fs, j)
    decreases |fs|
  {
    if |fs| > 0 {
      MomentSumFirstRow(s, idx, fs[..|fs| - 1], j);
    }
  }

  /** The first row of the moment matrix holds the mean of each delay coordinate. */
  lemma MomentsFirstRow(s: seq<real>, idx: seq<int>, fs: seq<int>, j: int)
    requires AllFittable(s, idx, fs) && |fs| >= 1 && 0 <= j < |idx|
    ensures Moments(s, idx, fs)[0][j + 1] == CoordSum(s, idx, fs, j) / (|fs| as real)
  {
    MomentSumFirstRow(s, idx, fs, j);
  }

  /** Row i of the moment sums. */
  function MomentRow(s: seq<real>, idx: seq<int>, fs: seq<int>, i: int): (row: seq<real>)
    requires AllFittable(s, idx, fs) && 0 <= i <= |idx|
    ensures |row| == |idx| + 1
  {
    seq(|idx| + 1, j requires 0 <= j <= |idx| => MomentSum(s, idx, fs, i, j))
  }

  /** Sum over the neighbours of regressor i times the forecast. */
  function FitSum(s: seq<real>, idx: seq<int>, fs: seq<int>, c: seq<real>, i: int): real
    requires AllFittable(s, idx, fs) && |c| == |idx| + 1 && 0 <= i <= |idx|
    decreases |fs|
  {
    if |fs| == 0 then 0.0
    else
      var f := fs[|fs| - 1];
      FitSum(s, idx, fs[..|fs| - 1], c, i) + Augmented(s, idx, f)[i] * Forecast(s, idx, c, f)
  }

  lemma MomentRowStep(s: seq<real>, idx: seq<int>, fs: seq<int>, i: int)
    requires AllFittable(s, idx, fs) && |fs| >= 1 && 0 <= i <= |idx|
    ensures AllFittable(s, idx, fs[..|fs| - 1])
    ensures var x := Augmented(s, idx, fs[|fs| - 1]);
            MomentRow(s, idx, fs, i) == AddScaled(MomentRow(s, idx, fs[..|fs| - 1], i), x[i], x)
  {
    var front, x := fs[..|fs| - 1], Augmented(s, idx, fs[|fs| - 1]);
    var r, r' := MomentRow(s, idx, fs, i), AddScaled(MomentRow(s, idx, front, i), x[i], x);
    assert forall j :: 0 <= j < |r| ==> r[j] == r'[j];
  }

  lemma {:induction false} MomentRowDot(s: seq<real>, idx: seq<int>, fs: seq<int>, c: seq<real>, i: int)
    requires AllFittable(s, idx, fs) && |c| == |idx| + 1 && 0 <= i <= |idx|
    ensures Dot(MomentRow(s, idx, fs, i), c) == FitSum(s, idx, fs, c, i)
    decreases |fs|
  {
    if |fs| == 0 {
      DotOfZeros(MomentRow(s, idx, fs, i), c);
    } else {
      var front, x := fs[..|fs| - 1], Augmented(s, idx, fs[|fs| - 1]);
      MomentRowStep(s, idx, fs, i);
      MomentRowDot(s, idx, front, c, i);
      DotAddScaled(MomentRow(s, idx, front, i), x[i], x, c);
    }
  }

  lemma {:induction false} ResidualMomentSplit(s: seq<real>, idx: seq<int>, fs: seq<int>, c: seq<real>, i: int)
    requires AllFittable(s, idx, fs) && |c| == |idx| + 1 && 0 <= i <= |idx|
    ensures ResidualMoment(s, idx, fs, c, i) == FitSum(s, idx, fs, c, i) - RhsSum(s, idx, fs, i)
    decreases |fs|
  {
    if |fs| > 0 {
      ResidualMomentSplit(s, idx, fs[..|fs| - 1], c, i);
    }
  }

  lemma {:induction false} DotDivided(a: seq<real>, c: seq<real>, d: real)
    requires |a| == |c| && d != 0.0
    ensures Dot(seq(|a|, k requires 0 <= k < |a| => a[k] / d), c) == Dot(a, c) / d
    decreases |a|
  {
    if |a| > 0 {
      var a' := seq(|a|, k requires 0 <= k < |a| => a[k] / d);
      assert a'[1..] == seq(|a| - 1, k requires 0 <= k < |a| - 1 => a[1..][k] / d);
      DotDivided(a[1..], c[1..], d);
    }
  }

  lemma DivideCancels(a: real, b: real, n: real)
    requires n != 0.0
    ensures a / n == b / n <==> a - b == 0.0
  {
    if a / n == b / n {
      assert a == (a / n) * n && b == (b / n) * n;
    }
  }

  /** Equation i of the averaged system holds exactly when residual moment i vanishes. */
  lemma NormalEquationRow(s: seq<real>, idx: seq<int>, fs: seq<int>, c: seq<real>, i: int)
    requires AllFittable(s, idx, fs) && |fs| >= 1 && |c| == |idx| + 1 && 0 <= i <= |idx|
    ensures Dot(Moments(s, idx, fs)[i], c) == Rhs(s, idx, fs)[i] <==> ResidualMoment(s, idx, fs, c, i) == 0.0
  {
    var n := |fs| as real;
    var row := MomentRow(s, idx, fs, i);
    assert Moments(s, idx, fs)[i] == seq(|row|, k requires 0 <= k < |row| => row[k] / n);
    DotDivided(row, c, n);
    MomentRowDot(s, idx, fs, c, i);
    ResidualMomentSplit(s, idx, fs, c, i);
    DivideCancels(FitSum(s, idx, fs, c, i), RhsSum(s, idx, fs, i), n);
  }

  /** A system holds row by row exactly when a companion vector vanishes entry by entry. */
  lemma RowwiseSolves(M: seq<seq<real>>, b: seq<real>, c: seq<real>, z: seq<real>)
    requires IsSquare(M) && |b| == |M| && |c| == |M| && |z| == |M|
    requires forall i :: 0 <= i < |M| ==> (Dot(M[i], c) == b[i] <==> z[i] == 0.0)
    ensures Solves(M, b, c) <==> forall i :: 0 <= i < |z| ==> z[i] == 0.0
  {
  }

  /** The forecast residuals are orthogonal to every regressor over the neighbours. */
  ghost predicate ResidualsOrthogonal(s: seq<real>, idx: seq<int>, fs: seq<int>, c: seq<real>)
    requires AllFittable(s, idx, fs) && |c| == |idx| + 1
  {
    forall i :: 0 <= i <= |idx| ==> ResidualMoment(s, idx, fs, c, i) == 0.0
  }

  /** The normal equations: c solves the averaged moment system exactly when the forecast
      residuals over the neighbours are orthogonal to every regressor, the condition for
      c to be a least-squares fit of the successors. */
  lemma NormalEquations(s: seq<real>, idx: seq<int>, fs: seq<int>, c: seq<real>)
    requires AllFittable(s, idx, fs) && |fs| >= 1 && |c| == |idx| + 1
    ensures Solves(Moments(s, idx, fs), Rhs(s, idx, fs), c) <==> ResidualsOrthogonal(s, idx, fs, c)
  {
    var M, b := Moments(s, idx, fs), Rhs(s, idx, fs);
    var z := seq(|idx| + 1, i requires 0 <= i <= |idx| => ResidualMoment(s, idx, fs, c, i));
    forall i | 0 <= i < |M| ensures Dot(M[i], c) == b[i] <==> z[i] == 0.0 {
      NormalEquationRow(s, idx, fs, c, i);
    }
    RowwiseSolves(M, b, c, z);
    if forall i :: 0 <= i < |z| ==> z[i] == 0.0 {
      forall i | 0 <= i <= |idx| ensures ResidualMoment(s, idx, fs, c, i) == 0.0 {
        assert z[i] == 0.0;
      }
    }
  }
}
