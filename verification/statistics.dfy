/** The variance check run on the series before the exponents are computed: a series
    whose variance is zero is rejected. */
module Statistics {
  import opened LinearAlgebra


  function Sq(x: real): real
  {
    x * x
  }

  function Sum(xs: seq<real>): real
    decreases |xs|
  {
    if |xs| == 0 then 0.0 else Sum(xs[..|xs| - 1]) + xs[|xs| - 1]
  }

  function SumSq(xs: seq<real>): real
    decreases |xs|
  {
    if |xs| == 0 then 0.0 else SumSq(xs[..|xs| - 1]) + Sq(xs[|xs| - 1])
  }

  /** The sum of squared deviations from a. */
  function Deviation(xs: seq<real>, a: real): real
    decreases |xs|
  {
    if |xs| == 0 then 0.0 else Deviation(xs[..|xs| - 1], a) + Sq(xs[|xs| - 1] - a)
  }

  /** The sum of the values each multiplied by a. */
  function Cross(xs: seq<real>, a: real): real
    decreases |xs|
  {
    if |xs| == 0 then 0.0 else Cross(xs[..|xs| - 1], a) + a * xs[|xs| - 1]
  }

  /** a added up k times. */
  function Times(k: nat, a: real): real
  {
    if k == 0 then 0.0 else Times(k - 1, a) + a
  }

  function Mean(xs: seq<real>): real
    requires |xs| >= 1
  {
    Sum(xs) / (|xs| as real)
  }

  /** Every value of the series is the same. */
  ghost predicate Constant(xs: seq<real>)
  {
    forall i, j :: 0 <= i < |xs| && 0 <= j < |xs| ==> xs[i] == xs[j]
  }

  /** sqrt is a square root on the non-negative reals. */
  ghost predicate IsSqrt(sqrt: real -> real)
  {
    forall x :: x >= 0.0 ==> sqrt(x) >= 0.0 && Sq(sqrt(x)) == x
  }

  /** Sign rules for a product, stated over two factors so that a square is an
      instance with x == y. */
  lemma ProductSign(D: real, x: real, y: real)
    requires D == x * y
    ensures (x > 0.0 && y > 0.0) || (x < 0.0 && y < 0.0) ==> D > 0.0
    ensures x == 0.0 ==> D == 0.0
  {
  }

  /** A square is never negative, and zero exactly when its root is. */
  lemma SquareSign(y: real)
    ensures Sq(y) >= 0.0
    ensures Sq(y) == 0.0 <==> y == 0.0
  {
    ProductSign(Sq(y), y, y);
  }

  lemma SqrtZeroIff(sqrt: real -> real, x: real)
    requires IsSqrt(sqrt) && x >= 0.0
    ensures sqrt(x) == 0.0 <==> x == 0.0
  {
    SquareSign(sqrt(x));
  }

  lemma SquareOfDifference(x: real, a: real)
    ensures Sq(x - a) == Sq(x) - 2.0 * (a * x) + Sq(a)
  {
  }

  /** The squared deviations from a are the squares, less twice the cross terms, plus
      the square of a once per value. */
  lemma {:induction false} DeviationExpands(xs: seq<real>, a: real)
    ensures Deviation(xs, a) == SumSq(xs) - 2.0 * Cross(xs, a) + Times(|xs|, Sq(a))
    decreases |xs|
  {
    if |xs| > 0 {
      DeviationExpands(xs[..|xs| - 1], a);
      SquareOfDifference(xs[|xs| - 1], a);
    }
  }

  lemma ScaleStep(a: real, S: real, x: real, C: real, S': real, C': real)
    requires C == a * S && S' == S + x && C' == C + a * x
    ensures C' == a * S'
  {
  }

  lemma {:induction false} CrossIsScaledSum(xs: seq<real>, a: real)
    ensures Cross(xs, a) == a * Sum(xs)
    decreases |xs|
  {
    if |xs| > 0 {
      var front := xs[..|xs| - 1];
      CrossIsScaledSum(front, a);
      ScaleStep(a, Sum(front), xs[|xs| - 1], Cross(front, a), Sum(xs), Cross(xs, a));
    }
  }

  lemma CountStep(k: real, a: real, T: real, T': real)
    requires T == k * a && T' == T + a
    ensures T' == (k + 1.0) * a
  {
  }

  lemma {:induction false} TimesIsProduct(k: nat, a: real)
    ensures Times(k, a) == (k as real) * a
  {
    if k > 0 {
      TimesIsProduct(k - 1, a);
      CountStep((k - 1) as real, a, Times(k - 1, a), Times(k, a));
    }
  }

  lemma {:induction false} DeviationNonNegative(xs: seq<real>, a: real)
    ensures Deviation(xs, a) >= 0.0
    decreases |xs|
  {
    if |xs| > 0 {
      DeviationNonNegative(xs[..|xs| - 1], a);
      SquareSign(xs[|xs| - 1] - a);
    }
  }

  /** The squared deviations add up to at least any one of them. */
  lemma {:induction false} DeviationAtLeast(xs: seq<real>, a: real, i: int)
    requires 0 <= i < |xs|
    ensures Deviation(xs, a) >= Sq(xs[i] - a)
    decreases |xs|
  {
    var front := xs[..|xs| - 1];
    if i == |xs| - 1 {
      DeviationNonNegative(front, a);
    } else {
      DeviationAtLeast(front, a, i);
      assert front[i] == xs[i];
      SquareSign(xs[|xs| - 1] - a);
    }
  }

  lemma {:induction false} DeviationOfConstant(xs: seq<real>, a: real)
    requires forall i :: 0 <= i < |xs| ==> xs[i] == a
    ensures Deviation(xs, a) == 0.0
    decreases |xs|
  {
    if |xs| > 0 {
      DeviationOfConstant(xs[..|xs| - 1], a);
    }
  }

  lemma {:induction false} SumOfConstant(xs: seq<real>, a: real)
    requires forall i :: 0 <= i < |xs| ==> xs[i] == a
    ensures Sum(xs) == Times(|xs|, a)
    decreases |xs|
  {
    if |xs| > 0 {
      SumOfConstant(xs[..|xs| - 1], a);
    }
  }

  /** Values that are all at most a add up to at most n * a, with equality only when
      every value is a. */
  lemma {:induction false} SumAtMost(xs: seq<real>, a: real)
    requires forall i :: 0 <= i < |xs| ==> xs[i] <= a
    ensures Sum(xs) <= Times(|xs|, a)
    ensures Sum(xs) == Times(|xs|, a) ==> forall i :: 0 <= i < |xs| ==> xs[i] == a
    decreases |xs|
  {
    if |xs| > 0 {
      var front := xs[..|xs| - 1];
      SumAtMost(front, a);
      assert forall i :: 0 <= i < |front| ==> front[i] == xs[i];
    }
  }

  /** A series none of whose values is above a, while a is its mean, is constant. */
  lemma {:induction false} NoneAboveMean(xs: seq<real>, n: real, a: real)
    requires |xs| >= 1 && n == |xs| as real && n * a == Sum(xs)
    requires forall k :: 0 <= k < |xs| ==> xs[k] <= a
    ensures Constant(xs)
  {
    SumAtMost(xs, a);
    TimesIsProduct(|xs|, a);
  }

  /** A series that is not constant has a value above its mean a. */
  lemma SomeAboveMean(xs: seq<real>, n: real, a: real) returns (i: int)
    requires |xs| >= 1 && n == |xs| as real && n * a == Sum(xs) && !Constant(xs)
    ensures 0 <= i < |xs| && xs[i] > a
  {
    if forall k :: 0 <= k < |xs| ==> xs[k] <= a {
      NoneAboveMean(xs, n, a);
      assert false;
    }
    i :| 0 <= i < |xs| && xs[i] > a;
  }

  lemma CrossOfTotal(xs: seq<real>, S: real, a: real)
    requires S == Sum(xs)
    ensures Cross(xs, a) == a * S
  {
    CrossIsScaledSum(xs, a);
  }

  lemma RepeatedSquare(xs: seq<real>, n: real, a: real)
    requires n == |xs| as real
    ensures Times(|xs|, Sq(a)) == n * Sq(a)
  {
    TimesIsProduct(|xs|, Sq(a));
  }

  lemma ExpansionOfTotals(xs: seq<real>, Q: real, a: real, D: real)
    requires Q == SumSq(xs) && D == Deviation(xs, a)
    ensures D == Q - 2.0 * Cross(xs, a) + Times(|xs|, Sq(a))
  {
    DeviationExpands(xs, a);
  }

  /** The expansion over the totals of the series: n values adding up to S, their squares
      adding up to Q, and D the sum of their squared deviations from a. */
  lemma DeviationFromTotals(xs: seq<real>, n: real, S: real, Q: real, a: real, D: real)
    requires n == |xs| as real && S == Sum(xs) && Q == SumSq(xs) && D == Deviation(xs, a)
    ensures D == Q - 2.0 * (a * S) + n * Sq(a)
  {
    ExpansionOfTotals(xs, Q, a, D);
    CrossOfTotal(xs, S, a);
    RepeatedSquare(xs, n, a);
  }

  lemma MeanSquareAlgebra(n: real, S: real, Q: real, a: real, D: real)
    requires n > 0.0 && n * a == S && D == Q - 2.0 * (a * S) + n * Sq(a)
    ensures Q / n - Sq(a) == D / n
  {
    assert n * Sq(a) == a * S;
    assert D == Q - a * S;
    assert D / n == Q / n - (a * S) / n;
    assert (a * S) / n == a * a;
  }

  lemma MeanIsQuotient(n: real, S: real, a: real)
    requires n > 0.0 && a == S / n
    ensures n * a == S
  {
  }

  /** The quantity under the square root, the mean square less the squared mean, is the
      mean squared deviation from the mean. */
  lemma MeanSquareIsDeviation(xs: seq<real>, n: real, S: real, Q: real, a: real, D: real)
    requires |xs| >= 1 && n == |xs| as real
    requires S == Sum(xs) && Q == SumSq(xs) && n * a == S && D == Deviation(xs, a)
    ensures Q / n - Sq(a) == D / n
  {
    DeviationFromTotals(xs, n, S, Q, a, D);
    MeanSquareAlgebra(n, S, Q, a, D);
  }

  lemma QuotientZeroIff(D: real, n: real)
    requires n > 0.0
    ensures D / n == 0.0 <==> D == 0.0
  {
    if D / n == 0.0 {
      assert D == (D / n) * n;
    }
  }

  lemma Cancel(n: real, a: real, b: real)
    requires n > 0.0 && n * a == n * b
    ensures a == b
  {
    assert n * (a - b) == 0.0;
  }

  /** The constant series deviates nowhere from its mean. */
  lemma ConstantDeviation(xs: seq<real>, n: real, a: real, D: real)
    requires |xs| >= 1 && n == |xs| as real && n * a == Sum(xs) && D == Deviation(xs, a)
    requires Constant(xs)
    ensures D == 0.0
  {
    SumOfConstant(xs, xs[0]);
    TimesIsProduct(|xs|, xs[0]);
    Cancel(n, a, xs[0]);
    DeviationOfConstant(xs, a);
  }

  /** A series that is not constant deviates from its mean. */
  lemma NonConstantDeviation(xs: seq<real>, n: real, a: real, D: real)
    requires |xs| >= 1 && n == |xs| as real && n * a == Sum(xs) && D == Deviation(xs, a)
    requires !Constant(xs)
    ensures D > 0.0
  {
    var i := SomeAboveMean(xs, n, a);
    DeviationAtLeast(xs, a, i);
    SquareSign(xs[i] - a);
  }

  /** The variance is zero exactly when the series is constant. */
  lemma ZeroVarianceIffConstant(xs: seq<real>, n: real, S: real, Q: real, a: real)
    requires |xs| >= 1 && n == |xs| as real
    requires S == Sum(xs) && Q == SumSq(xs) && a == S / n
    ensures Q / n - Sq(a) == 0.0 <==> Constant(xs)
  {
    var D := Deviation(xs, a);
    MeanIsQuotient(n, S, a);
    MeanSquareIsDeviation(xs, n, S, Q, a, D);
    QuotientZeroIff(D, n);
    if Constant(xs) {
      ConstantDeviation(xs, n, a, D);
    } else {
      NonConstantDeviation(xs, n, a, D);
    }
  }

  /** Variance: the mean and the standard deviation of the first l values; ok is false,
      the rejection, exactly when the standard deviation is zero, that is when those
      values are all equal. The square root is a parameter. */
  method Variance(s: array<real>, l: int, sqrt: real -> real) returns (av: real, sd: real, ok: bool)
    requires 1 <= l <= s.Length && IsSqrt(sqrt)
    ensures av == Mean(s[..l])
    ensures sd == sqrt(Abs(SumSq(s[..l]) / (l as real) - Sq(av)))
    ensures sd >= 0.0 && Sq(sd) == Abs(SumSq(s[..l]) / (l as real) - Sq(av))
    ensures ok <==> !Constant(s[..l])
  {
    var sq := 0.0;
    av := 0.0;
    var i := 0;
    while i < l
      invariant 0 <= i <= l
      invariant av == Sum(s[..i]) && sq == SumSq(s[..i])
    {
      assert s[..i + 1][..i] == s[..i];
      var h := s[i];
      av := av + h;
      sq := sq + h * h;
      i := i + 1;
    }
    assert s[..l] == s[..i];
    ghost var sum := av;
    av := av / (l as real);
    var v := Abs(sq / (l as real) - av * av);
    assert v == Abs(sq / (l as real) - Sq(av));
    sd := sqrt(v);
    ok := sd != 0.0;
    assert ok <==> !Constant(s[..l]) by {
      SqrtZeroIff(sqrt, v);
      ZeroVarianceIffConstant(s[..l], l as real, sum, sq, av);
    }
  }
}
