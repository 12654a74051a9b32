/** Propagation of the tangent vectors by the locally fitted linear map. In delay
    coordinates the Jacobian of the fitted map is a companion matrix: its first row holds
    the fitted coefficients and every other row shifts the vector down by one place. */
module Tangent {
  import opened LinearAlgebra
  import opened LinearSolver

  /** The image of tangent vector v: the fitted combination first, then v shifted down,
      its last entry dropped. */
  function Shift(dyn: seq<real>, v: seq<real>): (w: seq<real>)
    requires |v| == |dyn| >= 1
    ensures |w| == |v|
  {
    [Dot(v, dyn)] + v[..|v| - 1]
  }

  /** The companion matrix of the coefficients dyn. */
  function Companion(dyn: seq<real>): (C: seq<seq<real>>)
    ensures |C| == |dyn| && forall r :: 0 <= r < |C| ==> |C[r]| == |dyn|
  {
    seq(|dyn|, r => if r == 0 then dyn else Unit(|dyn|, r - 1))
  }

  /** Every row of D mapped by Shift. */
  ghost function Propagate(dyn: seq<real>, D: seq<seq<real>>): seq<seq<real>>
    requires |dyn| >= 1 && forall i :: 0 <= i < |D| ==> |D[i]| == |dyn|
  {
    seq(|D|, i requires 0 <= i < |D| => Shift(dyn, D[i]))
  }

  /** Shift is multiplication by the companion matrix of the coefficients. */
  lemma ShiftIsCompanion(dyn: seq<real>, v: seq<real>)
    requires |v| == |dyn| >= 1
    ensures Shift(dyn, v) == MatVec(Companion(dyn), v)
  {
    var m := |dyn|;
    var w, w' := Shift(dyn, v), MatVec(Companion(dyn), v);
    forall r | 0 <= r < m ensures w[r] == w'[r] {
      if r == 0 {
        DotCommutes(v, dyn);
      } else {
        DotUnit(m, r - 1, v);
      }
    }
  }

  /** The map the local fit defines on delay vectors: the forecast c[0] + <c[1..], x>
      becomes the newest coordinate and the oldest coordinate is dropped. */
  function FittedStep(c: seq<real>, x: seq<real>): (y: seq<real>)
    requires |c| == |x| + 1 && |x| >= 1
    ensures |y| == |x|
  {
    [Dot([1.0] + x, c)] + x[..|x| - 1]
  }

  function Diff(x: seq<real>, y: seq<real>): (d: seq<real>)
    requires |x| == |y|
    ensures |d| == |x| && forall k :: 0 <= k < |x| ==> d[k] == x[k] - y[k]
  {
    seq(|x|, k requires 0 <= k < |x| => x[k] - y[k])
  }

  /** The companion matrix of the fitted coefficients is the Jacobian of the fitted map:
      the map is affine and moves the difference of two states by exactly Shift. */
  lemma FittedStepLinearised(c: seq<real>, x: seq<real>, y: seq<real>)
    requires |c| == |x| + 1 && |x| == |y| >= 1
    ensures Diff(FittedStep(c, x), FittedStep(c, y)) == Shift(c[1..], Diff(x, y))
    ensures Diff(FittedStep(c, x), FittedStep(c, y)) == MatVec(Companion(c[1..]), Diff(x, y))
  {
    var d := Diff(x, y);
    var L, R := Diff(FittedStep(c, x), FittedStep(c, y)), Shift(c[1..], d);
    assert L == R by {
      assert L[0] == R[0] by {
        ForecastDifference(c, x, y);
      }
      forall k | 1 <= k < |x| ensures L[k] == R[k] {
        assert L[k] == x[k - 1] - y[k - 1];
      }
    }
    ShiftIsCompanion(c[1..], d);
  }

  /** The forecasts from two states differ by the slopes applied to their difference. */
  lemma ForecastDifference(c: seq<real>, x: seq<real>, y: seq<real>)
    requires |c| == |x| + 1 && |x| == |y|
    ensures Dot([1.0] + x, c) - Dot([1.0] + y, c) == Dot(Diff(x, y), c[1..])
  {
    DotCons(x, c);
    DotCons(y, c);
    DotDiff(x, y, c[1..]);
  }

  lemma DotCons(x: seq<real>, c: seq<real>)
    requires |c| == |x| + 1
    ensures Dot([1.0] + x, c) == c[0] + Dot(x, c[1..])
  {
    assert ([1.0] + x)[1..] == x;
  }

  lemma {:induction false} DotDiff(x: seq<real>, y: seq<real>, w: seq<real>)
    requires |x| == |y| == |w|
    ensures Dot(Diff(x, y), w) == Dot(x, w) - Dot(y, w)
    decreases |x|
  {
    if |x| > 0 {
      assert Diff(x, y)[1..] == Diff(x[1..], y[1..]);
      DotDiff(x[1..], y[1..], w[1..]);
      assert (x[0] - y[0]) * w[0] == x[0] * w[0] - y[0] * w[0];
    }
  }

  /** Row i of dnew becomes the image under Shift of row i of delta; nothing else
      of dnew changes. */
  method ImageRow(dynamics: array<real>, delta: array2<real>, dnew: array2<real>, i: int)
    requires dynamics.Length >= 1 && dnew != delta && 0 <= i < dynamics.Length
    requires delta.Length0 == dynamics.Length && delta.Length1 == dynamics.Length
    requires dnew.Length0 == dynamics.Length && dnew.Length1 == dynamics.Length
    modifies dnew
    ensures Rows(dnew)[i] == Shift(dynamics[..], Rows(delta)[i])
    ensures forall r :: 0 <= r < dnew.Length0 && r != i ==> Rows(dnew)[r] == old(Rows(dnew))[r]
  {
    var m := dynamics.Length;
    ghost var dyn, v := dynamics[..], Rows(delta)[i];
    ghost var w := Shift(dyn, v);
    dnew[i, 0] := dynamics[0] * delta[i, 0];
    assert v[..1] == [delta[i, 0]] && dyn[..1] == [dynamics[0]];
    var k := 1;
    while k < m
      invariant 1 <= k <= m
      invariant dnew[i, 0] == Dot(v[..k], dyn[..k])
      invariant forall r, c :: 0 <= r < m && r != i && 0 <= c < m ==> dnew[r, c] == old(dnew[r, c])
    {
      DotSnoc(v, dyn, k);
      dnew[i, 0] := dnew[i, 0] + dynamics[k] * delta[i, k];
      k := k + 1;
    }
    assert v[..m] == v && dyn[..m] == dyn;
    var j := 1;
    while j < m
      invariant 1 <= j <= m
      invariant forall c :: 0 <= c < j ==> dnew[i, c] == w[c]
      invariant forall r, c :: 0 <= r < m && r != i && 0 <= c < m ==> dnew[r, c] == old(dnew[r, c])
    {
      dnew[i, j] := delta[i, j - 1];
      j := j + 1;
    }
    assert Rows(dnew)[i] == w;
    forall r | 0 <= r < m && r != i ensures Rows(dnew)[r] == old(Rows(dnew))[r] {
      assert Rows(dnew)[r] == old(Rows(dnew))[r];
    }
  }

  /** Copies src into dst entry by entry. */
  method CopyMatrix(src: array2<real>, dst: array2<real>)
    requires src != dst && src.Length0 == dst.Length0 && src.Length1 == dst.Length1
    modifies dst
    ensures Rows(dst) == Rows(src)
  {
    var i := 0;
    while i < src.Length0
      invariant 0 <= i <= src.Length0
      invariant forall r, c :: 0 <= r < i && 0 <= c < src.Length1 ==> dst[r, c] == src[r, c]
    {
      var j := 0;
      while j < src.Length1
        invariant 0 <= j <= src.Length1
        invariant forall c :: 0 <= c < j ==> dst[i, c] == src[i, c]
        invariant forall r, c :: 0 <= r < i && 0 <= c < src.Length1 ==> dst[r, c] == src[r, c]
      {
        dst[i, j] := src[i, j];
        j := j + 1;
      }
      i := i + 1;
    }
    assert forall r :: 0 <= r < src.Length0 ==> Rows(dst)[r] == Rows(src)[r];
  }

  /** MakeIteration: every row of delta is replaced by its image under the fitted
      tangent map. The new rows are built in a scratch matrix and copied back. */
  method MakeIteration(dynamics: array<real>, delta: array2<real>)
    requires dynamics.Length >= 1
    requires delta.Length0 == dynamics.Length && delta.Length1 == dynamics.Length
    modifies delta
    ensures Rows(delta) == Propagate(dynamics[..], old(Rows(delta)))
  {
    var m := dynamics.Length;
    ghost var T := Propagate(dynamics[..], Rows(delta));
    var dnew := new real[m, m];
    var i := 0;
    while i < m
      modifies dnew
      invariant 0 <= i <= m
      invariant forall r :: 0 <= r < i ==> Rows(dnew)[r] == T[r]
    {
      ImageRow(dynamics, delta, dnew, i);
      i := i + 1;
    }
    assert Rows(dnew) == T;
    CopyMatrix(dnew, delta);
  }
}
