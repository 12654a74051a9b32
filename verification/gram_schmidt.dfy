/** Re-orthonormalisation of the tangent vectors after every step: classical Gram-Schmidt
    on the rows of delta. The lengths of the orthogonalised rows are the stretch factors
    whose logarithms the spectrum accumulates. The square root is a parameter. */
module Orthonormal {
  import opened LinearAlgebra
  import opened LinearSolver
  import opened Tangent
  import Statistics

  /** The first n rows of E all have length m. */
  ghost predicate RowsOfLength(E: seq<seq<real>>, n: int, m: int)
  {
    0 <= n <= |E| && forall j :: 0 <= j < n ==> |E[j]| == m
  }

  /** The correction the source accumulates in diff for a row d against the first n
      finished rows of E: minus the sum of the projections Dot(d, E[j]) * E[j]. */
  function Correction(d: seq<real>, E: seq<seq<real>>, n: nat): (r: seq<real>)
    requires RowsOfLength(E, n, |d|)
    ensures |r| == |d|
  {
    if n == 0 then seq(|d|, _ => 0.0) else AddScaled(Correction(d, E, n - 1), -Dot(d, E[n - 1]), E[n - 1])
  }

  lemma CorrectionStep(d: seq<real>, E: seq<seq<real>>, j: nat)
    requires RowsOfLength(E, j + 1, |d|)
    ensures Correction(d, E, j + 1) == AddScaled(Correction(d, E, j), -Dot(d, E[j]), E[j])
  {
  }

  /** The part of d left after removing its projections onto the first n rows of E. */
  function Residual(d: seq<real>, E: seq<seq<real>>, n: nat): (v: seq<real>)
    requires RowsOfLength(E, n, |d|)
    ensures |v| == |d|
  {
    AddScaled(d, 1.0, Correction(d, E, n))
  }

  /** Every entry of v divided by s. */
  function Scaled(v: seq<real>, s: real): (e: seq<real>)
    requires s != 0.0
    ensures |e| == |v|
  {
    seq(|v|, k requires 0 <= k < |v| => v[k] / s)
  }

  /** The first n rows of E have length m, unit norm, and are pairwise orthogonal. */
  ghost predicate Orthonormal(E: seq<seq<real>>, n: int, m: int)
  {
    && RowsOfLength(E, n, m)
    && forall a, b :: 0 <= a < n && 0 <= b < n ==> Dot(E[a], E[b]) == if a == b then 1.0 else 0.0
  }

  /** Row d of the old basis after orthogonalisation against the new rows P: e is the new
      row, s > 0 the length of the residual, and d == s * e + (the projections of d onto
      P), so the old rows are a triangular combination of the new ones with the stretch
      factors on the diagonal. */
  ghost predicate RowDone(d: seq<real>, P: seq<seq<real>>, e: seq<real>, s: real)
  {
    && RowsOfLength(P, |P|, |d|) && |e| == |d|
    && s > 0.0 && s * s == Dot(Residual(d, P, |P|), Residual(d, P, |P|))
    && Reconstructs(d, e, Correction(d, P, |P|), s)
  }

  /** Entry by entry, d is s times e minus the correction r. */
  ghost predicate Reconstructs(d: seq<real>, e: seq<real>, r: seq<real>, s: real)
    requires |e| == |r| == |d|
  {
    forall k :: 0 <= k < |d| ==> d[k] == s * e[k] - r[k]
  }

  lemma {:induction false} DotSelfNonNegative(v: seq<real>)
    ensures Dot(v, v) >= 0.0
    decreases |v|
  {
    if |v| > 0 {
      DotSelfNonNegative(v[1..]);
    }
  }

  /** Only the zero vector has zero squared length. */
  lemma {:induction false} DotSelfZero(v: seq<real>)
    requires Dot(v, v) == 0.0
    ensures forall k :: 0 <= k < |v| ==> v[k] == 0.0
    decreases |v|
  {
    if |v| > 0 {
      DotSelfNonNegative(v[1..]);
      Statistics.SquareSign(v[0]);
      DotSelfZero(v[1..]);
      assert forall k :: 1 <= k < |v| ==> v[k] == v[1..][k - 1];
    }
  }

  lemma SqrtSquares(sqrt: real -> real, x: real)
    requires Statistics.IsSqrt(sqrt) && x >= 0.0
    ensures sqrt(x) >= 0.0 && sqrt(x) * sqrt(x) == x
    ensures sqrt(x) == 0.0 ==> x == 0.0
  {
    Statistics.SqrtZeroIff(sqrt, x);
  }

  lemma MulDiv(s: real, x: real)
    requires s != 0.0
    ensures s * (x / s) == x
  {
  }

  lemma DivideDistributes(a: real, b: real, c: real, s: real)
    requires s != 0.0
    ensures (a / s) * b + c / s == (a * b + c) / s
  {
  }

  lemma SquareOverSquare(x: real, s: real)
    requires s != 0.0 && x == s * s
    ensures (x / s) / s == 1.0
  {
    assert x / s == s;
  }

  lemma {:induction false} DotScaled(v: seq<real>, s: real, x: seq<real>)
    requires s != 0.0 && |v| == |x|
    ensures Dot(Scaled(v, s), x) == Dot(v, x) / s
    decreases |v|
  {
    if |v| > 0 {
      assert Scaled(v, s)[1..] == Scaled(v[1..], s);
      DotScaled(v[1..], s, x[1..]);
      DivideDistributes(v[0], x[0], Dot(v[1..], x[1..]), s);
    }
  }

  /** Against an orthonormal E, the correction cancels the projection of d onto each of
      the rows it has used and nothing of the others. */
  lemma {:induction false} CorrectionAgainst(d: seq<real>, E: seq<seq<real>>, n: nat, i: nat, p: int)
    requires Orthonormal(E, i, |d|) && n <= i && 0 <= p < i
    ensures Dot(Correction(d, E, n), E[p]) == if p < n then -Dot(d, E[p]) else 0.0
  {
    if n == 0 {
      DotOfZeros(Correction(d, E, 0), E[p]);
    } else {
      CorrectionAgainst(d, E, n - 1, i, p);
      DotAddScaled(Correction(d, E, n - 1), -Dot(d, E[n - 1]), E[n - 1], E[p]);
    }
  }

  /** The residual is orthogonal to every row it was orthogonalised against. */
  lemma ResidualOrthogonal(d: seq<real>, E: seq<seq<real>>, i: nat, p: int)
    requires Orthonormal(E, i, |d|) && 0 <= p < i
    ensures Dot(Residual(d, E, i), E[p]) == 0.0
  {
    CorrectionAgainst(d, E, i, i, p);
    DotAddScaled(d, 1.0, Correction(d, E, i), E[p]);
  }

  /** The residual of the next row, scaled to unit length, extends an orthonormal set. */
  lemma ExtendOrthonormal(d: seq<real>, E: seq<seq<real>>, s: real)
    requires Orthonormal(E, |E|, |d|) && s != 0.0
    requires s * s == Dot(Residual(d, E, |E|), Residual(d, E, |E|))
    ensures Orthonormal(E + [Scaled(Residual(d, E, |E|), s)], |E| + 1, |d|)
  {
    var i, v := |E|, Residual(d, E, |E|);
    var e := Scaled(v, s);
    var F := E + [e];
    forall p | 0 <= p < i ensures Dot(e, E[p]) == 0.0 && Dot(E[p], e) == 0.0 {
      ResidualOrthogonal(d, E, i, p);
      DotScaled(v, s, E[p]);
      DotCommutes(E[p], e);
    }
    assert Dot(e, e) == 1.0 by {
      DotScaled(v, s, e);
      DotCommutes(v, e);
      DotScaled(v, s, v);
      assert Dot(e, e) == (Dot(v, v) / s) / s;
      SquareOverSquare(Dot(v, v), s);
    }
    forall a, b | 0 <= a < i + 1 && 0 <= b < i + 1
      ensures Dot(F[a], F[b]) == if a == b then 1.0 else 0.0
    {
      if a < i && b < i {
        assert F[a] == E[a] && F[b] == E[b];
      }
    }
  }

  /** The new row, its stretch and the old row satisfy the reconstruction identity. */
  lemma RowReconstructs(d: seq<real>, E: seq<seq<real>>, s: real)
    requires RowsOfLength(E, |E|, |d|) && s > 0.0
    requires s * s == Dot(Residual(d, E, |E|), Residual(d, E, |E|))
    ensures RowDone(d, E, Scaled(Residual(d, E, |E|), s), s)
  {
    EntriesReconstruct(d, Correction(d, E, |E|), Residual(d, E, |E|), s);
  }

  lemma EntriesReconstruct(d: seq<real>, r: seq<real>, v: seq<real>, s: real)
    requires |d| == |r| && s != 0.0 && v == AddScaled(d, 1.0, r)
    ensures Reconstructs(d, Scaled(v, s), r, s)
  {
    forall k | 0 <= k < |d| ensures d[k] == s * Scaled(v, s)[k] - r[k] {
      assert Scaled(v, s)[k] == v[k] / s && v[k] == d[k] + 1.0 * r[k];
      MulDiv(s, v[k]);
    }
  }

  /** The residual divided by its length, the square root of its squared length,
      extends the orthonormal rows and reconstructs d. */
  lemma UnitRow(d: seq<real>, E: seq<seq<real>>, sqrt: real -> real)
    requires Orthonormal(E, |E|, |d|) && Statistics.IsSqrt(sqrt)
    requires sqrt(Dot(Residual(d, E, |E|), Residual(d, E, |E|))) != 0.0
    ensures var v := Residual(d, E, |E|); var s := sqrt(Dot(v, v));
            Orthonormal(E + [Scaled(v, s)], |E| + 1, |d|) && RowDone(d, E, Scaled(v, s), s)
  {
    var v := Residual(d, E, |E|);
    DotSelfNonNegative(v);
    SqrtSquares(sqrt, Dot(v, v));
    ExtendOrthonormal(d, E, sqrt(Dot(v, v)));
    RowReconstructs(d, E, sqrt(Dot(v, v)));
  }

  /** The dot product of row i of a with row j of b. */
  method RowDot(a: array2<real>, i: int, b: array2<real>, j: int) returns (norm: real)
    requires a.Length1 == b.Length1 && 0 <= i < a.Length0 && 0 <= j < b.Length0
    ensures norm == Dot(Rows(a)[i], Rows(b)[j])
  {
    ghost var x, y := Rows(a)[i], Rows(b)[j];
    norm := 0.0;
    var k := 0;
    while k < a.Length1
      invariant 0 <= k <= a.Length1
      invariant norm == Dot(x[..k], y[..k])
    {
      DotSnoc(x, y, k);
      norm := norm + a[i, k] * b[j, k];
      k := k + 1;
    }
    assert x[..k] == x && y[..k] == y;
  }

  /** diff -= norm * (row j of dnew). */
  method SubtractMultiple(diff: array<real>, norm: real, dnew: array2<real>, j: int)
    requires diff.Length == dnew.Length1 && 0 <= j < dnew.Length0
    modifies diff
    ensures diff[..] == AddScaled(old(diff[..]), -norm, Rows(dnew)[j])
  {
    ghost var r := AddScaled(diff[..], -norm, Rows(dnew)[j]);
    var k := 0;
    while k < diff.Length
      invariant 0 <= k <= diff.Length
      invariant forall c :: 0 <= c < k ==> diff[c] == r[c]
      invariant forall c :: k <= c < diff.Length ==> diff[c] == old(diff[c])
    {
      diff[k] := diff[k] - norm * dnew[j, k];
      k := k + 1;
    }
  }

  /** diff starts at zero: the correction against no rows at all. */
  method ClearDiff(diff: array<real>, ghost d: seq<real>, ghost E: seq<seq<real>>)
    requires |d| == diff.Length
    modifies diff
    ensures diff[..] == Correction(d, E, 0)
  {
    var k := 0;
    while k < diff.Length
      invariant 0 <= k <= diff.Length
      invariant forall c :: 0 <= c < k ==> diff[c] == 0.0
    {
      diff[k] := 0.0;
      k := k + 1;
    }
  }

  /** diff takes in the projection of row i of delta onto row j of dnew. */
  method SubtractProjection(delta: array2<real>, i: int, dnew: array2<real>, j: int, diff: array<real>,
                            ghost d: seq<real>, ghost E: seq<seq<real>>)
    requires delta.Length1 == dnew.Length1 == diff.Length && 0 <= i < delta.Length0 && 0 <= j < dnew.Length0
    requires d == Rows(delta)[i] && E == Rows(dnew) && diff[..] == Correction(d, E, j)
    modifies diff
    ensures diff[..] == Correction(d, E, j + 1)
  {
    var norm := RowDot(delta, i, dnew, j);
    SubtractMultiple(diff, norm, dnew, j);
    CorrectionStep(d, E, j);
  }

  /** diff becomes the correction of row i of delta against the first i rows of dnew. */
  method Project(delta: array2<real>, dnew: array2<real>, i: int, diff: array<real>)
    requires delta.Length1 == dnew.Length1 == diff.Length && 0 <= i < delta.Length0 && i <= dnew.Length0
    modifies diff
    ensures diff[..] == Correction(Rows(delta)[i], Rows(dnew), i)
  {
    ghost var d, E := Rows(delta)[i], Rows(dnew);
    ClearDiff(diff, d, E);
    var j := 0;
    while j < i
      invariant 0 <= j <= i
      invariant diff[..] == Correction(d, E, j)
    {
      SubtractProjection(delta, i, dnew, j, diff, d, E);
      j := j + 1;
    }
  }

  /** The squared length of row i of delta plus diff, summed entry by entry. */
  method SquaredLength(delta: array2<real>, i: int, diff: array<real>) returns (norm: real)
    requires delta.Length1 == diff.Length && 0 <= i < delta.Length0
    ensures norm == Dot(AddScaled(Rows(delta)[i], 1.0, diff[..]), AddScaled(Rows(delta)[i], 1.0, diff[..]))
  {
    ghost var v := AddScaled(Rows(delta)[i], 1.0, diff[..]);
    norm := 0.0;
    var j := 0;
    while j < diff.Length
      invariant 0 <= j <= diff.Length
      invariant norm == Dot(v[..j], v[..j])
    {
      DotSnoc(v, v, j);
      norm := norm + (delta[i, j] + diff[j]) * (delta[i, j] + diff[j]);
      j := j + 1;
    }
    assert v[..j] == v;
  }

  /** Row i of dnew becomes (row i of delta plus diff) divided by norm. */
  method StoreRow(delta: array2<real>, i: int, diff: array<real>, norm: real, dnew: array2<real>)
    requires delta != dnew && delta.Length1 == dnew.Length1 == diff.Length
    requires 0 <= i < delta.Length0 && i < dnew.Length0 && norm != 0.0
    modifies dnew
    ensures Rows(dnew)[i] == Scaled(AddScaled(Rows(delta)[i], 1.0, diff[..]), norm)
    ensures forall r :: 0 <= r < dnew.Length0 && r != i ==> Rows(dnew)[r] == old(Rows(dnew))[r]
  {
    ghost var e := Scaled(AddScaled(Rows(delta)[i], 1.0, diff[..]), norm);
    var j := 0;
    while j < dnew.Length1
      invariant 0 <= j <= dnew.Length1
      invariant forall c :: 0 <= c < j ==> dnew[i, c] == e[c]
      invariant forall r, c :: 0 <= r < dnew.Length0 && r != i && 0 <= c < dnew.Length1 ==> dnew[r, c] == old(dnew[r, c])
    {
      dnew[i, j] := (delta[i, j] + diff[j]) / norm;
      j := j + 1;
    }
    assert Rows(dnew)[i] == e;
    forall r | 0 <= r < dnew.Length0 && r != i ensures Rows(dnew)[r] == old(Rows(dnew))[r] {
      assert Rows(dnew)[r] == old(Rows(dnew))[r];
    }
  }

  /** One row of GramSchmidt: row i of delta is orthogonalised against the finished rows
      E of dnew, its length goes into stretch[i] and, when that is not zero, the row
      divided by it into dnew. */
  method NextRow(delta: array2<real>, dnew: array2<real>, diff: array<real>, stretch: array<real>,
                 i: int, sqrt: real -> real, ghost E: seq<seq<real>>) returns (ok: bool)
    requires delta != dnew && diff != stretch && Statistics.IsSqrt(sqrt)
    requires delta.Length0 == delta.Length1 == dnew.Length0 == dnew.Length1 == diff.Length == stretch.Length
    requires 0 <= i < delta.Length0 && |E| == i && Orthonormal(E, i, delta.Length0)
    requires forall r :: 0 <= r < i ==> Rows(dnew)[r] == E[r]
    modifies dnew, diff, stretch
    ensures forall r :: 0 <= r < stretch.Length && r != i ==> stretch[r] == old(stretch[r])
    ensures forall r :: 0 <= r < dnew.Length0 && r != i ==> Rows(dnew)[r] == old(Rows(dnew))[r]
    ensures ok ==> Orthonormal(E + [Rows(dnew)[i]], i + 1, delta.Length0)
    ensures ok ==> RowDone(Rows(delta)[i], E, Rows(dnew)[i], stretch[i])
    ensures !ok ==> forall k :: 0 <= k < delta.Length0 ==> Residual(Rows(delta)[i], E, i)[k] == 0.0
  {
    ghost var d := Rows(delta)[i];
    assert E == Rows(dnew)[..i];
    Project(delta, dnew, i, diff);
    assert diff[..] == Correction(d, E, i) by {
      DiffPrefix(d, Rows(dnew), i);
    }
    ghost var v := Residual(d, E, i);
    var sq := SquaredLength(delta, i, diff);
    assert sq == Dot(v, v) by {
      assert AddScaled(Rows(delta)[i], 1.0, diff[..]) == v;
    }
    DotSelfNonNegative(v);
    var norm := sqrt(sq);
    stretch[i] := norm;
    if norm == 0.0 {
      SqrtSquares(sqrt, sq);
      DotSelfZero(v);
      return false;
    }
    UnitRow(d, E, sqrt);
    StoreRow(delta, i, diff, norm, dnew);
    ok := true;
  }

  /** The rows of delta, one after the other, orthogonalised against the new rows before
      them and normalised into dnew, their lengths into stretch, until a row has length
      zero. */
  method Orthogonalise(delta: array2<real>, dnew: array2<real>, diff: array<real>, stretch: array<real>,
                       sqrt: real -> real) returns (ok: bool, ghost E: seq<seq<real>>, ghost bad: int)
    requires delta != dnew && diff != stretch && Statistics.IsSqrt(sqrt)
    requires delta.Length0 == delta.Length1 == dnew.Length0 == dnew.Length1 == diff.Length == stretch.Length
    modifies dnew, diff, stretch
    ensures ok ==> |E| == delta.Length0 && Rows(dnew) == E && Orthonormal(E, |E|, |E|)
    ensures ok ==> forall r :: 0 <= r < |E| ==> RowDone(Rows(delta)[r], E[..r], E[r], stretch[r])
    ensures !ok ==> 0 <= bad < delta.Length0 && |E| == bad && Orthonormal(E, bad, delta.Length0)
                    && forall k :: 0 <= k < delta.Length0 ==> Residual(Rows(delta)[bad], E, bad)[k] == 0.0
  {
    var m := delta.Length0;
    ghost var D := Rows(delta);
    E, bad := [], 0;
    var i := 0;
    while i < m
      invariant 0 <= i <= m && |E| == i && Orthonormal(E, i, m)
      invariant forall r :: 0 <= r < i ==> Rows(dnew)[r] == E[r]
      invariant forall r :: 0 <= r < i ==> RowDone(D[r], E[..r], E[r], stretch[r])
    {
      ghost var before := Rows(dnew);
      ok := NextRow(delta, dnew, diff, stretch, i, sqrt, E);
      if !ok {
        bad := i;
        return;
      }
      PrefixExtends(before, Rows(dnew), E);
      DoneExtends(D, E, Rows(dnew)[i], stretch[..]);
      E := E + [Rows(dnew)[i]];
      i := i + 1;
    }
    assert Rows(dnew) == E;
    ok := true;
  }

  /** GramSchmidt: each row of delta, minus its projections onto the rows already
      finished, is divided by its length, which goes into stretch; the new rows replace
      delta. A row that lies in the span of the rows before it has length zero: the model
      stops there and leaves delta as it was. */
  method GramSchmidt(delta: array2<real>, stretch: array<real>, sqrt: real -> real)
    returns (ok: bool, ghost E: seq<seq<real>>, ghost bad: int)
    requires delta.Length0 == delta.Length1 == stretch.Length && Statistics.IsSqrt(sqrt)
    modifies delta, stretch
    ensures ok ==> |E| == delta.Length0 && Rows(delta) == E && Orthonormal(E, |E|, |E|)
    ensures ok ==> forall r :: 0 <= r < |E| ==> RowDone(old(Rows(delta))[r], E[..r], E[r], stretch[r])
    ensures !ok ==> 0 <= bad < delta.Length0 && |E| == bad && Orthonormal(E, bad, delta.Length0)
                    && Rows(delta) == old(Rows(delta))
                    && forall k :: 0 <= k < delta.Length0 ==> Residual(old(Rows(delta))[bad], E, bad)[k] == 0.0
  {
    var m := delta.Length0;
    var dnew := new real[m, m];
    var diff := new real[m];
    ok, E, bad := Orthogonalise(delta, dnew, diff, stretch, sqrt);
    if ok {
      CopyMatrix(dnew, delta);
    }
  }

  /** The rows already done stay done when the next new row is appended. */
  lemma DoneExtends(D: seq<seq<real>>, E: seq<seq<real>>, e: seq<real>, st: seq<real>)
    requires |E| < |D| && |E| < |st|
    requires forall r :: 0 <= r < |E| ==> RowDone(D[r], E[..r], E[r], st[r])
    requires RowDone(D[|E|], E, e, st[|E|])
    ensures forall r :: 0 <= r <= |E| ==> RowDone(D[r], (E + [e])[..r], (E + [e])[r], st[r])
  {
    var F := E + [e];
    forall r | 0 <= r <= |E| ensures RowDone(D[r], F[..r], F[r], st[r]) {
      if r < |E| {
        assert F[..r] == E[..r] && F[r] == E[r];
      } else {
        assert F[..r] == E;
      }
    }
  }

  /** Rows that agreed with E before row |E| was written still agree with E extended by
      the new row. */
  lemma PrefixExtends(A: seq<seq<real>>, B: seq<seq<real>>, E: seq<seq<real>>)
    requires |E| < |A| == |B|
    requires forall r :: 0 <= r < |E| ==> A[r] == E[r]
    requires forall r :: 0 <= r < |B| && r != |E| ==> B[r] == A[r]
    ensures forall r :: 0 <= r <= |E| ==> B[r] == (E + [B[|E|]])[r]
  {
  }

  /** The correction depends only on the rows it has used. */
  lemma {:induction false} DiffPrefix(d: seq<real>, E: seq<seq<real>>, n: nat)
    requires RowsOfLength(E, n, |d|)
    ensures Correction(d, E, n) == Correction(d, E[..n], n)
    decreases n
  {
    if n > 0 {
      DiffPrefix(d, E, n - 1);
      DiffPrefix(d, E[..n], n - 1);
      assert E[..n][..n - 1] == E[..n - 1];
      assert E[..n - 1] == E[..n][..n - 1];
    }
  }
}
