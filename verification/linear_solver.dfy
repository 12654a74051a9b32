/** Gaussian elimination with partial pivoting (SolveLe) and inversion by one solve
    per identity column (InvertMatrix). The jagged matrix double[][] is an array of
    rows; a row is a sequence value, so exchanging two entries of the outer array is
    exactly the exchange of two row references. */
module LinearSolver {
  import opened LinearAlgebra

  /** How a solve ends. SingularPivot is the "Singular matrix" exception; ZeroFinalPivot
      is the unguarded last division, where the source carries Inf/NaN on. */
  datatype SolveStatus = Solved | SingularPivot | ZeroFinalPivot

  ghost predicate SquareRows(m: array<seq<real>>)
    reads m
  {
    forall r :: 0 <= r < m.Length ==> |m[r]| == m.Length
  }

  /** The pivot search of step i: the row of largest |m[j][i]| over j >= i, the first one
      on ties, since a later row replaces the candidate only when strictly larger. */
  method PivotRow(m: array<seq<real>>, i: int) returns (maxi: int)
    requires SquareRows(m) && 0 <= i < m.Length
    ensures i <= maxi < m.Length
    ensures forall j :: i <= j < m.Length ==> Abs(m[j][i]) <= Abs(m[maxi][i])
    ensures forall j :: i <= j < maxi ==> Abs(m[j][i]) < Abs(m[maxi][i])
  {
    var max := Abs(m[i][i]);
    maxi := i;
    var j := i + 1;
    while j < m.Length
      invariant i < j <= m.Length && i <= maxi < j
      invariant max == Abs(m[maxi][i])
      invariant forall k :: i <= k < j ==> Abs(m[k][i]) <= max
      invariant forall k :: i <= k < maxi ==> Abs(m[k][i]) < max
    {
      var h := Abs(m[j][i]);
      if h > max {
        max := h;
        maxi := j;
      }
      j := j + 1;
    }
  }

  /** Exchanges rows i and k of the matrix together with entries i and k of the vector. */
  method SwapRows(m: array<seq<real>>, v: array<real>, i: int, k: int)
    requires 0 <= i < m.Length && 0 <= k < m.Length && v.Length == m.Length
    modifies m, v
    ensures m[..] == old(m[..])[i := old(m[k])][k := old(m[i])]
    ensures v[..] == old(v[..])[i := old(v[k])][k := old(v[i])]
  {
    var mswap := m[i];
    m[i] := m[k];
    m[k] := mswap;
    var vswap := v[i];
    v[i] := v[k];
    v[k] := vswap;
  }

  /** One elimination step below the nonzero pivot m[i][i]: every later row j gets
      q = -m[j][i] / pivot times row i added (column i is set to 0 outright). */
  method EliminateColumn(m: array<seq<real>>, v: array<real>, i: int)
    requires SquareRows(m) && v.Length == m.Length && 0 <= i < m.Length
    requires ZeroBelow(m[..], i) && m[i][i] != 0.0
    modifies m, v
    ensures SquareRows(m) && ZeroBelow(m[..], i + 1)
    ensures forall r :: 0 <= r <= i ==> m[r] == old(m[r]) && v[r] == old(v[r])
    ensures SolutionsKept(m[..], v[..], old(m[..]), old(v[..]))
    ensures SameKernel(m[..], old(m[..]))
  {
    ghost var A, b := m[..], v[..];
    ghost var qs := seq(m.Length, _ => 0.0);
    var n := m.Length;
    var hvec := m[i];
    var pivot := hvec[i];
    var j := i + 1;
    while j < n
      invariant i < j <= n && |qs| == n
      invariant EliminatedUpTo(A, b, m[..], v[..], qs, i, j)
    {
      var q := -m[j][i] / pivot;
      ghost var M, V := m[..], v[..];
      CombineRow(m, j, i, q, hvec);
      CombinedRow(M[j], m[j], q, hvec, i);
      AddMultiple(v, j, q, i, V);
      EliminatedOneMore(A, b, M, V, m[..], v[..], qs, q, i, j);
      qs := qs[j := q];
      j := j + 1;
    }
    EliminatedAll(A, b, m[..], v[..], qs, i);
  }

  /** Right-hand side entry j gains q times entry i. */
  method AddMultiple(v: array<real>, j: int, q: real, i: int, ghost V: seq<real>)
    requires 0 <= i < v.Length && 0 <= j < v.Length && v[..] == V
    modifies v
    ensures v[..] == V[j := V[j] + q * V[i]]
  {
    v[j] := v[j] + q * v[i];
  }

  /** Rows i+1 .. j-1 hold row + qs[r] * row i (entry i zero), the others are as in (A, b). */
  ghost predicate EliminatedUpTo(A: seq<seq<real>>, b: seq<real>, M: seq<seq<real>>, V: seq<real>,
                                 qs: seq<real>, i: int, j: int)
  {
    && ZeroBelow(A, i) && |b| == |M| == |V| == |qs| == |A| && 0 <= i < j <= |A|
    && (forall r :: 0 <= r <= i || j <= r < |A| ==> M[r] == A[r] && V[r] == b[r])
    && (forall r :: i < r < j ==>
          M[r] == AddScaled(A[r], qs[r], A[i]) && M[r][i] == 0.0 && V[r] == b[r] + qs[r] * b[i])
  }

  lemma EliminatedOneMore(A: seq<seq<real>>, b: seq<real>, M: seq<seq<real>>, V: seq<real>,
                          M': seq<seq<real>>, V': seq<real>, qs: seq<real>, q: real, i: int, j: int)
    requires EliminatedUpTo(A, b, M, V, qs, i, j) && j < |A|
    requires M' == M[j := AddScaled(M[j], q, M[i])] && M'[j][i] == 0.0
    requires V' == V[j := V[j] + q * V[i]]
    ensures EliminatedUpTo(A, b, M', V', qs[j := q], i, j + 1)
  {
  }

  lemma EliminatedAll(A: seq<seq<real>>, b: seq<real>, M: seq<seq<real>>, V: seq<real>, qs: seq<real>, i: int)
    requires EliminatedUpTo(A, b, M, V, qs, i, |A|)
    ensures IsSquare(M) && ZeroBelow(M, i + 1)
    ensures SolutionsKept(M, V, A, b)
    ensures SameKernel(M, A)
  {
    forall r | 0 <= r < |M| ensures |M[r]| == |M| {
      if i < r { assert |AddScaled(A[r], qs[r], A[i])| == |A|; }
    }
    CombinationKeepsSolutions(A, b, M, V, i, qs);
    CombinationKeepsKernel(A, M, i, qs);
    ColumnEliminated(A, M, qs, i);
  }

  /** The row that CombineRow leaves is row + q * p, because p is zero left of column i
      and q cancels entry i. */
  lemma CombinedRow(row: seq<real>, row': seq<real>, q: real, p: seq<real>, i: int)
    requires 0 <= i < |row| == |row'| == |p| && p[i] != 0.0 && q == -row[i] / p[i]
    requires forall c :: 0 <= c < i ==> p[c] == 0.0
    requires forall c :: 0 <= c < |p| ==>
               row'[c] == if c < i then row[c] else if c == i then 0.0 else row[c] + q * p[c]
    ensures row' == AddScaled(row, q, p)
  {
    assert row[i] + q * p[i] == 0.0;
    forall c | 0 <= c < |p| ensures row'[c] == AddScaled(row, q, p)[c] {
      if c < i {
        assert p[c] == 0.0;
      }
    }
  }

  /** After step i the entries left of column i + 1 are zero below the diagonal. */
  lemma ColumnEliminated(A: seq<seq<real>>, A': seq<seq<real>>, qs: seq<real>, i: int)
    requires ZeroBelow(A, i) && 0 <= i < |A| == |A'| == |qs|
    requires forall r :: 0 <= r <= i ==> A'[r] == A[r]
    requires forall r :: i < r < |A| ==> A'[r] == AddScaled(A[r], qs[r], A[i]) && A'[r][i] == 0.0
    ensures ZeroBelow(A', i + 1)
  {
    forall r, c | 0 <= c < i + 1 && c < r < |A'| ensures A'[r][c] == 0.0 {
      if c < i && r > i {
        assert A[r][c] == 0.0 && A[i][c] == 0.0;
      }
    }
  }

  /** Row j of the elimination: entry i becomes 0 and every later entry k gets
      q * p[k] added. */
  method CombineRow(m: array<seq<real>>, j: int, i: int, q: real, p: seq<real>)
    requires 0 <= j < m.Length && 0 <= i < |m[j]| == |p|
    modifies m
    ensures forall r :: 0 <= r < m.Length && r != j ==> m[r] == old(m[r])
    ensures |m[j]| == |p|
    ensures forall c :: 0 <= c < |p| ==>
              m[j][c] == if c < i then old(m[j][c]) else if c == i then 0.0 else old(m[j][c]) + q * p[c]
  {
    ghost var row := m[j];
    m[j] := m[j][i := 0.0];
    var k := i + 1;
    while k < |p|
      invariant i < k <= |p| && |m[j]| == |p|
      invariant forall r :: 0 <= r < m.Length && r != j ==> m[r] == old(m[r])
      invariant forall c :: 0 <= c <= i || k <= c < |p| ==> m[j][c] == (if c == i then 0.0 else row[c])
      invariant forall c :: i < c < k ==> m[j][c] == row[c] + q * p[c]
    {
      m[j] := m[j][k := m[j][k] + q * p[k]];
      k := k + 1;
    }
  }

  /** Back substitution on an upper-triangular system with nonzero diagonal, in place on v. */
  method BackSubstitute(m: array<seq<real>>, v: array<real>)
    requires SquareRows(m) && v.Length == m.Length >= 1
    requires ZeroBelow(m[..], m.Length)
    requires forall r :: 0 <= r < m.Length ==> m[r][r] != 0.0
    modifies v
    ensures Solves(m[..], old(v[..]), v[..])
  {
    ghost var U, b := m[..], v[..];
    var n := m.Length;
    v[n - 1] := v[n - 1] / m[n - 1][n - 1];
    BackSolvedLast(U, b, v[..]);
    var i := n - 2;
    while i >= 0
      invariant -1 <= i <= n - 2
      invariant BackSolvedFrom(U, b, v[..], i)
    {
      ghost var X := v[..];
      var hvec := m[i];
      SubtractKnown(hvec, v, i);
      v[i] := v[i] / hvec[i];
      BackSolvedOneMore(U, b, X, v[..], i);
      i := i - 1;
    }
    BackSolvedAll(U, b, v[..]);
  }

  /** Entries 0..i of V still hold b; every later row r holds as an equation on V[r..]. */
  ghost predicate BackSolvedFrom(U: seq<seq<real>>, b: seq<real>, V: seq<real>, i: int)
  {
    && ZeroBelow(U, |U|) && |b| == |V| == |U| && -1 <= i < |U|
    && (forall r :: 0 <= r < |U| ==> U[r][r] != 0.0)
    && (forall r :: 0 <= r <= i ==> V[r] == b[r])
    && (forall r :: i < r < |U| ==> Dot(U[r][r..], V[r..]) == b[r])
  }

  lemma BackSolvedLast(U: seq<seq<real>>, b: seq<real>, V: seq<real>)
    requires ZeroBelow(U, |U|) && |b| == |V| == |U| >= 1
    requires forall r :: 0 <= r < |U| ==> U[r][r] != 0.0
    requires forall r :: 0 <= r < |U| - 1 ==> V[r] == b[r]
    requires V[|U| - 1] == b[|U| - 1] / U[|U| - 1][|U| - 1]
    ensures BackSolvedFrom(U, b, V, |U| - 2)
  {
    var n := |U|;
    assert U[n - 1][n - 1..] == [U[n - 1][n - 1]] && V[n - 1..] == [V[n - 1]];
  }

  lemma BackSolvedOneMore(U: seq<seq<real>>, b: seq<real>, X: seq<real>, V: seq<real>, i: int)
    requires BackSolvedFrom(U, b, X, i) && 0 <= i && |V| == |X|
    requires forall r :: 0 <= r < |V| && r != i ==> V[r] == X[r]
    requires V[i] == (X[i] - Dot(U[i][i + 1..], X[i + 1..])) / U[i][i]
    ensures BackSolvedFrom(U, b, V, i - 1)
  {
    SolvedRow(U[i], X, V, i, b[i]);
    forall r | i < r < |U| ensures Dot(U[r][r..], V[r..]) == b[r] {
      assert V[r..] == X[r..];
    }
  }

  lemma BackSolvedAll(U: seq<seq<real>>, b: seq<real>, V: seq<real>)
    requires BackSolvedFrom(U, b, V, -1)
    ensures Solves(U, b, V)
  {
    forall r | 0 <= r < |U| ensures |U[r]| == |V| && Dot(U[r], V) == b[r] {
      DotSplit(U[r], V, r);
      DotOfZeros(U[r][..r], V[..r]);
    }
  }

  /** The inner loop of back substitution: v[i] -= a[j] * v[j] for j = n-1 down to i+1. */
  method SubtractKnown(a: seq<real>, v: array<real>, i: int)
    requires 0 <= i < v.Length == |a|
    modifies v
    ensures forall r :: 0 <= r < v.Length && r != i ==> v[r] == old(v[r])
    ensures v[i] == old(v[i]) - Dot(a[i + 1..], old(v[..])[i + 1..])
  {
    ghost var X := v[..];
    var j := v.Length - 1;
    while j > i
      invariant i <= j <= v.Length - 1
      invariant forall r :: 0 <= r < v.Length && r != i ==> v[r] == X[r]
      invariant v[i] == X[i] - Dot(a[j + 1..], X[j + 1..])
    {
      SuffixDotStep(a, X, j);
      v[i] := v[i] - a[j] * v[j];
      j := j - 1;
    }
  }

  lemma SuffixDotStep(a: seq<real>, x: seq<real>, j: int)
    requires 0 <= j < |a| == |x|
    ensures Dot(a[j..], x[j..]) == a[j] * x[j] + Dot(a[j + 1..], x[j + 1..])
  {
    assert a[j..][1..] == a[j + 1..] && x[j..][1..] == x[j + 1..];
  }

  /** Row i of the triangular system holds once x[i] is set from the later entries. */
  lemma SolvedRow(a: seq<real>, X: seq<real>, x: seq<real>, i: int, bi: real)
    requires 0 <= i < |a| == |X| == |x| && a[i] != 0.0
    requires forall r :: 0 <= r < |x| && r != i ==> x[r] == X[r]
    requires x[i] == (bi - Dot(a[i + 1..], X[i + 1..])) / a[i]
    ensures Dot(a[i..], x[i..]) == bi
  {
    SuffixDotStep(a, x, i);
    assert x[i + 1..] == X[i + 1..];
  }

  /** An upper-triangular matrix with a nonzero diagonal has only the zero vector in
      its kernel. */
  lemma TriangularNonsingular(U: seq<seq<real>>)
    requires ZeroBelow(U, |U|) && forall r :: 0 <= r < |U| ==> U[r][r] != 0.0
    ensures !Singular(U)
  {
    forall x | Solves(U, Zeros(|U|), x) ensures x == Zeros(|U|) {
      KernelZeroFrom(U, x, 0);
    }
  }

  /** Entries k.. of a kernel vector of a triangular matrix with nonzero diagonal are
      zero, row by row from the last. */
  lemma {:induction false} KernelZeroFrom(U: seq<seq<real>>, x: seq<real>, k: int)
    requires ZeroBelow(U, |U|) && forall r :: 0 <= r < |U| ==> U[r][r] != 0.0
    requires Solves(U, Zeros(|U|), x) && 0 <= k <= |U|
    ensures forall c :: k <= c < |U| ==> x[c] == 0.0
    decreases |U| - k
  {
    if k < |U| {
      KernelZeroFrom(U, x, k + 1);
      DotSplit(U[k], x, k);
      DotZeroTerms(U[k][..k], x[..k]);
      SuffixDotStep(U[k], x, k);
      DotZeroTerms(U[k][k + 1..], x[k + 1..]);
      NonzeroFactor(U[k][k], x[k]);
    }
  }

  lemma NonzeroFactor(a: real, y: real)
    requires a != 0.0 && a * y == 0.0
    ensures y == 0.0
  {
  }

  /** When column i is zero from the diagonal down and the diagonal left of it is
      nonzero, the matrix is singular: x[i] = 1, x[c] = 0 past i, and x[r] for r < i by
      back substitution solve M x = 0. */
  lemma KernelVector(M: seq<seq<real>>, i: int)
    requires ZeroBelow(M, i) && 0 <= i < |M|
    requires forall r :: 0 <= r < i ==> M[r][r] != 0.0
    requires forall r :: i <= r < |M| ==> M[r][i] == 0.0
    ensures Singular(M)
  {
    var n := |M|;
    var x := Unit(n, i);
    var r := i - 1;
    while r >= 0
      invariant -1 <= r < i && |x| == n && x[i] == 1.0
      invariant forall c :: i < c < n ==> x[c] == 0.0
      invariant forall k :: r < k < i ==> Dot(M[k][k..], x[k..]) == 0.0
    {
      var X := x;
      x := X[r := (0.0 - Dot(M[r][r + 1..], X[r + 1..])) / M[r][r]];
      SolvedRow(M[r], X, x, r, 0.0);
      forall k | r < k < i ensures Dot(M[k][k..], x[k..]) == 0.0 {
        assert x[k..] == X[k..];
      }
      r := r - 1;
    }
    KernelSolves(M, i, x);
    assert x[i] != Zeros(n)[i];
  }

  /** The vector KernelVector builds solves M x = 0: rows above i by back substitution,
      the others because each of their terms has a zero factor. */
  lemma KernelSolves(M: seq<seq<real>>, i: int, x: seq<real>)
    requires ZeroBelow(M, i) && 0 <= i < |M| == |x|
    requires forall r :: i <= r < |M| ==> M[r][i] == 0.0
    requires forall c :: i < c < |x| ==> x[c] == 0.0
    requires forall k :: 0 <= k < i ==> Dot(M[k][k..], x[k..]) == 0.0
    ensures Solves(M, Zeros(|M|), x)
  {
    forall k | 0 <= k < |M| ensures |M[k]| == |x| && Dot(M[k], x) == 0.0 {
      if k < i {
        DotSplit(M[k], x, k);
        DotZeroTerms(M[k][..k], x[..k]);
      } else {
        DotZeroTerms(M[k], x);
      }
    }
  }

  /** SolveLe: forward elimination with partial pivoting, then back substitution.
      A solve that completes leaves in v a solution of the original system; it completes
      exactly when the matrix is nonsingular, and each failure status marks a singular
      matrix. */
  method SolveLe(m: array<seq<real>>, v: array<real>) returns (status: SolveStatus)
    requires SquareRows(m) && v.Length == m.Length >= 1
    modifies m, v
    ensures SquareRows(m)
    ensures status == Solved ==> Solves(old(m[..]), old(v[..]), v[..])
    ensures status == SingularPivot ==>
              exists i :: 0 <= i < m.Length - 1 && ZeroBelow(m[..], i) &&
                          forall r :: i <= r < m.Length ==> m[r][i] == 0.0
    ensures status == ZeroFinalPivot ==>
              ZeroBelow(m[..], m.Length) && m[m.Length - 1][m.Length - 1] == 0.0 &&
              SolutionsKept(m[..], v[..], old(m[..]), old(v[..]))
    ensures status == Solved <==> !Singular(old(m[..]))
  {
    ghost var A0, b0 := m[..], v[..];
    var n := m.Length;
    var i := 0;
    while i < n - 1
      invariant 0 <= i <= n - 1
      invariant SquareRows(m) && ZeroBelow(m[..], i)
      invariant forall r :: 0 <= r < i ==> m[r][r] != 0.0
      invariant SolutionsKept(m[..], v[..], A0, b0)
      invariant SameKernel(m[..], A0)
    {
      var maxi := PivotRow(m, i);
      if maxi != i {
        ghost var A, b := m[..], v[..];
        SwapRows(m, v, i, maxi);
        SwapKeepsSolutions(A, b, i, maxi);
        SwapKeepsKernel(A, i, maxi);
        SameKernelTrans(m[..], A, A0);
      }
      var pivot := m[i][i];
      if Abs(pivot) == 0.0 {
        KernelVector(m[..], i);
        SameKernelSingular(m[..], A0);
        return SingularPivot;
      }
      ghost var A := m[..];
      EliminateColumn(m, v, i);
      SameKernelTrans(m[..], A, A0);
      i := i + 1;
    }
    if m[n - 1][n - 1] == 0.0 {
      KernelVector(m[..], n - 1);
      SameKernelSingular(m[..], A0);
      return ZeroFinalPivot;
    }
    TriangularNonsingular(m[..]);
    SameKernelSingular(m[..], A0);
    BackSubstitute(m, v);
    return Solved;
  }

  /** Row r of a square array2 as a sequence. */
  ghost function Rows(a: array2<real>): (X: seq<seq<real>>)
    reads a
    ensures |X| == a.Length0 && forall r :: 0 <= r < |X| ==> |X[r]| == a.Length1
  {
    seq(a.Length0, r requires 0 <= r < a.Length0 reads a => seq(a.Length1, c requires 0 <= c < a.Length1 reads a => a[r, c]))
  }

  /** The system for column i of the inverse: a copy of mat and the unit vector e_i. */
  method LoadSystem(mat: array<seq<real>>, hmat: array<seq<real>>, vec: array<real>, i: int)
    requires hmat != mat && hmat.Length == mat.Length == vec.Length && 0 <= i < mat.Length
    modifies hmat, vec
    ensures hmat[..] == mat[..] && vec[..] == Unit(mat.Length, i)
  {
    var j := 0;
    while j < mat.Length
      invariant 0 <= j <= mat.Length
      invariant forall r :: 0 <= r < j ==> hmat[r] == mat[r] && vec[r] == (if r == i then 1.0 else 0.0)
    {
      vec[j] := if i == j then 1.0 else 0.0;
      hmat[j] := mat[j];
      j := j + 1;
    }
  }

  /** Column i of imat becomes vec; the other columns keep their entries. */
  method StoreColumn(imat: array2<real>, vec: array<real>, i: int)
    requires imat.Length0 == vec.Length && 0 <= i < imat.Length1
    modifies imat
    ensures forall r :: 0 <= r < imat.Length0 ==> imat[r, i] == vec[r]
    ensures forall r, c :: 0 <= r < imat.Length0 && 0 <= c < imat.Length1 && c != i ==> imat[r, c] == old(imat[r, c])
  {
    var j := 0;
    while j < imat.Length0
      invariant 0 <= j <= imat.Length0
      invariant forall r :: 0 <= r < j ==> imat[r, i] == vec[r]
      invariant forall r, c :: 0 <= r < imat.Length0 && 0 <= c < imat.Length1 && c != i ==> imat[r, c] == old(imat[r, c])
    {
      imat[j, i] := vec[j];
      j := j + 1;
    }
  }

  /** InvertMatrix: solves mat x = e_i on a fresh copy for every column i and stores x
      as column i of the result, which is then a right inverse of mat. It succeeds
      exactly when mat is nonsingular. */
  method InvertMatrix(mat: array<seq<real>>) returns (status: SolveStatus, imat: array2<real>)
    requires SquareRows(mat) && mat.Length >= 1
    ensures imat.Length0 == mat.Length && imat.Length1 == mat.Length
    ensures status == Solved ==> RightInverse(mat[..], Rows(imat))
    ensures status == Solved <==> !Singular(mat[..])
  {
    var size := mat.Length;
    var vec := new real[size];
    var hmat := new seq<real>[size](_ => []);
    imat := new real[size, size];
    ghost var cols: seq<seq<real>> := [];
    var i := 0;
    while i < size
      invariant 0 <= i <= size && |cols| == i
      invariant forall c :: 0 <= c < i ==> |cols[c]| == size && Solves(mat[..], Unit(size, c), cols[c])
      invariant forall r, c :: 0 <= r < size && 0 <= c < i ==> imat[r, c] == cols[c][r]
      invariant i > 0 ==> !Singular(mat[..])
    {
      LoadSystem(mat, hmat, vec, i);
      status := SolveLe(hmat, vec);
      if status != Solved {
        return;
      }
      cols := cols + [vec[..]];
      StoreColumn(imat, vec, i);
      i := i + 1;
    }
    status := Solved;
    forall c | 0 <= c < size ensures Solves(mat[..], Unit(size, c), Column(Rows(imat), c)) {
      assert Column(Rows(imat), c) == cols[c];
    }
  }
}
