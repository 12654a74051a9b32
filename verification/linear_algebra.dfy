/** Exact-arithmetic vectors and matrices shared by the solver, the regression and
    the tangent propagation. A matrix is a sequence of rows. */
module LinearAlgebra {

  function Abs(x: real): real
  {
    if x < 0.0 then -x else x
  }

  /** Inner product, summed from the first entry. */
  function Dot(a: seq<real>, b: seq<real>): real
    requires |a| == |b|
    decreases |a|
  {
    if |a| == 0 then 0.0 else a[0] * b[0] + Dot(a[1..], b[1..])
  }

  /** The row a + q * p (an elementary row operation). */
  function AddScaled(a: seq<real>, q: real, p: seq<real>): seq<real>
    requires |a| == |p|
  {
    seq(|a|, c requires 0 <= c < |a| => a[c] + q * p[c])
  }

  /** The standard basis vector e_k of length n. */
  function Unit(n: nat, k: int): seq<real>
  {
    seq(n, c => if c == k then 1.0 else 0.0)
  }

  ghost predicate IsSquare(A: seq<seq<real>>)
  {
    forall r :: 0 <= r < |A| ==> |A[r]| == |A|
  }

  /** x solves the linear system A x = b. */
  ghost predicate Solves(A: seq<seq<real>>, b: seq<real>, x: seq<real>)
  {
    && |b| == |A| && |x| == |A|
    && forall r :: 0 <= r < |A| ==> |A[r]| == |x| && Dot(A[r], x) == b[r]
  }

  /** Every solution of (A', b') is a solution of (A, b). */
  ghost predicate SolutionsKept(A': seq<seq<real>>, b': seq<real>, A: seq<seq<real>>, b: seq<real>)
  {
    forall x :: Solves(A', b', x) ==> Solves(A, b, x)
  }

  /** The zero vector of length n. */
  function Zeros(n: nat): seq<real>
  {
    seq(n, _ => 0.0)
  }

  /** A is singular: some nonzero x has A x = 0. */
  ghost predicate Singular(A: seq<seq<real>>)
  {
    exists x :: x != Zeros(|A|) && Solves(A, Zeros(|A|), x)
  }

  /** M and A have the same kernel. */
  ghost predicate SameKernel(M: seq<seq<real>>, A: seq<seq<real>>)
  {
    |M| == |A| && forall x :: Solves(M, Zeros(|M|), x) <==> Solves(A, Zeros(|A|), x)
  }

  lemma SameKernelTrans(M2: seq<seq<real>>, M1: seq<seq<real>>, A: seq<seq<real>>)
    requires SameKernel(M2, M1) && SameKernel(M1, A)
    ensures SameKernel(M2, A)
  {
  }

  /** Matrices with the same kernel are singular together. */
  lemma SameKernelSingular(M: seq<seq<real>>, A: seq<seq<real>>)
    requires SameKernel(M, A)
    ensures Singular(M) <==> Singular(A)
  {
    if Singular(M) {
      var x :| x != Zeros(|M|) && Solves(M, Zeros(|M|), x);
      assert Solves(A, Zeros(|A|), x);
    }
    if Singular(A) {
      var x :| x != Zeros(|A|) && Solves(A, Zeros(|A|), x);
      assert Solves(M, Zeros(|M|), x);
    }
  }

  /** Entries left of column i are zero below the diagonal. */
  ghost predicate ZeroBelow(A: seq<seq<real>>, i: int)
  {
    IsSquare(A) && forall r, c :: 0 <= c < i && c < r < |A| ==> A[r][c] == 0.0
  }

  /** Matrix-vector product. */
  function MatVec(X: seq<seq<real>>, v: seq<real>): (y: seq<real>)
    requires forall k :: 0 <= k < |X| ==> |X[k]| == |v|
    ensures |y| == |X|
  {
    seq(|X|, k requires 0 <= k < |X| => Dot(X[k], v))
  }

  /** Column c of X as a vector. */
  function Column(X: seq<seq<real>>, c: int): seq<real>
    requires 0 <= c && forall k :: 0 <= k < |X| ==> c < |X[k]|
  {
    seq(|X|, k requires 0 <= k < |X| => assert c < |X[k]|; X[k][c])
  }

  /** X is a right inverse of A: A X = I. */
  ghost predicate RightInverse(A: seq<seq<real>>, X: seq<seq<real>>)
  {
    && IsSquare(A) && IsSquare(X) && |X| == |A|
    && forall c :: 0 <= c < |A| ==> Solves(A, Unit(|A|, c), Column(X, c))
  }

  lemma {:induction false} DotAddScaled(a: seq<real>, q: real, p: seq<real>, x: seq<real>)
    requires |a| == |p| == |x|
    ensures Dot(AddScaled(a, q, p), x) == Dot(a, x) + q * Dot(p, x)
    decreases |a|
  {
    if |a| > 0 {
      var r, r' := AddScaled(a, q, p)[1..], AddScaled(a[1..], q, p[1..]);
      assert |r| == |r'|;
      assert forall c :: 0 <= c < |r| ==> r[c] == r'[c];
      assert r == r';
      DotAddScaled(a[1..], q, p[1..], x[1..]);
    }
  }

  lemma {:induction false} DotCommutes(a: seq<real>, b: seq<real>)
    requires |a| == |b|
    ensures Dot(a, b) == Dot(b, a)
    decreases |a|
  {
    if |a| > 0 {
      DotCommutes(a[1..], b[1..]);
    }
  }

  lemma {:induction false} DotSnoc(a: seq<real>, b: seq<real>, k: int)
    requires 0 <= k < |a| == |b|
    ensures Dot(a[..k + 1], b[..k + 1]) == Dot(a[..k], b[..k]) + a[k] * b[k]
    decreases k
  {
    if k > 0 {
      assert a[..k + 1][1..] == a[1..][..k];
      assert b[..k + 1][1..] == b[1..][..k];
      assert a[..k][1..] == a[1..][..k - 1];
      assert b[..k][1..] == b[1..][..k - 1];
      DotSnoc(a[1..], b[1..], k - 1);
    }
  }

  lemma {:induction false} DotSplit(a: seq<real>, b: seq<real>, k: int)
    requires 0 <= k <= |a| == |b|
    ensures Dot(a, b) == Dot(a[..k], b[..k]) + Dot(a[k..], b[k..])
    decreases k
  {
    if k > 0 {
      assert a[..k][1..] == a[1..][..k - 1];
      assert b[..k][1..] == b[1..][..k - 1];
      assert a[k..] == a[1..][k - 1..];
      assert b[k..] == b[1..][k - 1..];
      DotSplit(a[1..], b[1..], k - 1);
    }
  }

  lemma {:induction false} DotOfZeros(a: seq<real>, b: seq<real>)
    requires |a| == |b|
    requires forall c :: 0 <= c < |a| ==> a[c] == 0.0
    ensures Dot(a, b) == 0.0
    decreases |a|
  {
    if |a| > 0 {
      DotOfZeros(a[1..], b[1..]);
    }
  }

  /** An inner product whose every term has a zero factor is zero. */
  lemma {:induction false} DotZeroTerms(a: seq<real>, b: seq<real>)
    requires |a| == |b|
    requires forall c :: 0 <= c < |a| ==> a[c] == 0.0 || b[c] == 0.0
    ensures Dot(a, b) == 0.0
    decreases |a|
  {
    if |a| > 0 {
      DotZeroTerms(a[1..], b[1..]);
    }
  }

  /** The entry that e_k picks out. */
  lemma {:induction false} DotUnit(n: nat, k: int, v: seq<real>)
    requires 0 <= k < n == |v|
    ensures Dot(Unit(n, k), v) == v[k]
  {
    DotSplit(Unit(n, k), v, k);
    DotOfZeros(Unit(n, k)[..k], v[..k]);
    assert Unit(n, k)[k..][1..] == Unit(n - k - 1, -1);
    DotOfZeros(Unit(n - k - 1, -1), v[k..][1..]);
  }

  /** Swapping two equations together with their right-hand sides keeps every solution. */
  lemma SwapKeepsSolutions(A: seq<seq<real>>, b: seq<real>, i: int, k: int)
    requires 0 <= i < |A| && 0 <= k < |A| && |b| == |A|
    ensures SolutionsKept(A[i := A[k]][k := A[i]], b[i := b[k]][k := b[i]], A, b)
  {
    var A', b' := A[i := A[k]][k := A[i]], b[i := b[k]][k := b[i]];
    forall x | Solves(A', b', x) ensures Solves(A, b, x) {
      forall r | 0 <= r < |A| ensures |A[r]| == |x| && Dot(A[r], x) == b[r] {
        var r' := if r == i then k else if r == k then i else r;
        assert A'[r'] == A[r] && b'[r'] == b[r];
      }
    }
  }

  /** Adding a multiple q[r] of equation i to other equations r keeps every solution. */
  lemma CombinationKeepsSolutions(A: seq<seq<real>>, b: seq<real>, A': seq<seq<real>>, b': seq<real>,
                                  i: int, q: seq<real>)
    requires |A'| == |A| == |b| == |b'| == |q| && 0 <= i < |A|
    requires forall r :: 0 <= r < |A| ==> |A[r]| == |A[i]|
    requires A'[i] == A[i] && b'[i] == b[i]
    requires forall r :: 0 <= r < |A| && r != i ==>
               || (A'[r] == A[r] && b'[r] == b[r])
               || (A'[r] == AddScaled(A[r], q[r], A[i]) && b'[r] == b[r] + q[r] * b[i])
    ensures SolutionsKept(A', b', A, b)
  {
    forall x | Solves(A', b', x) ensures Solves(A, b, x) {
      forall r | 0 <= r < |A| ensures |A[r]| == |x| && Dot(A[r], x) == b[r] {
        if r != i && !(A'[r] == A[r] && b'[r] == b[r]) {
          DotAddScaled(A[r], q[r], A[i], x);
        }
      }
    }
  }

  /** Swapping two rows leaves the kernel as it is. */
  lemma SwapKeepsKernel(A: seq<seq<real>>, i: int, k: int)
    requires 0 <= i < |A| && 0 <= k < |A|
    ensures SameKernel(A[i := A[k]][k := A[i]], A)
  {
    var A' := A[i := A[k]][k := A[i]];
    forall x ensures Solves(A', Zeros(|A'|), x) <==> Solves(A, Zeros(|A|), x) {
      if Solves(A', Zeros(|A'|), x) {
        forall r | 0 <= r < |A| ensures |A[r]| == |x| && Dot(A[r], x) == 0.0 {
          var r' := if r == i then k else if r == k then i else r;
          assert A'[r'] == A[r];
        }
      }
      if Solves(A, Zeros(|A|), x) {
        forall r | 0 <= r < |A| ensures |A'[r]| == |x| && Dot(A'[r], x) == 0.0 {
          var r' := if r == i then k else if r == k then i else r;
          assert A'[r] == A[r'];
        }
      }
    }
  }

  /** Adding multiples q[r] of row i to other rows r leaves the kernel as it is: the
      operation is undone by subtracting the same multiples. */
  lemma CombinationKeepsKernel(A: seq<seq<real>>, A': seq<seq<real>>, i: int, q: seq<real>)
    requires |A'| == |A| == |q| && 0 <= i < |A|
    requires forall r :: 0 <= r < |A| ==> |A[r]| == |A[i]|
    requires A'[i] == A[i]
    requires forall r :: 0 <= r < |A| && r != i ==> A'[r] == A[r] || A'[r] == AddScaled(A[r], q[r], A[i])
    ensures SameKernel(A', A)
  {
    forall x ensures Solves(A', Zeros(|A'|), x) <==> Solves(A, Zeros(|A|), x) {
      if |x| == |A[i]| {
        forall r | 0 <= r < |A| && A'[r] != A[r]
          ensures Dot(A'[r], x) == Dot(A[r], x) + q[r] * Dot(A[i], x)
        {
          DotAddScaled(A[r], q[r], A[i], x);
        }
      }
    }
  }

  /** The linear combination a[0] * X[0] + a[1] * X[1] + ... of the rows of X. */
  function LinComb(a: seq<real>, X: seq<seq<real>>, n: nat): (y: seq<real>)
    requires |a| == |X|
    requires forall k :: 0 <= k < |X| ==> |X[k]| == n
    ensures |y| == n
    decreases |a|
  {
    if |a| == 0 then seq(n, _ => 0.0) else AddScaled(LinComb(a[1..], X[1..], n), a[0], X[0])
  }

  lemma {:induction false} LinCombEntry(a: seq<real>, X: seq<seq<real>>, n: nat, c: int)
    requires |a| == |X|
    requires forall k :: 0 <= k < |X| ==> |X[k]| == n
    requires 0 <= c < n
    ensures LinComb(a, X, n)[c] == Dot(a, Column(X, c))
    decreases |a|
  {
    if |a| > 0 {
      assert Column(X, c)[1..] == Column(X[1..], c);
      LinCombEntry(a[1..], X[1..], n, c);
    }
  }

  /** Summation order can be exchanged: a . (X v) == (a X) . v. */
  lemma {:induction false} DotMatVec(a: seq<real>, X: seq<seq<real>>, v: seq<real>)
    requires |a| == |X|
    requires forall k :: 0 <= k < |X| ==> |X[k]| == |v|
    ensures Dot(a, MatVec(X, v)) == Dot(LinComb(a, X, |v|), v)
    decreases |a|
  {
    if |a| == 0 {
      DotOfZeros(seq(|v|, _ => 0.0), v);
    } else {
      var y := MatVec(X, v);
      var L := LinComb(a[1..], X[1..], |v|);
      assert y[1..] == MatVec(X[1..], v);
      assert Dot(a, y) == a[0] * Dot(X[0], v) + Dot(a[1..], y[1..]);
      DotMatVec(a[1..], X[1..], v);
      assert LinComb(a, X, |v|) == AddScaled(L, a[0], X[0]);
      DotAddScaled(L, a[0], X[0], v);
    }
  }

  /** With a right inverse X of A, the vector X v solves A y = v for every v. */
  lemma RightInverseSolvesAll(A: seq<seq<real>>, X: seq<seq<real>>, v: seq<real>)
    requires RightInverse(A, X) && |v| == |A|
    ensures Solves(A, v, MatVec(X, v))
  {
    var n := |A|;
    forall r | 0 <= r < n ensures |A[r]| == n && Dot(A[r], MatVec(X, v)) == v[r] {
      DotMatVec(A[r], X, v);
      forall c | 0 <= c < n ensures LinComb(A[r], X, n)[c] == Unit(n, r)[c] {
        LinCombEntry(A[r], X, n, c);
        assert Solves(A, Unit(n, c), Column(X, c));
      }
      assert LinComb(A[r], X, n) == Unit(n, r);
      DotUnit(n, r, v);
    }
  }
}
