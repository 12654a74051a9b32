/** The Jacobian-method estimator of the Lyapunov spectrum: the object, its constructor
    guard, the buffers the driver allocates, and make_dynamics, which grows the
    neighbourhood radius until Sort accepts a neighbourhood of the current point, fits the
    local linear model on it and accumulates the forecast error. */
module Jakobian {
  import opened LinearAlgebra
  import opened LinearSolver
  import opened Embedding
  import opened Selection
  import opened Radius
  import opened Regression

  /** How make_dynamics ends. NotEnoughNeighbours is the "Not enough neighbors" exception;
      Unsolvable is a solve of InvertMatrix that did not complete. */
  datatype Outcome = Fitted | NotEnoughNeighbours | Unsolvable(status: SolveStatus)

  /** What the box-assisted neighbour search may return for the query point act: points
      with a full delay vector and a successor, at most one per series point slot of the
      result buffer, the query point at most once. */
  ghost predicate Candidates(s: seq<real>, idx: seq<int>, act: int, cs: seq<int>)
  {
    |cs| <= |s| && AllFittable(s, idx, cs) && multiset(cs)[act] <= 1
  }

  /** The state one trial leaves in the distance buffer ds and the result buffer fd:
      with more than minNeighbors candidates cs, Sort ranked them; otherwise cs itself
      is the result. */
  ghost predicate TrialOutcome(s: seq<real>, idx: seq<int>, act: int, minNeighbors: int, epsset: bool,
                               epsmin: real, cs: seq<int>, ds: seq<real>, fd: seq<int>,
                               nfound: int, foundeps: real, enough: bool)
  {
    if |cs| > minNeighbors then
      Ranked(s, idx, act, minNeighbors, epsset, epsmin, cs, ds, fd, foundeps, nfound, enough)
    else !enough && nfound == |cs| <= |fd| && fd[..nfound] == cs
  }

  /** What the latest ranking of the radius loop left: the trial it happened in, the
      radius Sort returned, its distances and points, and its neighbour count and verdict.
      NoRanking stands for the state before any trial was ranked, with radius 0.0. */
  datatype Ranking = NoRanking | RankedAt(trial: nat, ds: seq<real>, fd: seq<int>, nfound: int, enough: bool)

  /** r is the latest ranking among trials 0 .. k - 1 of the radius loop, and e the radius
      it returned: every later trial had too few candidates to be ranked. */
  ghost predicate LatestRanking(s: seq<real>, idx: seq<int>, act: int, minNeighbors: int, epsset: bool,
                                epsmin: real, epsstep: real, search: real -> seq<int>, k: nat, r: Ranking, e: real)
    requires epsstep != 0.0
  {
    var last := if r.NoRanking? then -1 else r.trial;
    && last < k
    && (forall j: nat :: last < j < k ==> Unranked(minNeighbors, epsmin, epsstep, search, j))
    && (r.NoRanking? ==> e == 0.0)
    && (r.RankedAt? ==> Ranked(s, idx, act, minNeighbors, epsset, epsmin, search(Trial(epsmin, epsstep, r.trial)),
                               r.ds, r.fd, e, r.nfound, r.enough))
  }

  /** Trial j had too few candidates to be ranked. */
  ghost predicate Unranked(minNeighbors: int, epsmin: real, epsstep: real, search: real -> seq<int>, j: nat)
    requires epsstep != 0.0
  {
    |search(Trial(epsmin, epsstep, j))| <= minNeighbors
  }

  /** Trial k either ranked its candidates and becomes the latest ranking, or leaves the
      latest ranking as it was. */
  lemma LatestRankingNext(s: seq<real>, idx: seq<int>, act: int, minNeighbors: int, epsset: bool,
                          epsmin: real, epsstep: real, search: real -> seq<int>, k: nat, r: Ranking, e0: real,
                          ds: seq<real>, fd: seq<int>, nfound: int, e: real, enough: bool)
    returns (r': Ranking)
    requires epsstep != 0.0
    requires LatestRanking(s, idx, act, minNeighbors, epsset, epsmin, epsstep, search, k, r, e0)
    requires TrialOutcome(s, idx, act, minNeighbors, epsset, epsmin, search(Trial(epsmin, epsstep, k)),
                          ds, fd, nfound, e, enough)
    requires |search(Trial(epsmin, epsstep, k))| <= minNeighbors ==> e == e0
    ensures LatestRanking(s, idx, act, minNeighbors, epsset, epsmin, epsstep, search, k + 1, r', e)
  {
    if |search(Trial(epsmin, epsstep, k))| > minNeighbors {
      r' := RankedAt(k, ds, fd, nfound, enough);
    } else {
      r' := r;
      assert Unranked(minNeighbors, epsmin, epsstep, search, k);
    }
  }

  /** Candidates loaded into the front of the buffer fd meet what Sort asks of them. */
  lemma LoadedSortable(s: seq<real>, idx: seq<int>, act: int, cs: seq<int>, fd: seq<int>)
    requires Candidates(s, idx, act, cs) && |cs| <= |fd| && fd[..|cs|] == cs
    ensures forall k :: 0 <= k < |cs| ==> HasDelayVector(s, idx, fd[k])
  {
    forall k | 0 <= k < |cs| ensures HasDelayVector(s, idx, fd[k]) {
      assert fd[k] == cs[k];
    }
  }

  /** Sort run on the candidates cs loaded into the front of found. */
  method RankLoaded(s: seq<real>, idx: seq<int>, act: int, minNeighbors: int, epsset: bool, epsmin: real,
                    abstand: array<real>, found: array<int>, cs: seq<int>)
    returns (maxeps: real, nfound: int, enough: bool)
    requires IsIndexTable(idx, |idx|) && |idx| >= 1 && Fittable(s, idx, act) && Candidates(s, idx, act, cs)
    requires 1 <= minNeighbors < |cs| <= abstand.Length && |cs| <= found.Length && found[..|cs|] == cs
    modifies abstand, found
    ensures Ranked(s, idx, act, minNeighbors, epsset, epsmin, cs, abstand[..], found[..], maxeps, nfound, enough)
    ensures AllFittable(s, idx, found[..nfound])
  {
    ghost var F0 := found[..];
    LoadedSortable(s, idx, act, cs, F0);
    maxeps, nfound, enough := Sort(s, idx, minNeighbors, epsset, epsmin, abstand, found, act, |cs|, cs);
    assert found[|cs| - 1] == F0[|cs| - 1];
    RankedAreFittable(s, idx, act, cs, found[..], nfound);
  }

  /** The local fit of the successor of act over the neighbours fs is in place: M is their
      normalised moment matrix, and the fit fails exactly when M is singular; when the fit succeeded, v is the right-hand side and c the
      coefficients solving the normal equations (so the residuals are orthogonal to every
      regressor), whose slopes are dyn, and err grew from err0 by the squared forecast
      error for act; when the matrix could not be inverted err is untouched. */
  ghost predicate FitResult(s: seq<real>, idx: seq<int>, act: int, fs: seq<int>, outcome: Outcome,
                            M: seq<seq<real>>, v: seq<real>, dyn: seq<real>, c: seq<real>, err0: real, err: real)
  {
    && 1 <= |fs| && AllFittable(s, idx, fs) && Fittable(s, idx, act)
    && outcome != NotEnoughNeighbours
    && M == Moments(s, idx, fs)
    && (outcome == Fitted <==> !Singular(M))
    && (outcome.Unsolvable? ==> outcome.status != Solved && err == err0)
    && (outcome == Fitted ==>
          && |c| == |idx| + 1 && c[1..] == dyn
          && v == Rhs(s, idx, fs)
          && Solves(M, v, c)
          && ResidualsOrthogonal(s, idx, fs, c)
          && err == err0 + (Forecast(s, idx, c, act) - s[act + Tau]) * (Forecast(s, idx, c, act) - s[act + Tau]))
  }

  /** Every point left after the move of the last candidate was a candidate. */
  lemma MovedFromCandidates(c: seq<int>, p: int, x: int)
    requires 0 <= p < |c| && x in MoveLastInto(c, p)
    ensures x in c
  {
    var r := MoveLastInto(c, p);
    var k :| 0 <= k < |r| && r[k] == x;
    assert r[k] == c[k] || r[k] == c[|c| - 1];
  }

  /** The neighbours a ranking keeps are candidates, so they can all be fitted. */
  lemma RankedAreFittable(s: seq<real>, idx: seq<int>, act: int, cs: seq<int>, fd: seq<int>, nfound: int)
    requires 1 <= |cs| <= |fd| && 0 <= nfound <= |cs|
    requires PermutesDropped(cs, act, fd)
    requires fd[|cs| - 1] == cs[|cs| - 1]
    requires AllFittable(s, idx, cs)
    ensures AllFittable(s, idx, fd[..nfound])
  {
    var h := |cs| - 1;
    var p := SelfSlot(cs, act);
    forall k | 0 <= k < nfound ensures Fittable(s, idx, fd[..nfound][k]) {
      if k < h {
        assert fd[k] in multiset(fd[..h]) by {
          assert fd[..h][k] == fd[k];
        }
        MovedFromCandidates(cs, p, fd[k]);
      } else {
        assert fd[k] == cs[h];
      }
    }
  }

  class JakobianMethod {
    /** The time series, the embedding dimension and the other settings fixed at
        construction. */
    const series: seq<real>
    const length: int
    const eDim: int
    const iterations: int
    const epsset: bool
    const inverse: bool
    const epsstep: real
    const minNeighbors: int

    /** The smallest trial radius; recomputed from the average radius when not set. */
    var epsmin: real
    var averr: real
    var avneig: real
    var aveps: real
    var count: int

    var indexes: array<int>
    var mat: array<seq<real>>
    var vec: array<real>
    var abstand: array<real>
    /** The result buffer of the neighbour search. */
    var found: array<int>

    /** The buffers have the sizes the driver gives them and do not overlap. */
    ghost predicate Valid()
      reads this, indexes, mat
    {
      && length == |series| && eDim >= 1 && minNeighbors >= 1
      && IsIndexTable(indexes[..], eDim)
      && mat.Length == eDim + 1 && SquareRows(mat)
      && vec.Length == eDim + 1
      && abstand.Length == length && found.Length == length
      && vec != abstand && found != indexes
    }

    /** The constructor past its guard: settings stored, epsset from a non-zero scale, the
        search buffer sized to the series. */
    constructor (timeSeries: seq<real>, eDim: int, iterations: int, scaleMin: real, epsstep: real,
                 minNeigh: int, inverse: bool)
      requires Feasible(|timeSeries|, eDim, minNeigh)
      ensures series == timeSeries && length == |timeSeries|
      ensures this.eDim == eDim && this.iterations == iterations && this.epsstep == epsstep
      ensures minNeighbors == minNeigh && this.inverse == inverse
      ensures epsmin == scaleMin && (epsset <==> scaleMin != 0.0)
      ensures averr == 0.0 && avneig == 0.0 && aveps == 0.0 && count == 0
      ensures fresh(found) && found.Length == length
    {
      series := timeSeries;
      this.eDim := eDim;
      this.iterations := iterations;
      epsmin := scaleMin;
      epsset := scaleMin != 0.0;
      this.epsstep := epsstep;
      minNeighbors := minNeigh;
      this.inverse := inverse;
      length := |timeSeries|;
      averr, avneig, aveps, count := 0.0, 0.0, 0.0, 0;
      indexes := new int[0];
      mat := new seq<real>[0];
      vec := new real[0];
      abstand := new real[0];
      found := new int[|timeSeries|];
    }

    /** The buffers Calculate allocates before the main loop: vec and the rows of mat of
        size eDim + 1, the index table, and one distance slot per point. */
    method Prepare()
      requires length == |series| && eDim >= 1 && minNeighbors >= 1 && found.Length == length
      modifies this
      ensures Valid()
      ensures fresh(indexes) && fresh(mat) && fresh(vec) && fresh(abstand) && found == old(found)
      ensures forall i :: 0 <= i <= eDim ==> vec[i] == 0.0 && mat[i] == seq(eDim + 1, _ => 0.0)
      ensures epsmin == old(epsmin) && averr == old(averr) && avneig == old(avneig)
      ensures aveps == old(aveps) && count == old(count)
    {
      var v, rows := ZeroSystem(eDim + 1);
      var idx := MakeIndex(eDim, Tau);
      var dist := new real[length];
      assert IsIndexTable(idx[..], eDim);
      vec, mat, indexes, abstand := v, rows, idx, dist;
    }

    /** The neighbour search writes its result into the buffer. */
    method LoadCandidates(cs: seq<int>)
      requires |cs| <= found.Length
      modifies found
      ensures found[..|cs|] == cs
    {
      var i := 0;
      while i < |cs|
        invariant 0 <= i <= |cs|
        invariant found[..i] == cs[..i]
      {
        found[i] := cs[i];
        i := i + 1;
      }
    }

    /** One trial of the radius loop: the radius of the trial before is widened, the
        search runs with it, the buffer is loaded, and with more than minNeighbors
        candidates Sort ranks them. */
    method Attempt(act: int, epsilon0: real, foundeps0: real, search: real -> seq<int>, ghost k: nat,
                   ghost r0: Ranking)
      returns (epsilon: real, nfound: int, foundeps: real, enough: bool, ghost r: Ranking)
      requires Valid() && Fittable(series, indexes[..], act)
      requires forall e :: Candidates(series, indexes[..], act, search(e))
      requires epsstep != 0.0
      requires epsilon0 == Before(epsmin, epsstep, k)
      requires LatestRanking(series, indexes[..], act, minNeighbors, epsset, epsmin, epsstep, search, k, r0, foundeps0)
      modifies abstand, found
      ensures epsilon == Trial(epsmin, epsstep, k)
      ensures TrialOutcome(series, indexes[..], act, minNeighbors, epsset, epsmin, search(Trial(epsmin, epsstep, k)),
                           abstand[..], found[..], nfound, foundeps, enough)
      ensures LatestRanking(series, indexes[..], act, minNeighbors, epsset, epsmin, epsstep, search, k + 1, r, foundeps)
      ensures 0 <= nfound <= found.Length && AllFittable(series, indexes[..], found[..nfound])
    {
      ghost var idx := indexes[..];
      epsilon := Widen(epsilon0, k);
      var cs := search(epsilon);
      assert Candidates(series, indexes[..], act, cs);
      LoadCandidates(cs);
      assert indexes[..] == idx;
      nfound, foundeps, enough := |cs|, foundeps0, false;
      if nfound > minNeighbors {
        foundeps, nfound, enough := RankLoaded(series, indexes[..], act, minNeighbors, epsset, epsmin, abstand, found, cs);
      }
      r := LatestRankingNext(series, indexes[..], act, minNeighbors, epsset, epsmin, epsstep, search, k, r0, foundeps0,
                        abstand[..], found[..], nfound, foundeps, enough);
    }

    /** The radius of trial k from the radius of the trial before: one factor epsstep
        more, clamped to EPSMAX. */
    method Widen(epsilon: real, ghost k: nat) returns (next: real)
      requires epsstep != 0.0
      requires epsilon == Before(epsmin, epsstep, k)
      ensures next == Trial(epsmin, epsstep, k)
    {
      next := epsilon * epsstep;
      if next > EPSMAX {
        next := EPSMAX;
      }
    }

    /** The radius loop of make_dynamics. Trial k searches with radius Trial(epsmin,
        epsstep, k) and the loop stops once Sort accepts, or after the trial at EPSMAX.
        foundeps keeps the value of the latest ranking, 0.0 when no trial was ranked. */
    method SearchNeighbours(act: int, search: real -> seq<int>)
      returns (nfound: int, foundeps: real, enough: bool, ghost k: nat, ghost r: Ranking)
      requires Valid() && Fittable(series, indexes[..], act)
      requires epsmin > 0.0 && epsstep > 1.0
      requires forall e :: Candidates(series, indexes[..], act, search(e))
      modifies abstand, found
      ensures BelowCapBefore(epsmin, epsstep, k)
      ensures !enough ==> Trial(epsmin, epsstep, k) == EPSMAX
      ensures TrialOutcome(series, indexes[..], act, minNeighbors, epsset, epsmin, search(Trial(epsmin, epsstep, k)),
                           abstand[..], found[..], nfound, foundeps, enough)
      ensures LatestRanking(series, indexes[..], act, minNeighbors, epsset, epsmin, epsstep, search, k + 1, r, foundeps)
      ensures 0 <= nfound <= found.Length && AllFittable(series, indexes[..], found[..nfound])
    {
      ghost var cap := CapReached(epsmin, epsstep);
      var epsilon := epsmin / epsstep;
      k := 0;
      foundeps := 0.0;
      r := NoRanking;
      while true
        invariant k <= cap
        invariant epsilon == Before(epsmin, epsstep, k)
        invariant BelowCapBefore(epsmin, epsstep, k)
        invariant LatestRanking(series, indexes[..], act, minNeighbors, epsset, epsmin, epsstep, search, k, r, foundeps)
        decreases cap - k
      {
        epsilon, nfound, foundeps, enough, r := Attempt(act, epsilon, foundeps, search, k, r);
        if enough || !(epsilon < EPSMAX) {
          return;
        }
        BelowCapNext(epsmin, epsstep, k);
        k := k + 1;
      }
    }

    /** make_dynamics clears the right-hand side and the moment matrix first. */
    method ClearSystem()
      requires Valid()
      modifies mat, vec
      ensures Valid()
      ensures forall i, j :: 0 <= i <= eDim && 0 <= j <= eDim ==> mat[i][j] == 0.0
      ensures forall i :: 0 <= i <= eDim ==> vec[i] == 0.0
    {
      var i := 0;
      while i <= eDim
        invariant 0 <= i <= eDim + 1 && Valid()
        invariant forall r, c :: 0 <= r < i && 0 <= c <= eDim ==> mat[r][c] == 0.0
        invariant forall r :: 0 <= r < i ==> vec[r] == 0.0
      {
        vec[i] := 0.0;
        var j := 0;
        while j <= eDim
          invariant 0 <= j <= eDim + 1 && Valid()
          invariant forall c :: 0 <= c < j ==> mat[i][c] == 0.0
          invariant forall r, c :: 0 <= r < i && 0 <= c <= eDim ==> mat[r][c] == 0.0
          invariant forall r :: 0 <= r <= i ==> vec[r] == 0.0
        {
          mat[i] := mat[i][j := 0.0];
          j := j + 1;
        }
        i := i + 1;
      }
    }

    /** Row hj of the moment matrix gains, from column hj on, the products of coordinate
        k with coordinate hj - 1 of neighbour f (k from hj - 1 on). */
    method AddProducts(f: int, hj: int)
      requires Valid() && HasDelayVector(series, indexes[..], f) && 1 <= hj <= eDim
      modifies mat
      ensures Valid()
      ensures forall r :: 0 <= r <= eDim && r != hj ==> mat[r] == old(mat[r])
      ensures forall b :: 0 <= b <= eDim ==>
                mat[hj][b] == if b >= hj then old(mat[hj][b]) + MomentTerm(series, indexes[..], f, hj, b)
                              else old(mat[hj][b])
    {
      var row := ProductRow(series, indexes[..], f, hj, mat[hj]);
      mat[hj] := row;
    }

    /** Row 0 of the moment matrix gains the count 1 and the coordinates of neighbour f. */
    method AddFirstRow(f: int)
      requires Valid() && HasDelayVector(series, indexes[..], f)
      modifies mat
      ensures Valid()
      ensures forall r :: 1 <= r <= eDim ==> mat[r] == old(mat[r])
      ensures forall b :: 0 <= b <= eDim ==> mat[0][b] == old(mat[0][b]) + MomentTerm(series, indexes[..], f, 0, b)
    {
      ghost var idx, row := indexes[..], mat[0];
      mat[0] := mat[0][0 := mat[0][0] + 1.0];
      var j := 0;
      while j < eDim
        invariant 0 <= j <= eDim
        invariant forall r :: 1 <= r <= eDim ==> mat[r] == old(mat[r])
        invariant |mat[0]| == eDim + 1 && mat[0][0] == row[0] + 1.0
        invariant forall b :: 1 <= b <= eDim ==> mat[0][b] == if b <= j then row[b] + series[f - idx[b - 1]] else row[b]
      {
        mat[0] := mat[0][j + 1 := mat[0][j + 1] + series[f - indexes[j]]];
        j := j + 1;
      }
      forall b | 0 <= b <= eDim ensures mat[0][b] == row[b] + MomentTerm(series, idx, f, 0, b) {
        MomentTermFirstRow(series, idx, f, b);
      }
    }

    /** One neighbour's contribution to the upper triangle of the moment matrix. */
    method AddNeighbourMoments(f: int)
      requires Valid() && HasDelayVector(series, indexes[..], f)
      modifies mat
      ensures Valid()
      ensures forall a, b :: 0 <= a <= b <= eDim ==>
                mat[a][b] == old(mat[a][b]) + MomentTerm(series, indexes[..], f, a, b)
    {
      ghost var idx := indexes[..];
      ghost var M0 := mat[..];
      AddFirstRow(f);
      var j := 0;
      while j < eDim
        invariant 0 <= j <= eDim && Valid() && idx == indexes[..]
        invariant forall b :: 0 <= b <= eDim ==> mat[0][b] == M0[0][b] + MomentTerm(series, idx, f, 0, b)
        invariant forall r :: j + 1 <= r <= eDim ==> mat[r] == M0[r]
        invariant forall r, b :: 1 <= r <= j && r <= b <= eDim ==>
                    mat[r][b] == M0[r][b] + MomentTerm(series, idx, f, r, b)
      {
        AddProducts(f, j + 1);
        j := j + 1;
      }
    }

    /** The sums of the moment matrix over the first nfound neighbours, upper triangle. */
    method AccumulateMoments(nfound: int)
      requires Valid() && 0 <= nfound <= found.Length && AllFittable(series, indexes[..], found[..nfound])
      requires forall a, b :: 0 <= a <= b <= eDim ==> mat[a][b] == 0.0
      modifies mat
      ensures Valid()
      ensures forall a, b :: 0 <= a <= b <= eDim ==> mat[a][b] == MomentSum(series, indexes[..], found[..nfound], a, b)
    {
      ghost var idx, fs := indexes[..], found[..nfound];
      var i := 0;
      while i < nfound
        invariant 0 <= i <= nfound && Valid() && AllFittable(series, idx, fs[..i])
        invariant forall a, b :: 0 <= a <= b <= eDim ==> mat[a][b] == MomentSum(series, idx, fs[..i], a, b)
      {
        AddNeighbourMoments(found[i]);
        forall a, b | 0 <= a <= b <= eDim
          ensures mat[a][b] == MomentSum(series, idx, fs[..i + 1], a, b)
        {
          MomentSumSnoc(series, idx, fs, i, a, b);
        }
        i := i + 1;
      }
      assert fs[..nfound] == fs;
    }

    /** One step of the normalisation: mat[i][j] is divided by n and mirrored into
        mat[j][i]. */
    method DivideAndMirror(i: int, j: int, n: real)
      requires Valid() && 0 <= i <= j <= eDim && n != 0.0
      modifies mat
      ensures Valid()
      ensures mat[i][j] == old(mat[i][j]) / n && mat[j][i] == old(mat[i][j]) / n
      ensures forall a, b :: 0 <= a <= eDim && 0 <= b <= eDim && !(a == i && b == j) && !(a == j && b == i) ==>
                mat[a][b] == old(mat[a][b])
    {
      var q := mat[i][j] / n;
      mat[i] := mat[i][j := q];
      mat[j] := mat[j][i := q];
    }

    /** Pass i of the normalisation: entries i .. eDim of row i are divided by the number
        of neighbours and mirrored into column i. */
    method NormaliseRow(i: int, nfound: int, ghost fs: seq<int>, ghost M: seq<seq<real>>)
      requires Valid() && AllFittable(series, indexes[..], fs) && nfound == |fs| >= 1 && 0 <= i <= eDim
      requires M == Moments(series, indexes[..], fs)
      requires forall b :: i <= b <= eDim ==> mat[i][b] == MomentSum(series, indexes[..], fs, i, b)
      modifies mat
      ensures Valid()
      ensures forall b :: i <= b <= eDim ==> mat[i][b] == M[i][b] && mat[b][i] == M[i][b]
      ensures forall a, b :: 0 <= a <= eDim && 0 <= b <= eDim && !(a == i && i <= b) && !(b == i && i <= a) ==>
                mat[a][b] == old(mat[a][b])
    {
      ghost var idx := indexes[..];
      var j := i;
      while j <= eDim
        invariant i <= j <= eDim + 1 && Valid() && idx == indexes[..]
        invariant forall b :: i <= b < j ==> mat[i][b] == M[i][b] && mat[b][i] == M[i][b]
        invariant forall b :: j <= b <= eDim ==> mat[i][b] == MomentSum(series, idx, fs, i, b)
        invariant forall a, b :: 0 <= a <= eDim && 0 <= b <= eDim && !(a == i && i <= b < j) && !(b == i && i <= a < j) ==>
                    mat[a][b] == old(mat[a][b])
      {
        DivideAndMirror(i, j, nfound as real);
        j := j + 1;
      }
    }

    /** Divides the upper triangle by the number of neighbours and mirrors it, which
        leaves the averaged moment matrix. */
    method NormaliseMoments(nfound: int, ghost fs: seq<int>)
      requires Valid() && AllFittable(series, indexes[..], fs) && nfound == |fs| >= 1
      requires forall a, b :: 0 <= a <= b <= eDim ==> mat[a][b] == MomentSum(series, indexes[..], fs, a, b)
      modifies mat
      ensures Valid() && mat[..] == Moments(series, indexes[..], fs)
    {
      ghost var idx := indexes[..];
      ghost var M := Moments(series, idx, fs);
      var i := 0;
      while i <= eDim
        invariant 0 <= i <= eDim + 1 && Valid() && idx == indexes[..]
        invariant forall a, b :: 0 <= a <= b <= eDim ==>
                    mat[a][b] == if a < i then M[a][b] else MomentSum(series, idx, fs, a, b)
        invariant forall a, b :: 0 <= b < a <= eDim && b < i ==> mat[a][b] == M[b][a]
      {
        NormaliseRow(i, nfound, fs, M);
        i := i + 1;
      }
      forall a | 0 <= a <= eDim ensures mat[a] == M[a] {
        forall b | 0 <= b <= eDim ensures mat[a][b] == M[a][b] {
          if b < a {
            MomentsSymmetric(series, idx, fs, b, a);
          }
        }
      }
    }

    /** One neighbour's contribution to the right-hand side: its successor times each
        regressor. */
    method AddNeighbourRhs(f: int)
      requires Valid() && Fittable(series, indexes[..], f)
      modifies vec
      ensures forall i :: 0 <= i <= eDim ==> vec[i] == old(vec[i]) + RhsTerm(series, indexes[..], f, i)
    {
      AddRhsTerms(vec, series, indexes[..], f);
    }

    /** The right-hand side summed over the first nfound neighbours (vec starts cleared). */
    method SumRhs(nfound: int)
      requires Valid() && 0 <= nfound <= found.Length && AllFittable(series, indexes[..], found[..nfound])
      requires forall r :: 0 <= r <= eDim ==> vec[r] == 0.0
      modifies vec
      ensures forall r :: 0 <= r <= eDim ==> vec[r] == RhsSum(series, indexes[..], found[..nfound], r)
    {
      ghost var idx, fs := indexes[..], found[..nfound];
      var i := 0;
      while i < nfound
        invariant 0 <= i <= nfound && AllFittable(series, idx, fs[..i])
        invariant forall r :: 0 <= r <= eDim ==> vec[r] == RhsSum(series, idx, fs[..i], r)
      {
        AddNeighbourRhs(found[i]);
        forall r | 0 <= r <= eDim ensures vec[r] == RhsSum(series, idx, fs[..i + 1], r) {
          RhsSumSnoc(series, idx, fs, i, r);
        }
        i := i + 1;
      }
      assert fs[..nfound] == fs;
    }

    /** The averaged right-hand side over the first nfound neighbours. */
    method AssembleRhs(nfound: int)
      requires Valid() && 1 <= nfound <= found.Length && AllFittable(series, indexes[..], found[..nfound])
      modifies vec
      ensures vec[..] == Rhs(series, indexes[..], found[..nfound])
    {
      ghost var idx, fs := indexes[..], found[..nfound];
      var i := 0;
      while i <= eDim
        invariant 0 <= i <= eDim + 1
        invariant forall r :: 0 <= r < i ==> vec[r] == 0.0
      {
        vec[i] := 0.0;
        i := i + 1;
      }
      SumRhs(nfound);
      DivideAll(vec, nfound as real);
    }

    /** dynamics[i - 1] becomes row i of the inverse times the right-hand side. */
    method RowTimesRhs(imat: array2<real>, i: int, dynamics: array<real>)
      requires Valid() && imat.Length0 == eDim + 1 && imat.Length1 == eDim + 1
      requires dynamics.Length == eDim && dynamics != vec && 1 <= i <= eDim
      modifies dynamics
      ensures dynamics[i - 1] == Dot(Rows(imat)[i], vec[..])
      ensures forall r :: 0 <= r < eDim && r != i - 1 ==> dynamics[r] == old(dynamics[r])
    {
      ghost var row, v := Rows(imat)[i], vec[..];
      var hi := i - 1;
      dynamics[hi] := 0.0;
      var j := 0;
      while j <= eDim
        invariant 0 <= j <= eDim + 1
        invariant dynamics[hi] == Dot(row[..j], v[..j])
        invariant forall r :: 0 <= r < eDim && r != hi ==> dynamics[r] == old(dynamics[r])
      {
        DotSnoc(row, v, j);
        dynamics[hi] := dynamics[hi] + imat[i, j] * vec[j];
        j := j + 1;
      }
      assert row[..eDim + 1] == row && v[..eDim + 1] == v;
    }

    /** The coefficients of the fit are the inverse times the right-hand side: the
        intercept goes into newVec, the slopes into dynamics. */
    method ApplyInverse(imat: array2<real>, dynamics: array<real>) returns (newVec: real)
      requires Valid() && imat.Length0 == eDim + 1 && imat.Length1 == eDim + 1
      requires dynamics.Length == eDim && dynamics != vec
      modifies dynamics
      ensures [newVec] + dynamics[..] == MatVec(Rows(imat), vec[..])
    {
      ghost var X, v := Rows(imat), vec[..];
      newVec := 0.0;
      var i := 0;
      while i <= eDim
        invariant 0 <= i <= eDim + 1
        invariant newVec == Dot(X[0][..i], v[..i])
      {
        DotSnoc(X[0], v, i);
        newVec := newVec + imat[0, i] * vec[i];
        i := i + 1;
      }
      assert X[0][..eDim + 1] == X[0] && v[..eDim + 1] == v;
      i := 1;
      while i <= eDim
        invariant 1 <= i <= eDim + 1
        invariant forall r :: 0 <= r < i - 1 ==> dynamics[r] == Dot(X[r + 1], v)
      {
        RowTimesRhs(imat, i, dynamics);
        i := i + 1;
      }
      assert [newVec] + dynamics[..] == MatVec(X, v);
    }

    /** The forecast for the successor of point t: the intercept plus the slopes times the
        delay coordinates of t. */
    method AddForecast(t: int, c0: real, dynamics: array<real>) returns (newVec: real)
      requires Valid() && HasDelayVector(series, indexes[..], t) && dynamics.Length == eDim
      ensures newVec == Forecast(series, indexes[..], [c0] + dynamics[..], t)
    {
      ghost var xa := Augmented(series, indexes[..], t);
      ghost var x, dyn := xa[1..], dynamics[..];
      newVec := c0;
      var i := 0;
      while i < eDim
        invariant 0 <= i <= eDim
        invariant newVec == c0 + Dot(dyn[..i], x[..i])
      {
        DotSnoc(dyn, x, i);
        newVec := newVec + dynamics[i] * series[t - indexes[i]];
        i := i + 1;
      }
      assert dyn[..eDim] == dyn && x[..eDim] == x;
      DotCommutes(dyn, x);
      ghost var c := [c0] + dyn;
      assert xa[1..] == x && c[1..] == dyn;
    }

    /** The moment matrix of the neighbours found[..nfound] is accumulated, normalised by
        the neighbour count, and inverted; the inversion fails exactly when it is singular. */
    method SolveMoments(nfound: int) returns (status: SolveStatus, imat: array2<real>)
      requires Valid() && 1 <= nfound <= found.Length && AllFittable(series, indexes[..], found[..nfound])
      modifies mat, vec
      ensures Valid() && mat[..] == Moments(series, indexes[..], found[..nfound])
      ensures imat.Length0 == eDim + 1 && imat.Length1 == eDim + 1
      ensures status == Solved ==> RightInverse(mat[..], Rows(imat))
      ensures status == Solved <==> !Singular(mat[..])
    {
      ghost var fs := found[..nfound];
      ClearSystem();
      AccumulateMoments(nfound);
      NormaliseMoments(nfound, fs);
      status, imat := InvertMatrix(mat);
    }

    /** With imat a right inverse of the moment matrix, the right-hand side is assembled
        and the coefficients c = imat * rhs are the least-squares fit over the neighbours:
        the intercept is returned folded into the forecast for act, the slopes land in
        dynamics. */
    method FitCoefficients(imat: array2<real>, dynamics: array<real>, act: int, nfound: int)
      returns (forecast: real, ghost c: seq<real>)
      requires Valid() && 1 <= nfound <= found.Length && AllFittable(series, indexes[..], found[..nfound])
      requires Fittable(series, indexes[..], act)
      requires imat.Length0 == eDim + 1 && imat.Length1 == eDim + 1
      requires mat[..] == Moments(series, indexes[..], found[..nfound])
      requires RightInverse(mat[..], Rows(imat))
      requires dynamics.Length == eDim && dynamics != vec
      modifies vec, dynamics
      ensures |c| == eDim + 1 && c[1..] == dynamics[..]
      ensures vec[..] == Rhs(series, indexes[..], found[..nfound])
      ensures Solves(Moments(series, indexes[..], found[..nfound]), Rhs(series, indexes[..], found[..nfound]), c)
      ensures ResidualsOrthogonal(series, indexes[..], found[..nfound], c)
      ensures forecast == Forecast(series, indexes[..], c, act)
    {
      ghost var idx, fs := indexes[..], found[..nfound];
      AssembleRhs(nfound);
      var c0 := ApplyInverse(imat, dynamics);
      c := [c0] + dynamics[..];
      RightInverseSolvesAll(Moments(series, idx, fs), Rows(imat), Rhs(series, idx, fs));
      NormalEquations(series, idx, fs, c);
      forecast := AddForecast(act, c0, dynamics);
    }

    /** The running averages take in the neighbourhood just found: its size and radius are
        added up, and when no smallest radius was given, epsmin becomes the average radius
        so far. */
    method RecordNeighbourhood(nfound: int, foundeps: real)
      requires Valid() && count >= 1
      modifies this
      ensures Valid() && unchanged(this`indexes, this`mat, this`vec, this`abstand, this`found)
      ensures unchanged(this`averr, this`count)
      ensures avneig == old(avneig) + nfound as real && aveps == old(aveps) + foundeps
      ensures epsmin == if epsset then old(epsmin) else aveps / (count as real)
      ensures !epsset && old(aveps) + foundeps == 0.0 ==> epsmin == 0.0
    {
      avneig := avneig + nfound as real;
      aveps := aveps + foundeps;
      if !epsset {
        epsmin := aveps / (count as real);
      }
    }

    /** The fit over the neighbours found[..nfound]: the moment matrix and its inverse,
        then the coefficients, whose slopes land in dynamics, and the squared error of the
        forecast for act added to averr. */
    method FitNeighbourhood(dynamics: array<real>, act: int, nfound: int) returns (outcome: Outcome, ghost c: seq<real>)
      requires Valid() && 1 <= nfound <= found.Length && AllFittable(series, indexes[..], found[..nfound])
      requires Fittable(series, indexes[..], act)
      requires dynamics.Length == eDim && dynamics != vec
      modifies this, mat, vec, dynamics
      ensures Valid() && unchanged(this`indexes, this`mat, this`vec, this`abstand, this`found)
      ensures unchanged(this`epsmin, this`avneig, this`aveps, this`count)
      ensures FitResult(series, indexes[..], act, found[..nfound], outcome, mat[..], vec[..], dynamics[..], c, old(averr), averr)
    {
      c := [];
      var status, imat := SolveMoments(nfound);
      if status != Solved {
        outcome := Unsolvable(status);
        return;
      }
      var forecast;
      forecast, c := FitCoefficients(imat, dynamics, act, nfound);
      averr := averr + (forecast - series[act + Tau]) * (forecast - series[act + Tau]);
      outcome := Fitted;
    }

    /** make_dynamics for the point act: the neighbourhood search over growing radii, the
        running averages of neighbour count and radius (and epsmin from them when it was not
        set), the not-enough-neighbours exit, then the least-squares fit of the successor on
        the delay vector over the neighbours, whose slopes go into dynamics, and the squared
        error of its forecast for act added to averr. search stands for the box-assisted
        search around act at a given radius. */
    method MakeDynamics(dynamics: array<real>, act: int, search: real -> seq<int>)
      returns (outcome: Outcome, ghost k: nat, ghost nfound: int, ghost foundeps: real, ghost enough: bool,
               ghost c: seq<real>, ghost r: Ranking)
      requires Valid() && Fittable(series, indexes[..], act)
      requires dynamics.Length == eDim && dynamics != vec && dynamics != abstand
      requires epsmin > 0.0 && epsstep > 1.0 && count >= 1
      requires forall e :: Candidates(series, indexes[..], act, search(e))
      modifies this, abstand, found, mat, vec, dynamics
      ensures Valid() && count == old(count)
      ensures indexes == old(indexes) && mat == old(mat) && vec == old(vec)
      ensures abstand == old(abstand) && found == old(found)
      // the radius loop
      ensures BelowCapBefore(old(epsmin), epsstep, k)
      ensures !enough ==> Trial(old(epsmin), epsstep, k) == EPSMAX
      ensures TrialOutcome(series, indexes[..], act, minNeighbors, epsset, old(epsmin),
                           search(Trial(old(epsmin), epsstep, k)), abstand[..], found[..], nfound, foundeps, enough)
      ensures LatestRanking(series, indexes[..], act, minNeighbors, epsset, old(epsmin), epsstep, search, k + 1, r, foundeps)
      ensures 0 <= nfound <= length && AllFittable(series, indexes[..], found[..nfound])
      // the running averages
      ensures avneig == old(avneig) + nfound as real && aveps == old(aveps) + foundeps
      ensures epsmin == if epsset then old(epsmin) else aveps / (count as real)
      ensures !epsset && old(aveps) + foundeps == 0.0 ==> epsmin == 0.0
      // the exits
      ensures outcome == NotEnoughNeighbours <==> nfound < minNeighbors
      ensures outcome == NotEnoughNeighbours ==>
                averr == old(averr) && mat[..] == old(mat[..]) && vec[..] == old(vec[..]) && dynamics[..] == old(dynamics[..])
      ensures outcome != NotEnoughNeighbours ==>
                FitResult(series, indexes[..], act, found[..nfound], outcome, mat[..], vec[..], dynamics[..], c, old(averr), averr)
    {
      c := [];
      var nf, fe, en;
      nf, fe, en, k, r := SearchNeighbours(act, search);
      nfound, foundeps, enough := nf, fe, en;
      RecordNeighbourhood(nf, fe);
      if nf < minNeighbors {
        outcome := NotEnoughNeighbours;
        return;
      }
      ghost var ds, fd := abstand[..], found[..];
      outcome, c := FitNeighbourhood(dynamics, act, nf);
      assert abstand[..] == ds && found[..] == fd;
    }
  }

  /** Entry 0 of v gains the successor of f, entry i the successor times coordinate i - 1. */
  method AddRhsTerms(v: array<real>, s: seq<real>, idx: seq<int>, f: int)
    requires Fittable(s, idx, f) && v.Length == |idx| + 1
    modifies v
    ensures forall i :: 0 <= i < v.Length ==> v[i] == old(v[i]) + RhsTerm(s, idx, f, i)
  {
    var hv := s[f + Tau];
    v[0] := v[0] + hv;
    var j := 0;
    while j < |idx|
      invariant 0 <= j <= |idx| && v[0] == old(v[0]) + hv
      invariant forall i :: 1 <= i < v.Length ==>
                  v[i] == if i <= j then old(v[i]) + hv * s[f - idx[i - 1]] else old(v[i])
    {
      v[j + 1] := v[j + 1] + hv * s[f - idx[j]];
      j := j + 1;
    }
    forall i | 0 <= i < v.Length ensures v[i] == old(v[i]) + RhsTerm(s, idx, f, i) {
      RhsTermValue(s, idx, f, i);
    }
  }

  /** Row hj of the moment sums plus the products of neighbour f's coordinate hj - 1 with
      its coordinates hj - 1 onwards, which land in columns hj onwards. */
  method ProductRow(s: seq<real>, idx: seq<int>, f: int, hj: int, row0: seq<real>) returns (row: seq<real>)
    requires HasDelayVector(s, idx, f) && 1 <= hj <= |idx| && |row0| == |idx| + 1
    ensures |row| == |idx| + 1
    ensures forall b :: 0 <= b <= |idx| ==>
              row[b] == if b >= hj then row0[b] + MomentTerm(s, idx, f, hj, b) else row0[b]
  {
    var j := hj - 1;
    var hv1 := s[f - idx[j]];
    row := row0;
    var k := j;
    while k < |idx|
      invariant j <= k <= |idx| && |row| == |idx| + 1
      invariant forall b :: 0 <= b <= |idx| ==>
                  row[b] == if hj <= b <= k then row0[b] + s[f - idx[b - 1]] * hv1 else row0[b]
    {
      row := row[k + 1 := row[k + 1] + s[f - idx[k]] * hv1];
      k := k + 1;
    }
    forall b | hj <= b <= |idx| ensures row[b] == row0[b] + MomentTerm(s, idx, f, hj, b) {
      MomentTermCoords(s, idx, f, hj, b);
    }
  }

  /** Every entry of v divided by n. */
  method DivideAll(v: array<real>, n: real)
    requires n != 0.0
    modifies v
    ensures forall r :: 0 <= r < v.Length ==> v[r] == old(v[r]) / n
  {
    var i := 0;
    while i < v.Length
      invariant 0 <= i <= v.Length
      invariant forall r :: 0 <= r < i ==> v[r] == old(v[r]) / n
      invariant forall r :: i <= r < v.Length ==> v[r] == old(v[r])
    {
      v[i] := v[i] / n;
      i := i + 1;
    }
  }

  /** A zero right-hand side and a zero n-by-n matrix, as two fresh buffers. */
  method ZeroSystem(n: nat) returns (v: array<real>, rows: array<seq<real>>)
    ensures fresh(v) && fresh(rows) && v.Length == n && rows.Length == n && SquareRows(rows)
    ensures forall i :: 0 <= i < n ==> v[i] == 0.0 && rows[i] == seq(n, _ => 0.0)
  {
    v := new real[n](_ => 0.0);
    rows := new seq<real>[n](_ => seq(n, _ => 0.0));
  }

  /** What constructing the estimator gives: the object, or the refusal for a series too
      short to embed minNeigh points. */
  datatype Construction = Constructed(jm: JakobianMethod) | TooFewPoints

  /** The constructor with its guard: it refuses exactly the infeasible settings. */
  method Construct(timeSeries: seq<real>, eDim: int, iterations: int, scaleMin: real, epsstep: real,
                   minNeigh: int, inverse: bool) returns (r: Construction)
    ensures r == TooFewPoints <==> !Feasible(|timeSeries|, eDim, minNeigh)
    ensures r.Constructed? ==> fresh(r.jm) && r.jm.series == timeSeries && r.jm.eDim == eDim
                               && r.jm.minNeighbors == minNeigh && r.jm.epsmin == scaleMin
  {
    if minNeigh > |timeSeries| - Tau * (eDim - 1) - 1 {
      return TooFewPoints;
    }
    var jm := new JakobianMethod(timeSeries, eDim, iterations, scaleMin, epsstep, minNeigh, inverse);
    r := Constructed(jm);
  }
}
