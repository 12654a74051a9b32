/** Delay embedding: the delay-index table, the feasibility guard of the constructor
    and the max-norm distance between two reconstructed states. */
module Embedding {
  import opened LinearAlgebra

  /** The delay, fixed at one step. */
  const Tau: int := 1

  /** MakeIndex: entry i of the table is i * delay, the lag of the i-th coordinate. */
  method MakeIndex(eDim: int, delay: int) returns (mmi: array<int>)
    requires eDim >= 0
    ensures fresh(mmi) && mmi.Length == eDim
    ensures forall i :: 0 <= i < eDim ==> mmi[i] == i * delay
  {
    mmi := new int[eDim];
    var i := 0;
    while i < eDim
      invariant 0 <= i <= eDim
      invariant forall k :: 0 <= k < i ==> mmi[k] == k * delay
    {
      mmi[i] := i * delay;
      i := i + 1;
    }
  }

  /** idx is the table MakeIndex builds for eDim coordinates and the fixed delay. */
  ghost predicate IsIndexTable(idx: seq<int>, eDim: int)
  {
    |idx| == eDim && forall j :: 0 <= j < eDim ==> idx[j] == j * Tau
  }

  /** The constructor's guard: it throws unless this holds. */
  predicate Feasible(length: int, eDim: int, minNeighbors: int)
  {
    minNeighbors <= length - Tau * (eDim - 1) - 1
  }

  /** The integers lo, lo + 1, ..., hi - 1. */
  function IntRange(lo: int, hi: int): (r: set<int>)
    ensures forall t :: t in r <==> lo <= t < hi
    decreases hi - lo
  {
    if lo >= hi then {} else {lo} + IntRange(lo + 1, hi)
  }

  /** The points the box index is built over: a full delay vector and a successor. */
  function EmbeddedPoints(length: int, eDim: int): set<int>
  {
    IntRange((eDim - 1) * Tau, length - Tau)
  }

  lemma {:induction false} IntRangeSize(lo: int, hi: int)
    requires lo <= hi
    ensures |IntRange(lo, hi)| == hi - lo
    decreases hi - lo
  {
    if lo < hi {
      IntRangeSize(lo + 1, hi);
    }
  }

  /** The guard says exactly that minNeighbors does not exceed the number of points
      with a full delay vector and a successor. */
  lemma FeasibleIffEnoughPoints(length: int, eDim: int, minNeighbors: int)
    requires eDim >= 1 && minNeighbors >= 1
    ensures Feasible(length, eDim, minNeighbors) <==> minNeighbors <= |EmbeddedPoints(length, eDim)|
  {
    var lo, hi := (eDim - 1) * Tau, length - Tau;
    if lo <= hi {
      IntRangeSize(lo, hi);
    }
  }

  function Max(a: real, b: real): real
  {
    if b > a then b else a
  }

  /** Point t has every delay coordinate inside the series. */
  ghost predicate HasDelayVector(s: seq<real>, idx: seq<int>, t: int)
  {
    0 <= t < |s| && forall j :: 0 <= j < |idx| ==> 0 <= t - idx[j] < |s|
  }

  /** Difference of the j-th delay coordinates of points a and b. */
  function CoordGap(s: seq<real>, idx: seq<int>, a: int, b: int, j: int): real
    requires HasDelayVector(s, idx, a) && HasDelayVector(s, idx, b) && 0 <= j < |idx|
  {
    Abs(s[a - idx[j]] - s[b - idx[j]])
  }

  /** The max-norm distance of the delay vectors of a and b over their first m coordinates,
      maximised in the order Sort scans them. */
  function Distance(s: seq<real>, idx: seq<int>, a: int, b: int, m: int): real
    requires HasDelayVector(s, idx, a) && HasDelayVector(s, idx, b) && 1 <= m <= |idx|
    decreases m
  {
    if m == 1 then CoordGap(s, idx, a, b, 0)
    else Max(Distance(s, idx, a, b, m - 1), CoordGap(s, idx, a, b, m - 1))
  }

  /** Distance is the maximum of the coordinate gaps: it bounds each one and equals one. */
  lemma {:induction false} DistanceIsMaxNorm(s: seq<real>, idx: seq<int>, a: int, b: int, m: int)
    requires HasDelayVector(s, idx, a) && HasDelayVector(s, idx, b) && 1 <= m <= |idx|
    ensures forall j :: 0 <= j < m ==> CoordGap(s, idx, a, b, j) <= Distance(s, idx, a, b, m)
    ensures exists j :: 0 <= j < m && CoordGap(s, idx, a, b, j) == Distance(s, idx, a, b, m)
    decreases m
  {
    if m > 1 {
      DistanceIsMaxNorm(s, idx, a, b, m - 1);
    } else {
      assert CoordGap(s, idx, a, b, 0) == Distance(s, idx, a, b, 1);
    }
  }

  /** The distance does not depend on which point is the query. */
  lemma {:induction false} DistanceSymmetric(s: seq<real>, idx: seq<int>, a: int, b: int, m: int)
    requires HasDelayVector(s, idx, a) && HasDelayVector(s, idx, b) && 1 <= m <= |idx|
    ensures Distance(s, idx, a, b, m) == Distance(s, idx, b, a, m)
    decreases m
  {
    if m > 1 {
      DistanceSymmetric(s, idx, a, b, m - 1);
    }
  }

  /** Distances are never negative, and zero exactly when the delay vectors coincide. */
  lemma {:induction false} DistanceZeroIff(s: seq<real>, idx: seq<int>, a: int, b: int, m: int)
    requires HasDelayVector(s, idx, a) && HasDelayVector(s, idx, b) && 1 <= m <= |idx|
    ensures Distance(s, idx, a, b, m) >= 0.0
    ensures Distance(s, idx, a, b, m) == 0.0 <==> forall j :: 0 <= j < m ==> s[a - idx[j]] == s[b - idx[j]]
    decreases m
  {
    if m > 1 {
      DistanceZeroIff(s, idx, a, b, m - 1);
    }
  }
}
