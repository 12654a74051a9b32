/** Sort: rank the candidates the box search returned by their max-norm distance to the
    query point, drop the query point itself, and decide how many of the nearest to keep. */
module Selection {
  import opened LinearAlgebra
  import opened Embedding

  /** The slot Sort removes: the last slot holding the query point, or slot 0 when the
      query point is not among the candidates (the slot variable starts at 0). */
  function SelfSlot(c: seq<int>, act: int): (p: int)
    ensures |c| == 0 ==> p == 0
    ensures |c| > 0 ==> 0 <= p < |c|
    ensures act in c ==> c[p] == act && forall k :: p < k < |c| ==> c[k] != act
    ensures act !in c ==> p == 0
    decreases |c|
  {
    if |c| == 0 then 0
    else if c[|c| - 1] == act then |c| - 1
    else SelfSlot(c[..|c| - 1], act)
  }

  /** The candidates left in slots 0 .. |c| - 2 once the last one is moved into slot p. */
  function MoveLastInto(c: seq<int>, p: int): (r: seq<int>)
    requires 0 <= p < |c|
    ensures |r| == |c| - 1
  {
    if p == |c| - 1 then c[..|c| - 1] else c[..|c| - 1][p := c[|c| - 1]]
  }

  /** The first |C| - 1 slots of fd hold the candidates C with the query point act
      dropped (the last candidate moved into its slot), in some order. */
  ghost predicate PermutesDropped(C: seq<int>, act: int, fd: seq<int>)
  {
    1 <= |C| <= |fd| + 1 && multiset(fd[..|C| - 1]) == multiset(MoveLastInto(C, SelfSlot(C, act)))
  }

  lemma MultisetOfUpdate(s: seq<int>, p: int, x: int)
    requires 0 <= p < |s|
    ensures multiset(s[p := x]) == multiset(s) - multiset{s[p]} + multiset{x}
  {
    assert s == s[..p] + [s[p]] + s[p + 1..];
    assert s[p := x] == s[..p] + [x] + s[p + 1..];
  }

  /** With the query point present once, removal takes exactly the query point out. */
  lemma SelfRemovalDropsQuery(c: seq<int>, act: int)
    requires multiset(c)[act] == 1
    ensures multiset(MoveLastInto(c, SelfSlot(c, act))) == multiset(c) - multiset{act}
    ensures act !in MoveLastInto(c, SelfSlot(c, act))
  {
    var n, p := |c|, SelfSlot(c, act);
    var front, last := c[..n - 1], c[n - 1];
    assert multiset(c) == multiset(front) + multiset{last} by {
      assert c == front + [last];
    }
    var r := MoveLastInto(c, p);
    assert multiset(r) == multiset(c) - multiset{act} by {
      if p < n - 1 {
        assert front[p] == act && last != act;
        MultisetOfUpdate(front, p, last);
      }
    }
    assert multiset(r)[act] == 0;
  }

  /** With the query point absent, removal drops the first candidate instead. */
  lemma SelfRemovalWithoutQuery(c: seq<int>, act: int)
    requires |c| >= 2 && act !in c
    ensures multiset(MoveLastInto(c, SelfSlot(c, act))) == multiset(c) - multiset{c[0]}
    ensures act !in MoveLastInto(c, SelfSlot(c, act))
  {
    var n := |c|;
    assert c == c[..n - 1] + [c[n - 1]];
    MultisetOfUpdate(c[..n - 1], 0, c[n - 1]);
    var r := MoveLastInto(c, 0);
    assert forall k :: 0 <= k < |r| ==> r[k] in c;
  }

  /** The query point occurs at most once, so the remaining candidates never contain it. */
  lemma SelfRemovalExcludesQuery(c: seq<int>, act: int)
    requires |c| >= 2 && multiset(c)[act] <= 1
    ensures act !in MoveLastInto(c, SelfSlot(c, act))
  {
    if act in c {
      SelfRemovalDropsQuery(c, act);
    } else {
      SelfRemovalWithoutQuery(c, act);
    }
  }

  /** The first n slots of ds are sorted at every slot before i: each such slot holds
      a value no larger than any later one among the first n. */
  ghost predicate SortedUpTo(ds: seq<real>, i: int, n: int)
  {
    n <= |ds| && forall p, q :: 0 <= p < q < n && p < i ==> ds[p] <= ds[q]
  }

  /** Each of the first n slots of ds holds the distance of the candidate in the same slot
      of fs, and no such candidate is the query point. */
  ghost predicate Coupled(s: seq<real>, idx: seq<int>, act: int, ds: seq<real>, fs: seq<int>, n: int)
  {
    && |idx| >= 1 && HasDelayVector(s, idx, act) && 0 <= n <= |ds| && n <= |fs|
    && forall k :: 0 <= k < n ==>
         fs[k] != act && HasDelayVector(s, idx, fs[k]) && ds[k] == Distance(s, idx, act, fs[k], |idx|)
  }

  /** b agrees with a outside the slots lo .. hi - 1. */
  ghost predicate SameOutside<T>(a: seq<T>, b: seq<T>, lo: int, hi: int)
  {
    |b| == |a| && forall k :: 0 <= k < |a| && (k < lo || hi <= k) ==> b[k] == a[k]
  }

  /** The inner loop of the distance pass: the max-norm distance of two delay vectors. */
  method DelayDistance(s: seq<real>, idx: seq<int>, act: int, hf: int) returns (maxdx: real)
    requires IsIndexTable(idx, |idx|) && |idx| >= 1
    requires HasDelayVector(s, idx, act) && HasDelayVector(s, idx, hf)
    ensures maxdx == Distance(s, idx, act, hf, |idx|)
  {
    maxdx := Abs(s[act] - s[hf]);
    var j := 1;
    while j < |idx|
      invariant 1 <= j <= |idx|
      invariant maxdx == Distance(s, idx, act, hf, j)
    {
      var del := idx[j];
      var dx := Abs(s[act - del] - s[hf - del]);
      if dx > maxdx {
        maxdx := dx;
      }
      j := j + 1;
    }
  }

  /** The distance pass: the distance of every candidate other than the query point,
      and the slot of the query point. */
  method ComputeDistances(s: seq<real>, idx: seq<int>, act: int, abstand: array<real>, found: array<int>,
                          imax: int) returns (self: int)
    requires IsIndexTable(idx, |idx|) && |idx| >= 1 && HasDelayVector(s, idx, act)
    requires 0 <= imax <= abstand.Length && imax <= found.Length
    requires forall k :: 0 <= k < imax ==> HasDelayVector(s, idx, found[k])
    modifies abstand
    ensures self == SelfSlot(found[..imax], act)
    ensures forall k :: 0 <= k < imax && found[k] != act ==>
              abstand[k] == Distance(s, idx, act, found[k], |idx|)
    ensures forall k :: 0 <= k < abstand.Length && (imax <= k || found[k] == act) ==>
              abstand[k] == old(abstand[k])
  {
    self := 0;
    var i := 0;
    while i < imax
      invariant 0 <= i <= imax
      invariant self == SelfSlot(found[..i], act)
      invariant forall k :: 0 <= k < i && found[k] != act ==>
                  abstand[k] == Distance(s, idx, act, found[k], |idx|)
      invariant forall k :: 0 <= k < abstand.Length && (i <= k || found[k] == act) ==>
                  abstand[k] == old(abstand[k])
    {
      assert found[..i + 1][..i] == found[..i];
      var hf := found[i];
      if hf != act {
        var maxdx := DelayDistance(s, idx, act, hf);
        abstand[i] := maxdx;
      } else {
        self := i;
      }
      i := i + 1;
    }
    assert found[..imax] == found[..i];
  }

  /** The lock-step exchange of two slots in both the distance and the candidate arrays. */
  method SwapEntries(abstand: array<real>, found: array<int>, i: int, j: int)
    requires 0 <= i < abstand.Length && 0 <= j < abstand.Length
    requires i < found.Length && j < found.Length
    modifies abstand, found
    ensures abstand[..] == old(abstand[..])[i := old(abstand[j])][j := old(abstand[i])]
    ensures found[..] == old(found[..])[i := old(found[j])][j := old(found[i])]
  {
    var dswap := abstand[i];
    abstand[i] := abstand[j];
    abstand[j] := dswap;
    var iswap := found[i];
    found[i] := found[j];
    found[j] := iswap;
  }

  lemma SwapKeepsMultiset(s: seq<int>, i: int, j: int)
    requires 0 <= i < |s| && 0 <= j < |s|
    ensures multiset(s[i := s[j]][j := s[i]]) == multiset(s)
  {
    MultisetOfUpdate(s, i, s[j]);
    MultisetOfUpdate(s[i := s[j]], j, s[i]);
  }

  /** The state of a selection pass for slot i after comparing slots i + 1 .. j - 1,
      starting from distances D0 and candidates F0. */
  ghost predicate PassState(s: seq<real>, idx: seq<int>, act: int, ds: seq<real>, fs: seq<int>,
                            D0: seq<real>, F0: seq<int>, i: int, j: int, hi: int)
  {
    && 0 <= i < j <= hi
    && Coupled(s, idx, act, ds, fs, hi)
    && SortedUpTo(ds, i, hi)
    && (forall q :: i < q < j ==> ds[i] <= ds[q])
    && SameOutside(D0, ds, i, hi) && SameOutside(F0, fs, i, hi)
    && multiset(fs[..hi]) == multiset(F0[..hi])
  }

  lemma PassSwap(s: seq<real>, idx: seq<int>, act: int, ds: seq<real>, fs: seq<int>,
                 D0: seq<real>, F0: seq<int>, i: int, j: int, hi: int)
    requires PassState(s, idx, act, ds, fs, D0, F0, i, j, hi) && j < hi && ds[j] < ds[i]
    ensures PassState(s, idx, act, ds[i := ds[j]][j := ds[i]], fs[i := fs[j]][j := fs[i]], D0, F0, i, j + 1, hi)
  {
    var ds', fs' := ds[i := ds[j]][j := ds[i]], fs[i := fs[j]][j := fs[i]];
    assert Coupled(s, idx, act, ds', fs', hi);
    assert SortedUpTo(ds', i, hi);
    assert forall q :: i < q < j + 1 ==> ds'[i] <= ds'[q];
    assert SameOutside(D0, ds', i, hi) && SameOutside(F0, fs', i, hi);
    assert multiset(fs'[..hi]) == multiset(F0[..hi]) by {
      assert fs'[..hi] == fs[..hi][i := fs[j]][j := fs[i]];
      SwapKeepsMultiset(fs[..hi], i, j);
    }
  }

  lemma PassKeep(s: seq<real>, idx: seq<int>, act: int, ds: seq<real>, fs: seq<int>,
                 D0: seq<real>, F0: seq<int>, i: int, j: int, hi: int)
    requires PassState(s, idx, act, ds, fs, D0, F0, i, j, hi) && j < hi && !(ds[j] < ds[i])
    ensures PassState(s, idx, act, ds, fs, D0, F0, i, j + 1, hi)
  {
  }

  /** One pass of the selection sort: the smallest distance in slots i .. hi - 1 moves to
      slot i, its candidate with it; slots before i and from hi on are left alone. */
  method SelectSmallest(ghost s: seq<real>, ghost idx: seq<int>, ghost act: int,
                        abstand: array<real>, found: array<int>, i: int, hi: int)
    requires 0 <= i < hi <= abstand.Length && hi <= found.Length
    requires Coupled(s, idx, act, abstand[..], found[..], hi)
    requires SortedUpTo(abstand[..], i, hi)
    modifies abstand, found
    ensures Coupled(s, idx, act, abstand[..], found[..], hi)
    ensures SortedUpTo(abstand[..], i + 1, hi)
    ensures multiset(found[..hi]) == multiset(old(found[..])[..hi])
    ensures SameOutside(old(abstand[..]), abstand[..], i, hi)
    ensures SameOutside(old(found[..]), found[..], i, hi)
  {
    ghost var D0, F0 := abstand[..], found[..];
    var j := i + 1;
    while j < hi
      invariant PassState(s, idx, act, abstand[..], found[..], D0, F0, i, j, hi)
    {
      ghost var D, F := abstand[..], found[..];
      if abstand[j] < abstand[i] {
        PassSwap(s, idx, act, D, F, D0, F0, i, j, hi);
        SwapEntries(abstand, found, i, j);
      } else {
        PassKeep(s, idx, act, D, F, D0, F0, i, j, hi);
      }
      j := j + 1;
    }
  }

  /** Moving the last candidate into the query point's slot leaves the candidates
      MoveLastInto describes, each beside its distance. */
  lemma DropKeepsCoupling(s: seq<real>, idx: seq<int>, act: int, D: seq<real>, F: seq<int>, imax: int, self: int)
    requires |idx| >= 1 && HasDelayVector(s, idx, act)
    requires 2 <= imax <= |D| && imax <= |F|
    requires forall k :: 0 <= k < imax ==> HasDelayVector(s, idx, F[k])
    requires forall k :: 0 <= k < imax && F[k] != act ==> D[k] == Distance(s, idx, act, F[k], |idx|)
    requires self == SelfSlot(F[..imax], act) && multiset(F[..imax])[act] <= 1
    ensures self != imax - 1 ==>
              && F[self := F[imax - 1]][..imax - 1] == MoveLastInto(F[..imax], self)
              && Coupled(s, idx, act, D[self := D[imax - 1]], F[self := F[imax - 1]], imax - 1)
    ensures self == imax - 1 ==>
              F[..imax - 1] == MoveLastInto(F[..imax], self) && Coupled(s, idx, act, D, F, imax - 1)
  {
    var c := F[..imax];
    var r := MoveLastInto(c, self);
    assert act !in r by {
      SelfRemovalExcludesQuery(c, act);
    }
    var D', F' := if self != imax - 1 then D[self := D[imax - 1]] else D,
                  if self != imax - 1 then F[self := F[imax - 1]] else F;
    assert F'[..imax - 1] == r;
    forall k | 0 <= k < imax - 1
      ensures F'[k] != act && HasDelayVector(s, idx, F'[k]) && D'[k] == Distance(s, idx, act, F'[k], |idx|)
    {
      assert F'[k] == r[k];
    }
  }

  /** The distance pass followed by the removal of the query point: the last candidate
      moves into the slot of the query point (or into slot 0 when it is absent). */
  method DropQuery(s: seq<real>, idx: seq<int>, act: int, abstand: array<real>, found: array<int>, imax: int,
                   ghost C: seq<int>)
    requires IsIndexTable(idx, |idx|) && |idx| >= 1 && HasDelayVector(s, idx, act)
    requires 2 <= imax <= abstand.Length && imax <= found.Length && found[..imax] == C
    requires forall k :: 0 <= k < imax ==> HasDelayVector(s, idx, found[k])
    requires multiset(C)[act] <= 1
    modifies abstand, found
    ensures found[..imax - 1] == MoveLastInto(C, SelfSlot(C, act))
    ensures Coupled(s, idx, act, abstand[..], found[..], imax - 1)
    ensures SameOutside(old(found[..]), found[..], 0, imax - 1)
    ensures SameOutside(old(abstand[..]), abstand[..], 0, imax)
    ensures abstand[imax - 1] ==
              if old(found[imax - 1]) != act then Distance(s, idx, act, old(found[imax - 1]), |idx|)
              else old(abstand[imax - 1])
  {
    var self := ComputeDistances(s, idx, act, abstand, found, imax);
    ghost var D, F := abstand[..], found[..];
    DropKeepsCoupling(s, idx, act, D, F, imax, self);
    if self != imax - 1 {
      abstand[self] := abstand[imax - 1];
      found[self] := found[imax - 1];
      assert abstand[..] == D[self := D[imax - 1]] && found[..] == F[self := F[imax - 1]];
    }
  }

  /** The first selection phase: passes for slots 0 .. count - 1 over the first hi slots. */
  method SortPrefix(ghost s: seq<real>, ghost idx: seq<int>, ghost act: int,
                    abstand: array<real>, found: array<int>, count: int, hi: int)
    requires 0 <= count <= hi <= abstand.Length && hi <= found.Length
    requires Coupled(s, idx, act, abstand[..], found[..], hi)
    modifies abstand, found
    ensures Coupled(s, idx, act, abstand[..], found[..], hi)
    ensures SortedUpTo(abstand[..], count, hi)
    ensures multiset(found[..hi]) == multiset(old(found[..])[..hi])
    ensures SameOutside(old(abstand[..]), abstand[..], 0, hi)
    ensures SameOutside(old(found[..]), found[..], 0, hi)
  {
    var i := 0;
    while i < count
      invariant 0 <= i <= count
      invariant Coupled(s, idx, act, abstand[..], found[..], hi)
      invariant SortedUpTo(abstand[..], i, hi)
      invariant multiset(found[..hi]) == multiset(old(found[..])[..hi])
      invariant SameOutside(old(abstand[..]), abstand[..], 0, hi)
      invariant SameOutside(old(found[..]), found[..], 0, hi)
    {
      SelectSmallest(s, idx, act, abstand, found, i, hi);
      i := i + 1;
    }
  }

  /** The second selection phase: further passes from slot minNeighbors on, stopping at the
      first slot whose distance exceeds epsmin; slot hi - 1 is never tested. When no slot
      qualifies, nfound is hi + 1, the number of candidates before the query was dropped. */
  method ExtendNeighbourhood(ghost s: seq<real>, ghost idx: seq<int>, ghost act: int,
                             abstand: array<real>, found: array<int>, minNeighbors: int, epsmin: real, hi: int)
    returns (nfound: int, enough: bool)
    requires 1 <= minNeighbors <= hi <= abstand.Length && hi <= found.Length
    requires Coupled(s, idx, act, abstand[..], found[..], hi)
    requires SortedUpTo(abstand[..], minNeighbors, hi)
    requires abstand[minNeighbors - 1] < epsmin
    modifies abstand, found
    ensures Coupled(s, idx, act, abstand[..], found[..], hi)
    ensures SortedUpTo(abstand[..], nfound, hi)
    ensures multiset(found[..hi]) == multiset(old(found[..])[..hi])
    ensures SameOutside(old(abstand[..]), abstand[..], minNeighbors, hi)
    ensures SameOutside(old(found[..]), found[..], minNeighbors, hi)
    ensures enough ==> minNeighbors < nfound <= hi - 1 && abstand[nfound - 1] > epsmin
    ensures enough ==> forall k :: minNeighbors - 1 <= k < nfound - 1 ==> abstand[k] <= epsmin
    ensures !enough ==> nfound == hi + 1 && forall k :: minNeighbors - 1 <= k < hi - 1 ==> abstand[k] <= epsmin
  {
    var i := minNeighbors;
    while i < hi - 1
      invariant minNeighbors <= i && (i <= hi - 1 || i == minNeighbors)
      invariant Coupled(s, idx, act, abstand[..], found[..], hi)
      invariant SortedUpTo(abstand[..], i, hi)
      invariant multiset(found[..hi]) == multiset(old(found[..])[..hi])
      invariant SameOutside(old(abstand[..]), abstand[..], minNeighbors, hi)
      invariant SameOutside(old(found[..]), found[..], minNeighbors, hi)
      invariant forall k :: minNeighbors - 1 <= k < i ==> abstand[k] <= epsmin
    {
      SelectSmallest(s, idx, act, abstand, found, i, hi);
      if abstand[i] > epsmin {
        return i + 1, true;
      }
      i := i + 1;
    }
    return hi + 1, false;
  }

  /** The outcome of the acceptance tests over the first hi slots of ds, slot hi - 1 being
      the last candidate: the first nfound slots hold the nearest candidates in ascending
      order, and either at least minNeighbors of them have been accepted (without a minimal
      radius, or with the first distance beyond epsmin) or, in the fallback, none was and
      nfound counts the query point too. */
  ghost predicate Accepted(ds: seq<real>, minNeighbors: int, epsset: bool, epsmin: real, hi: int,
                           maxeps: real, nfound: int, enough: bool)
  {
    && 1 <= minNeighbors <= hi <= |ds| && minNeighbors <= nfound <= hi + 1
    && SortedUpTo(ds, nfound, hi)
    && (enough ==> nfound <= hi && maxeps == ds[nfound - 1])
    && (!epsset ==> enough && nfound == minNeighbors)
    && (enough && nfound == minNeighbors ==> !epsset || ds[minNeighbors - 1] >= epsmin)
    && (enough && nfound > minNeighbors ==>
          && epsset && nfound <= hi - 1 && ds[nfound - 1] > epsmin && ds[minNeighbors - 1] < epsmin
          && forall k :: minNeighbors - 1 <= k < nfound - 1 ==> ds[k] <= epsmin)
    && (!enough ==>
          && epsset && nfound == hi + 1 && maxeps == ds[hi - 1] && ds[minNeighbors - 1] < epsmin
          && forall k :: minNeighbors - 1 <= k < hi - 1 ==> ds[k] <= epsmin)
  }

  /** The state Sort leaves behind when it ranked the candidates C: the query point is
      removed from the first |C| - 1 slots, the last slot still holds the last candidate,
      each slot is coupled to its distance, and the acceptance tests hold. */
  ghost predicate Ranked(s: seq<real>, idx: seq<int>, act: int, minNeighbors: int, epsset: bool,
                         epsmin: real, C: seq<int>, ds: seq<real>, fd: seq<int>,
                         maxeps: real, nfound: int, enough: bool)
  {
    && 1 <= minNeighbors < |C| <= |fd|
    && PermutesDropped(C, act, fd)
    && fd[|C| - 1] == C[|C| - 1]
    && Coupled(s, idx, act, ds, fd, |C| - 1)
    && Accepted(ds, minNeighbors, epsset, epsmin, |C| - 1, maxeps, nfound, enough)
  }

  /** The two selection phases and the acceptance tests over the hi candidates left once
      the query point is dropped. */
  method Rank(ghost s: seq<real>, ghost idx: seq<int>, ghost act: int, minNeighbors: int, epsset: bool,
              epsmin: real, abstand: array<real>, found: array<int>, hi: int, ghost P: seq<int>)
    returns (maxeps: real, nfound: int, enough: bool)
    requires 1 <= minNeighbors <= hi <= abstand.Length && hi <= found.Length && found[..hi] == P
    requires Coupled(s, idx, act, abstand[..], found[..], hi)
    modifies abstand, found
    ensures Coupled(s, idx, act, abstand[..], found[..], hi)
    ensures multiset(found[..hi]) == multiset(P)
    ensures SameOutside(old(abstand[..]), abstand[..], 0, hi)
    ensures SameOutside(old(found[..]), found[..], 0, hi)
    ensures Accepted(abstand[..], minNeighbors, epsset, epsmin, hi, maxeps, nfound, enough)
  {
    SortPrefix(s, idx, act, abstand, found, minNeighbors, hi);
    if !epsset || abstand[minNeighbors - 1] >= epsmin {
      nfound := minNeighbors;
      enough := true;
      maxeps := abstand[minNeighbors - 1];
      return;
    }
    ghost var A1, F1 := abstand[..], found[..];
    nfound, enough := ExtendNeighbourhood(s, idx, act, abstand, found, minNeighbors, epsmin, hi);
    assert multiset(found[..hi]) == multiset(F1[..hi]);
    if enough {
      maxeps := abstand[nfound - 1];
    } else {
      maxeps := abstand[hi - 1];
    }
  }

  /** Sort: distances of the candidates found[..nFound] to the query point act, removal of
      the query point, a partial selection sort of the remaining nFound - 1 candidates,
      and the decision how many of the nearest to keep. */
  method Sort(s: seq<real>, idx: seq<int>, minNeighbors: int, epsset: bool, epsmin: real,
              abstand: array<real>, found: array<int>, act: int, nFound: int, ghost C: seq<int>)
    returns (maxeps: real, nfound: int, enough: bool)
    requires IsIndexTable(idx, |idx|) && |idx| >= 1 && HasDelayVector(s, idx, act)
    requires 1 <= minNeighbors < nFound <= abstand.Length && nFound <= found.Length && found[..nFound] == C
    requires forall k :: 0 <= k < nFound ==> HasDelayVector(s, idx, found[k])
    requires multiset(C)[act] <= 1
    modifies abstand, found
    ensures Ranked(s, idx, act, minNeighbors, epsset, epsmin, C, abstand[..], found[..], maxeps, nfound, enough)
    ensures minNeighbors <= nfound <= nFound
    ensures SameOutside(old(found[..]), found[..], 0, nFound - 1)
    ensures SameOutside(old(abstand[..]), abstand[..], 0, nFound)
    ensures abstand[nFound - 1] ==
              if old(found[nFound - 1]) != act then Distance(s, idx, act, old(found[nFound - 1]), |idx|)
              else old(abstand[nFound - 1])
  {
    var imax := nFound;
    ghost var A0, F0 := abstand[..], found[..];
    DropQuery(s, idx, act, abstand, found, imax, C);
    ghost var A1, F1 := abstand[..], found[..];
    maxeps, nfound, enough := Rank(s, idx, act, minNeighbors, epsset, epsmin, abstand, found, imax - 1,
                                   MoveLastInto(C, SelfSlot(C, act)));
    SortComposes(A0, F0, A1, F1, abstand[..], found[..], imax);
    assert found[imax - 1] == F0[imax - 1] == C[imax - 1];
  }

  /** The two phases of Sort compose: the drop of the query point, then the ranking
      confined to the slots before imax - 1. */
  lemma SortComposes(A0: seq<real>, F0: seq<int>, A1: seq<real>, F1: seq<int>,
                     A2: seq<real>, F2: seq<int>, imax: int)
    requires 2 <= imax <= |A0| && imax <= |F0|
    requires SameOutside(F0, F1, 0, imax - 1) && SameOutside(A0, A1, 0, imax)
    requires SameOutside(A1, A2, 0, imax - 1) && SameOutside(F1, F2, 0, imax - 1)
    ensures SameOutside(F0, F2, 0, imax - 1) && SameOutside(A0, A2, 0, imax)
    ensures A2[imax - 1] == A1[imax - 1]
  {
    SameOutsideCompose(F0, F1, F2, imax - 1, imax - 1);
    SameOutsideCompose(A0, A1, A2, imax, imax - 1);
  }

  /** Two updates confined to the front slots leave the rest as it was. */
  lemma SameOutsideCompose<T>(a: seq<T>, b: seq<T>, c: seq<T>, hi1: int, hi2: int)
    requires SameOutside(a, b, 0, hi1) && SameOutside(b, c, 0, hi2) && hi2 <= hi1
    ensures SameOutside(a, c, 0, hi1)
  {
  }
}
