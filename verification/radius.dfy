/** The schedule of trial radii of the neighbour search: the radius starts at epsmin,
    grows by the factor epsstep per trial and is clamped to EPSMAX. */
module Radius {

  /** The largest neighbourhood radius (the data are rescaled to the unit interval). */
  const EPSMAX: real := 1.0

  function Min(a: real, b: real): real
  {
    if b < a then b else a
  }

  /** The radius of trial k: the search starts from epsmin / epsstep and each trial
      multiplies by epsstep, then clamps to EPSMAX. */
  function Trial(epsmin: real, epsstep: real, k: nat): (eps: real)
    requires epsstep != 0.0
    ensures eps <= EPSMAX
    decreases k, 1
  {
    Grow(Before(epsmin, epsstep, k), epsstep)
  }

  /** One widening: the radius times epsstep, clamped to EPSMAX. */
  function Grow(prev: real, epsstep: real): real
  {
    Min(EPSMAX, prev * epsstep)
  }

  /** The radius before trial k is widened: epsmin / epsstep before the first trial,
      the radius of trial k - 1 after it. */
  function Before(epsmin: real, epsstep: real, k: nat): real
    requires epsstep != 0.0
    decreases k, 0
  {
    if k == 0 then epsmin / epsstep else Trial(epsmin, epsstep, k - 1)
  }

  lemma MulMono(a: real, b: real, c: real)
    requires a <= b && c >= 0.0
    ensures a * c <= b * c
  {
    assert (b - a) * c >= 0.0;
  }

  lemma MulStrict(a: real, b: real, c: real)
    requires a < b && c > 0.0
    ensures a * c < b * c
  {
    assert (b - a) * c > 0.0;
  }

  /** The first trial is epsmin itself, clamped to the cap. */
  lemma FirstTrial(epsmin: real, epsstep: real)
    requires epsstep != 0.0
    ensures Trial(epsmin, epsstep, 0) == Min(EPSMAX, epsmin)
  {
    assert (epsmin / epsstep) * epsstep == epsmin;
  }

  lemma {:induction false} TrialPositive(epsmin: real, epsstep: real, k: nat)
    requires epsmin > 0.0 && epsstep > 1.0
    ensures Trial(epsmin, epsstep, k) > 0.0
  {
    var prev := Before(epsmin, epsstep, k);
    if k > 0 {
      TrialPositive(epsmin, epsstep, k - 1);
    }
    MulStrict(0.0, prev, epsstep);
  }

  /** From epsmin = 0 every trial radius is 0, so the trials never reach EPSMAX and the
      retry loop ends only on an accepted neighbourhood. */
  lemma {:induction false} ZeroRadiusNeverCaps(epsstep: real, k: nat)
    requires epsstep != 0.0
    ensures Trial(0.0, epsstep, k) == 0.0 < EPSMAX
  {
    if k > 0 {
      ZeroRadiusNeverCaps(epsstep, k - 1);
    }
  }

  /** Below the cap, each trial radius is strictly larger than the one before. */
  lemma TrialGrows(epsmin: real, epsstep: real, k: nat)
    requires epsmin > 0.0 && epsstep > 1.0
    requires Trial(epsmin, epsstep, k) < EPSMAX
    ensures Trial(epsmin, epsstep, k) < Trial(epsmin, epsstep, k + 1)
  {
    var t := Trial(epsmin, epsstep, k);
    TrialPositive(epsmin, epsstep, k);
    MulStrict(1.0, epsstep, t);
    assert Trial(epsmin, epsstep, k + 1) == Min(EPSMAX, t * epsstep);
  }

  /** Once the cap is reached every later trial stays at the cap. */
  lemma {:induction false} TrialStaysCapped(epsmin: real, epsstep: real, k: nat, l: nat)
    requires epsstep >= 1.0 && k <= l
    requires Trial(epsmin, epsstep, k) == EPSMAX
    ensures Trial(epsmin, epsstep, l) == EPSMAX
    decreases l - k
  {
    if k < l {
      assert EPSMAX * epsstep >= EPSMAX;
      TrialStaysCapped(epsmin, epsstep, k + 1, l);
    }
  }

  lemma GrowthStep(epsmin: real, epsstep: real, t: real, b: real)
    requires epsmin > 0.0 && epsstep > 1.0 && b >= epsmin && t >= b
    ensures t * epsstep >= b + epsmin * (epsstep - 1.0)
  {
    MulMono(epsmin, t, epsstep - 1.0);
    assert t * epsstep == t + t * (epsstep - 1.0);
  }

  /** One widening from a radius t at least min(EPSMAX, b) gives at least
      min(EPSMAX, b + c), c being the increment epsmin * (epsstep - 1). */
  lemma WidenBound(epsmin: real, epsstep: real, t: real, b: real, c: real)
    requires epsmin > 0.0 && epsstep > 1.0 && b >= epsmin && c == epsmin * (epsstep - 1.0)
    requires Min(EPSMAX, b) <= t <= EPSMAX
    ensures Grow(t, epsstep) >= Min(EPSMAX, b + c)
  {
    if t < EPSMAX {
      GrowthStep(epsmin, epsstep, t, b);
    } else {
      MulMono(1.0, epsstep, EPSMAX);
    }
  }

  /** epsmin plus k increments c, added one at a time. */
  function Ramp(epsmin: real, c: real, k: nat): (r: real)
    requires c >= 0.0
    ensures r >= epsmin
  {
    if k == 0 then epsmin else Ramp(epsmin, c, k - 1) + c
  }

  lemma {:induction false} RampClosedForm(epsmin: real, c: real, k: nat)
    requires c >= 0.0
    ensures Ramp(epsmin, c, k) == epsmin + (k as real) * c
  {
    if k > 0 {
      RampClosedForm(epsmin, c, k - 1);
      assert (k as real) == ((k - 1) as real) + 1.0;
    }
  }

  /** Each trial adds at least the increment epsmin * (epsstep - 1) to the radius until
      the radius is at the cap. */
  lemma {:induction false} TrialAboveRamp(epsmin: real, epsstep: real, k: nat)
    requires epsmin > 0.0 && epsstep > 1.0
    ensures Trial(epsmin, epsstep, k) >= Min(EPSMAX, Ramp(epsmin, epsmin * (epsstep - 1.0), k))
  {
    var c := epsmin * (epsstep - 1.0);
    if k == 0 {
      FirstTrial(epsmin, epsstep);
    } else {
      TrialAboveRamp(epsmin, epsstep, k - 1);
      var t := Trial(epsmin, epsstep, k - 1);
      var b := Ramp(epsmin, c, k - 1);
      assert Before(epsmin, epsstep, k) == t;
      assert Trial(epsmin, epsstep, k) == Grow(t, epsstep);
      assert Ramp(epsmin, c, k) == b + c;
      WidenBound(epsmin, epsstep, t, b, c);
    }
  }

  /** Each trial below the cap adds at least epsmin * (epsstep - 1) to the radius. */
  lemma TrialLowerBound(epsmin: real, epsstep: real, k: nat)
    requires epsmin > 0.0 && epsstep > 1.0
    ensures Trial(epsmin, epsstep, k) >= Min(EPSMAX, epsmin + (k as real) * (epsmin * (epsstep - 1.0)))
  {
    TrialAboveRamp(epsmin, epsstep, k);
    RampClosedForm(epsmin, epsmin * (epsstep - 1.0), k);
  }

  /** Every trial before trial k stayed below the cap, so the search went on past it. */
  ghost predicate BelowCapBefore(epsmin: real, epsstep: real, k: nat)
    requires epsstep != 0.0
  {
    forall j :: 0 <= j < k ==> Trial(epsmin, epsstep, j) < EPSMAX
  }

  lemma BelowCapNext(epsmin: real, epsstep: real, k: nat)
    requires epsstep != 0.0 && BelowCapBefore(epsmin, epsstep, k) && Trial(epsmin, epsstep, k) < EPSMAX
    ensures BelowCapBefore(epsmin, epsstep, k + 1)
  {
  }

  /** A number of trials after which the radius is certainly at the cap. */
  function CapIndex(epsmin: real, epsstep: real): nat
    requires epsmin > 0.0 && epsstep > 1.0
  {
    var t := ((EPSMAX - epsmin) / (epsmin * (epsstep - 1.0))).Floor + 1;
    if t < 0 then 0 else t
  }

  /** Some trial of the schedule is at the cap. */
  lemma CapReached(epsmin: real, epsstep: real) returns (cap: nat)
    requires epsmin > 0.0 && epsstep > 1.0
    ensures Trial(epsmin, epsstep, cap) == EPSMAX
  {
    cap := CapIndex(epsmin, epsstep);
    TrialReachesCap(epsmin, epsstep, cap);
  }

  /** The schedule reaches the cap after finitely many trials, so the search terminates. */
  lemma TrialReachesCap(epsmin: real, epsstep: real, k: nat)
    requires epsmin > 0.0 && epsstep > 1.0 && k >= CapIndex(epsmin, epsstep)
    ensures Trial(epsmin, epsstep, k) == EPSMAX
  {
    var c := epsmin * (epsstep - 1.0);
    assert c > 0.0 by {
      MulStrict(0.0, epsstep - 1.0, epsmin);
    }
    var q := (EPSMAX - epsmin) / c;
    var kr := k as real;
    assert kr > q;
    assert q * c == EPSMAX - epsmin;
    MulStrict(q, kr, c);
    TrialLowerBound(epsmin, epsstep, k);
  }
}
