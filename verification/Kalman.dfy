/** KalmanFilter of Common/filters.h over exact reals. */
module Kalman {

  /** The gain for a predicted error e (the error after the process noise has been added). */
  function Gain(e: real, measurementNoise: real): real
    requires e > 0.0 && measurementNoise > 0.0
  {
    e / (e + measurementNoise)
  }

  /** The gain lies strictly between 0 and 1. */
  lemma GainBounds(e: real, r: real)
    requires e > 0.0 && r > 0.0
    ensures 0.0 < Gain(e, r) < 1.0 && Gain(e, r) * (e + r) == e
  {
    var g := Gain(e, r);
    assert g * (e + r) == e;
    if g <= 0.0 { Signs(g, e + r); }
    if g >= 1.0 { Signs(1.0 - g, e + r); }
  }

  lemma Signs(a: real, b: real)
    requires b > 0.0
    ensures a <= 0.0 ==> a * b <= 0.0
    ensures a > 0.0 ==> a * b > 0.0
  {
  }

  /** The error after one update. */
  function NextError(e: real, q: real, r: real): (next: real)
    requires e >= 0.0 && q > 0.0 && r > 0.0
  {
    (1.0 - Gain(e + q, r)) * (e + q)
  }

  /** The new error is the parallel combination of predicted error and measurement noise,
      p r / (p + r); it lies strictly between 0 and both of them. */
  lemma ErrorBounds(e: real, q: real, r: real)
    requires e >= 0.0 && q > 0.0 && r > 0.0
    ensures var next := NextError(e, q, r);
      next * (e + q + r) == (e + q) * r && 0.0 < next < r && next < e + q
  {
    var p := e + q;
    var g := Gain(p, r);
    var next := NextError(e, q, r);
    GainBounds(p, r);
    hide Gain;
    Parallel(g, p, r, next);
  }

  lemma Parallel(g: real, p: real, r: real, next: real)
    requires p > 0.0 && r > 0.0 && 0.0 < g < 1.0 && g * (p + r) == p && next == (1.0 - g) * p
    ensures next * (p + r) == p * r && 0.0 < next < r && next < p
  {
    assert next == p - g * p == g * r;
    assert next * (p + r) == (g * (p + r)) * r;
    Shrinks(g, r, next);
    Shrinks(1.0 - g, p, next);
  }

  lemma Shrinks(g: real, r: real, x: real)
    requires 0.0 < g < 1.0 && r > 0.0 && x == g * r
    ensures 0.0 < x < r
  {
    Signs(g, r);
    Signs(1.0 - g, r);
    assert (1.0 - g) * r == r - x;
  }

  /** The old estimate weighs as much as the measurement is uncertain, and the other way round. */
  lemma InverseWeights(g: real, p: real, r: real, last: real, m: real)
    requires g * (p + r) == p
    ensures (last + g * (m - last)) * (p + r) == last * r + m * p
  {
    assert (last + g * (m - last)) * (p + r) == last * (p + r) + (g * (p + r)) * (m - last);
  }

  function Blend(g: real, last: real, m: real): real {
    last + g * (m - last)
  }

  /** The estimate moves part of the way towards the measurement. */
  lemma Between(g: real, last: real, m: real, lo: real, hi: real)
    requires 0.0 < g < 1.0 && lo <= last <= hi && lo <= m <= hi
    ensures lo <= Blend(g, last, m) <= hi
  {
    var x := Blend(g, last, m);
    assert x - lo == (1.0 - g) * (last - lo) + g * (m - lo);
    assert hi - x == (1.0 - g) * (hi - last) + g * (hi - m);
    Product(1.0 - g, last - lo);
    Product(g, m - lo);
    Product(1.0 - g, hi - last);
    Product(g, hi - m);
  }

  lemma Product(a: real, b: real)
    requires a >= 0.0 && b >= 0.0
    ensures a * b >= 0.0
  {
  }

  class KalmanFilter {
    const processNoise: real
    const measurementNoise: real
    var estimationError: real
    var lastEstimate: real

    ghost predicate Valid()
      reads this
    {
      processNoise > 0.0 && measurementNoise > 0.0 && estimationError >= 0.0
    }

    constructor (q: real, r: real, e: real)
      requires q > 0.0 && r > 0.0 && e >= 0.0
      ensures Valid() && processNoise == q && measurementNoise == r && estimationError == e && lastEstimate == 0.0
    {
      processNoise, measurementNoise, estimationError, lastEstimate := q, r, e, 0.0;
    }

    method Update(measurement: real) returns (estimate: real)
      requires Valid()
      modifies this
      ensures Valid() && 0.0 < estimationError < measurementNoise
      ensures estimationError == NextError(old(estimationError), processNoise, measurementNoise)
      ensures estimate == lastEstimate
        == Blend(Gain(old(estimationError) + processNoise, measurementNoise), old(lastEstimate), measurement)
      ensures var p, r := old(estimationError) + processNoise, measurementNoise;
        && estimate * (p + r) == old(lastEstimate) * r + measurement * p
        && estimationError * (p + r) == p * r
    {
      ErrorBounds(estimationError, processNoise, measurementNoise);
      GainBounds(estimationError + processNoise, measurementNoise);
      InverseWeights(Gain(estimationError + processNoise, measurementNoise), estimationError + processNoise,
                     measurementNoise, lastEstimate, measurement);
      estimationError := estimationError + processNoise;
      var kalmanGain := Gain(estimationError, measurementNoise);
      lastEstimate := lastEstimate + kalmanGain * (measurement - lastEstimate);
      estimationError := (1.0 - kalmanGain) * estimationError;
      estimate := lastEstimate;
    }
  }

  function ErrorAfter(e: real, q: real, r: real, n: nat): (err: real)
    requires e >= 0.0 && q > 0.0 && r > 0.0
    ensures err >= 0.0 && (n > 0 ==> 0.0 < err < r)
  {
    if n == 0 then e
    else
      var before := ErrorAfter(e, q, r, n - 1);
      ErrorBounds(before, q, r);
      NextError(before, q, r)
  }

  /** The estimate after the first n measurements. */
  function EstimateAfter(e: real, q: real, r: real, measurements: seq<real>, n: nat): real
    requires e >= 0.0 && q > 0.0 && r > 0.0 && n <= |measurements|
  {
    if n == 0 then 0.0
    else Blend(Gain(ErrorAfter(e, q, r, n - 1) + q, r),
               EstimateAfter(e, q, r, measurements, n - 1), measurements[n - 1])
  }

  /** Every estimate lies in every interval that contains 0 and the measurements so far. */
  lemma {:induction false} EstimateInHull(e: real, q: real, r: real, ms: seq<real>, n: nat, lo: real, hi: real)
    requires e >= 0.0 && q > 0.0 && r > 0.0 && n <= |ms|
    requires lo <= 0.0 <= hi && forall i | 0 <= i < n :: lo <= ms[i] <= hi
    ensures lo <= EstimateAfter(e, q, r, ms, n) <= hi
  {
    hide Gain, ErrorAfter, Blend;
    if n > 0 {
      EstimateInHull(e, q, r, ms, n - 1, lo, hi);
      var p := ErrorAfter(e, q, r, n - 1) + q;
      GainBounds(p, r);
      Between(Gain(p, r), EstimateAfter(e, q, r, ms, n - 1), ms[n - 1], lo, hi);
    }
  }

  lemma EstimateStep(e: real, q: real, r: real, ms: seq<real>, n: nat)
    requires e >= 0.0 && q > 0.0 && r > 0.0 && n < |ms|
    ensures EstimateAfter(e, q, r, ms, n + 1)
      == Blend(Gain(ErrorAfter(e, q, r, n) + q, r), EstimateAfter(e, q, r, ms, n), ms[n])
    ensures ErrorAfter(e, q, r, n + 1) == NextError(ErrorAfter(e, q, r, n), q, r)
  {
    hide Gain, Blend, NextError;
  }

  /** A whole stream of measurements through one filter. */
  method Estimates(q: real, r: real, e: real, measurements: seq<real>) returns (out: seq<real>)
    requires q > 0.0 && r > 0.0 && e >= 0.0
    ensures |out| == |measurements|
    ensures forall i | 0 <= i < |out| :: out[i] == EstimateAfter(e, q, r, measurements, i + 1)
  {
    hide Gain, NextError, Blend, ErrorAfter, EstimateAfter;
    var filter := new KalmanFilter(q, r, e);
    out := [];
    FreshFilter(e, q, r, measurements);
    for n := 0 to |measurements|
      invariant filter.Valid() && fresh(filter) && filter.processNoise == q && filter.measurementNoise == r
      invariant |out| == n && filter.lastEstimate == EstimateAfter(e, q, r, measurements, n)
      invariant filter.estimationError == ErrorAfter(e, q, r, n)
      invariant forall i | 0 <= i < n :: out[i] == EstimateAfter(e, q, r, measurements, i + 1)
    {
      EstimateStep(e, q, r, measurements, n);
      var estimate := filter.Update(measurements[n]);
      out := out + [estimate];
    }
  }

  lemma FreshFilter(e: real, q: real, r: real, ms: seq<real>)
    requires e >= 0.0 && q > 0.0 && r > 0.0
    ensures ErrorAfter(e, q, r, 0) == e && EstimateAfter(e, q, r, ms, 0) == 0.0
  {
  }

  // ----- the initial error is forgotten

  function Times(a: real, b: real): real {
    a * b
  }

  /** A distance that shrinks n times by the factor c. */
  function Decay(distance: real, c: real, n: nat): real {
    if n == 0 then distance else Times(c, Decay(distance, c, n - 1))
  }

  /** One update brings two errors closer by the factor of a gain that depends on the noises only. */
  lemma Contracts(a: real, b: real, q: real, r: real)
    requires b >= a >= 0.0 && q > 0.0 && r > 0.0
    ensures 0.0 <= NextError(b, q, r) - NextError(a, q, r) <= Times(Gain(r, q), b - a)
  {
    hide Gain, NextError;
    ErrorBounds(a, q, r);
    ErrorBounds(b, q, r);
    GainBounds(r, q);
    CrossMultiply(NextError(a, q, r), NextError(b, q, r), a + q, b + q, r);
    ShrinkStep(NextError(b, q, r) - NextError(a, q, r), r - NextError(a, q, r), b - a, a + q, b + q, r, q, Gain(r, q));
  }

  /** From x = u r / (u + r) and y = v r / (v + r). */
  lemma CrossMultiply(x: real, y: real, u: real, v: real, r: real)
    requires x * (u + r) == u * r && y * (v + r) == v * r
    ensures (y - x) * (v + r) == (r - x) * (v - u)
  {
    assert (y - x) * (v + r) == y * (v + r) - x * (u + r) - x * (v - u);
  }

  lemma ShrinkStep(d: real, f: real, w: real, u: real, v: real, r: real, q: real, c: real)
    requires q > 0.0 && r > 0.0 && v >= u >= q && w == v - u && 0.0 < c < 1.0 && 0.0 < f < r
    requires d * (v + r) == f * w && c * (r + q) == r
    ensures 0.0 <= d <= c * w
  {
    Product(f, w);
    if d < 0.0 { Signs(-d, v + r); }
    // f w <= r w = c (r + q) w <= c (v + r) w
    Product(r - f, w);
    Product(c, w);
    Product(c * w, v - q);
    assert c * w * (r + q) == r * w;
    assert c * w * (v + r) == c * w * (v - q) + c * w * (r + q);
    assert d * (v + r) <= c * w * (v + r);
    CancelPositive(d, c * w, v + r);
  }

  lemma CancelPositive(a: real, b: real, k: real)
    requires k > 0.0 && a * k <= b * k
    ensures a <= b
  {
    if a > b {
      Signs(a - b, k);
    }
  }

  /** Two filters that differ in the initial error only: the difference of their errors decays
      geometrically, so the choice of the initial error does not matter in the long run. */
  lemma {:induction false} InitialErrorForgotten(a: real, b: real, q: real, r: real, n: nat)
    requires b >= a >= 0.0 && q > 0.0 && r > 0.0
    ensures 0.0 <= ErrorAfter(b, q, r, n) - ErrorAfter(a, q, r, n) <= Decay(b - a, Gain(r, q), n)
  {
    hide Gain, NextError, ErrorAfter, Decay, Times;
    DecayStep(a, b, q, r, n);
    if n > 0 {
      InitialErrorForgotten(a, b, q, r, n - 1);
      var x, y := ErrorAfter(a, q, r, n - 1), ErrorAfter(b, q, r, n - 1);
      Contracts(x, y, q, r);
      GainBounds(r, q);
      Scaled(Gain(r, q), y - x, Decay(b - a, Gain(r, q), n - 1));
    }
  }

  lemma DecayStep(a: real, b: real, q: real, r: real, n: nat)
    requires a >= 0.0 && b >= 0.0 && q > 0.0 && r > 0.0
    ensures n == 0 ==> ErrorAfter(a, q, r, n) == a && ErrorAfter(b, q, r, n) == b
    ensures n == 0 ==> Decay(b - a, Gain(r, q), n) == b - a
    ensures n > 0 ==> ErrorAfter(a, q, r, n) == NextError(ErrorAfter(a, q, r, n - 1), q, r)
    ensures n > 0 ==> ErrorAfter(b, q, r, n) == NextError(ErrorAfter(b, q, r, n - 1), q, r)
    ensures n > 0 ==> Decay(b - a, Gain(r, q), n) == Times(Gain(r, q), Decay(b - a, Gain(r, q), n - 1))
  {
    hide Gain, NextError;
  }

  lemma Scaled(c: real, a: real, b: real)
    requires c > 0.0 && a <= b
    ensures Times(c, a) <= Times(c, b)
  {
    Product(c, b - a);
  }
}
