/**
 * The passes over a recorded ride: estimating the power of every sample
 * (EstimatePower) and recomputing the slope from altitude and distance
 * (RecalcGradient). FitData holds the ride as parallel per-sample columns.
 */
module PowerEstimation {
  import opened Transcendental
  import opened PhysicsParams
  import opened Physics

  /** A sample whose estimate exceeds this (W) is treated as a spike. */
  const SpikeThresholdW: real := 2000.0

  /** Distance over which RecalcGradient measures the slope, in samples. */
  const GradientWindow: nat := 5

  /** A recorded ride, one entry per sample in each column. */
  class FitData {
    var timestamp: seq<int>
    var altitudeM: seq<real>
    var distanceM: seq<real>
    var gradientPercent: seq<real>
    var temperatureC: seq<int>
    var speedMps: seq<real>
    var powerW: seq<int>
    var cadence: seq<int>
    var heartrate: seq<int>
    var estimatedPowerW: seq<real>

    /** A ride with no samples, as default construction leaves it. */
    constructor ()
      ensures timestamp == [] && altitudeM == [] && distanceM == [] && gradientPercent == []
      ensures temperatureC == [] && speedMps == [] && powerW == [] && cadence == []
      ensures heartrate == [] && estimatedPowerW == []
    {
      timestamp, altitudeM, distanceM, gradientPercent := [], [], [], [];
      temperatureC, speedMps, powerW, cadence := [], [], [], [];
      heartrate, estimatedPowerW := [], [];
    }
  }

  // ---------------------------------------------------------------------------
  // EstimatePower
  // ---------------------------------------------------------------------------

  /** The columns EstimatePower reads. */
  datatype Samples = Samples(
    distanceM: seq<real>,
    gradientPercent: seq<real>,
    altitudeM: seq<real>,
    temperatureC: seq<int>,
    speedMps: seq<real>)

  function SamplesOf(data: FitData): Samples
    reads data
  {
    Samples(data.distanceM, data.gradientPercent, data.altitudeM, data.temperatureC, data.speedMps)
  }

  /** The columns EstimatePower neither uses nor writes, and powerW, which
      gives only the number of samples. */
  function OtherColumns(data: FitData): (seq<int>, seq<int>, seq<int>, seq<int>)
    reads data
  {
    (data.timestamp, data.powerW, data.cadence, data.heartrate)
  }

  /** Every column EstimatePower reads has at least `n` samples. */
  predicate Covers(s: Samples, n: nat)
  {
    n <= |s.distanceM| && n <= |s.gradientPercent| && n <= |s.altitudeM|
    && n <= |s.temperatureC| && n <= |s.speedMps|
  }

  /** A whole number of degrees Celsius is never absolute zero. */
  lemma IntegerTemperatureAboveAbsoluteZero(t: int)
    ensures TemperatureK(t as real) != 0.0
  {
  }

  /** PowerEval for sample i, in the environment the three-argument
      EnvironmentParams constructor builds from that sample. */
  function SamplePower(lib: Libm, cp: CyclistParams, s: Samples, i: nat): real
    requires i < |s.gradientPercent| && i < |s.altitudeM| && i < |s.temperatureC| && i < |s.speedMps|
  {
    IntegerTemperatureAboveAbsoluteZero(s.temperatureC[i]);
    var density := AirDensity(lib, s.temperatureC[i] as real, s.altitudeM[i], DefaultHumidityPercent);
    Power(cp, density, s.gradientPercent[i], 0.0, s.speedMps[i] * 3.6)
  }

  /** The estimate for sample i, given the estimate `previous` of sample i - 1:
      0 for a negative distance, the previous estimate in place of a spike after
      the first sample, the sample's power otherwise. */
  function EstimateAt(lib: Libm, cp: CyclistParams, s: Samples, i: nat, previous: real): real
    requires Covers(s, i + 1)
  {
    if s.distanceM[i] < 0.0 then 0.0
    else
      var p := SamplePower(lib, cp, s, i);
      if p > SpikeThresholdW && i > 0 then previous else p
  }

  /** The estimates of the first `n` samples, computed front to back. */
  function Estimates(lib: Libm, cp: CyclistParams, s: Samples, n: nat): (out: seq<real>)
    requires Covers(s, n)
    ensures |out| == n
  {
    if n == 0 then []
    else
      var prefix := Estimates(lib, cp, s, n - 1);
      prefix + [EstimateAt(lib, cp, s, n - 1, if n == 1 then 0.0 else prefix[n - 2])]
  }

  /** PowerEval on sample i, in a fresh environment built from the sample. */
  method SamplePowerEval(data: FitData, cp: CyclistParams, lib: Libm, i: nat) returns (p: real)
    requires i < |data.gradientPercent| && i < |data.altitudeM| && i < |data.temperatureC| && i < |data.speedMps|
    ensures p == SamplePower(lib, cp, SamplesOf(data), i)
  {
    IntegerTemperatureAboveAbsoluteZero(data.temperatureC[i]);
    var ep := new EnvironmentParams.WithDefaults(data.gradientPercent[i], data.altitudeM[i], data.temperatureC[i] as real);
    p := PowerEval(cp, ep, data.speedMps[i] * 3.6, lib);
  }

  /** One pass of the loop for a sample at a non-negative distance: store the
      sample's power at i, then replace a spike after the first sample by the
      estimate at i - 1. */
  method EstimateSample(data: FitData, cp: CyclistParams, lib: Libm, estimatedPowerW: seq<real>, i: nat)
    returns (updated: seq<real>)
    requires i < |estimatedPowerW| && Covers(SamplesOf(data), i + 1) && data.distanceM[i] >= 0.0
    ensures updated == estimatedPowerW[i := EstimateAt(lib, cp, SamplesOf(data), i, if i == 0 then 0.0 else estimatedPowerW[i - 1])]
  {
    var p := SamplePowerEval(data, cp, lib, i);
    updated := estimatedPowerW[i := p];
    if updated[i] > SpikeThresholdW && i > 0 {
      updated := updated[i := updated[i - 1]];
    }
  }

  /** A run of estimates extended by one sample. */
  lemma EstimatesSnoc(lib: Libm, cp: CyclistParams, s: Samples, i: nat, out: seq<real>)
    requires Covers(s, i + 1) && i < |out|
    requires out[..i] == Estimates(lib, cp, s, i)
    requires out[i] == EstimateAt(lib, cp, s, i, if i == 0 then 0.0 else out[i - 1])
    ensures out[..i + 1] == Estimates(lib, cp, s, i + 1)
  {
    assert out[..i + 1] == out[..i] + [out[i]];
  }

  /** The write at the negative-distance branch lands inside `estimated_power_w`
      as the column stands before the pass. */
  predicate NegativeDistanceWriteInBounds(distanceM: seq<real>, n: nat, estimatedLength: nat)
    requires n <= |distanceM|
  {
    forall i :: 0 <= i < n && distanceM[i] < 0.0 ==> i < estimatedLength
  }

  /**
   * EstimatePower as written: the negative-distance branch stores 0 into the
   * FitData column `estimatedPowerW` (not into the local vector), which needs
   * that column to be long enough already.
   */
  method EstimatePowerAsWritten(data: FitData, cp: CyclistParams, lib: Libm)
    requires Covers(SamplesOf(data), |data.powerW|)
    requires NegativeDistanceWriteInBounds(data.distanceM, |data.powerW|, |data.estimatedPowerW|)
    modifies data
    ensures data.estimatedPowerW == Estimates(lib, cp, old(SamplesOf(data)), old(|data.powerW|))
    ensures SamplesOf(data) == old(SamplesOf(data)) && OtherColumns(data) == old(OtherColumns(data))
  {
    ghost var s := SamplesOf(data);
    var n := |data.powerW|;
    var estimatedPowerW := seq(n, _ => 0.0);
    for i := 0 to n
      invariant SamplesOf(data) == s && OtherColumns(data) == old(OtherColumns(data))
      invariant |data.estimatedPowerW| == |old(data.estimatedPowerW)|
      invariant |estimatedPowerW| == n
      invariant estimatedPowerW[..i] == Estimates(lib, cp, s, i)
      invariant forall j :: i <= j < n ==> estimatedPowerW[j] == 0.0
    {
      if data.distanceM[i] < 0.0 {
        data.estimatedPowerW := data.estimatedPowerW[i := 0.0];
        EstimatesSnoc(lib, cp, s, i, estimatedPowerW);
        continue;
      }
      estimatedPowerW := EstimateSample(data, cp, lib, estimatedPowerW, i);
      EstimatesSnoc(lib, cp, s, i, estimatedPowerW);
    }
    assert estimatedPowerW == estimatedPowerW[..n];
    data.estimatedPowerW := estimatedPowerW;
  }

  /**
   * EstimatePower with the negative-distance branch writing the local vector,
   * which already holds 0 there; no requirement on the old `estimatedPowerW`.
   */
  method EstimatePower(data: FitData, cp: CyclistParams, lib: Libm)
    requires Covers(SamplesOf(data), |data.powerW|)
    modifies data
    ensures data.estimatedPowerW == Estimates(lib, cp, old(SamplesOf(data)), old(|data.powerW|))
    ensures SamplesOf(data) == old(SamplesOf(data)) && OtherColumns(data) == old(OtherColumns(data))
  {
    ghost var s := SamplesOf(data);
    var n := |data.powerW|;
    var estimatedPowerW := seq(n, _ => 0.0);
    for i := 0 to n
      invariant SamplesOf(data) == s && OtherColumns(data) == old(OtherColumns(data))
      invariant |estimatedPowerW| == n
      invariant estimatedPowerW[..i] == Estimates(lib, cp, s, i)
      invariant forall j :: i <= j < n ==> estimatedPowerW[j] == 0.0
    {
      if data.distanceM[i] < 0.0 {
        estimatedPowerW := estimatedPowerW[i := 0.0];
        EstimatesSnoc(lib, cp, s, i, estimatedPowerW);
        continue;
      }
      estimatedPowerW := EstimateSample(data, cp, lib, estimatedPowerW, i);
      EstimatesSnoc(lib, cp, s, i, estimatedPowerW);
    }
    assert estimatedPowerW == estimatedPowerW[..n];
    data.estimatedPowerW := estimatedPowerW;
  }

  /** A ride as the JSON reader leaves it (no estimates yet) whose first sample
      has a negative distance makes the as-written write go out of bounds. */
  lemma NegativeDistanceWriteOutOfBounds()
    ensures !NegativeDistanceWriteInBounds([-1.0], 1, 0)
  {
    assert 0 < 1 && [-1.0][0] < 0.0;
  }

  // ---------------------------------------------------------------------------
  // Properties of the estimates
  // ---------------------------------------------------------------------------

  /** The estimate of a sample depends only on the samples up to it: a longer
      run extends a shorter one. */
  lemma {:induction false} EstimatesPrefix(lib: Libm, cp: CyclistParams, s: Samples, m: nat, n: nat)
    requires m <= n && Covers(s, n)
    ensures Estimates(lib, cp, s, n)[..m] == Estimates(lib, cp, s, m)
    decreases n
  {
    if m < n {
      EstimatesPrefix(lib, cp, s, m, n - 1);
      assert Estimates(lib, cp, s, n)[..n - 1] == Estimates(lib, cp, s, n - 1);
      assert Estimates(lib, cp, s, n)[..m] == Estimates(lib, cp, s, n)[..n - 1][..m];
    }
  }

  /** The rule applied to each sample i of a run of n: 0 for a negative
      distance; otherwise the sample's power, except that a spike after the first
      sample repeats the estimate of sample i - 1. */
  lemma {:induction false} EstimateRule(lib: Libm, cp: CyclistParams, s: Samples, n: nat, i: nat)
    requires Covers(s, n) && i < n
    ensures var out := Estimates(lib, cp, s, n);
      && (s.distanceM[i] < 0.0 ==> out[i] == 0.0)
      && (s.distanceM[i] >= 0.0 && SamplePower(lib, cp, s, i) > SpikeThresholdW && i > 0 ==> out[i] == out[i - 1])
      && (s.distanceM[i] >= 0.0 && (SamplePower(lib, cp, s, i) <= SpikeThresholdW || i == 0) ==> out[i] == SamplePower(lib, cp, s, i))
  {
    EstimatesPrefix(lib, cp, s, i + 1, n);
    var out := Estimates(lib, cp, s, n);
    var prefix := Estimates(lib, cp, s, i + 1);
    assert out[i] == prefix[i];
    if i > 0 {
      EstimatesPrefix(lib, cp, s, i, i + 1);
      assert out[i - 1] == prefix[i - 1];
    }
  }

  /** The first estimate is never replaced, even above the spike threshold. */
  lemma FirstEstimateKept(lib: Libm, cp: CyclistParams, s: Samples, n: nat)
    requires Covers(s, n) && n > 0 && s.distanceM[0] >= 0.0
    ensures Estimates(lib, cp, s, n)[0] == SamplePower(lib, cp, s, 0)
  {
    EstimateRule(lib, cp, s, n, 0);
  }

  /** Every entry is non-negative, and is at most the spike threshold or equal
      to the first entry. */
  predicate SpikeFree(out: seq<real>)
  {
    forall i :: 0 <= i < |out| ==> out[i] >= 0.0 && (out[i] <= SpikeThresholdW || out[i] == out[0])
  }

  /** The estimates are free of spikes, apart from a first sample above the
      threshold, which is kept and may be repeated. */
  lemma {:induction false} EstimatesBounded(lib: Libm, cp: CyclistParams, s: Samples, n: nat)
    requires Covers(s, n)
    ensures SpikeFree(Estimates(lib, cp, s, n))
  {
    if n > 0 {
      EstimatesBounded(lib, cp, s, n - 1);
      var out := Estimates(lib, cp, s, n);
      var prefix := Estimates(lib, cp, s, n - 1);
      assert out == prefix + [out[n - 1]];
      if s.distanceM[n - 1] >= 0.0 {
        var p := SamplePower(lib, cp, s, n - 1);
        if p > SpikeThresholdW && n > 1 {
          assert out[n - 1] == prefix[n - 2];
        } else {
          assert out[n - 1] == p;
        }
      }
    }
  }

  // ---------------------------------------------------------------------------
  // RecalcGradient
  // ---------------------------------------------------------------------------

  /** RecalcGradient writes sample i: neither end of the window is at altitude 0
      and the distance changed over it. */
  predicate GradientWritten(altitudeM: seq<real>, distanceM: seq<real>, i: nat)
    requires GradientWindow <= i < |distanceM| && i < |altitudeM|
  {
    altitudeM[i - GradientWindow] * altitudeM[i] != 0.0
    && distanceM[i] - distanceM[i - GradientWindow] != 0.0
  }

  /** The slope (%) over the five samples ending at i, or 0 where the sample is skipped. */
  function GradientAt(altitudeM: seq<real>, distanceM: seq<real>, i: nat): real
    requires GradientWindow <= i < |distanceM| && i < |altitudeM|
  {
    if !GradientWritten(altitudeM, distanceM, i) then 0.0
    else (altitudeM[i] - altitudeM[i - GradientWindow]) / (distanceM[i] - distanceM[i - GradientWindow]) * 100.0
  }

  /** The recomputed column of length n. */
  function RecalcedGradient(altitudeM: seq<real>, distanceM: seq<real>, n: nat): (g: seq<real>)
    requires |distanceM| <= |altitudeM|
    ensures |g| == n
  {
    seq(n, i requires 0 <= i < n =>
      if GradientWindow <= i < |distanceM| then GradientAt(altitudeM, distanceM, i) else 0.0)
  }

  /** Every sample RecalcGradient writes lies inside the old gradient column. */
  predicate GradientWritesInBounds(altitudeM: seq<real>, distanceM: seq<real>, n: nat)
    requires |distanceM| <= |altitudeM|
  {
    forall i :: GradientWindow <= i < |distanceM| && GradientWritten(altitudeM, distanceM, i) ==> i < n
  }

  /** Replaces the gradient column with the slope recomputed from altitude and
      distance; nothing else changes. */
  method RecalcGradient(data: FitData)
    requires |data.distanceM| <= |data.altitudeM|
    requires GradientWritesInBounds(data.altitudeM, data.distanceM, |data.gradientPercent|)
    modifies data
    ensures data.gradientPercent == RecalcedGradient(old(data.altitudeM), old(data.distanceM), |old(data.gradientPercent)|)
    ensures data.altitudeM == old(data.altitudeM) && data.distanceM == old(data.distanceM)
    ensures data.timestamp == old(data.timestamp) && data.temperatureC == old(data.temperatureC)
    ensures data.speedMps == old(data.speedMps) && data.powerW == old(data.powerW)
    ensures data.cadence == old(data.cadence) && data.heartrate == old(data.heartrate)
    ensures data.estimatedPowerW == old(data.estimatedPowerW)
  {
    var n := |data.gradientPercent|;
    var recalcedGradientPercent := seq(n, _ => 0.0);
    var i := GradientWindow;
    while i < |data.distanceM|
      invariant GradientWindow <= i
      invariant data.altitudeM == old(data.altitudeM) && data.distanceM == old(data.distanceM)
      invariant |recalcedGradientPercent| == n
      invariant forall j :: 0 <= j < n ==>
        recalcedGradientPercent[j] == if GradientWindow <= j < i && j < |data.distanceM| then GradientAt(data.altitudeM, data.distanceM, j) else 0.0
      decreases |data.distanceM| - i
    {
      if data.altitudeM[i - 5] * data.altitudeM[i] == 0.0 {
        i := i + 1;
        continue;
      }
      if data.distanceM[i] - data.distanceM[i - 5] == 0.0 {
        i := i + 1;
        continue;
      } else {
        assert GradientWritten(data.altitudeM, data.distanceM, i);
        recalcedGradientPercent := recalcedGradientPercent[i :=
          (data.altitudeM[i] - data.altitudeM[i - 5]) / (data.distanceM[i] - data.distanceM[i - 5]) * 100.0];
      }
      i := i + 1;
    }
    data.gradientPercent := recalcedGradientPercent;
  }

  /** The first five entries are always 0, and so is every entry past the end
      of the distance column. */
  lemma RecalcedGradientZeros(altitudeM: seq<real>, distanceM: seq<real>, n: nat, i: nat)
    requires |distanceM| <= |altitudeM| && i < n
    requires i < GradientWindow || i >= |distanceM|
    ensures RecalcedGradient(altitudeM, distanceM, n)[i] == 0.0
  {
  }

  /** Where it is written, the gradient reproduces the climb: gradient times the
      distance covered equals 100 times the altitude gained. */
  lemma GradientRecoversClimb(altitudeM: seq<real>, distanceM: seq<real>, i: nat)
    requires GradientWindow <= i < |distanceM| && i < |altitudeM|
    requires GradientWritten(altitudeM, distanceM, i)
    ensures GradientAt(altitudeM, distanceM, i) * (distanceM[i] - distanceM[i - GradientWindow])
      == (altitudeM[i] - altitudeM[i - GradientWindow]) * 100.0
  {
    var rise := altitudeM[i] - altitudeM[i - GradientWindow];
    var run := distanceM[i] - distanceM[i - GradientWindow];
    assert rise / run * run == rise;
  }

  /** A window that starts or ends at altitude 0, or covers no distance, gives 0. */
  lemma GradientSkipped(altitudeM: seq<real>, distanceM: seq<real>, i: nat)
    requires GradientWindow <= i < |distanceM| && i < |altitudeM|
    requires altitudeM[i - GradientWindow] == 0.0 || altitudeM[i] == 0.0 || distanceM[i] == distanceM[i - GradientWindow]
    ensures GradientAt(altitudeM, distanceM, i) == 0.0
  {
  }
}
