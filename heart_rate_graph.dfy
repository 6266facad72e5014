/** The bar graph of heart-rate readings (app/components/HeartRateGraph.tsx):
    the readings are thinned to at most `MaxBars` evenly spaced ones and the bpm
    axis is clamped to 60..200 with a margin of 5. */
module HeartRateGraph {
  import opened RunTypes

  const MinDisplayBpm: int := 60
  const MaxDisplayBpm: int := 200
  const MaxBars: int := 80

  /** `samples.length / maxPoints` exceeds 1 whenever thinning happens. */
  lemma StepAboveOne(len: nat, maxPoints: nat)
    requires 0 < maxPoints < len
    ensures len as real / maxPoints as real > 1.0
  {
    var q, m := len as real / maxPoints as real, maxPoints as real;
    assert q * m == len as real;
    if q <= 1.0 {
      MulNonNegative(1.0 - q, m);
      assert false;
    }
  }

  /** The index `downsample` picks for output slot i:
      `Math.min(Math.floor(i * step), samples.length - 1)`. */
  function Index(len: nat, maxPoints: nat, i: nat): (k: nat)
    requires 0 < maxPoints < len
    ensures k < len
  {
    var step := len as real / maxPoints as real;
    StepAboveOne(len, maxPoints);
    MulNonNegative(i as real, step);
    var f := (i as real * step).Floor;
    if f < len - 1 then f else len - 1
  }

  /** What `downsample(samples, maxPoints)` returns. */
  function Downsampled(samples: seq<HeartRateSample>, maxPoints: int): (out: seq<HeartRateSample>)
    ensures |out| == if |samples| <= maxPoints then |samples| else if maxPoints <= 0 then 0 else maxPoints
  {
    if |samples| <= maxPoints then samples
    else if maxPoints <= 0 then []
    else seq(maxPoints, i requires 0 <= i < maxPoints => samples[Index(|samples|, maxPoints, i)])
  }

  /** `downsample`: the loop pushing one picked reading per output slot. */
  method Downsample(samples: seq<HeartRateSample>, maxPoints: int) returns (out: seq<HeartRateSample>)
    ensures out == Downsampled(samples, maxPoints)
  {
    if |samples| <= maxPoints {
      return samples;
    }
    if maxPoints <= 0 {
      // No slot to fill: the loop does not run, whatever `step` would be.
      return [];
    }
    var step := |samples| as real / maxPoints as real;
    out := [];
    var i := 0;
    while i < maxPoints
      invariant 0 <= i <= maxPoints
      invariant |out| == i
      invariant forall k :: 0 <= k < i ==> out[k] == samples[Index(|samples|, maxPoints, k)]
    {
      var idx := (i as real * step).Floor;
      if idx > |samples| - 1 {
        idx := |samples| - 1;
      }
      IndexOf(|samples|, maxPoints, i, idx);
      out := out + [samples[idx]];
      i := i + 1;
    }
    DownsampledOf(samples, maxPoints, out);
  }

  /** The loop's clamped floor is `Index`. */
  lemma IndexOf(len: nat, maxPoints: nat, i: nat, idx: int)
    requires 0 < maxPoints < len
    requires var f := (i as real * (len as real / maxPoints as real)).Floor;
      idx == if f > len - 1 then len - 1 else f
    ensures idx == Index(len, maxPoints, i)
  {
  }

  /** A sequence holding the picked reading in every slot is the output. */
  lemma DownsampledOf(samples: seq<HeartRateSample>, maxPoints: int, out: seq<HeartRateSample>)
    requires 0 < maxPoints < |samples|
    requires |out| == maxPoints
    requires forall k :: 0 <= k < maxPoints ==> out[k] == samples[Index(|samples|, maxPoints, k)]
    ensures out == Downsampled(samples, maxPoints)
  {
  }

  /** Slot i never reaches the clamp: `i * step` stays below the last index. */
  lemma IndexUnclamped(len: nat, maxPoints: nat, i: nat)
    requires 0 < maxPoints < len && i < maxPoints
    ensures Index(len, maxPoints, i) == (i as real * (len as real / maxPoints as real)).Floor
  {
    var step := len as real / maxPoints as real;
    StepAboveOne(len, maxPoints);
    assert step * maxPoints as real == len as real;
    MulNonNegative((maxPoints - 1 - i) as real, step);
    assert (maxPoints - 1 - i) as real * step == (maxPoints - 1) as real * step - i as real * step;
    assert i as real * step <= len as real - step;
  }

  /** Later slots pick strictly later readings, because the step exceeds 1. */
  lemma IndexIncreasing(len: nat, maxPoints: nat, i: nat, j: nat)
    requires 0 < maxPoints < len && i < j < maxPoints
    ensures Index(len, maxPoints, i) < Index(len, maxPoints, j)
  {
    var step := len as real / maxPoints as real;
    StepAboveOne(len, maxPoints);
    IndexUnclamped(len, maxPoints, i);
    IndexUnclamped(len, maxPoints, j);
    MulNonNegative((j - i - 1) as real, step);
    assert (j - i - 1) as real * step == j as real * step - i as real * step - step;
  }

  /** The output is the input when it already fits, and otherwise exactly
      `maxPoints` readings that start at the first one and are picked at strictly
      increasing indices: an order-keeping thinning of the input. */
  lemma DownsampledShape(samples: seq<HeartRateSample>, maxPoints: int)
    ensures |samples| <= maxPoints ==> Downsampled(samples, maxPoints) == samples
    ensures |samples| > maxPoints > 0 ==>
      var out, len := Downsampled(samples, maxPoints), |samples|;
      && |out| == maxPoints
      && Index(len, maxPoints, 0) == 0 && out[0] == samples[0]
      && (forall i :: 0 <= i < maxPoints ==> out[i] == samples[Index(len, maxPoints, i)])
      && (forall i, j :: 0 <= i < j < maxPoints ==> Index(len, maxPoints, i) < Index(len, maxPoints, j))
  {
    if |samples| > maxPoints > 0 {
      var len := |samples|;
      IndexUnclamped(len, maxPoints, 0);
      forall i, j | 0 <= i < j < maxPoints
        ensures Index(len, maxPoints, i) < Index(len, maxPoints, j)
      {
        IndexIncreasing(len, maxPoints, i, j);
      }
    }
  }

  /** Lower end of the bpm axis: `Math.max(MIN_BPM, min - 5)`. */
  function DisplayLow(points: seq<HeartRateSample>): (lo: int)
    requires points != []
    ensures lo >= MinDisplayBpm && lo >= MinBpm(points) - 5
    ensures lo == MinDisplayBpm || lo == MinBpm(points) - 5
    ensures forall i :: 0 <= i < |points| ==> lo <= points[i].bpm - 5 || lo == MinDisplayBpm
  {
    var m := MinBpm(points) - 5;
    if MinDisplayBpm >= m then MinDisplayBpm else m
  }

  /** Upper end of the bpm axis: `Math.min(MAX_BPM, max + 5)`. */
  function DisplayHigh(points: seq<HeartRateSample>): (hi: int)
    requires points != []
    ensures hi <= MaxDisplayBpm && hi <= MaxBpm(points) + 5
    ensures hi == MaxDisplayBpm || hi == MaxBpm(points) + 5
    ensures forall i :: 0 <= i < |points| ==> points[i].bpm + 5 <= hi || hi == MaxDisplayBpm
  {
    var m := MaxBpm(points) + 5;
    if MaxDisplayBpm <= m then MaxDisplayBpm else m
  }

  /** `maxBpm - minBpm || 1`: the span divided by, never 0. */
  function BarRange(lo: int, hi: int): (r: int)
    ensures r != 0
    ensures lo != hi ==> r == hi - lo
    ensures lo == hi ==> r == 1
  {
    if hi - lo == 0 then 1 else hi - lo
  }

  /** Readings within 65..195 are never clamped: the axis is the readings'
      extent widened by 5 on each side, so every bar's height is strictly between
      empty and full. */
  lemma DisplayUnclamped(points: seq<HeartRateSample>)
    requires points != []
    requires forall i :: 0 <= i < |points| ==> MinDisplayBpm + 5 <= points[i].bpm <= MaxDisplayBpm - 5
    ensures DisplayLow(points) == MinBpm(points) - 5 && DisplayHigh(points) == MaxBpm(points) + 5
    ensures BarRange(DisplayLow(points), DisplayHigh(points)) >= 10
    ensures forall i :: 0 <= i < |points| ==> DisplayLow(points) < points[i].bpm < DisplayHigh(points)
  {
    assert MinBpm(points) <= points[0].bpm <= MaxBpm(points);
  }
}
