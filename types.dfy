/** Option and Result, the failure-compatible wrappers the other modules use for
    `null` returns and thrown errors. */
module Wrappers {

  datatype Option<+T> = None | Some(value: T) {
    function GetOr(default: T): T {
      match this
      case Some(v) => v
      case None => default
    }
  }

  datatype Result<+R> = Success(value: R) | Failure(error: string)
}

/** Record shapes shared by the run tracker (lib/types.ts), plus the bpm folds
    (`reduce`, `Math.min(...)`, `Math.max(...)`) that several components apply to them. */
module RunTypes {
  import opened Wrappers

  /** One GPS fix: degrees and a millisecond timestamp. */
  datatype PathPoint = PathPoint(latitude: real, longitude: real, timestamp: real)

  /** One heart-rate reading. */
  datatype HeartRateSample = HeartRateSample(timestamp: real, bpm: int)

  /** A run as handed to persistence (no id yet). */
  datatype RunInsert = RunInsert(
    startTime: real,
    endTime: real,
    distanceKm: real,
    durationSeconds: real,
    paceMinPerKm: real,
    avgHeartRate: Option<int>,
    path: seq<PathPoint>,
    heartRateSamples: seq<HeartRateSample>)

  /** A persisted run: the insert record plus its id. */
  datatype Run = Run(
    id: int,
    startTime: real,
    endTime: real,
    distanceKm: real,
    durationSeconds: real,
    paceMinPerKm: real,
    avgHeartRate: Option<int>,
    path: seq<PathPoint>,
    heartRateSamples: seq<HeartRateSample>)

  /** `{ id, ...run }` */
  function WithId(id: int, r: RunInsert): (saved: Run)
    ensures saved.id == id && WithoutId(saved) == r
  {
    Run(id, r.startTime, r.endTime, r.distanceKm, r.durationSeconds, r.paceMinPerKm,
        r.avgHeartRate, r.path, r.heartRateSamples)
  }

  /** The insert fields of a stored run. */
  function WithoutId(r: Run): RunInsert {
    RunInsert(r.startTime, r.endTime, r.distanceKm, r.durationSeconds, r.paceMinPerKm,
              r.avgHeartRate, r.path, r.heartRateSamples)
  }

  /** `samples.reduce((s, x) => s + x.bpm, 0)` */
  function SumBpm(samples: seq<HeartRateSample>): int
  {
    if samples == [] then 0 else SumBpm(samples[..|samples| - 1]) + samples[|samples| - 1].bpm
  }

  /** Smallest bpm of a non-empty sequence. */
  function MinBpm(samples: seq<HeartRateSample>): (m: int)
    requires samples != []
    ensures forall i :: 0 <= i < |samples| ==> m <= samples[i].bpm
    ensures exists i :: 0 <= i < |samples| && m == samples[i].bpm
  {
    if |samples| == 1 then samples[0].bpm
    else
      var rest := MinBpm(samples[1..]);
      assert forall i :: 1 <= i < |samples| ==> samples[i] == samples[1..][i - 1];
      if samples[0].bpm <= rest then samples[0].bpm else rest
  }

  /** Largest bpm of a non-empty sequence. */
  function MaxBpm(samples: seq<HeartRateSample>): (m: int)
    requires samples != []
    ensures forall i :: 0 <= i < |samples| ==> samples[i].bpm <= m
    ensures exists i :: 0 <= i < |samples| && m == samples[i].bpm
  {
    if |samples| == 1 then samples[0].bpm
    else
      var rest := MaxBpm(samples[1..]);
      assert forall i :: 1 <= i < |samples| ==> samples[i] == samples[1..][i - 1];
      if samples[0].bpm >= rest then samples[0].bpm else rest
  }

  /** The sum of n readings lies between n times the smallest and n times the largest. */
  lemma {:induction false} SumBpmBounds(samples: seq<HeartRateSample>, lo: int, hi: int)
    requires forall i :: 0 <= i < |samples| ==> lo <= samples[i].bpm <= hi
    ensures |samples| * lo <= SumBpm(samples) <= |samples| * hi
  {
    if samples != [] {
      var init := samples[..|samples| - 1];
      assert forall i :: 0 <= i < |init| ==> init[i] == samples[i];
      SumBpmBounds(init, lo, hi);
      var n := |init|;
      assert (n + 1) * lo == n * lo + lo && (n + 1) * hi == n * hi + hi;
    }
  }

  /** Unrounded mean bpm, or none for no readings. */
  function MeanBpm(w: seq<HeartRateSample>): Option<real> {
    if w == [] then None else Some(SumBpm(w) as real / |w| as real)
  }

  /** A non-empty sequence's mean lies between its smallest and largest bpm. */
  lemma MeanBpmBetween(w: seq<HeartRateSample>)
    requires w != []
    ensures MinBpm(w) as real <= MeanBpm(w).value <= MaxBpm(w) as real
  {
    SumBpmBounds(w, MinBpm(w), MaxBpm(w));
    MeanQuotientBetween(SumBpm(w), |w|, MinBpm(w), MaxBpm(w));
  }

  lemma MeanQuotientBetween(sum: int, n: int, lo: int, hi: int)
    requires n > 0 && n * lo <= sum <= n * hi
    ensures lo as real <= sum as real / n as real <= hi as real
  {
    var q := sum as real / n as real;
    assert q * n as real == sum as real;
    assert (n * lo) as real == n as real * lo as real;
    assert (n * hi) as real == n as real * hi as real;
  }

  lemma MulNonNegative(a: real, b: real)
    requires a >= 0.0 && b >= 0.0
    ensures a * b >= 0.0
  {
  }

  /** A positive quotient of a part by a whole lies in (0, 1]. */
  lemma FracBetween(x: real, y: real)
    requires 0.0 < x <= y
    ensures 0.0 < x / y <= 1.0
  {
    var q := x / y;
    assert q * y == x;
    if q <= 0.0 {
      MulNonNegative(-q, y);
      assert false;
    }
    if q > 1.0 {
      MulNonNegative(q - 1.0, y);
      assert (q - 1.0) * y == x - y;
    }
  }

  /** Scaling by a factor in [0, 1] keeps a value between 0 and itself. */
  lemma ScaleBetween(f: real, d: real)
    requires 0.0 <= f <= 1.0
    ensures d >= 0.0 ==> 0.0 <= f * d <= d
    ensures d <= 0.0 ==> d <= f * d <= 0.0
  {
    if d >= 0.0 {
      MulNonNegative(f, d);
      MulNonNegative(1.0 - f, d);
    } else {
      MulNonNegative(f, -d);
      MulNonNegative(1.0 - f, -d);
    }
  }
}
