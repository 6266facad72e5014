/** The great-circle distance between two fixes, kept abstract. The haversine
    formula (Earth radius 6371 km) is floating-point trigonometry; every result
    below holds for any segment distance that is never negative. */
module Geodesy {
  import opened RunTypes

  /** A segment distance in km, given (lat1, lon1, lat2, lon2) in degrees. */
  type Metric = f: (real, real, real, real) -> real | forall a, b, c, d :: f(a, b, c, d) >= 0.0
    witness (a: real, b: real, c: real, d: real) => 0.0

  /** `haversineKm(a, b)` between two path points. */
  function SegKm(dist: Metric, a: PathPoint, b: PathPoint): (d: real)
    ensures d >= 0.0
  {
    dist(a.latitude, a.longitude, b.latitude, b.longitude)
  }

  /** Cumulative distance from the first point up to point i. */
  function Cum(dist: Metric, path: seq<PathPoint>, i: nat): real
    requires i < |path|
  {
    if i == 0 then 0.0 else Cum(dist, path, i - 1) + SegKm(dist, path[i - 1], path[i])
  }

  /** Total distance along the path: 0 for fewer than two points. */
  function TotalKm(dist: Metric, path: seq<PathPoint>): real {
    if |path| < 2 then 0.0 else Cum(dist, path, |path| - 1)
  }

  /** The cumulative profile `pathCumulativeKm` returns: `[0]` for fewer than two points. */
  function Profile(dist: Metric, path: seq<PathPoint>): seq<real> {
    if |path| < 2 then [0.0] else seq(|path|, i requires 0 <= i < |path| => Cum(dist, path, i))
  }

  /** Distances only grow along the path. */
  lemma {:induction false} CumMonotone(dist: Metric, path: seq<PathPoint>, i: nat, j: nat)
    requires i <= j < |path|
    ensures 0.0 <= Cum(dist, path, i) <= Cum(dist, path, j)
  {
    if i < j {
      CumMonotone(dist, path, i, j - 1);
    } else if i > 0 {
      CumMonotone(dist, path, i - 1, i - 1);
    }
  }

  /** The profile has one entry per point (at least one), starts at 0 and ends at
      the total distance. */
  lemma ProfileEnds(dist: Metric, path: seq<PathPoint>)
    ensures var cum := Profile(dist, path);
      && |cum| == (if |path| < 2 then 1 else |path|)
      && cum[0] == 0.0
      && cum[|cum| - 1] == TotalKm(dist, path)
  {
  }

  /** Besides its ends, the profile never decreases. */
  lemma ProfileShape(dist: Metric, path: seq<PathPoint>)
    ensures var cum := Profile(dist, path);
      && |cum| == (if |path| < 2 then 1 else |path|)
      && cum[0] == 0.0
      && cum[|cum| - 1] == TotalKm(dist, path)
      && forall i, j :: 0 <= i <= j < |cum| ==> cum[i] <= cum[j]
  {
    ProfileEnds(dist, path);
    var cum := Profile(dist, path);
    forall i, j | 0 <= i <= j < |cum| ensures cum[i] <= cum[j] {
      if |path| >= 2 {
        CumMonotone(dist, path, i, j);
      }
    }
  }

  /** The total distance is never negative. */
  lemma TotalKmNonNegative(dist: Metric, path: seq<PathPoint>)
    ensures TotalKm(dist, path) >= 0.0
  {
    if |path| >= 2 {
      CumMonotone(dist, path, 0, |path| - 1);
    }
  }
}

/** Per-kilometre analytics over a recorded path (lib/pathDistance.ts). */
module PathDistance {
  import opened Wrappers
  import opened RunTypes
  import opened Geodesy

  datatype KmSplit = KmSplit(km: int, paceMinPerKm: real)

  datatype SplitWithHr = SplitWithHr(km: int, paceMinPerKm: real, avgHeartRate: Option<real>)

  /** `pathDistanceKm`: the accumulating loop over the segments. */
  method PathDistanceKm(dist: Metric, path: seq<PathPoint>) returns (d: real)
    ensures d == TotalKm(dist, path)
    ensures |path| < 2 ==> d == 0.0
    ensures d >= 0.0
  {
    TotalKmNonNegative(dist, path);
    if |path| < 2 {
      return 0.0;
    }
    d := 0.0;
    var i := 1;
    while i < |path|
      invariant 1 <= i <= |path|
      invariant d == Cum(dist, path, i - 1)
    {
      d := d + SegKm(dist, path[i - 1], path[i]);
      i := i + 1;
    }
  }

  /** `pathCumulativeKm`: starts from `[0]` and pushes one running sum per further point. */
  method PathCumulativeKm(dist: Metric, path: seq<PathPoint>) returns (out: seq<real>)
    ensures out == Profile(dist, path)
  {
    out := [0.0];
    if |path| < 2 {
      // The loop does not run: the profile is the initial `[0]`.
      return;
    }
    for i := 1 to |path|
      invariant out == CumPrefix(dist, path, i)
    {
      out := out + [out[i - 1] + SegKm(dist, path[i - 1], path[i])];
    }
    CumPrefixAt(dist, path, |path|);
    ProfileOf(dist, path, out);
  }

  /** The cumulative distances of the first n points, built the way the loop pushes them. */
  function CumPrefix(dist: Metric, path: seq<PathPoint>, n: nat): (r: seq<real>)
    requires n <= |path|
    ensures |r| == n
    ensures n > 0 ==> r[n - 1] == Cum(dist, path, n - 1)
  {
    if n == 0 then [] else CumPrefix(dist, path, n - 1) + [Cum(dist, path, n - 1)]
  }

  lemma {:induction false} CumPrefixAt(dist: Metric, path: seq<PathPoint>, n: nat)
    requires n <= |path|
    ensures forall k :: 0 <= k < n ==> CumPrefix(dist, path, n)[k] == Cum(dist, path, k)
  {
    if n > 0 {
      CumPrefixAt(dist, path, n - 1);
    }
  }

  /** `[0]` for fewer than two points, and otherwise a sequence holding `Cum` at
      every index, is the profile. */
  lemma ProfileOf(dist: Metric, path: seq<PathPoint>, out: seq<real>)
    requires |path| < 2 ==> out == [0.0]
    requires |path| >= 2 ==> |out| == |path| && forall k :: 0 <= k < |path| ==> out[k] == Cum(dist, path, k)
    ensures out == Profile(dist, path)
  {
    if |path| >= 2 {
      var p := Profile(dist, path);
      assert forall k :: 0 <= k < |path| ==> p[k] == Cum(dist, path, k);
    }
  }

  /** What `timeAtKm` demands of its arguments: a non-empty path with one
      cumulative value per point, the first of them 0. */
  predicate TimeArgs(path: seq<PathPoint>, cum: seq<real>) {
    |path| >= 1 && |cum| == |path| && cum[0] == 0.0
  }

  /** The timestamp reached at `target` on the segment from point i-1 to point i,
      by distance fraction. */
  function Lerp(p0: PathPoint, p1: PathPoint, d0: real, d1: real, target: real): real
    requires d0 < d1
  {
    p0.timestamp + ((target - d0) / (d1 - d0)) * (p1.timestamp - p0.timestamp)
  }

  /** The search of `timeAtKm` from index i on: the first i with `cum[i] >= target`
      interpolates, running off the end gives the last timestamp. Every earlier
      index was below the target, so the divisor `d1 - d0` is positive. */
  function TimeFrom(path: seq<PathPoint>, cum: seq<real>, target: real, i: nat): real
    requires TimeArgs(path, cum) && target > 0.0 && 1 <= i <= |path|
    requires forall j :: 1 <= j < i ==> cum[j] < target
    decreases |path| - i
  {
    if i == |path| then path[|path| - 1].timestamp
    else if cum[i] >= target then Lerp(path[i - 1], path[i], cum[i - 1], cum[i], target)
    else TimeFrom(path, cum, target, i + 1)
  }

  /** The value of `timeAtKm(path, cum, target)`. */
  function TimeAt(path: seq<PathPoint>, cum: seq<real>, target: real): real
    requires TimeArgs(path, cum)
  {
    if target <= 0.0 then path[0].timestamp else TimeFrom(path, cum, target, 1)
  }

  /** `timeAtKm`: the early-return search loop. */
  method TimeAtKm(path: seq<PathPoint>, cum: seq<real>, targetKm: real) returns (t: real)
    requires TimeArgs(path, cum)
    ensures t == TimeAt(path, cum, targetKm)
    ensures targetKm <= 0.0 ==> t == path[0].timestamp
  {
    if targetKm <= 0.0 {
      return path[0].timestamp;
    }
    var i := 1;
    while i < |path|
      invariant 1 <= i <= |path|
      invariant forall j :: 1 <= j < i ==> cum[j] < targetKm
      invariant TimeFrom(path, cum, targetKm, i) == TimeAt(path, cum, targetKm)
    {
      if cum[i] >= targetKm {
        var p0, p1 := path[i - 1], path[i];
        var d0, d1 := cum[i - 1], cum[i];
        var frac := (targetKm - d0) / (d1 - d0);
        return p0.timestamp + frac * (p1.timestamp - p0.timestamp);
      }
      i := i + 1;
    }
    return path[|path| - 1].timestamp;
  }

  /** A target beyond every cumulative value is clamped to the last timestamp. */
  lemma {:induction false} TimeAtBeyond(path: seq<PathPoint>, cum: seq<real>, target: real)
    requires TimeArgs(path, cum) && target > 0.0
    requires forall j :: 0 <= j < |cum| ==> cum[j] < target
    ensures TimeAt(path, cum, target) == path[|path| - 1].timestamp
  {
    var i := 1;
    while i < |path|
      invariant 1 <= i <= |path|
      invariant TimeFrom(path, cum, target, i) == TimeAt(path, cum, target)
    {
      i := i + 1;
    }
  }

  /** At the first index i >= 1 whose cumulative value reaches the target,
      `d0 < target <= d1` (so the divisor is strictly positive) and the result is
      the interpolation on that segment, lying between its two timestamps. */
  lemma {:induction false} TimeAtBracket(path: seq<PathPoint>, cum: seq<real>, target: real, i: nat)
    requires TimeArgs(path, cum) && target > 0.0
    requires 1 <= i < |path| && cum[i] >= target
    requires forall j :: 1 <= j < i ==> cum[j] < target
    ensures cum[i - 1] < target <= cum[i]
    ensures TimeAt(path, cum, target) == Lerp(path[i - 1], path[i], cum[i - 1], cum[i], target)
    ensures var t0, t1 := path[i - 1].timestamp, path[i].timestamp;
      (t0 <= t1 ==> t0 <= TimeAt(path, cum, target) <= t1)
      && (t1 <= t0 ==> t1 <= TimeAt(path, cum, target) <= t0)
  {
    var k := 1;
    while k < i
      invariant 1 <= k <= i
      invariant TimeFrom(path, cum, target, k) == TimeAt(path, cum, target)
    {
      k := k + 1;
    }
    LerpBetween(path[i - 1], path[i], cum[i - 1], cum[i], target);
  }

  /** Interpolating at a target inside `(d0, d1]` stays between the two timestamps. */
  lemma LerpBetween(p0: PathPoint, p1: PathPoint, d0: real, d1: real, target: real)
    requires d0 < target <= d1
    ensures var t := Lerp(p0, p1, d0, d1, target);
      (p0.timestamp <= p1.timestamp ==> p0.timestamp <= t <= p1.timestamp)
      && (p1.timestamp <= p0.timestamp ==> p1.timestamp <= t <= p0.timestamp)
  {
    FracBetween(target - d0, d1 - d0);
    ScaleBetween((target - d0) / (d1 - d0), p1.timestamp - p0.timestamp);
  }

  /** When the last segment has positive length, the time at the total distance is
      the last timestamp. */
  lemma TimeAtTotal(dist: Metric, path: seq<PathPoint>)
    requires |path| >= 2
    requires SegKm(dist, path[|path| - 2], path[|path| - 1]) > 0.0
    ensures TimeArgs(path, Profile(dist, path))
    ensures TimeAt(path, Profile(dist, path), TotalKm(dist, path)) == path[|path| - 1].timestamp
  {
    var cum, n, total := Profile(dist, path), |path|, TotalKm(dist, path);
    ProfileEnds(dist, path);
    var d0 := cum[n - 2];
    assert d0 == Cum(dist, path, n - 2);
    assert total == d0 + SegKm(dist, path[n - 2], path[n - 1]);
    CumMonotone(dist, path, 0, n - 2);
    forall j | 1 <= j < n - 1 ensures cum[j] < total {
      assert cum[j] == Cum(dist, path, j);
      CumMonotone(dist, path, j, n - 2);
    }
    TimeAtBracket(path, cum, total, n - 1);
    LerpAtEnd(path[n - 2], path[n - 1], d0, total);
  }

  /** Interpolating at the far end of a segment gives its second timestamp. */
  lemma LerpAtEnd(p0: PathPoint, p1: PathPoint, d0: real, d1: real)
    requires d0 < d1
    ensures Lerp(p0, p1, d0, d1, d1) == p1.timestamp
  {
    assert (d1 - d0) / (d1 - d0) == 1.0;
  }

  /** `getTimeAtKm`: 0 for an empty path, the single timestamp for one point,
      otherwise `timeAtKm` over a freshly computed profile. */
  function TimeAtKmOf(dist: Metric, path: seq<PathPoint>, km: real): real {
    if |path| == 0 then 0.0
    else if |path| < 2 then path[0].timestamp
    else (ProfileEnds(dist, path); TimeAt(path, Profile(dist, path), km))
  }

  method GetTimeAtKm(dist: Metric, path: seq<PathPoint>, km: real) returns (t: real)
    ensures t == TimeAtKmOf(dist, path, km)
    ensures |path| == 0 ==> t == 0.0
    ensures |path| == 1 ==> t == path[0].timestamp
    ensures |path| >= 1 && km <= 0.0 ==> t == path[0].timestamp
  {
    if |path| < 2 {
      return if |path| == 0 then 0.0 else path[0].timestamp;
    }
    var cum := PathCumulativeKm(dist, path);
    ProfileEnds(dist, path);
    t := TimeAtKm(path, cum, km);
  }

  /** Number of completed kilometres: `Math.floor(totalKm)`, or none for fewer than two points. */
  function FullKms(dist: Metric, path: seq<PathPoint>): nat {
    TotalKmNonNegative(dist, path);
    if |path| < 2 then 0 else TotalKm(dist, path).Floor
  }

  /** Pace of completed kilometre `km` measured between the interpolated
      boundary times `timeAtKm(km - 1)` and `timeAtKm(km)`, in minutes. */
  function SplitPace(path: seq<PathPoint>, cum: seq<real>, km: int): real
    requires TimeArgs(path, cum)
  {
    (TimeAt(path, cum, km as real) - TimeAt(path, cum, (km - 1) as real)) / 60000.0
  }

  /** The splits `getSplitsFromPath` returns: kilometres 1..FullKms in order. */
  function Splits(dist: Metric, path: seq<PathPoint>): seq<KmSplit> {
    if |path| < 2 then []
    else
      ProfileEnds(dist, path);
      var cum := Profile(dist, path);
      seq(FullKms(dist, path), k requires 0 <= k => KmSplit(k + 1, SplitPace(path, cum, k + 1)))
  }

  /** `getSplitsFromPath`: one pass, chaining the previous boundary time `tPrev`. */
  method GetSplitsFromPath(dist: Metric, path: seq<PathPoint>) returns (splits: seq<KmSplit>)
    ensures splits == Splits(dist, path)
  {
    if |path| < 2 {
      return [];
    }
    var cum := PathCumulativeKm(dist, path);
    ProfileEnds(dist, path);
    var totalKm := cum[|cum| - 1];
    var fullKms := totalKm.Floor;
    assert fullKms == FullKms(dist, path);
    if fullKms < 1 {
      assert |Splits(dist, path)| == 0;
      return [];
    }
    splits := [];
    var tPrev := TimeAtKm(path, cum, 0.0);
    var km := 1;
    while km <= fullKms
      invariant 1 <= km <= fullKms + 1
      invariant tPrev == TimeAt(path, cum, (km - 1) as real)
      invariant |splits| == km - 1
      invariant forall k :: 0 <= k < km - 1 ==> splits[k] == KmSplit(k + 1, SplitPace(path, cum, k + 1))
    {
      var tCur := TimeAtKm(path, cum, km as real);
      var durationMin := (tCur - tPrev) / 60000.0;
      splits := splits + [KmSplit(km, durationMin)];
      tPrev := tCur;
      km := km + 1;
    }
    SplitsOf(dist, path, splits);
  }

  /** The completed splits, one per kilometre with its pace, are `Splits`. */
  lemma SplitsOf(dist: Metric, path: seq<PathPoint>, splits: seq<KmSplit>)
    requires |path| >= 2 && |splits| == FullKms(dist, path)
    requires TimeArgs(path, Profile(dist, path))
    requires forall k :: 0 <= k < |splits| ==> splits[k] == KmSplit(k + 1, SplitPace(path, Profile(dist, path), k + 1))
    ensures splits == Splits(dist, path)
  {
    var r := Splits(dist, path);
    assert forall k :: 0 <= k < |splits| ==> r[k] == splits[k];
  }

  /** One split per completed kilometre, numbered from 1, none for fewer than two
      points; each pace is the time between the kilometre's two boundaries, in minutes. */
  lemma SplitsShape(dist: Metric, path: seq<PathPoint>)
    ensures var splits := Splits(dist, path);
      && (|path| < 2 ==> splits == [])
      && |splits| == FullKms(dist, path)
      && (|path| >= 2 ==> TimeArgs(path, Profile(dist, path)))
      && forall k :: 0 <= k < |splits| ==>
           (splits[k].km == k + 1 && splits[k].paceMinPerKm == SplitPace(path, Profile(dist, path), k + 1))
  {
    ProfileEnds(dist, path);
  }

  /** Sum of the paces of a list of splits. */
  function SumPaces(splits: seq<KmSplit>): real {
    if splits == [] then 0.0 else SumPaces(splits[..|splits| - 1]) + splits[|splits| - 1].paceMinPerKm
  }

  /** Split paces telescope: together the n completed splits measure the time
      from the first fix to the n-km boundary. */
  lemma SplitPacesTelescope(dist: Metric, path: seq<PathPoint>)
    requires |path| >= 2
    ensures TimeArgs(path, Profile(dist, path))
    ensures SumPaces(Splits(dist, path))
      == (TimeAt(path, Profile(dist, path), FullKms(dist, path) as real) - path[0].timestamp) / 60000.0
  {
    ProfileEnds(dist, path);
    var cum := Profile(dist, path);
    var splits := Splits(dist, path);
    PrefixPacesTelescope(path, cum, splits, |splits|);
    assert splits[..|splits|] == splits;
  }

  lemma {:induction false} PrefixPacesTelescope(path: seq<PathPoint>, cum: seq<real>, splits: seq<KmSplit>, n: nat)
    requires TimeArgs(path, cum) && n <= |splits|
    requires forall k :: 0 <= k < |splits| ==> splits[k] == KmSplit(k + 1, SplitPace(path, cum, k + 1))
    ensures SumPaces(splits[..n]) == (TimeAt(path, cum, n as real) - path[0].timestamp) / 60000.0
  {
    if n > 0 {
      PrefixPacesTelescope(path, cum, splits, n - 1);
      assert splits[..n][..n - 1] == splits[..n - 1];
    }
  }

  /** The readings whose timestamps fall in `[tStart, tEnd]`, both ends included. */
  function InWindow(samples: seq<HeartRateSample>, tStart: real, tEnd: real): (w: seq<HeartRateSample>)
    ensures forall s :: s in w <==> s in samples && tStart <= s.timestamp <= tEnd
  {
    if samples == [] then []
    else
      var rest := InWindow(samples[1..], tStart, tEnd);
      assert forall s :: s in samples <==> s == samples[0] || s in samples[1..];
      if tStart <= samples[0].timestamp <= tEnd then [samples[0]] + rest else rest
  }

  /** The filter keeps each in-window reading as many times as it occurs, and
      no other reading: the window's mean weighs repeated readings as the source does. */
  lemma {:induction false} InWindowCounts(samples: seq<HeartRateSample>, tStart: real, tEnd: real)
    ensures var w := InWindow(samples, tStart, tEnd);
      forall s :: multiset(w)[s] == if tStart <= s.timestamp <= tEnd then multiset(samples)[s] else 0
  {
    if samples != [] {
      InWindowCounts(samples[1..], tStart, tEnd);
      assert samples == [samples[0]] + samples[1..];
    }
  }

  /** The window of two stretches of readings is the window of the first followed
      by the window of the second, so the filter keeps the readings' order. */
  lemma {:induction false} InWindowAppend(a: seq<HeartRateSample>, b: seq<HeartRateSample>, tStart: real, tEnd: real)
    ensures InWindow(a + b, tStart, tEnd) == InWindow(a, tStart, tEnd) + InWindow(b, tStart, tEnd)
  {
    if a == [] {
      assert a + b == b;
    } else {
      var x, t := a[0], a[1..];
      assert a == [x] + t;
      assert a + b == [x] + (t + b);
      var c := if tStart <= x.timestamp <= tEnd then [x] else [];
      var p, q := InWindow(t, tStart, tEnd), InWindow(b, tStart, tEnd);
      calc {
        InWindow(a + b, tStart, tEnd);
        InWindow([x] + (t + b), tStart, tEnd);
        { InWindowCons(x, t + b, tStart, tEnd); }
        c + InWindow(t + b, tStart, tEnd);
        { InWindowAppend(t, b, tStart, tEnd); }
        c + (p + q);
        { assert c + (p + q) == (c + p) + q; }
        (c + p) + q;
        { InWindowCons(x, t, tStart, tEnd); }
        InWindow(a, tStart, tEnd) + q;
      }
    }
  }

  /** One unfolding of the filter. */
  lemma InWindowCons(x: HeartRateSample, t: seq<HeartRateSample>, tStart: real, tEnd: real)
    ensures InWindow([x] + t, tStart, tEnd)
         == (if tStart <= x.timestamp <= tEnd then [x] else []) + InWindow(t, tStart, tEnd)
  {
    assert ([x] + t)[1..] == t;
  }

  /** `getSplitsWithHeartRate`: each completed split, with the mean bpm of the
      readings between its two boundary times. */
  function SplitsWithHeartRate(dist: Metric, path: seq<PathPoint>, samples: seq<HeartRateSample>): (r: seq<SplitWithHr>)
    ensures |r| == |Splits(dist, path)|
    ensures forall k :: 0 <= k < |r| ==> r[k].km == Splits(dist, path)[k].km
    ensures forall k :: 0 <= k < |r| && r[k].avgHeartRate.Some? ==> samples != []
  {
    var splits := Splits(dist, path);
    if |splits| == 0 || |samples| == 0 then
      seq(|splits|, k requires 0 <= k < |splits| => SplitWithHr(splits[k].km, splits[k].paceMinPerKm, None))
    else
      ProfileEnds(dist, path);
      var cum := Profile(dist, path);
      seq(|splits|, k requires 0 <= k < |splits| =>
        var tStart := TimeAt(path, cum, (splits[k].km - 1) as real);
        var tEnd := TimeAt(path, cum, splits[k].km as real);
        SplitWithHr(splits[k].km, splits[k].paceMinPerKm, MeanBpm(InWindow(samples, tStart, tEnd))))
  }

  /** The heart-rate splits carry exactly the kilometres and paces of the plain
      splits, and with no readings every average is absent. */
  lemma SplitsWithHeartRateShape(dist: Metric, path: seq<PathPoint>, samples: seq<HeartRateSample>)
    ensures var r, splits := SplitsWithHeartRate(dist, path, samples), Splits(dist, path);
      && |r| == |splits|
      && (forall k :: 0 <= k < |r| ==> r[k].km == splits[k].km == k + 1 && r[k].paceMinPerKm == splits[k].paceMinPerKm)
      && (samples == [] ==> forall k :: 0 <= k < |r| ==> r[k].avgHeartRate == None)
  {
    SplitsShape(dist, path);
  }

  /** Each average is the mean bpm over the inclusive window between the split's
      boundary times (none when the window is empty). */
  lemma SplitsWithHeartRateMeans(dist: Metric, path: seq<PathPoint>, samples: seq<HeartRateSample>)
    requires |path| >= 2
    ensures TimeArgs(path, Profile(dist, path))
    ensures var r := SplitsWithHeartRate(dist, path, samples);
      forall k :: 0 <= k < |r| ==>
        r[k].avgHeartRate == MeanBpm(InWindow(samples,
          TimeAt(path, Profile(dist, path), k as real), TimeAt(path, Profile(dist, path), (k + 1) as real)))
  {
    ProfileEnds(dist, path);
    SplitsShape(dist, path);
    var r, cum, splits := SplitsWithHeartRate(dist, path, samples), Profile(dist, path), Splits(dist, path);
    forall k | 0 <= k < |r|
      ensures r[k].avgHeartRate == MeanBpm(InWindow(samples, TimeAt(path, cum, k as real), TimeAt(path, cum, (k + 1) as real)))
    {
      var w := InWindow(samples, TimeAt(path, cum, k as real), TimeAt(path, cum, (k + 1) as real));
      if samples == [] {
        assert w == [];
      } else {
        var m := splits[k].km;
        assert m == k + 1 && (m - 1) as real == k as real && m as real == (k + 1) as real;
        assert r[k].avgHeartRate == MeanBpm(InWindow(samples, TimeAt(path, cum, (m - 1) as real), TimeAt(path, cum, m as real)));
      }
    }
  }

  /** Timestamps never decrease along the path. */
  predicate TimesSorted(path: seq<PathPoint>) {
    forall i, j :: 0 <= i <= j < |path| ==> path[i].timestamp <= path[j].timestamp
  }

  /** Cumulative values never decrease. */
  predicate CumSorted(cum: seq<real>) {
    forall i, j :: 0 <= i <= j < |cum| ==> cum[i] <= cum[j]
  }

  /** The index where the search of `timeAtKm` stops for a positive target:
      the first i >= 1 whose cumulative value reaches it, or |path| when none does. */
  lemma {:induction false} FirstReach(path: seq<PathPoint>, cum: seq<real>, target: real) returns (i: nat)
    requires TimeArgs(path, cum) && target > 0.0
    ensures 1 <= i <= |path|
    ensures forall j :: 1 <= j < i ==> cum[j] < target
    ensures i < |path| ==> cum[i] >= target
    ensures TimeAt(path, cum, target)
      == if i == |path| then path[|path| - 1].timestamp
         else Lerp(path[i - 1], path[i], cum[i - 1], cum[i], target)
  {
    i := 1;
    while i < |path| && cum[i] < target
      invariant 1 <= i <= |path|
      invariant forall j :: 1 <= j < i ==> cum[j] < target
      invariant TimeFrom(path, cum, target, i) == TimeAt(path, cum, target)
    {
      i := i + 1;
    }
  }

  /** On one segment, a later target is reached no earlier. */
  lemma LerpMonotone(p0: PathPoint, p1: PathPoint, d0: real, d1: real, a: real, b: real)
    requires d0 < d1 && a <= b && p0.timestamp <= p1.timestamp
    ensures Lerp(p0, p1, d0, d1, a) <= Lerp(p0, p1, d0, d1, b)
  {
    var fa, fb := (a - d0) / (d1 - d0), (b - d0) / (d1 - d0);
    assert fa <= fb by {
      assert fb - fa == (b - a) / (d1 - d0);
    }
    var delta := p1.timestamp - p0.timestamp;
    assert fa * delta <= fb * delta by {
      assert fb * delta - fa * delta == (fb - fa) * delta;
    }
  }

  /** With sorted timestamps and a sorted profile, the interpolated time never
      decreases as the target distance grows. */
  lemma TimeAtMonotone(path: seq<PathPoint>, cum: seq<real>, a: real, b: real)
    requires TimeArgs(path, cum) && TimesSorted(path) && CumSorted(cum) && a <= b
    ensures TimeAt(path, cum, a) <= TimeAt(path, cum, b)
  {
    if b <= 0.0 {
      return;
    }
    var ib := FirstReach(path, cum, b);
    var tb := TimeAt(path, cum, b);
    if ib < |path| {
      FirstReachBetween(path, cum, b, ib);
    }
    if a <= 0.0 {
      assert path[0].timestamp <= path[ib - 1].timestamp;
      return;
    }
    var ia := FirstReach(path, cum, a);
    if ia < |path| {
      FirstReachBetween(path, cum, a, ia);
    }
    assert ia <= ib;
    if ia == ib && ib < |path| {
      LerpMonotone(path[ib - 1], path[ib], cum[ib - 1], cum[ib], a, b);
    } else if ia < ib {
      assert path[ia].timestamp <= path[ib - 1].timestamp;
    }
  }

  lemma FirstReachBetween(path: seq<PathPoint>, cum: seq<real>, target: real, i: nat)
    requires TimeArgs(path, cum) && target > 0.0
    requires 1 <= i < |path| && cum[i] >= target
    requires forall j :: 1 <= j < i ==> cum[j] < target
    ensures var t0, t1 := path[i - 1].timestamp, path[i].timestamp;
      (t0 <= t1 ==> t0 <= TimeAt(path, cum, target) <= t1)
  {
    TimeAtBracket(path, cum, target, i);
  }

  /** With sorted timestamps no split pace is negative. */
  lemma SplitPacesNonNegative(dist: Metric, path: seq<PathPoint>)
    requires TimesSorted(path)
    ensures forall k :: 0 <= k < |Splits(dist, path)| ==> Splits(dist, path)[k].paceMinPerKm >= 0.0
  {
    if |path| >= 2 {
      ProfileShape(dist, path);
      var cum := Profile(dist, path);
      forall k | 0 <= k < |Splits(dist, path)| ensures Splits(dist, path)[k].paceMinPerKm >= 0.0 {
        TimeAtMonotone(path, cum, k as real, (k + 1) as real);
      }
    }
  }

  /** Windows include both ends: with sorted timestamps, a reading taken exactly at
      the boundary between kilometres k and k+1 counts in both their windows. */
  lemma BoundarySampleCountsTwice(dist: Metric, path: seq<PathPoint>, samples: seq<HeartRateSample>, k: nat, s: HeartRateSample)
    requires |path| >= 2 && TimesSorted(path) && 1 <= k
    requires s in samples
    ensures TimeArgs(path, Profile(dist, path))
    ensures s.timestamp == TimeAt(path, Profile(dist, path), k as real) ==>
      && s in InWindow(samples, TimeAt(path, Profile(dist, path), (k - 1) as real), TimeAt(path, Profile(dist, path), k as real))
      && s in InWindow(samples, TimeAt(path, Profile(dist, path), k as real), TimeAt(path, Profile(dist, path), (k + 1) as real))
  {
    ProfileShape(dist, path);
    var cum := Profile(dist, path);
    TimeAtMonotone(path, cum, (k - 1) as real, k as real);
    TimeAtMonotone(path, cum, k as real, (k + 1) as real);
  }

  /** Noise floor below which no current-split pace is reported. */
  const MinCurrentSplitKm: real := 0.01

  /** Start of the incomplete kilometre: the interpolated time at the last whole
      kilometre, the same boundary the completed splits use. */
  function CurrentSplitStart(dist: Metric, path: seq<PathPoint>): real
    requires |path| >= 2
  {
    ProfileEnds(dist, path);
    TimeAt(path, Profile(dist, path), FullKms(dist, path) as real)
  }

  /** The value of `getCurrentSplitPace`. */
  function CurrentSplitPace(dist: Metric, path: seq<PathPoint>): Option<real> {
    if |path| < 2 then None
    else
      var totalKm := TotalKm(dist, path);
      if totalKm < MinCurrentSplitKm then None
      else
        var segmentKm := totalKm - FullKms(dist, path) as real;
        if segmentKm <= 0.0 then None
        else Some(((path[|path| - 1].timestamp - CurrentSplitStart(dist, path)) / 60000.0) / segmentKm)
  }

  /** `getCurrentSplitPace`. */
  method GetCurrentSplitPace(dist: Metric, path: seq<PathPoint>) returns (pace: Option<real>)
    ensures pace == CurrentSplitPace(dist, path)
  {
    if |path| < 2 {
      return None;
    }
    var cum := PathCumulativeKm(dist, path);
    ProfileEnds(dist, path);
    var totalKm := cum[|cum| - 1];
    if totalKm < MinCurrentSplitKm {
      return None;
    }
    var kmStart := totalKm.Floor;
    var tEnd := path[|path| - 1].timestamp;
    var tStart: real;
    if kmStart < 1 {
      tStart := path[0].timestamp;
    } else {
      tStart := SplitStartSearch(path, cum, kmStart as real);
    }
    assert kmStart == FullKms(dist, path);
    assert tStart == CurrentSplitStart(dist, path);
    var durationMin := (tEnd - tStart) / 60000.0;
    var segmentKm := totalKm - kmStart as real;
    if segmentKm <= 0.0 {
      return None;
    }
    return Some(durationMin / segmentKm);
  }

  /** The copy of the `timeAtKm` search inlined in `getCurrentSplitPace`. It starts
      from the first timestamp, but the last cumulative value reaches the target,
      so the search always stops on a segment and interpolates there. */
  method SplitStartSearch(path: seq<PathPoint>, cum: seq<real>, targetKm: real) returns (tStart: real)
    requires TimeArgs(path, cum) && targetKm > 0.0 && cum[|path| - 1] >= targetKm
    ensures tStart == TimeAt(path, cum, targetKm)
  {
    tStart := path[0].timestamp;
    var i := 1;
    while i < |path|
      invariant 1 <= i <= |path|
      invariant forall j :: 1 <= j < i ==> cum[j] < targetKm
      invariant TimeFrom(path, cum, targetKm, i) == TimeAt(path, cum, targetKm)
    {
      if cum[i] >= targetKm {
        var p0, p1 := path[i - 1], path[i];
        var d0, d1 := cum[i - 1], cum[i];
        var frac := (targetKm - d0) / (d1 - d0);
        tStart := p0.timestamp + frac * (p1.timestamp - p0.timestamp);
        break;
      }
      i := i + 1;
    }
  }

  /** No current-split pace for fewer than two points, below 10 m, or on a whole
      kilometre; otherwise the pace over the trailing fraction of a kilometre,
      measured from the last whole-kilometre boundary to the last fix. */
  lemma CurrentSplitPaceCases(dist: Metric, path: seq<PathPoint>)
    ensures CurrentSplitPace(dist, path).None? <==>
      |path| < 2 || TotalKm(dist, path) < 0.01 || TotalKm(dist, path) == FullKms(dist, path) as real
    ensures CurrentSplitPace(dist, path).Some? ==>
      var segmentKm := TotalKm(dist, path) - FullKms(dist, path) as real;
      && 0.0 < segmentKm < 1.0
      && CurrentSplitPace(dist, path).value * segmentKm * 60000.0
         == path[|path| - 1].timestamp - CurrentSplitStart(dist, path)
  {
    TotalKmNonNegative(dist, path);
    if |path| >= 2 {
      var total, full := TotalKm(dist, path), FullKms(dist, path);
      assert full as real <= total < full as real + 1.0;
      var segmentKm := total - full as real;
      if total >= MinCurrentSplitKm && segmentKm > 0.0 {
        var x := path[|path| - 1].timestamp - CurrentSplitStart(dist, path);
        var d := x / 60000.0;
        assert CurrentSplitPace(dist, path) == Some(d / segmentKm);
        DivMul(d, segmentKm);
        DivMul(x, 60000.0);
      }
    }
  }

  lemma DivMul(x: real, y: real)
    requires y != 0.0
    ensures (x / y) * y == x
  {
  }

  /** The live current split starts exactly where the completed splits end:
      the first timestamp plus the sum of every completed split's pace. */
  lemma CurrentSplitStartsAfterSplits(dist: Metric, path: seq<PathPoint>)
    requires |path| >= 2
    ensures CurrentSplitStart(dist, path) == path[0].timestamp + 60000.0 * SumPaces(Splits(dist, path))
  {
    SplitPacesTelescope(dist, path);
  }
}
