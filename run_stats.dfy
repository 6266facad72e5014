/** Distance, pace and duration arithmetic and formatting for run summaries
    (lib/runStats.ts). */
module RunStats {
  import opened RunTypes
  import opened Geodesy
  import opened JsText

  /** `pathDistanceKm`: the loop summing `haversineKm` over consecutive points. */
  method PathDistanceKm(haversineKm: Metric, path: seq<PathPoint>) returns (total: real)
    ensures total == TotalKm(haversineKm, path)
    ensures |path| < 2 ==> total == 0.0
    ensures total >= 0.0
  {
    TotalKmNonNegative(haversineKm, path);
    if |path| < 2 {
      return 0.0;
    }
    total := 0.0;
    for i := 1 to |path|
      invariant total == Cum(haversineKm, path, i - 1)
    {
      var a, b := path[i - 1], path[i];
      total := total + haversineKm(a.latitude, a.longitude, b.latitude, b.longitude);
    }
  }

  /** `paceMinPerKm`: minutes per km, 0 when there is no distance. */
  function PaceMinPerKm(durationSeconds: real, distanceKm: real): (pace: real)
    ensures distanceKm <= 0.0 ==> pace == 0.0
    ensures distanceKm > 0.0 ==> pace * distanceKm * 60.0 == durationSeconds
  {
    if distanceKm <= 0.0 then 0.0 else (durationSeconds / 60.0) / distanceKm
  }

  /** The placeholder `formatPace` returns for no pace. The source file holds the
      em dash mis-decoded as three characters, U+00E2 U+20AC U+201D. */
  const NoPace: string := "\U{00E2}\U{20AC}\U{201D}"

  /** Seconds part of a pace: the rounded fraction of a minute. */
  function PaceSeconds(paceMinPerKm: real): int {
    Round((paceMinPerKm - paceMinPerKm.Floor as real) * 60.0)
  }

  /** `formatPace`: "M:SS". Non-finite paces have no counterpart over the reals. */
  function FormatPace(paceMinPerKm: real): (r: string)
    ensures r == NoPace <==> paceMinPerKm <= 0.0
    ensures paceMinPerKm > 0.0 ==> |r| > 0 && IsDigit(r[0])
  {
    if paceMinPerKm <= 0.0 then NoPace
    else
      PaceSecondsRange(paceMinPerKm);
      NatToString(paceMinPerKm.Floor) + ":" + PadStart2(NatToString(PaceSeconds(paceMinPerKm)))
  }

  /** The seconds part lies between 0 and 60 inclusive. */
  lemma PaceSecondsRange(paceMinPerKm: real)
    ensures 0 <= PaceSeconds(paceMinPerKm) <= 60
  {
    var frac := paceMinPerKm - paceMinPerKm.Floor as real;
    assert 0.0 <= frac < 1.0;
  }

  /** A positive pace prints as whole minutes, a colon and two digits whose value
      is the rounded fraction of a minute (which may be 60); anything else prints
      the placeholder. */
  lemma FormatPaceParts(paceMinPerKm: real)
    ensures paceMinPerKm <= 0.0 ==> FormatPace(paceMinPerKm) == NoPace
    ensures paceMinPerKm > 0.0 ==>
      var r, sec := FormatPace(paceMinPerKm), PaceSeconds(paceMinPerKm);
      && |r| >= 4 && r[|r| - 3] == ':'
      && IsDigits(r[..|r| - 3]) && DecimalValue(r[..|r| - 3]) == paceMinPerKm.Floor
      && IsDigits(r[|r| - 2..]) && DecimalValue(r[|r| - 2..]) == sec
      && 0 <= sec <= 60
      && sec as real <= (paceMinPerKm - paceMinPerKm.Floor as real) * 60.0 + 0.5 < sec as real + 1.0
  {
    if paceMinPerKm > 0.0 {
      PaceSecondsRange(paceMinPerKm);
      var m, sec := paceMinPerKm.Floor, PaceSeconds(paceMinPerKm);
      var ms, ss := NatToString(m), PadStart2(NatToString(sec));
      NatToStringRoundTrip(m);
      TwoDigits(sec);
      SplitField(ms, ':', ss);
    }
  }

  /** A pace just under a whole minute rounds its seconds up to 60: 5.995 prints "5:60". */
  lemma FormatPaceCanShowSixty()
    ensures FormatPace(5.995) == "5:60"
  {
    assert 5.995.Floor == 5;
    assert PaceSeconds(5.995) == 60;
    assert NatToString(60) == "60";
  }

  /** `x % k` on a non-negative number, as JavaScript computes it. */
  function JsMod(x: real, k: real): real
    requires x >= 0.0 && k > 0.0
  {
    x - k * (x / k).Floor as real
  }

  /** The hours, minutes and seconds fields `formatDuration` prints. */
  function Hours(seconds: real): int requires seconds >= 0.0 { (seconds / 3600.0).Floor }
  function Minutes(seconds: real): int requires seconds >= 0.0 { (JsMod(seconds, 3600.0) / 60.0).Floor }
  function Seconds(seconds: real): int requires seconds >= 0.0 { JsMod(seconds, 60.0).Floor }

  /** `formatDuration`: "H:MM:SS" from one hour on, else "M:SS"; "0:00" for negative
      input, which therefore reads like any duration under a second. Non-finite
      input has no counterpart over the reals. */
  function FormatDuration(seconds: real): (r: string)
    ensures seconds < 1.0 ==> r == "0:00"
  {
    if seconds < 0.0 then "0:00"
    else
      DurationFields(seconds);
      ZeroFields(seconds);
      assert NatToString(0) == "0";
      var h, m, s := Hours(seconds), Minutes(seconds), Seconds(seconds);
      if h > 0 then NatToString(h) + ":" + PadStart2(NatToString(m)) + ":" + PadStart2(NatToString(s))
      else NatToString(m) + ":" + PadStart2(NatToString(s))
  }

  /** Under one second every printed field is 0. */
  lemma ZeroFields(seconds: real)
    requires seconds >= 0.0
    ensures seconds < 1.0 ==> Hours(seconds) == 0 && Minutes(seconds) == 0 && Seconds(seconds) == 0
  {
    DurationFields(seconds);
  }

  /** Flooring a quotient by a positive whole number only depends on the floor of the dividend. */
  lemma FloorDiv(x: real, k: int)
    requires x >= 0.0 && k > 0
    ensures (x / k as real).Floor == x.Floor / k
    ensures JsMod(x, k as real).Floor == x.Floor % k
  {
    var f := x.Floor;
    var q, r := f / k, f % k;
    IntBetween(f, k);
    var qr, kr := q as real, k as real;
    assert qr * kr <= x < (qr + 1.0) * kr;
    QuotientBetween(x, qr, kr);
    assert (x / kr).Floor == q;
    assert JsMod(x, kr) == x - kr * qr;
    assert r as real == f as real - qr * kr;
  }

  lemma IntBetween(f: int, k: int)
    requires f >= 0 && k > 0
    ensures (f / k) as real * k as real <= f as real
    ensures f as real + 1.0 <= ((f / k) as real + 1.0) * k as real
    ensures (f % k) as real == f as real - (f / k) as real * k as real
  {
    var q, r := f / k, f % k;
    assert f == q * k + r;
    assert (q * k) as real == q as real * k as real;
  }

  lemma QuotientBetween(x: real, q: real, k: real)
    requires k > 0.0 && q * k <= x < (q + 1.0) * k
    ensures q <= x / k < q + 1.0
  {
    var y := x / k;
    assert y * k == x;
    if y >= q + 1.0 {
      MulNonNegative(y - (q + 1.0), k);
    }
  }

  /** The printed fields are a faithful split of the whole seconds: minutes and
      seconds stay below 60 and `h*3600 + m*60 + s == floor(seconds)`. */
  lemma DurationFields(seconds: real)
    requires seconds >= 0.0
    ensures var h, m, s := Hours(seconds), Minutes(seconds), Seconds(seconds);
      && h >= 0 && 0 <= m < 60 && 0 <= s < 60
      && h * 3600 + m * 60 + s == seconds.Floor
  {
    var f := seconds.Floor;
    FloorDiv(seconds, 3600);
    FloorDiv(seconds, 60);
    var y := JsMod(seconds, 3600.0);
    assert y >= 0.0;
    FloorDiv(y, 60);
    assert JsMod(seconds, 3600.0).Floor == f % 3600;
    var rest := f % 3600;
    assert f == 3600 * (f / 3600) + rest;
    assert rest == 60 * (rest / 60) + rest % 60;
    ModOfMod(f);
  }

  lemma ModOfMod(f: int)
    requires f >= 0
    ensures (f % 3600) % 60 == f % 60 && (f % 3600) / 60 < 60
  {
    var q, r := f / 3600, f % 3600;
    assert f == 60 * (60 * q) + r;
    var a, b := r / 60, r % 60;
    assert f == 60 * (60 * q + a) + b && 0 <= b < 60;
  }

  /** The printed duration reads back as its fields: seconds in the last two
      digits, minutes before the last colon, and hours before the first colon
      when the duration reaches an hour. */
  lemma FormatDurationParts(seconds: real)
    requires seconds >= 0.0
    ensures var r, h, m, s := FormatDuration(seconds), Hours(seconds), Minutes(seconds), Seconds(seconds);
      && |r| >= 4 && r[|r| - 3] == ':'
      && IsDigits(r[|r| - 2..]) && DecimalValue(r[|r| - 2..]) == s
      && (h == 0 ==> IsDigits(r[..|r| - 3]) && DecimalValue(r[..|r| - 3]) == m)
      && (h > 0 ==>
            && |r| >= 7 && r[|r| - 6] == ':'
            && IsDigits(r[|r| - 5..|r| - 3]) && DecimalValue(r[|r| - 5..|r| - 3]) == m
            && IsDigits(r[..|r| - 6]) && DecimalValue(r[..|r| - 6]) == h)
  {
    DurationFields(seconds);
    var h, m, s := Hours(seconds), Minutes(seconds), Seconds(seconds);
    var ss := PadStart2(NatToString(s));
    TwoDigits(s);
    if h > 0 {
      var hs, ms := NatToString(h), PadStart2(NatToString(m));
      NatToStringRoundTrip(h);
      TwoDigits(m);
      SplitFields(hs, ':', ms, ':', ss);
    } else {
      var m0 := NatToString(m);
      NatToStringRoundTrip(m);
      SplitField(m0, ':', ss);
    }
  }

  /** Where the parts of `a + [x] + c` sit when `c` has two elements. */
  lemma SplitField<T>(a: seq<T>, x: T, c: seq<T>)
    requires |c| == 2
    ensures var r := a + [x] + c;
      && |r| == |a| + 3 && r[|r| - 3] == x && r[|r| - 2..] == c && r[..|r| - 3] == a
  {
  }

  /** Where the parts of `a + [x] + b + [y] + c` sit when `b` and `c` have two elements. */
  lemma SplitFields<T>(a: seq<T>, x: T, b: seq<T>, y: T, c: seq<T>)
    requires |b| == 2 && |c| == 2
    ensures var r := a + [x] + b + [y] + c;
      && |r| == |a| + 6 && r[|r| - 3] == y && r[|r| - 6] == x
      && r[|r| - 2..] == c && r[|r| - 5..|r| - 3] == b && r[..|r| - 6] == a
  {
    var r := a + [x] + b + [y] + c;
    assert r == (a + [x] + b) + [y] + c;
    SplitField(a + [x] + b, y, c);
    SplitField(a, x, b);
  }
}
