/** The live run recorder (lib/TimerContext.tsx). Every hook callback is one
    atomic transition of the provider's state; the clock, the permission
    answers, the first position fix, Bluetooth availability, the remembered
    monitor and the connection outcome are inputs. A finished run is handed back
    to the caller instead of being passed to `saveRun`. */
module TimerContext {
  import opened Wrappers
  import opened RunTypes
  import opened JsText
  import opened Geodesy
  import PathDistance
  import RunStats
  import BleHeartRate

  // ---------------------------------------------------------------------------
  // The clock display
  // ---------------------------------------------------------------------------

  /** `formatTime`: zero-padded whole minutes, a colon, zero-padded seconds. */
  function FormatTime(seconds: nat): string {
    PadStart2(NatToString(seconds / 60)) + ":" + PadStart2(NatToString(seconds % 60))
  }

  /** The display reads back as the elapsed seconds: minutes before the colon,
      the seconds of the minute (below 60) in the last two digits, and exactly
      "MM:SS" below 100 minutes. */
  lemma FormatTimeParts(seconds: nat)
    ensures var r := FormatTime(seconds);
      && |r| >= 5 && r[|r| - 3] == ':'
      && IsDigits(r[..|r| - 3]) && IsDigits(r[|r| - 2..])
      && DecimalValue(r[|r| - 2..]) < 60
      && DecimalValue(r[..|r| - 3]) * 60 + DecimalValue(r[|r| - 2..]) == seconds
      && (seconds < 6000 ==> |r| == 5)
  {
    var mm, ss := PadStart2(NatToString(seconds / 60)), PadStart2(NatToString(seconds % 60));
    PaddedValue(seconds / 60);
    TwoDigits(seconds % 60);
    if seconds < 6000 {
      TwoDigits(seconds / 60);
    }
    RunStats.SplitField(mm, ':', ss);
  }

  // ---------------------------------------------------------------------------
  // State
  // ---------------------------------------------------------------------------

  /** `lastNotifResponseRef`: the key and time of the last accepted action. */
  datatype NotifSlot = NotifSlot(key: string, time: real)

  /** The provider's state and refs. `locationSub` stands for a live
      `locationSubRef` and `hrConnected` for a non-null `hrDisconnectRef`. */
  datatype Live = Live(
    seconds: nat,
    isRunning: bool,
    runPath: seq<PathPoint>,
    heartRateSamples: seq<HeartRateSample>,
    currentBpm: Option<int>,
    runStartTime: Option<real>,
    locationSub: bool,
    hrConnected: bool,
    lastNotifResponse: Option<NotifSlot>)

  /** The state on mount. */
  const Initial: Live := Live(0, false, [], [], None, None, false, false, None)

  /** What the start path of `playPause` learns from the platform: the location
      permission answer, `Date.now()`, the first position fix, whether Bluetooth
      exists, the remembered monitor id (none when the read fails) and whether
      connecting to it succeeds. */
  datatype StartEnv = StartEnv(
    locationGranted: bool,
    now: real,
    fix: PathPoint,
    bleAvailable: bool,
    savedDeviceId: Option<string>,
    connectSucceeds: bool)

  /** Whether the start path ends with a live heart-rate feed: Bluetooth exists,
      a non-empty id is remembered and the connection succeeds. */
  predicate Connects(env: StartEnv) {
    env.bleAvailable && env.savedDeviceId.Some? && env.savedDeviceId.value != "" && env.connectSucceeds
  }

  /** The bpm of the newest reading, as `currentBpm` tracks it. */
  function LastBpm(samples: seq<HeartRateSample>): Option<int> {
    if samples == [] then None else Some(samples[|samples| - 1].bpm)
  }

  /** No two consecutive fixes share both coordinates. */
  predicate NoRepeatedFix(path: seq<PathPoint>) {
    forall i :: 0 < i < |path| ==>
      !(path[i - 1].latitude == path[i].latitude && path[i - 1].longitude == path[i].longitude)
  }

  /** What every transition keeps: the location feed only runs while running on
      a started path, the heart-rate feed only while running, a path exists
      exactly when a start time does, readings only on a started run,
      `currentBpm` is the newest reading, fixes never repeat, and the web build
      never records a path or opens a feed. */
  predicate Inv(s: Live, onWeb: bool) {
    && (s.locationSub ==> s.isRunning && |s.runPath| > 0)
    && (s.hrConnected ==> s.isRunning && |s.runPath| > 0)
    && (|s.runPath| > 0 <==> s.runStartTime.Some?)
    && (s.heartRateSamples != [] ==> |s.runPath| > 0)
    && s.currentBpm == LastBpm(s.heartRateSamples)
    && NoRepeatedFix(s.runPath)
    && (onWeb ==> s.runPath == [] && !s.locationSub && !s.hrConnected)
  }

  lemma InitialInv(onWeb: bool)
    ensures Inv(Initial, onWeb)
  {
  }

  // ---------------------------------------------------------------------------
  // Transitions
  // ---------------------------------------------------------------------------

  /** `playPause`. Starting on a phone asks for location; without it the
      running flag still flips. With it, an empty path is a fresh run (start
      time, cleared readings, a reconnected monitor, the first fix) and the
      location feed opens. Pausing closes both feeds. On the web only the flag
      flips. */
  function PlayPauseStep(s: Live, onWeb: bool, env: StartEnv): (r: Live)
    ensures r.isRunning == !s.isRunning
    ensures r.seconds == s.seconds && r.lastNotifResponse == s.lastNotifResponse
    ensures !r.isRunning ==> !r.locationSub && !r.hrConnected
    ensures |s.runPath| > 0 ==> r.runPath == s.runPath && r.heartRateSamples == s.heartRateSamples
  {
    var willStart := !s.isRunning;
    if willStart && !onWeb then
      if !env.locationGranted then s.(isRunning := !s.isRunning)
      else
        var started := if |s.runPath| == 0 then
            s.(runStartTime := Some(env.now), heartRateSamples := [], currentBpm := None,
               hrConnected := Connects(env), runPath := [env.fix])
          else s;
        started.(locationSub := true, isRunning := !s.isRunning)
    else if !willStart then s.(locationSub := false, hrConnected := false, isRunning := !s.isRunning)
    else s.(isRunning := !s.isRunning)
  }

  /** The location callback's update of `runPath`: a fix with the same
      coordinates as the newest one is dropped. */
  function AppendFix(path: seq<PathPoint>, fix: PathPoint): seq<PathPoint> {
    if |path| > 0 && path[|path| - 1].latitude == fix.latitude && path[|path| - 1].longitude == fix.longitude
    then path
    else path + [fix]
  }

  function LocationStep(s: Live, fix: PathPoint): Live {
    s.(runPath := AppendFix(s.runPath, fix))
  }

  /** The `onBpm` callback: a timestamped reading is appended and shown. */
  function BpmStep(s: Live, bpm: int, now: real): Live {
    s.(currentBpm := Some(bpm), heartRateSamples := s.heartRateSamples + [HeartRateSample(now, bpm)])
  }

  /** The one-second interval, which only exists while running. */
  function TickStep(s: Live): Live {
    if s.isRunning then s.(seconds := s.seconds + 1) else s
  }

  /** The reset `stop` performs whatever happens to the save. */
  function Stopped(s: Live): Live {
    s.(isRunning := false, seconds := 0, runPath := [], heartRateSamples := [], currentBpm := None,
       runStartTime := None, locationSub := false, hrConnected := false)
  }

  /** The record `stop` passes to `saveRun`. */
  function RunRecord(dist: Metric, startTime: real, endTime: real, seconds: nat,
                     path: seq<PathPoint>, samples: seq<HeartRateSample>): RunInsert
  {
    var distanceKm := TotalKm(dist, path);
    var pace := if distanceKm > 0.0 then (seconds as real / 60.0) / distanceKm else 0.0;
    RunInsert(startTime, endTime, distanceKm, seconds as real, pace,
              BleHeartRate.AverageBpm(samples), path, samples)
  }

  /** The part of `stop` that assembles the record from the captured values. */
  method BuildRecord(dist: Metric, startTime: real, endTime: real, durationSecs: nat,
                     path: seq<PathPoint>, samples: seq<HeartRateSample>) returns (record: RunInsert)
    ensures record == RunRecord(dist, startTime, endTime, durationSecs, path, samples)
  {
    var distanceKm := PathDistance.PathDistanceKm(dist, path);
    var paceMinPerKm := if distanceKm > 0.0 then (durationSecs as real / 60.0) / distanceKm else 0.0;
    var avgHeartRate := BleHeartRate.AverageBpm(samples);
    record := RunInsert(startTime, endTime, distanceKm, durationSecs as real, paceMinPerKm,
                        avgHeartRate, path, samples);
  }

  /** A run is saved only on a phone, for a non-empty path with a start time. */
  function StopRecord(s: Live, onWeb: bool, dist: Metric, endTime: real): Option<RunInsert> {
    if !onWeb && |s.runPath| > 0 && s.runStartTime.Some? then
      Some(RunRecord(dist, s.runStartTime.value, endTime, s.seconds, s.runPath, s.heartRateSamples))
    else None
  }

  // ---------------------------------------------------------------------------
  // Notification actions
  // ---------------------------------------------------------------------------

  /** `TIMER_CATEGORY_ID` of lib/timerNotification.ts. */
  const TimerCategory: string := "timer-controls"
  const DedupeMs: real := 800.0

  datatype NotifResponse = NotifResponse(categoryIdentifier: string, identifier: Option<string>, actionIdentifier: string)

  function DedupeKey(r: NotifResponse): string {
    r.identifier.GetOr("") + "-" + r.actionIdentifier
  }

  /** An event repeats the last accepted one within 800 ms, strictly. */
  predicate Suppressed(last: Option<NotifSlot>, key: string, now: real) {
    last.Some? && last.value.key == key && now - last.value.time < DedupeMs
  }

  datatype Outcome = Outcome(state: Live, saved: Option<RunInsert>)

  /** `handleResponse`: other categories and repeats are ignored outright;
      anything else is recorded in the slot and then dispatched to `playPause`
      or `stop` by its action. The listener only exists on a phone. */
  function Respond(s: Live, r: NotifResponse, now: real, env: StartEnv, dist: Metric, endTime: real): (o: Outcome)
    ensures o.saved.Some? ==> r.categoryIdentifier == TimerCategory && r.actionIdentifier == "stop"
    ensures o.state.lastNotifResponse == s.lastNotifResponse
         || o.state.lastNotifResponse == Some(NotifSlot(DedupeKey(r), now))
  {
    if r.categoryIdentifier != TimerCategory then Outcome(s, None)
    else
      var key := DedupeKey(r);
      if Suppressed(s.lastNotifResponse, key, now) then Outcome(s, None)
      else
        var slotted := s.(lastNotifResponse := Some(NotifSlot(key, now)));
        if r.actionIdentifier == "playPause" then Outcome(PlayPauseStep(slotted, false, env), None)
        else if r.actionIdentifier == "stop" then Outcome(Stopped(slotted), StopRecord(slotted, false, dist, endTime))
        else Outcome(slotted, None)
  }

  // ---------------------------------------------------------------------------
  // Derived values
  // ---------------------------------------------------------------------------

  /** The notification effect: nothing on the web, the clock (marked when
      paused) while there is time on it, otherwise dismissal. */
  datatype NotifEffect = NoEffect | Show(text: string) | Dismiss

  function NotificationEffect(onWeb: bool, seconds: nat, isRunning: bool): (e: NotifEffect)
    ensures e == NoEffect <==> onWeb
    ensures e.Show? <==> !onWeb && seconds > 0
    ensures e.Show? ==> FormatTime(seconds) <= e.text
  {
    if onWeb then NoEffect
    else if seconds > 0 then Show(if isRunning then FormatTime(seconds) else FormatTime(seconds) + " (paused)")
    else Dismiss
  }

  /** `avgPaceMinPerKm`: minutes per km so far, none before any distance. */
  function AvgPace(seconds: nat, distanceKm: real): (pace: Option<real>)
    ensures pace.Some? <==> distanceKm > 0.0
    ensures pace.Some? ==> pace.value == RunStats.PaceMinPerKm(seconds as real, distanceKm)
    ensures pace.Some? ==> pace.value * distanceKm * 60.0 == seconds as real
  {
    if distanceKm > 0.0 then Some((seconds as real / 60.0) / distanceKm) else None
  }

  /** The values the provider exposes besides its raw state. */
  datatype LiveView = LiveView(
    formattedTime: string,
    distanceKm: real,
    currentSplitPaceMinPerKm: Option<real>,
    avgPaceMinPerKm: Option<real>,
    avgBpm: Option<int>)

  /** `formattedTime`, `distanceKm`, `currentSplitPaceMinPerKm`, `avgPaceMinPerKm`
      and `avgBpm`: before two fixes neither a distance nor a pace is shown, and
      an average bpm exactly once a reading has arrived. */
  function View(s: Live, dist: Metric): (v: LiveView)
    ensures |s.runPath| < 2 ==> v.distanceKm == 0.0 && v.currentSplitPaceMinPerKm.None? && v.avgPaceMinPerKm.None?
    ensures v.avgPaceMinPerKm.Some? <==> v.distanceKm > 0.0
    ensures v.avgBpm.None? <==> s.heartRateSamples == []
  {
    var d := TotalKm(dist, s.runPath);
    LiveView(FormatTime(s.seconds), d, PathDistance.CurrentSplitPace(dist, s.runPath),
             AvgPace(s.seconds, d), BleHeartRate.AverageBpm(s.heartRateSamples))
  }

  // ---------------------------------------------------------------------------
  // The provider
  // ---------------------------------------------------------------------------

  class TimerProvider {
    /** `Platform.OS === "web"` */
    const onWeb: bool
    var seconds: nat
    var isRunning: bool
    var runPath: seq<PathPoint>
    var heartRateSamples: seq<HeartRateSample>
    var currentBpm: Option<int>
    var runStartTime: Option<real>
    var locationSub: bool
    var hrConnected: bool
    var lastNotifResponse: Option<NotifSlot>

    function State(): Live
      reads this
    {
      Live(seconds, isRunning, runPath, heartRateSamples, currentBpm, runStartTime,
           locationSub, hrConnected, lastNotifResponse)
    }

    predicate Valid()
      reads this
    {
      Inv(State(), onWeb)
    }

    constructor (onWeb: bool)
      ensures this.onWeb == onWeb && State() == Initial && Valid()
    {
      this.onWeb := onWeb;
      seconds, isRunning, runPath, heartRateSamples := 0, false, [], [];
      currentBpm, runStartTime, locationSub, hrConnected, lastNotifResponse := None, None, false, false, None;
    }

    method PlayPause(env: StartEnv)
      requires Valid()
      modifies this
      ensures State() == PlayPauseStep(old(State()), onWeb, env) && Valid()
    {
      ghost var s0 := State();
      PlayPausePreserves(s0, onWeb, env);
      var willStart := !isRunning;
      if willStart && !onWeb {
        if !env.locationGranted {
          isRunning := !isRunning;
          return;
        }
        if |runPath| == 0 {
          runStartTime := Some(env.now);
          heartRateSamples := [];
          currentBpm := None;
          if hrConnected {
            hrConnected := false;
          }
          if env.bleAvailable && env.savedDeviceId.Some? && env.savedDeviceId.value != "" && env.connectSucceeds {
            hrConnected := true;
          }
          runPath := [env.fix];
        }
        locationSub := true;
      } else if !willStart {
        locationSub := false;
        if hrConnected {
          hrConnected := false;
        }
      }
      isRunning := !isRunning;
    }

    /** The location subscription's callback. */
    method OnLocation(fix: PathPoint)
      requires Valid() && locationSub
      modifies this
      ensures State() == LocationStep(old(State()), fix) && Valid()
    {
      LocationPreserves(State(), onWeb, fix);
      var last := if |runPath| > 0 then Some(runPath[|runPath| - 1]) else None;
      if last.Some? && last.value.latitude == fix.latitude && last.value.longitude == fix.longitude {
        return;
      }
      runPath := runPath + [fix];
    }

    /** The heart-rate subscription's `onBpm`, with `Date.now()` as `now`. */
    method OnBpm(bpm: int, now: real)
      requires Valid() && hrConnected
      modifies this
      ensures State() == BpmStep(old(State()), bpm, now) && Valid()
    {
      BpmPreserves(State(), onWeb, bpm, now);
      currentBpm := Some(bpm);
      heartRateSamples := heartRateSamples + [HeartRateSample(now, bpm)];
    }

    method Tick()
      requires Valid()
      modifies this
      ensures State() == TickStep(old(State())) && Valid()
    {
      if isRunning {
        seconds := seconds + 1;
      }
    }

    /** `stop`, with `Date.now()` at the save as `endTime`; returns the record
        passed to `saveRun`, if any. */
    method Stop(dist: Metric, endTime: real) returns (saved: Option<RunInsert>)
      requires Valid()
      modifies this
      ensures State() == Stopped(old(State())) && Valid()
      ensures saved == StopRecord(old(State()), onWeb, dist, endTime)
    {
      ghost var s0 := State();
      StopResets(s0, onWeb, dist, endTime);
      locationSub := false;
      if hrConnected {
        hrConnected := false;
      }
      var startTime, path, durationSecs, samples := runStartTime, runPath, seconds, heartRateSamples;
      isRunning := false;
      seconds := 0;
      runPath := [];
      heartRateSamples := [];
      currentBpm := None;
      runStartTime := None;
      saved := None;
      if !onWeb && |path| > 0 && startTime.Some? {
        var record := BuildRecord(dist, startTime.value, endTime, durationSecs, path, samples);
        saved := Some(record);
      }
    }

    /** `handleResponse` for a notification action tapped at `now`. */
    method HandleResponse(r: NotifResponse, now: real, env: StartEnv, dist: Metric, endTime: real)
      returns (saved: Option<RunInsert>)
      requires Valid() && !onWeb
      modifies this
      ensures State() == Respond(old(State()), r, now, env, dist, endTime).state && Valid()
      ensures saved == Respond(old(State()), r, now, env, dist, endTime).saved
    {
      saved := None;
      if r.categoryIdentifier != TimerCategory {
        return;
      }
      var key := r.identifier.GetOr("") + "-" + r.actionIdentifier;
      var last := lastNotifResponse;
      if last.Some? && last.value.key == key && now - last.value.time < DedupeMs {
        return;
      }
      lastNotifResponse := Some(NotifSlot(key, now));
      if r.actionIdentifier == "playPause" {
        PlayPause(env);
      } else if r.actionIdentifier == "stop" {
        saved := Stop(dist, endTime);
      }
    }
  }

  // ---------------------------------------------------------------------------
  // Properties of the transitions
  // ---------------------------------------------------------------------------

  lemma PlayPausePreserves(s: Live, onWeb: bool, env: StartEnv)
    requires Inv(s, onWeb)
    ensures Inv(PlayPauseStep(s, onWeb, env), onWeb)
  {
  }

  /** The location callback appends the fix exactly when the path is empty or
      the newest fix has other coordinates, and never touches earlier fixes. */
  lemma AppendFixSpec(path: seq<PathPoint>, fix: PathPoint)
    ensures var out := AppendFix(path, fix);
      && (out == path + [fix] <==>
            (path == [] || path[|path| - 1].latitude != fix.latitude || path[|path| - 1].longitude != fix.longitude))
      && (out != path + [fix] ==> out == path)
      && out[..|path|] == path
  {
  }

  lemma LocationPreserves(s: Live, onWeb: bool, fix: PathPoint)
    requires Inv(s, onWeb) && s.locationSub
    ensures Inv(LocationStep(s, fix), onWeb)
    ensures |LocationStep(s, fix).runPath| > 0
  {
    var out := AppendFix(s.runPath, fix);
    if out != s.runPath {
      forall i | 0 < i < |out|
        ensures !(out[i - 1].latitude == out[i].latitude && out[i - 1].longitude == out[i].longitude)
      {
        if i < |s.runPath| {
          assert out[i - 1] == s.runPath[i - 1] && out[i] == s.runPath[i];
        }
      }
    }
  }

  lemma BpmPreserves(s: Live, onWeb: bool, bpm: int, now: real)
    requires Inv(s, onWeb) && s.hrConnected
    ensures Inv(BpmStep(s, bpm, now), onWeb)
  {
  }

  lemma TickPreserves(s: Live, onWeb: bool)
    requires Inv(s, onWeb)
    ensures Inv(TickStep(s), onWeb)
  {
  }

  lemma RespondPreserves(s: Live, r: NotifResponse, now: real, env: StartEnv, dist: Metric, endTime: real)
    requires Inv(s, false)
    ensures Inv(Respond(s, r, now, env, dist, endTime).state, false)
  {
    if r.categoryIdentifier == TimerCategory && !Suppressed(s.lastNotifResponse, DedupeKey(r), now) {
      var slotted := s.(lastNotifResponse := Some(NotifSlot(DedupeKey(r), now)));
      PlayPausePreserves(slotted, false, env);
    }
  }

  /** Starting a run on a phone with an empty path records the start time,
      clears the readings, seeds the path with exactly the first fix and opens
      the location feed; the heart-rate feed is whatever the connection gave. */
  lemma StartFresh(s: Live, env: StartEnv)
    requires !s.isRunning && env.locationGranted && s.runPath == []
    ensures var t := PlayPauseStep(s, false, env);
      && t.isRunning && t.locationSub
      && t.runStartTime == Some(env.now)
      && t.heartRateSamples == [] && t.currentBpm == None
      && t.runPath == [env.fix]
      && t.hrConnected == Connects(env)
      && t.seconds == s.seconds
  {
  }

  /** Resuming a paused run keeps the path, readings, clock and start time and
      reopens only the location feed: the monitor disconnected at pause stays
      disconnected. */
  lemma ResumeKeeps(s: Live, env: StartEnv)
    requires Inv(s, false) && !s.isRunning && env.locationGranted && s.runPath != []
    ensures var t := PlayPauseStep(s, false, env);
      && t.isRunning && t.locationSub && !t.hrConnected
      && t.runPath == s.runPath && t.heartRateSamples == s.heartRateSamples
      && t.seconds == s.seconds && t.runStartTime == s.runStartTime
      && t.currentBpm == s.currentBpm
  {
  }

  /** Without location permission the start path still flips the flag and
      changes nothing else: no feed, no fix, no start time. */
  lemma StartWithoutPermission(s: Live, env: StartEnv)
    requires !s.isRunning && !env.locationGranted
    ensures PlayPauseStep(s, false, env) == s.(isRunning := true)
  {
  }

  /** Pausing closes both feeds and keeps the recorded run. */
  lemma PauseKeeps(s: Live, onWeb: bool, env: StartEnv)
    requires s.isRunning
    ensures PlayPauseStep(s, onWeb, env) == s.(isRunning := false, locationSub := false, hrConnected := false)
  {
  }

  /** The clock advances by one exactly while running; nothing else changes. */
  lemma TickCounts(s: Live)
    ensures TickStep(s).seconds == s.seconds + (if s.isRunning then 1 else 0)
    ensures TickStep(s).(seconds := s.seconds) == s
  {
  }

  /** `stop` always returns to the idle state, keeping only the notification
      slot, so a following stop saves nothing. */
  lemma StopResets(s: Live, onWeb: bool, dist: Metric, endTime: real)
    ensures Stopped(s) == Initial.(lastNotifResponse := s.lastNotifResponse)
    ensures Inv(Stopped(s), onWeb)
    ensures StopRecord(Stopped(s), onWeb, dist, endTime) == None
  {
  }

  /** Under the invariant a run is saved exactly on a phone with a non-empty
      path; the record carries the captured path, readings and clock, the path's
      total distance (`TotalKm`), a pace that multiplies back to the duration, and an
      average exactly when there were readings. */
  lemma StopRecordFields(s: Live, onWeb: bool, dist: Metric, endTime: real)
    requires Inv(s, onWeb)
    ensures StopRecord(s, onWeb, dist, endTime).Some? <==> !onWeb && s.runPath != []
    ensures StopRecord(s, onWeb, dist, endTime).Some? ==>
      var rec := StopRecord(s, onWeb, dist, endTime).value;
      && rec.startTime == s.runStartTime.value && rec.endTime == endTime
      && rec.path == s.runPath && rec.heartRateSamples == s.heartRateSamples
      && rec.durationSeconds == s.seconds as real
      && rec.distanceKm == TotalKm(dist, s.runPath) && rec.distanceKm >= 0.0
      && rec.paceMinPerKm == RunStats.PaceMinPerKm(rec.durationSeconds, rec.distanceKm)
      && (rec.distanceKm > 0.0 ==> rec.paceMinPerKm * rec.distanceKm * 60.0 == rec.durationSeconds)
      && (rec.avgHeartRate.None? <==> s.heartRateSamples == [])
  {
    TotalKmNonNegative(dist, s.runPath);
    BleHeartRate.AverageBpmBounds(s.heartRateSamples);
  }

  /** Other categories never reach the dedupe slot. */
  lemma OtherCategoryIgnored(s: Live, r: NotifResponse, now: real, env: StartEnv, dist: Metric, endTime: real)
    requires r.categoryIdentifier != TimerCategory
    ensures Respond(s, r, now, env, dist, endTime) == Outcome(s, None)
  {
  }

  /** A repeat changes nothing at all, its own time included; any other timer
      event is recorded as the new slot and then does what its action says:
      `playPause` toggles, `stop` stops and saves, anything else only records. */
  lemma DedupeSlot(s: Live, r: NotifResponse, now: real, env: StartEnv, dist: Metric, endTime: real)
    requires r.categoryIdentifier == TimerCategory
    ensures Suppressed(s.lastNotifResponse, DedupeKey(r), now) ==>
      Respond(s, r, now, env, dist, endTime) == Outcome(s, None)
    ensures !Suppressed(s.lastNotifResponse, DedupeKey(r), now) ==>
      Respond(s, r, now, env, dist, endTime).state.lastNotifResponse == Some(NotifSlot(DedupeKey(r), now))
    ensures !Suppressed(s.lastNotifResponse, DedupeKey(r), now) ==>
      var slotted := s.(lastNotifResponse := Some(NotifSlot(DedupeKey(r), now)));
      var o := Respond(s, r, now, env, dist, endTime);
      && (r.actionIdentifier == "playPause" ==> o == Outcome(PlayPauseStep(slotted, false, env), None))
      && (r.actionIdentifier == "stop" ==> o == Outcome(Stopped(slotted), StopRecord(slotted, false, dist, endTime)))
      && (r.actionIdentifier != "playPause" && r.actionIdentifier != "stop" ==> o == Outcome(slotted, None))
  {
    var o := Respond(s, r, now, env, dist, endTime);
    if !Suppressed(s.lastNotifResponse, DedupeKey(r), now) {
      var slotted := s.(lastNotifResponse := Some(NotifSlot(DedupeKey(r), now)));
      assert PlayPauseStep(slotted, false, env).lastNotifResponse == slotted.lastNotifResponse;
    }
  }

  /** A tap delivered twice (by the listener and by the last-response query) is
      handled once: the same action again within 800 ms of the accepted one is
      dropped, however many drops came between, and from 800 ms on it is handled
      again: a `playPause` toggles the running flag once more, a `stop` stops. */
  lemma DoubleDelivery(s: Live, r: NotifResponse, t0: real, t1: real, t2: real,
                       env: StartEnv, dist: Metric, endTime: real)
    requires r.categoryIdentifier == TimerCategory
    requires !Suppressed(s.lastNotifResponse, DedupeKey(r), t0)
    requires t0 <= t1 < t0 + DedupeMs && t0 + DedupeMs <= t2
    ensures var a := Respond(s, r, t0, env, dist, endTime).state;
      && Respond(a, r, t1, env, dist, endTime) == Outcome(a, None)
      && !Suppressed(Respond(a, r, t1, env, dist, endTime).state.lastNotifResponse, DedupeKey(r), t2)
    ensures var b := Respond(Respond(s, r, t0, env, dist, endTime).state, r, t1, env, dist, endTime).state;
      && (r.actionIdentifier == "playPause" ==>
            Respond(s, r, t0, env, dist, endTime).state.isRunning == !s.isRunning
            && Respond(b, r, t2, env, dist, endTime).state.isRunning == !b.isRunning)
      && (r.actionIdentifier == "stop" ==>
            Respond(b, r, t2, env, dist, endTime).state == Stopped(b.(lastNotifResponse := Some(NotifSlot(DedupeKey(r), t2)))))
  {
    DedupeSlot(s, r, t0, env, dist, endTime);
    var a := Respond(s, r, t0, env, dist, endTime).state;
    DedupeSlot(a, r, t1, env, dist, endTime);
    var b := Respond(a, r, t1, env, dist, endTime).state;
    DedupeSlot(b, r, t2, env, dist, endTime);
  }

  /** An event with another key is never suppressed. */
  lemma OtherKeyAccepted(last: NotifSlot, key: string, now: real)
    requires key != last.key
    ensures !Suppressed(Some(last), key, now)
  {
  }

  /** On a phone the notification shows the clock exactly while there is time on
      it, marked as paused when not running, and is dismissed at zero. */
  lemma NotificationLabel(seconds: nat, isRunning: bool)
    ensures NotificationEffect(false, seconds, isRunning).Show? <==> seconds > 0
    ensures NotificationEffect(false, seconds, isRunning).Dismiss? <==> seconds == 0
    ensures seconds > 0 ==>
      var shown := NotificationEffect(false, seconds, isRunning).text;
      && shown[..|FormatTime(seconds)|] == FormatTime(seconds)
      && (isRunning ==> shown == FormatTime(seconds))
      && (!isRunning ==> shown[|FormatTime(seconds)|..] == " (paused)")
    ensures NotificationEffect(true, seconds, isRunning) == NoEffect
  {
  }
}
