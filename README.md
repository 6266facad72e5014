# o25u25 run tracker, modelled in Dafny

This project models the logic at the heart of the o25u25 run tracker, a React
Native app that records runs. The app stores GPS fixes and Bluetooth heart-rate
readings, and it shows and saves per-kilometre splits. The model covers these
parts:

- **Path analytics** (`lib/pathDistance.ts`, modules `Geodesy` and `PathDistance`):
  - the cumulative distance profile;
  - interpolating the time at a distance (`timeAtKm`);
  - completed kilometre splits;
  - heart-rate averages per split;
  - the pace of the current kilometre.
- **Run summary arithmetic** (`lib/runStats.ts`, module `RunStats`): distance, pace, and the
  `M:SS` / `H:MM:SS` formatting. It relies on the JavaScript number-to-text built-ins in `JsText`.
- **The native heart-rate helpers** (`lib/ble-hr.native.ts`, module `BleHeartRate`):
  - the fallback base64 decoder, checked against an RFC 4648 section 4 encoder;
  - the Heart Rate Measurement parser of section 3.1 of the Bluetooth Heart Rate Service 1.0;
  - `averageBpm`.
- **The web heart-rate stubs** (`lib/ble-hr.web.ts`, module `BleHeartRateWeb`).
- **The browser run store** (`lib/db.web.ts`, module `WebRunStore`): a class over the stored list.
- **The heart-rate bar graph's data handling** (`app/components/HeartRateGraph.tsx`, module
  `HeartRateGraph`): `downsample` and the bpm axis clamp.
- **The live run recorder** (`lib/TimerContext.tsx`, module `TimerContext`):
  - class `TimerProvider`, whose methods are the hook callbacks;
  - each method is tied to a pure transition on the state datatype `Live`;
  - the invariant `Inv` holds across every transition;
  - lemmas cover start, resume, pause, tick, stop and the notification dedupe.

How the model is set up:

- The haversine distance is a parameter `dist: Metric`, any function that never
  returns a negative value.
- Times, coordinates and distances are `real`.
- Decoded bytes are `bv32`, because the source feeds them to 32-bit bitwise operators.

Where the app's intended behaviour and the code differ, the model follows the code:

- Starting without location permission still flips `isRunning` to true. No feed
  opens and no path is recorded (`TimerContext.StartWithoutPermission`). The
  app's intended behaviour is for such a start to abort and stay idle.
- Pausing disconnects the heart-rate monitor, and resuming a non-empty run never
  reconnects it. Only a run started on an empty path connects
  (`TimerContext.ResumeKeeps`). The app's intended behaviour is for resume to restore both feeds.
- `runs.tsx`, `index.tsx` and `PaceChart.tsx` have their own copies of the
  formatters. They are not part of this model.

## Model

| member | source | states |
|---|---|---|
| RunTypes.WithId | o25u25/lib/db.web.ts:26 | `{ id, ...run }` carries the given id, and dropping the id gives back exactly the insert record |
| RunTypes.MinBpm | o25u25/app/components/HeartRateGraph.tsx:43 | `Math.min(...bpm)` is at most every reading and equal to one of them |
| RunTypes.MaxBpm | o25u25/app/components/HeartRateGraph.tsx:44 | `Math.max(...bpm)` is at least every reading and equal to one of them |
| RunTypes.SumBpmBounds | o25u25/lib/ble-hr.native.ts:164 | the bpm sum of n readings lies between n times the smallest and n times the largest bound |
| RunTypes.MeanBpmBetween | o25u25/lib/pathDistance.ts:89-90 | the unrounded mean of a non-empty window lies between its smallest and largest bpm |
| JsText.Round | o25u25/lib/runStats.ts:56 | `Math.round` gives the integer r with r <= x + 0.5 < r + 1, so halves round up |
| JsText.NatToStringRoundTrip | o25u25/lib/runStats.ts:57 | the decimal text of a whole number reads back as that number and has one digit below 10 and two below 100 |
| JsText.TwoDigits | o25u25/lib/runStats.ts:57 | `padStart(2, '0')` of a number below 100 is exactly two digits that read back as the number |
| JsText.PaddedValue | o25u25/lib/TimerContext.tsx:24 | padding any number adds only leading zeros: at least two digits, same value |
| Geodesy.SegKm | o25u25/lib/pathDistance.ts:25 | a segment's haversine distance is never negative |
| Geodesy.CumMonotone | o25u25/lib/pathDistance.ts:31-37 | cumulative distances are non-negative and never decrease along the path |
| Geodesy.ProfileEnds | o25u25/lib/pathDistance.ts:31-37 | the profile is `[0]` below two points and otherwise has one entry per point; it starts at 0 and ends at the total distance |
| Geodesy.ProfileShape | o25u25/lib/pathDistance.ts:31-37 | besides its ends the profile is sorted: entry i is at most entry j for i <= j |
| Geodesy.TotalKmNonNegative | o25u25/lib/pathDistance.ts:21-28 | the total distance is never negative |
| PathDistance.PathDistanceKm | o25u25/lib/pathDistance.ts:21-28 | the loop returns the segment sum `TotalKm`, 0 below two points, never negative; with `ProfileEnds` this is the last profile entry |
| PathDistance.PathCumulativeKm | o25u25/lib/pathDistance.ts:31-37 | the push loop returns exactly the cumulative profile |
| PathDistance.TimeAtKm | o25u25/lib/pathDistance.ts:48-61 | the early-return search computes `TimeAt`, and a target <= 0 gives the first timestamp |
| PathDistance.TimeAtBeyond | o25u25/lib/pathDistance.ts:60 | a target above every cumulative value gives the last timestamp |
| PathDistance.TimeAtBracket | o25u25/lib/pathDistance.ts:50-58 | at the first index reaching the target, d0 < target <= d1, so the divisor is positive; the result is that segment's interpolation and lies between its two timestamps |
| PathDistance.LerpBetween | o25u25/lib/pathDistance.ts:56-57 | interpolating at a target in (d0, d1] stays between the two timestamps |
| PathDistance.FirstReach | o25u25/lib/pathDistance.ts:50-59 | the search stops at the first index reaching the target, or runs off the end, and the result is the matching case |
| PathDistance.TimeAtTotal | o25u25/lib/pathDistance.ts:48-61 | when the last segment has positive length, the time at the total distance is the last timestamp |
| PathDistance.TimeAtMonotone | o25u25/lib/pathDistance.ts:48-61 | with sorted timestamps, the interpolated time never decreases as the target grows |
| PathDistance.GetTimeAtKm | o25u25/lib/pathDistance.ts:64-68 | 0 for an empty path, the only timestamp for one point, the first timestamp for km <= 0, otherwise `timeAtKm` over the profile |
| PathDistance.GetSplitsFromPath | o25u25/lib/pathDistance.ts:95-110 | the loop chaining `tPrev` returns exactly `Splits` |
| PathDistance.SplitsShape | o25u25/lib/pathDistance.ts:95-110 | no splits below two points or below 1 km; otherwise exactly floor(total) splits numbered 1..n in order, each pace being the time between its boundaries in minutes |
| PathDistance.SplitPacesTelescope | o25u25/lib/pathDistance.ts:102-108 | the split paces add up to (timeAtKm(n) - first timestamp) / 60000 |
| PathDistance.SplitPacesNonNegative | o25u25/lib/pathDistance.ts:104-106 | with sorted timestamps no split pace is negative |
| PathDistance.InWindow | o25u25/lib/pathDistance.ts:83-85 | the filter keeps exactly the readings with tStart <= timestamp <= tEnd |
| PathDistance.InWindowCounts | o25u25/lib/pathDistance.ts:83-85 | each in-window reading is kept as many times as it occurs, and every other reading 0 times |
| PathDistance.InWindowAppend | o25u25/lib/pathDistance.ts:83-85 | the window of a + b is the window of a followed by the window of b, so the readings keep their order |
| PathDistance.SplitsWithHeartRate | o25u25/lib/pathDistance.ts:71-92 | one entry per completed split with its km, and an average only when there are readings |
| PathDistance.SplitsWithHeartRateShape | o25u25/lib/pathDistance.ts:75-78 | the heart-rate splits have the same km and pace list as `getSplitsFromPath`, and with no readings every average is null |
| PathDistance.SplitsWithHeartRateMeans | o25u25/lib/pathDistance.ts:79-91 | each average is the unrounded mean over the inclusive window between timeAtKm(k-1) and timeAtKm(k), or null when the window is empty |
| PathDistance.BoundarySampleCountsTwice | o25u25/lib/pathDistance.ts:83-85 | a reading taken exactly at a kilometre boundary falls in the windows of both neighbouring splits |
| PathDistance.GetCurrentSplitPace | o25u25/lib/pathDistance.ts:113-142 | the method computes `CurrentSplitPace`, whose start time is timeAtKm(floor(total)), the boundary the completed splits use |
| PathDistance.SplitStartSearch | o25u25/lib/pathDistance.ts:123-137 | the inlined search loop computes `timeAtKm(path, cum, kmStart)` |
| PathDistance.CurrentSplitPaceCases | o25u25/lib/pathDistance.ts:113-142 | null exactly below two points, below 0.01 km or on a whole-km total; otherwise the trailing fraction is in (0, 1) and pace * fraction * 60000 is the time since the boundary |
| PathDistance.CurrentSplitStartsAfterSplits | o25u25/lib/pathDistance.ts:118-137 | the current split starts at the first timestamp plus 60000 times the sum of the completed paces |
| RunStats.PathDistanceKm | o25u25/lib/runStats.ts:30-39 | 0 below two points, otherwise the sum of consecutive segment distances |
| RunStats.PaceMinPerKm | o25u25/lib/runStats.ts:45-48 | 0 when the distance is <= 0; otherwise pace * distance * 60 is the duration |
| RunStats.FormatPace | o25u25/lib/runStats.ts:53-58 | the placeholder exactly for pace <= 0; any other pace prints starting with a digit |
| RunStats.PaceSecondsRange | o25u25/lib/runStats.ts:56 | the rounded seconds of a pace lie in 0..60 |
| RunStats.FormatPaceParts | o25u25/lib/runStats.ts:53-58 | the placeholder for pace <= 0; otherwise digits reading floor(p), a colon, and two digits reading the rounded fraction of a minute in 0..60 |
| RunStats.FormatPaceCanShowSixty | o25u25/lib/runStats.ts:55-57 | 5.995 prints "5:60": the seconds field can reach 60 |
| RunStats.DurationFields | o25u25/lib/runStats.ts:65-67 | minutes and seconds are below 60, and h*3600 + m*60 + s == floor(seconds) |
| RunStats.FormatDuration | o25u25/lib/runStats.ts:63-72 | every duration under one second, negative ones included, prints "0:00" |
| RunStats.FormatDurationParts | o25u25/lib/runStats.ts:63-72 | the text reads back as its fields: SS in the last two digits, MM or M before the last colon, H before the first colon when h > 0 |
| BleHeartRate.AlphabetChars | o25u25/lib/ble-hr.native.ts:142 | the `chars` literal has 64 characters and is Table 1 of RFC 4648, in order |
| BleHeartRate.AlphabetTable | o25u25/lib/ble-hr.native.ts:142-144 | each character of the literal maps back to its own index |
| BleHeartRate.TableEntry | o25u25/lib/ble-hr.native.ts:141-144 | the entry for an alphabet character's code is that character's position in the alphabet; every other entry is 0; all are below 64 |
| BleHeartRate.Sextet | o25u25/lib/ble-hr.native.ts:150-153 | a lookup of any character, including codes past the table, is a sextet below 64 |
| BleHeartRate.BuildLookup | o25u25/lib/ble-hr.native.ts:143-144 | the loop leaves a fresh 256-entry table holding the sextet of every alphabet code and 0 elsewhere |
| BleHeartRate.SextetsOf | o25u25/lib/ble-hr.native.ts:150-153 | one sextet per character, in order |
| BleHeartRate.ArrayLengthValidIff | o25u25/lib/ble-hr.native.ts:145-147 | `new Array((len*3)/4 - placeHolders)` gets a valid length exactly when len is a multiple of 4 |
| BleHeartRate.DecodeBase64 | o25u25/lib/ble-hr.native.ts:141-158 | the fallback branch (table loop, allocation, group loop) computes `Base64DecodeAsWritten` |
| BleHeartRate.DecodeGroupsLoop | o25u25/lib/ble-hr.native.ts:148-158 | the group loop with counter L, and the slice to L, return the bytes of every group in order |
| BleHeartRate.DecodeGroupsShape | o25u25/lib/ble-hr.native.ts:149-158 | 4k characters decode to exactly 3k values, each below 256 |
| BleHeartRate.GroupBits | o25u25/lib/ble-hr.native.ts:154-156 | a group's three bytes, read as 24 bits, are its four sextets |
| BleHeartRate.SextetsRoundTrip | o25u25/lib/ble-hr.native.ts:154-156 | splitting three bytes into sextets and decoding the group gives the bytes back |
| BleHeartRate.EncodePlaceHolders | o25u25/lib/ble-hr.native.ts:146 | on encoded text, `placeHolders` counts exactly the padding that was added |
| BleHeartRate.DecodeEncodedAsWritten | o25u25/lib/ble-hr.native.ts:145-158 | the decoder as written returns the encoded bytes followed by one 0 per `=` |
| BleHeartRate.CorrectedWholeGroups | o25u25/lib/ble-hr.native.ts:147 | the decoder sized as the allocation intends keeps all but the last `placeHolders` bytes |
| BleHeartRate.DecodeEncoded | o25u25/lib/ble-hr.native.ts:147-158 | the corrected decoder inverts RFC 4648 encoding exactly |
| BleHeartRate.HeartRateFromBytes | o25u25/lib/ble-hr.native.ts:120-130 | a value is returned only from at least two bytes, and lies in 0..255 |
| BleHeartRate.ParseHeartRateMeasurementAsWritten | o25u25/lib/ble-hr.native.ts:117-134 | input that is not whole groups gives null (the thrown error is caught), and any value lies in 0..255 |
| BleHeartRate.HeartRateFromBytesCases | o25u25/lib/ble-hr.native.ts:120-130 | null below 2 bytes; with flags bit 0 clear bpm = byte 1, always accepted, other flag bits ignored; with it set, null below 3 bytes, else accepted exactly when byte 2 is 0; any value is in 0..255 |
| BleHeartRate.ParseRejectsPartialGroups | o25u25/lib/ble-hr.native.ts:131-133 | input that is not whole groups throws in the allocation and is caught as null |
| BleHeartRate.ParseEncodedMeasurement | o25u25/lib/ble-hr.native.ts:117-134 | a measurement sent as base64 parses back to its uint8 value, or its uint16 value when that fits in a byte |
| BleHeartRate.PaddingReadAsHighByte | o25u25/lib/ble-hr.native.ts:146-158 | "AUg=" (bytes 01 48) decodes as written to 01 48 00 and is accepted as 72; the corrected decoder rejects it |
| BleHeartRate.AverageBpm | o25u25/lib/ble-hr.native.ts:162-166 | null exactly for no readings |
| BleHeartRate.AverageBpmBounds | o25u25/lib/ble-hr.native.ts:162-166 | null exactly for no readings; otherwise the mean rounded to nearest with halves up, between the smallest and largest bpm |
| BleHeartRateWeb.IsBleAvailable | o25u25/lib/ble-hr.web.ts:19-21 | always false |
| BleHeartRateWeb.ScanForDevices | o25u25/lib/ble-hr.web.ts:27-32 | always fails with the web message |
| BleHeartRateWeb.ConnectAndSubscribe | o25u25/lib/ble-hr.web.ts:34-39 | always fails with the web message, for any device |
| BleHeartRateWeb.AverageBpm | o25u25/lib/ble-hr.web.ts:41-45 | null exactly for no readings; otherwise within 0.5 of the mean |
| BleHeartRateWeb.AverageBpmAgrees | o25u25/lib/ble-hr.web.ts:41-45 | equal to the native `averageBpm` on every input |
| WebRunStore.MaxId | o25u25/lib/db.web.ts:25 | `Math.max` of the ids is at least every id and equal to one |
| WebRunStore.NextId | o25u25/lib/db.web.ts:25 | 1 for an empty list; otherwise one past the largest id, so greater than every stored id |
| WebRunStore.FindRun | o25u25/lib/db.web.ts:40 | `find` gives null exactly when no run has the id; otherwise the first run with it |
| WebRunStore.SavedShape | o25u25/lib/db.web.ts:26-28 | saving grows the list by one, puts the saved record first with a fresh id, and keeps the earlier runs behind it |
| WebRunStore.FindAfterSave | o25u25/lib/db.web.ts:38-41 | looking up the new id returns the saved run; any other id finds what it found before |
| WebRunStore.SavePreservesDistinctIds | o25u25/lib/db.web.ts:25-27 | pairwise distinct ids stay distinct after a save |
| WebRunStore.Store.Runs | o25u25/lib/db.web.ts:5-15 | no storage, a missing key or an unreadable value reads as []; otherwise the stored list |
| WebRunStore.Store.SetRunsToStorage | o25u25/lib/db.web.ts:17-20 | writes the list when storage exists, and otherwise changes nothing |
| WebRunStore.Store.SaveRun | o25u25/lib/db.web.ts:23-30 | returns the input fields with `NextId`; with storage, the list becomes the saved record followed by the old list |
| WebRunStore.Store.GetRuns | o25u25/lib/db.web.ts:33-35 | the stored list as read, newest first |
| WebRunStore.Store.GetRunById | o25u25/lib/db.web.ts:38-41 | the first stored run with the id, or null |
| HeartRateGraph.StepAboveOne | o25u25/app/components/HeartRateGraph.tsx:15-16 | when thinning, `step = samples.length / maxPoints` exceeds 1 |
| HeartRateGraph.Index | o25u25/app/components/HeartRateGraph.tsx:19 | every picked index is inside the input |
| HeartRateGraph.Downsampled | o25u25/app/components/HeartRateGraph.tsx:14-23 | the output has as many readings as the input when it fits, none for maxPoints <= 0, otherwise exactly maxPoints (80 bars at most in the graph) |
| HeartRateGraph.Downsample | o25u25/app/components/HeartRateGraph.tsx:14-23 | the loop returns `Downsampled`: the input when it fits, else slot i holds samples[min(floor(i*step), len-1)] |
| HeartRateGraph.IndexUnclamped | o25u25/app/components/HeartRateGraph.tsx:19 | the `Math.min` clamp never binds: floor(i*step) is always below the last index |
| HeartRateGraph.IndexIncreasing | o25u25/app/components/HeartRateGraph.tsx:16-20 | later slots pick strictly later readings |
| HeartRateGraph.DownsampledShape | o25u25/app/components/HeartRateGraph.tsx:14-23 | unchanged when it fits; otherwise exactly maxPoints readings, starting with the first, taken at strictly increasing indices (an order-keeping subsequence) |
| HeartRateGraph.DisplayLow | o25u25/app/components/HeartRateGraph.tsx:43 | the axis floor is max(60, min - 5): at least both, and equal to one of them; so 5 below every reading unless clamped to 60 |
| HeartRateGraph.DisplayHigh | o25u25/app/components/HeartRateGraph.tsx:44 | the axis ceiling is min(200, max + 5): at most both, and equal to one of them; so 5 above every reading unless clamped to 200 |
| HeartRateGraph.BarRange | o25u25/app/components/HeartRateGraph.tsx:45 | the divisor is never 0: the span when it is not 0, and 1 when it is |
| HeartRateGraph.DisplayUnclamped | o25u25/app/components/HeartRateGraph.tsx:43-45 | with readings in 65..195 the axis is the readings' extent widened by 5, the span is at least 10, and every reading lies strictly inside |
| TimerContext.FormatTimeParts | o25u25/lib/TimerContext.tsx:21-25 | the clock reads back as the seconds: minutes before the colon, seconds below 60 in the last two digits, exactly "MM:SS" below 100 minutes |
| TimerContext.InitialInv | o25u25/lib/TimerContext.tsx:45-55 | the mount state satisfies the invariant |
| TimerContext.TimerProvider.constructor | o25u25/lib/TimerContext.tsx:45-55 | the provider starts in the mount state |
| TimerContext.TimerProvider.PlayPause | o25u25/lib/TimerContext.tsx:64-148 | the new state is `PlayPauseStep` of the old one, and the invariant is kept |
| TimerContext.PlayPauseStep | o25u25/lib/TimerContext.tsx:64-148 | the running flag always toggles; the clock and notification slot never change; a paused state has no feed open; a non-empty path keeps its fixes and readings |
| TimerContext.PlayPausePreserves | o25u25/lib/TimerContext.tsx:64-148 | `playPause` keeps the invariant |
| TimerContext.StartFresh | o25u25/lib/TimerContext.tsx:74-112 | starting on an empty path sets runStartTime = now, clears readings and currentBpm, seeds exactly one fix, opens the location feed, and connects the monitor only if a non-empty id is remembered and the connection succeeds |
| TimerContext.ResumeKeeps | o25u25/lib/TimerContext.tsx:113-139 | resuming keeps path, readings, clock and start time, and reopens only the location feed |
| TimerContext.StartWithoutPermission | o25u25/lib/TimerContext.tsx:70-72 | without location permission only `isRunning` changes |
| TimerContext.PauseKeeps | o25u25/lib/TimerContext.tsx:140-147 | pausing closes both feeds and changes nothing else |
| TimerContext.TimerProvider.OnLocation | o25u25/lib/TimerContext.tsx:119-136 | the new state is `LocationStep`: the path after `AppendFix` |
| TimerContext.AppendFixSpec | o25u25/lib/TimerContext.tsx:120-136 | a fix is appended exactly when the path is empty or the newest fix has other coordinates; earlier fixes never change |
| TimerContext.LocationPreserves | o25u25/lib/TimerContext.tsx:119-136 | the callback keeps the invariant (no two consecutive fixes share both coordinates) |
| TimerContext.TimerProvider.OnBpm | o25u25/lib/TimerContext.tsx:89-93 | appends a reading stamped `now` and shows its bpm |
| TimerContext.BpmPreserves | o25u25/lib/TimerContext.tsx:89-93 | keeps the invariant, so `currentBpm` stays the newest reading |
| TimerContext.TimerProvider.Tick | o25u25/lib/TimerContext.tsx:192-196 | the new state is `TickStep` |
| TimerContext.TickCounts | o25u25/lib/TimerContext.tsx:192-196 | the clock gains 1 exactly while running, and nothing else changes |
| TimerContext.TickPreserves | o25u25/lib/TimerContext.tsx:192-196 | a tick keeps the invariant |
| TimerContext.TimerProvider.Stop | o25u25/lib/TimerContext.tsx:150-186 | the state becomes `Stopped`, and the returned record is `StopRecord` of the state before |
| TimerContext.BuildRecord | o25u25/lib/TimerContext.tsx:167-183 | the assembled record is `RunRecord` of the captured values |
| TimerContext.StopResets | o25u25/lib/TimerContext.tsx:160-165 | stop leaves the idle state (only the notification slot survives), keeps the invariant, and a second stop saves nothing |
| TimerContext.StopRecordFields | o25u25/lib/TimerContext.tsx:167-183 | a record exists exactly on a phone with a non-empty path; it carries the captured values, `TotalKm` as distance, a pace equal to `paceMinPerKm`, and an average exactly when there were readings |
| TimerContext.TimerProvider.HandleResponse | o25u25/lib/TimerContext.tsx:213-228 | the new state and record are those of `Respond` |
| TimerContext.Respond | o25u25/lib/TimerContext.tsx:213-228 | a record is produced only for a "stop" of the timer category; the slot either stays or becomes this event's key and time |
| TimerContext.RespondPreserves | o25u25/lib/TimerContext.tsx:213-228 | the handler keeps the invariant |
| TimerContext.OtherCategoryIgnored | o25u25/lib/TimerContext.tsx:214-215 | another category changes nothing, the slot included |
| TimerContext.DedupeSlot | o25u25/lib/TimerContext.tsx:217-228 | a repeat within 800 ms changes nothing, the slot included; any other timer event becomes the slot and is then dispatched: a `playPause` toggles as the notification button does, a `stop` stops and saves the run, any other action only records the slot |
| TimerContext.DoubleDelivery | o25u25/lib/TimerContext.tsx:220-228 | the same action again before 800 ms is dropped even after other drops, and from 800 ms after the accepted one it is handled again: a `playPause` flips the running flag a second time, a `stop` stops the run |
| TimerContext.OtherKeyAccepted | o25u25/lib/TimerContext.tsx:220 | a different key is never suppressed |
| TimerContext.NotificationEffect | o25u25/lib/TimerContext.tsx:199-207 | no effect exactly on the web; a label exactly on a phone with time on the clock, and the label starts with the clock |
| TimerContext.NotificationLabel | o25u25/lib/TimerContext.tsx:199-207 | on a phone the clock shows exactly while seconds > 0, with " (paused)" appended when not running, and is dismissed at 0; no effect on the web |
| TimerContext.View | o25u25/lib/TimerContext.tsx:242-246 | below two fixes no distance, split pace or average pace is shown; an average pace exactly once there is distance; an average bpm exactly once a reading arrived |
| TimerContext.AvgPace | o25u25/lib/TimerContext.tsx:244-245 | null exactly before any distance; otherwise `paceMinPerKm` of the elapsed seconds, so pace * distance * 60 = seconds |

## Left out

- Haversine trigonometry (`haversineKm` in both files) is floating-point sin, cos and atan2. It is the parameter `dist`, and every result holds for any non-negative segment distance.
- Floating point in general: every number is an exact `real`. NaN, Infinity and rounding are not modelled, nor are the `!Number.isFinite` guards of `formatPace` and `formatDuration` (no real is non-finite).
- HeartRateGraph.Downsample: `step` and `i * step` are exact reals, not doubles. Where a double product falls just below a whole number, the source may pick the previous index.
- The `atob` branch of `decodeBase64` belongs to the platform and is not modelled.
- BleHeartRate.Base64Decode is the fallback decoder with the padding bytes dropped, not `atob`. `atob` also accepts unpadded input ("AEg" gives 00 48, which parses as 72), and it throws on a character outside the alphabet, where the fallback reads 0. The corrected decoder rejects the first and reads the second as 0.
- The Bluetooth transport (`getManager`, scanning, connecting, `getBleState`) is a foreign library. In `TimerContext` the availability, the remembered id and the connection outcome are inputs.
- JavaScript strings are UTF-16. Characters outside the first 65536 code points and the engine's array length limit are not modelled.
- The decoder as written also takes characters outside the alphabet. It reads each one as 0, and `BleHeartRate.Sextet` models this.
- `lib/db.native.ts`, `lib/timerNotification.ts` (beyond the category id), the screens and the other components are not part of this model.
- WebRunStore.Store.SetRunsToStorage: a `localStorage.setItem` that throws (storage full) is not modelled; `saveRun` would reject with the id unsaved.
- WebRunStore.Store.Runs: the stored value is the parsed list itself. A value that parses to an array of non-run objects, and the loss of non-finite numbers in the JSON round trip, are not modelled.
- Async and React scheduling:
  - `await` interleavings, `setInterval`, stale closures and effect timing are not modelled; every callback is one atomic step.
  - `Date.now()` and the permission answers are inputs.
  - The notification permission request is ignored, since its answer is unused.
  - The notification `show`/`dismiss` calls are the datatype `NotifEffect`.
  - The `saveRun` call is the record `Stop` returns.
- TimerContext.TimerProvider.OnLocation and TimerContext.TimerProvider.OnBpm require an open subscription. A callback of a removed subscription is never delivered.
- TimerContext.TimerProvider.PlayPause treats the start's platform calls as succeeding: `requestForegroundPermissionsAsync`, `getCurrentPositionAsync` and `watchPositionAsync` never reject, and `env.fix` is the first fix. If the source's position request rejects after the start time is set and the readings cleared, it leaves a start time with an empty path, which `Inv` excludes; that state is not modelled.
- TimerContext.TimerProvider.HandleResponse requires a phone, because the listener is only registered there. Any `saveRun` rejection is swallowed by the source and has no counterpart.
- The members whose contracts mention `old` (the `TimerProvider` and `Store` methods) tie the new state to pure step functions. All properties are proved about those functions.

## Findings

| source | as written | input that shows it | evidently intended | confidence | as-written member | corrected member |
|---|---|---|---|---|---|---|
| o25u25/lib/ble-hr.native.ts:146-158 | The fallback decoder keeps the bytes decoded from `=` padding: `arr.slice(0, L)` returns 3 bytes per group. The allocation `(len*3)/4 - placeHolders` shows the padding was meant to be dropped. | "AUg=" (the two-byte measurement 01 48: a uint16 flag whose high byte is missing) decodes to 01 48 00, so the parser accepts 72 bpm instead of rejecting a truncated frame | return the first `(len*3)/4 - placeHolders` bytes, as `atob` does | not executed | BleHeartRate.PaddingReadAsHighByte | BleHeartRate.DecodeEncoded |
