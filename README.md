# Anomaly detection for a location-sharing app, in Dafny

This project models the core of a location-sharing web application. A sender
shares live GPS positions under a six-character tracking code. A receiver
watches those positions and gets safety alerts. The model covers two parts.

- **The anomaly detector** behind the receiver's alerts
  (`src/ai/flows/ai-anomaly-alert-for-receiver.ts`), in module `AnomalyAlert`
  (`anomaly_alert.dfy`). It covers the inactivity check and the safe-zone
  check. It also covers the flow that validates the input, assembles the
  verdict, hands it to a message generator and returns the alert record.
  - The inactivity check filters the history to the entries at most
    `inactivityThresholdMinutes * 60000` ms older than the current sample, and
    appends the current sample. It then sums the distances between
    consecutive samples. It fires when that sum is below
    `safeZoneThresholdMeters` (default 10) and the window spans at least the
    threshold.
  - The safe-zone check is an even-odd ray-casting test over (longitude,
    latitude) as plane coordinates. It is skipped unless a polygon of at
    least three corners is given.
- **Tracking-code generation** (`src/lib/tracking.ts`), in module `Tracking`
  (`tracking.dfy`). It covers the `TrackingData` record and the six-character
  code drawn from a 32-character alphabet.

`wrappers.dfy` holds the `Option` and `Result` types both modules use.

How the model represents the source:

- Coordinates are `real`. This is an exact idealisation of JavaScript doubles.
- Timestamps are `int` milliseconds.
- `inactivityThresholdMinutes` is a `real`, because the schema declares a plain
  number with a minimum of 1.
- `calculateDistance` (the Haversine formula) is a parameter `dist` of type
  `Distance`. The only facts assumed about it are the two its formula visibly
  has: it is never negative, and a point is at distance 0 from itself
  (`HaversineLaws`). Lemmas that need these facts require them.
- The schema validation that rejects a threshold below 1 is the flow's
  `InvalidInput` error. The schema's default of 10 metres is applied by
  `SafeZoneThreshold`.
- The text generator is a parameter `generate` that returns a message or
  nothing. Nothing becomes the `MessageGenerationFailed` error, which the
  source throws.
- `Math.random()` in the tracking-code loop is replaced by a sequence of six
  draws in [0, 1), in call order.

One consequence is proved as `InactivitySpanIsThreshold`. The window filter
keeps only entries at most the threshold old. The firing test demands a span
of at least the threshold. So inactivity fires only when the oldest sample in
the window is exactly the threshold old. The reported duration is then the
threshold in whole minutes. None of this needs the history to be sorted.

The kinds are an array built in a fixed order: inactivity first, then
out-of-safe-zone. The model keeps that order.

## Model

| member | source | states |
|---|---|---|
| `AnomalyAlert.IsPointInsidePolygon` | src/ai/flows/ai-anomaly-alert-for-receiver.ts:33-47 | The result is true exactly when the polygon has at least 3 corners and the eastward ray crosses an odd number of edges (PrevIndex(i), i), with the previous index wrapping from 0 to the last corner; it is false for fewer than 3 corners |
| `AnomalyAlert.ValidInput` | src/ai/flows/ai-anomaly-alert-for-receiver.ts:65-66 | Valid input has an inactivity window of at least one minute (60000 ms) |
| `AnomalyAlert.SafeZoneThreshold` | src/ai/flows/ai-anomaly-alert-for-receiver.ts:66 | The movement threshold is the caller's value or the default of 10 metres, and it is at least 1 metre on valid input |
| `AnomalyAlert.RelevantLocations` | src/ai/flows/ai-anomaly-alert-for-receiver.ts:128-130 | The filtered history is never longer than the history (its members and order are fixed by the lemmas below) |
| `AnomalyAlert.PathLength` | src/ai/flows/ai-anomaly-alert-for-receiver.ts:139-144 | The summed movement over consecutive samples is never negative when distances are not |
| `AnomalyAlert.WholeMinutes` | src/ai/flows/ai-anomaly-alert-for-receiver.ts:150 | The result m is the whole number of minutes: m * 60000 <= millis < (m + 1) * 60000 |
| `AnomalyAlert.InactivityDuration` | src/ai/flows/ai-anomaly-alert-for-receiver.ts:125-151 | A duration is reported only for a non-empty history, and it is always the threshold rounded down to whole minutes |
| `AnomalyAlert.CrossingLongitude` | src/ai/flows/ai-anomaly-alert-for-receiver.ts:42 | The crossing lies on the line through the edge's two corners: at either corner's latitude it is that corner's longitude |
| `AnomalyAlert.Intersects` | src/ai/flows/ai-anomaly-alert-for-receiver.ts:41-42 | The ray crosses an edge only if one of the edge's corners is strictly east of the point |
| `AnomalyAlert.Crossings` | src/ai/flows/ai-anomaly-alert-for-receiver.ts:37-44 | The number of crossed edges (PrevIndex(i), i) for i < k is at most k |
| `AnomalyAlert.CrossedEdgeExists` | src/ai/flows/ai-anomaly-alert-for-receiver.ts:37-44 | A positive count comes from at least one crossed edge among those counted |
| `AnomalyAlert.Inside` | src/ai/flows/ai-anomaly-alert-for-receiver.ts:33-47 | A point is inside only if the ray crosses at least one edge of the polygon |
| `AnomalyAlert.OutsideSafeZone` | src/ai/flows/ai-anomaly-alert-for-receiver.ts:157-163 | The safe-zone check fires only when a polygon of at least 3 corners is given, and it does fire when the point is east of or level with every corner |
| `AnomalyAlert.PromptFor` | src/ai/flows/ai-anomaly-alert-for-receiver.ts:168-177 | The generator is given the verdict unchanged (projecting the prompt back gives the verdict) and the caller's two names |
| `AnomalyAlert.DetectAnomalies` | src/ai/flows/ai-anomaly-alert-for-receiver.ts:118-163 | The verdict built with mutable flags, pushes and the distance-summing loop equals the specification `Evaluate`, and is well formed |
| `AnomalyAlert.Evaluate` | src/ai/flows/ai-anomaly-alert-for-receiver.ts:118-121 | Every verdict is well formed: `anomalyDetected` iff some kind fired; the kinds are one of [], [inactivity], [out_of_safe_zone], [inactivity, out_of_safe_zone], with no duplicates; the duration is present iff inactivity fired; `isOutsideSafeZone` iff out_of_safe_zone fired |
| `AnomalyAlert.KindsFired` | src/ai/flows/ai-anomaly-alert-for-receiver.ts:147-161 | The pushed kinds list is non-empty iff a check fired, and holds each kind exactly when that check fired |
| `AnomalyAlert.AnomalyAlertForReceiverFlow` | src/ai/flows/ai-anomaly-alert-for-receiver.ts:107-189 | Input below a schema minimum is rejected. A generator that returns nothing makes the flow fail. Otherwise the result carries the generated message with the detector's own flag, and the kinds or `undefined` when none fired. The kinds are `undefined` exactly when no anomaly is flagged, and the generator never changes the flag |
| `AnomalyAlert.Window` | src/ai/flows/ai-anomaly-alert-for-receiver.ts:128-131 | The window is never empty and always ends with the current location |
| `AnomalyAlert.RelevantLocationsMembers` | src/ai/flows/ai-anomaly-alert-for-receiver.ts:128-130 | An entry is kept exactly when it is in the history and `current.timestamp - ts <= T` |
| `AnomalyAlert.RelevantLocationsAppend` | src/ai/flows/ai-anomaly-alert-for-receiver.ts:128-130 | Filtering keeps the original order: the filter of a concatenation is the concatenation of the filters |
| `AnomalyAlert.RelevantLocationsSingleton` | src/ai/flows/ai-anomaly-alert-for-receiver.ts:128-130 | A single entry is kept exactly when it is inside the window (with the append lemma, this fixes the filter completely) |
| `AnomalyAlert.NothingRelevant` | src/ai/flows/ai-anomaly-alert-for-receiver.ts:128-131 | With no history entry inside the window, the window is just the current location |
| `AnomalyAlert.EmptyHistoryNoInactivity` | src/ai/flows/ai-anomaly-alert-for-receiver.ts:125 | With an empty history inactivity never fires; only the safe-zone kind can appear |
| `AnomalyAlert.NoRecentHistoryNoInactivity` | src/ai/flows/ai-anomaly-alert-for-receiver.ts:128-134 | With no history entry inside the window, inactivity never fires |
| `AnomalyAlert.InactivitySpanIsThreshold` | src/ai/flows/ai-anomaly-alert-for-receiver.ts:126-150 | If inactivity fires, the oldest window sample is exactly `T = minutes*60000` ms before the current one. The movement was below the threshold, and the duration reported is `floor(minutes)` |
| `AnomalyAlert.LegAtMostPathLength` | src/ai/flows/ai-anomaly-alert-for-receiver.ts:139-144 | Each leg between consecutive samples is at most the summed movement |
| `AnomalyAlert.StationaryPathLength` | src/ai/flows/ai-anomaly-alert-for-receiver.ts:16-29 | Samples all at one position sum to zero movement, since d(p,p)=0 |
| `AnomalyAlert.LongLegSuppressesInactivity` | src/ai/flows/ai-anomaly-alert-for-receiver.ts:139-147 | A single step of at least the movement threshold inside the window rules inactivity out |
| `AnomalyAlert.StationarySenderIsInactive` | src/ai/flows/ai-anomaly-alert-for-receiver.ts:125-150 | Suppose every window sample stands at the current position, the oldest window sample is exactly the threshold old, and both thresholds are at least 1. Then inactivity fires with duration `floor(minutes)`, whatever the entries the filter drops |
| `AnomalyAlert.StationaryHistoryIsInactive` | src/ai/flows/ai-anomaly-alert-for-receiver.ts:125-150 | The same when the whole history stands at the current position and its first entry is exactly the threshold old |
| `AnomalyAlert.StaleMoveWindow` | src/ai/flows/ai-anomaly-alert-for-receiver.ts:128-131 | With a 5-minute window and the current sample at 400000 ms, a sample at 0 ms is dropped and those at 100000 and 250000 ms are kept, in order, before the current one |
| `AnomalyAlert.StaleMoveIsIgnored` | src/ai/flows/ai-anomaly-alert-for-receiver.ts:125-150 | An old sample elsewhere outside the window does not matter: stationary samples at 100000 and 250000 ms and the current one at 400000 ms give exactly inactivity with duration 5 |
| `AnomalyAlert.BoundaryExampleIsInactive` | src/ai/flows/ai-anomaly-alert-for-receiver.ts:125-150 | Stationary samples at 0 ms and 299000 ms, current at 300000 ms, 5-minute threshold, default 10 m: the verdict is exactly inactivity with duration 5 |
| `AnomalyAlert.BothKindsReported` | src/ai/flows/ai-anomaly-alert-for-receiver.ts:147-161 | Both checks run: when both fire the kinds are [inactivity, out_of_safe_zone] |
| `AnomalyAlert.SafeZoneDependsOnPositionAndPolygon` | src/ai/flows/ai-anomaly-alert-for-receiver.ts:157-162 | The safe-zone verdict depends only on the current position and the polygon. It does not depend on the history, the thresholds, the names or the distance function |
| `AnomalyAlert.NoPolygonNoSafeZoneAnomaly` | src/ai/flows/ai-anomaly-alert-for-receiver.ts:157 | With no polygon or fewer than 3 corners the safe-zone kind never fires |
| `AnomalyAlert.NoCrossingsOffLatitudeRange` | src/ai/flows/ai-anomaly-alert-for-receiver.ts:37-44 | When every corner is north of the point, or none is, no edge is crossed |
| `AnomalyAlert.OffLatitudeRangeIsOutside` | src/ai/flows/ai-anomaly-alert-for-receiver.ts:33-47 | A point south of every corner, or not south of any, is outside |
| `AnomalyAlert.CrossingBetweenEnds` | src/ai/flows/ai-anomaly-alert-for-receiver.ts:41-42 | For a straddling edge, the crossing longitude computed at line 42 is at most the larger of the edge's two longitudes |
| `AnomalyAlert.NoCrossingsEastOfPolygon` | src/ai/flows/ai-anomaly-alert-for-receiver.ts:37-44 | When the point is east of or level with every corner, no edge is crossed |
| `AnomalyAlert.EastOfPolygonIsOutside` | src/ai/flows/ai-anomaly-alert-for-receiver.ts:33-47 | A point east of or level with every corner is outside |
| `AnomalyAlert.CrossingsOfQuadrilateral` | src/ai/flows/ai-anomaly-alert-for-receiver.ts:37-44 | For four corners the loop visits the edges (3,0), (0,1), (1,2), (2,3), and the count is theirs |
| `AnomalyAlert.RectangleContainsInterior` | src/ai/flows/ai-anomaly-alert-for-receiver.ts:33-47 | A point strictly inside an axis-aligned rectangle is inside, for example (0.5, 0.5) in the unit square |
| `AnomalyAlert.UnitSquareExcludesFarPoint` | src/ai/flows/ai-anomaly-alert-for-receiver.ts:33-47 | The unit square does not contain (2, 2) |
| `Tracking.DrawIndex` | src/lib/tracking.ts:27 | `floor(r * 32)` for a draw r in [0, 1) is a valid alphabet position |
| `Tracking.GenerateTrackingCode` | src/lib/tracking.ts:23-30 | The code has exactly 6 characters, all from the alphabet, and character k is `chars[floor(draw_k * 32)]` |
| `Tracking.AlphabetIndex` | src/lib/tracking.ts:24 | Every letter or digit other than I, O, 0, 1 has a position in the alphabet that holds it |
| `Tracking.AlphabetIndexAt` | src/lib/tracking.ts:24 | Each alphabet character is such a letter or digit, and `AlphabetIndex` gives back its own position |
| `Tracking.AlphabetShape` | src/lib/tracking.ts:24 | The alphabet has 32 pairwise distinct characters. They are exactly the upper-case letters and digits other than I, O, 0 and 1 |
| `Tracking.CodeAvoidsLookAlikes` | src/lib/tracking.ts:24-29 | No generated code contains I, O, 0 or 1, or anything but upper-case letters and digits |
| `Tracking.DrawAtLeftEnd` | src/lib/tracking.ts:27 | The draw i/32 is in [0, 1) and selects position i |
| `Tracking.EveryCodeIsReachable` | src/lib/tracking.ts:23-30 | Every 6-character string over the alphabet is a possible code: explicit draws in [0, 1) select exactly its characters |

## Left out

- The Haversine trigonometry (`Math.sin`, `cos`, `atan2`, `sqrt` on doubles, src/ai/flows/ai-anomaly-alert-for-receiver.ts:17-28) is floating-point numerics. The distance is an abstract function with only the two laws above. Symmetry, which the formula also has, is not assumed.
- The prompt text and the language model behind it are an external text generator. Only its outcome is modelled: a message or nothing. This covers lines 83-99 and 168-181.
- The display string built with `toFixed` (line 165) is float formatting, and is not passed to the generator in the model.
- The hard-coded zone description (line 166) is not passed to the generator in the model either.
- The Zod schemas (lines 50-77) come from a library. Their two minimums and the default of 10 are modelled as the `InvalidInput` error and `SafeZoneThreshold`. The schemas' string descriptions are not modelled.
- Floating-point rounding is not modelled. In particular, `minutes * 60 * 1000` and the distance sum are exact. This matters for the exact-span result, which over doubles holds only up to rounding.
- `Math.random()` is replaced by the draws parameter. The doc comment calls the code "unique". The code does not enforce uniqueness, so nothing is claimed about it.
- The React pages, their polling timer, browser geolocation, Firestore writes and anonymous sign-in are user interface and I/O (src/app/page.tsx, src/app/sender/page.tsx and src/app/receiver/page.tsx).
- The receiver page calls a `getTrackingSession` that is not part of this model.
- `Tracking.TrackingData` is a plain record. The source has no operation on it, so nothing is stated about it.
