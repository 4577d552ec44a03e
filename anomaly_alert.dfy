/** The anomaly detector behind the receiver's safety alerts: an inactivity
    check over a time window of the sender's location history, a ray-casting
    safe-zone check, and the flow that assembles the verdict and hands it to a
    message generator. */
module AnomalyAlert {
  import opened Wrappers

  // ---------------------------------------------------------------------------
  // Data model
  // ---------------------------------------------------------------------------

  /** A GPS sample: latitude and longitude in degrees, Unix time in milliseconds. */
  datatype Location = Location(lat: real, lon: real, timestamp: int)

  /** A corner of a safe-zone polygon (no timestamp). */
  datatype Vertex = Vertex(lat: real, lon: real)

  /** The two anomaly kinds: 'inactivity' and 'out_of_safe_zone'. */
  datatype AnomalyKind = Inactivity | OutOfSafeZone

  /** The flow's input record. A safe-zone threshold left out is `None`;
      the schema then supplies its default. */
  datatype AnomalyAlertInput = AnomalyAlertInput(
    senderCurrentLocation: Location,
    senderLocationHistory: seq<Location>,
    safeZonePolygon: Option<seq<Vertex>>,
    inactivityThresholdMinutes: real,
    safeZoneThresholdMeters: Option<real>,
    receiverName: Option<string>,
    senderName: Option<string>)

  /** The figures the detector computes before any message is generated. */
  datatype Verdict = Verdict(
    anomalyDetected: bool,
    anomalyTypes: seq<AnomalyKind>,
    inactivityDurationMinutes: Option<int>,
    isOutsideSafeZone: bool)

  /** What the message generator is given. */
  datatype PromptInput = PromptInput(
    inactivityDurationMinutes: Option<int>,
    isOutsideSafeZone: bool,
    receiverName: Option<string>,
    senderName: Option<string>,
    anomalyDetected: bool,
    anomalyTypesDetected: seq<AnomalyKind>)

  /** The flow's result: the generated text and the detector's own verdict. */
  datatype AnomalyAlertOutput = AnomalyAlertOutput(
    alertMessage: string,
    anomalyDetected: bool,
    anomalyType: Option<seq<AnomalyKind>>)

  /** Why the flow throws instead of returning. */
  datatype FlowError =
    | InvalidInput              // the input schema rejects a threshold below 1
    | MessageGenerationFailed   // the generator produced no output

  /** `calculateDistance(lat1, lon1, lat2, lon2)` in metres. */
  type Distance = (real, real, real, real) -> real

  /** The external text generator: a message, or nothing when it fails. */
  type MessageGenerator = PromptInput -> Option<string>

  /** The two facts the Haversine formula visibly has: a distance is never
      negative, and a point is at distance 0 from itself (both angle
      differences are 0, so the formula's `a` is 0). */
  ghost predicate HaversineLaws(dist: Distance) {
    (forall lat1, lon1, lat2, lon2 :: dist(lat1, lon1, lat2, lon2) >= 0.0)
    && (forall lat, lon :: dist(lat, lon, lat, lon) == 0.0)
  }

  const MillisPerMinute: real := 60.0 * 1000.0
  const DefaultSafeZoneThresholdMeters: real := 10.0

  /** The input schema's constraints: both thresholds are at least 1. */
  function ValidInput(input: AnomalyAlertInput): (valid: bool)
    ensures valid ==> TimeWindowMillis(input.inactivityThresholdMinutes) >= MillisPerMinute
  {
    input.inactivityThresholdMinutes >= 1.0
    && (input.safeZoneThresholdMeters.Some? ==> input.safeZoneThresholdMeters.value >= 1.0)
  }

  /** The movement threshold after the schema's default is applied. */
  function SafeZoneThreshold(input: AnomalyAlertInput): (meters: real)
    ensures meters == DefaultSafeZoneThresholdMeters || input.safeZoneThresholdMeters == Some(meters)
    ensures ValidInput(input) ==> meters >= 1.0
  {
    input.safeZoneThresholdMeters.GetOr(DefaultSafeZoneThresholdMeters)
  }

  // ---------------------------------------------------------------------------
  // Inactivity window
  // ---------------------------------------------------------------------------

  /** The inactivity window's length in milliseconds. */
  function TimeWindowMillis(minutes: real): real {
    minutes * MillisPerMinute
  }

  /** Whether a history entry is recent enough to belong to the window. */
  predicate InWindow(loc: Location, current: Location, windowMillis: real) {
    ((current.timestamp - loc.timestamp) as real) <= windowMillis
  }

  /** The history filtered to the entries inside the window, in their order. */
  function RelevantLocations(history: seq<Location>, current: Location, windowMillis: real): (r: seq<Location>)
    ensures |r| <= |history|
  {
    if history == [] then []
    else if InWindow(history[0], current, windowMillis) then
      [history[0]] + RelevantLocations(history[1..], current, windowMillis)
    else RelevantLocations(history[1..], current, windowMillis)
  }

  /** The window the movement is measured over: the relevant history, then the current location. */
  function Window(history: seq<Location>, current: Location, windowMillis: real): (w: seq<Location>)
    ensures |w| >= 1 && w[|w| - 1] == current
  {
    RelevantLocations(history, current, windowMillis) + [current]
  }

  /** The distance between two consecutive samples. */
  function Leg(dist: Distance, a: Location, b: Location): real {
    dist(a.lat, a.lon, b.lat, b.lon)
  }

  /** Total movement: the sum of the legs between consecutive samples. */
  function PathLength(dist: Distance, w: seq<Location>): (len: real)
    ensures HaversineLaws(dist) ==> len >= 0.0
  {
    if |w| <= 1 then 0.0
    else PathLength(dist, w[..|w| - 1]) + Leg(dist, w[|w| - 2], w[|w| - 1])
  }

  /** `Math.floor(millis / 60000)`. */
  function WholeMinutes(millis: int): (m: int)
    ensures (m as real) * MillisPerMinute <= millis as real < ((m + 1) as real) * MillisPerMinute
  {
    var x := (millis as real) / MillisPerMinute;
    assert millis as real == x * MillisPerMinute;
    x.Floor
  }

  /** The inactivity duration the detector reports, or `None` when inactivity
      did not fire. The window's oldest entry passed the filter, so the span is
      at most the threshold; the test demands at least the threshold, so a
      reported duration is always the threshold in whole minutes. */
  function InactivityDuration(dist: Distance, input: AnomalyAlertInput): (d: Option<int>)
    ensures d.Some? ==> |input.senderLocationHistory| > 0
    ensures d.Some? ==> d.value == input.inactivityThresholdMinutes.Floor
  {
    if |input.senderLocationHistory| == 0 then None
    else
      var windowMillis := TimeWindowMillis(input.inactivityThresholdMinutes);
      var w := Window(input.senderLocationHistory, input.senderCurrentLocation, windowMillis);
      if |w| <= 1 then None
      else
        var span := w[|w| - 1].timestamp - w[0].timestamp;
        if PathLength(dist, w) < SafeZoneThreshold(input) && (span as real) >= windowMillis then
          assert w[0] == RelevantLocations(input.senderLocationHistory, input.senderCurrentLocation, windowMillis)[0];
          RelevantLocationsMembers(input.senderLocationHistory, input.senderCurrentLocation, windowMillis, w[0]);
          assert (span as real) / MillisPerMinute == input.inactivityThresholdMinutes;
          Some(WholeMinutes(span))
        else None
  }

  // ---------------------------------------------------------------------------
  // Safe zone: even-odd ray casting
  // ---------------------------------------------------------------------------

  /** The point a location stands at. */
  function Position(loc: Location): Vertex {
    Vertex(loc.lat, loc.lon)
  }

  /** The edge from `vj` to `vi` straddles the point's latitude and the
      eastward ray from the point crosses it. The division is reached only
      when the latitudes differ, which the straddle test guarantees. */
  function Intersects(point: Vertex, vi: Vertex, vj: Vertex): (crosses: bool)
    ensures crosses ==> point.lon < vi.lon || point.lon < vj.lon
  {
    ((vi.lat > point.lat) != (vj.lat > point.lat))
    && (CrossingBetweenEnds(point, vi, vj); point.lon < CrossingLongitude(point, vi, vj))
  }

  /** The longitude at which the line through `vi` and `vj` meets the
      point's latitude. */
  function CrossingLongitude(point: Vertex, vi: Vertex, vj: Vertex): (lon: real)
    requires vi.lat != vj.lat
    ensures point.lat == vi.lat ==> lon == vi.lon
    ensures point.lat == vj.lat ==> lon == vj.lon
  {
    (vj.lon - vi.lon) * (point.lat - vi.lat) / (vj.lat - vi.lat) + vi.lon
  }

  /** The index before `i`, wrapping from the first vertex to the last. */
  function PrevIndex(i: nat, n: nat): (j: nat)
    requires i < n
    ensures j < n
  {
    if i == 0 then n - 1 else i - 1
  }

  /** How many of the edges (PrevIndex(i), i), for i < k, the ray crosses. */
  function Crossings(point: Vertex, polygon: seq<Vertex>, k: nat): (c: nat)
    requires k <= |polygon|
    ensures c <= k
  {
    if k == 0 then 0
    else
      var i := k - 1;
      Crossings(point, polygon, i)
      + (if Intersects(point, polygon[i], polygon[PrevIndex(i, |polygon|)]) then 1 else 0)
  }

  /** Even-odd containment: a polygon of at least three corners whose edges
      the ray crosses an odd number of times. */
  function Inside(point: Vertex, polygon: seq<Vertex>): (inside: bool)
    ensures inside ==> exists i :: 0 <= i < |polygon| && Intersects(point, polygon[i], polygon[PrevIndex(i, |polygon|)])
  {
    CrossedEdgeExists(point, polygon, |polygon|);
    |polygon| >= 3 && Crossings(point, polygon, |polygon|) % 2 == 1
  }

  /** The safe-zone check fires: a polygon of at least three corners is given
      and the current location is not inside it. */
  function OutsideSafeZone(input: AnomalyAlertInput): (outside: bool)
    ensures outside ==> input.safeZonePolygon.Some? && |input.safeZonePolygon.value| >= 3
    ensures input.safeZonePolygon.Some? && |input.safeZonePolygon.value| >= 3
            && (forall m :: 0 <= m < |input.safeZonePolygon.value| ==>
                  input.safeZonePolygon.value[m].lon <= input.senderCurrentLocation.lon)
            ==> outside
  {
    match input.safeZonePolygon
    case None => false
    case Some(polygon) => |polygon| >= 3 && !Inside(Position(input.senderCurrentLocation), polygon)
  }

  // ---------------------------------------------------------------------------
  // The verdict
  // ---------------------------------------------------------------------------

  /** The verdict's invariants: the flag agrees with the kinds, the kinds come
      in one fixed order without repetition, the duration is present exactly
      when inactivity fired, and the safe-zone flag is set exactly when the
      safe-zone kind fired. */
  predicate WellFormed(v: Verdict) {
    (v.anomalyDetected <==> |v.anomalyTypes| > 0)
    && (v.anomalyTypes == [] || v.anomalyTypes == [Inactivity] || v.anomalyTypes == [OutOfSafeZone]
        || v.anomalyTypes == [Inactivity, OutOfSafeZone])
    && (forall i, j :: 0 <= i < j < |v.anomalyTypes| ==> v.anomalyTypes[i] != v.anomalyTypes[j])
    && (v.inactivityDurationMinutes.Some? <==> Inactivity in v.anomalyTypes)
    && (v.isOutsideSafeZone <==> OutOfSafeZone in v.anomalyTypes)
  }

  /** The verdict the detector reaches: inactivity first, then the safe zone;
      both checks always run. */
  function Evaluate(dist: Distance, input: AnomalyAlertInput): (v: Verdict)
    ensures WellFormed(v)
  {
    var duration := InactivityDuration(dist, input);
    var outside := OutsideSafeZone(input);
    Verdict(duration.Some? || outside, KindsFired(duration.Some?, outside), duration, outside)
  }

  /** The kinds list after 'inactivity' and then 'out_of_safe_zone' are
      pushed as they fire. */
  function KindsFired(inactive: bool, outside: bool): (kinds: seq<AnomalyKind>)
    ensures |kinds| > 0 <==> inactive || outside
    ensures Inactivity in kinds <==> inactive
    ensures OutOfSafeZone in kinds <==> outside
  {
    (if inactive then [Inactivity] else []) + (if outside then [OutOfSafeZone] else [])
  }

  /** What the flow passes to the message generator. */
  function PromptFor(input: AnomalyAlertInput, v: Verdict): (p: PromptInput)
    ensures Verdict(p.anomalyDetected, p.anomalyTypesDetected, p.inactivityDurationMinutes, p.isOutsideSafeZone) == v
    ensures p.receiverName == input.receiverName && p.senderName == input.senderName
  {
    PromptInput(v.inactivityDurationMinutes, v.isOutsideSafeZone, input.receiverName,
                input.senderName, v.anomalyDetected, v.anomalyTypes)
  }

  // ---------------------------------------------------------------------------
  // The executable detector
  // ---------------------------------------------------------------------------

  /** Ray-casting containment, one edge per iteration, toggling `inside`. */
  method IsPointInsidePolygon(point: Vertex, polygon: seq<Vertex>) returns (inside: bool)
    ensures inside <==> Inside(point, polygon)
    ensures |polygon| < 3 ==> !inside
  {
    if |polygon| < 3 {
      return false;
    }
    inside := false;
    var i, j := 0, |polygon| - 1;
    while i < |polygon|
      invariant 0 <= i <= |polygon|
      invariant j == if i == 0 then |polygon| - 1 else i - 1
      invariant inside <==> Crossings(point, polygon, i) % 2 == 1
    {
      var intersect := Intersects(point, polygon[i], polygon[j]);
      CrossingsStep(point, polygon, i);
      ParityStep(Crossings(point, polygon, i), intersect);
      if intersect {
        inside := !inside;
      }
      j, i := i, i + 1;
    }
  }

  /** The detection part of the flow: mutable flags, a list of kinds that
      grows by `push`, and a loop that accumulates the movement. */
  method DetectAnomalies(dist: Distance, input: AnomalyAlertInput) returns (v: Verdict)
    ensures v == Evaluate(dist, input)
    ensures WellFormed(v)
  {
    var current := input.senderCurrentLocation;
    var history := input.senderLocationHistory;
    var anomalyDetected := false;
    var anomalyTypes: seq<AnomalyKind> := [];
    var detectedInactivityDurationMinutes: Option<int> := None;
    var isOutsideSafeZone := false;

    if |history| > 0 {
      var timeThresholdMillis := TimeWindowMillis(input.inactivityThresholdMinutes);
      var relevantLocations := RelevantLocations(history, current, timeThresholdMillis);
      relevantLocations := relevantLocations + [current];
      assert relevantLocations == Window(history, current, timeThresholdMillis);
      if |relevantLocations| > 1 {
        var oldestRelevantTimestamp := relevantLocations[0].timestamp;
        var newestRelevantTimestamp := relevantLocations[|relevantLocations| - 1].timestamp;
        var totalDistanceMoved := 0.0;
        var i := 1;
        while i < |relevantLocations|
          invariant 1 <= i <= |relevantLocations|
          invariant totalDistanceMoved == PathLength(dist, relevantLocations[..i])
        {
          assert relevantLocations[..i + 1][..i] == relevantLocations[..i];
          totalDistanceMoved := totalDistanceMoved + Leg(dist, relevantLocations[i - 1], relevantLocations[i]);
          i := i + 1;
        }
        assert relevantLocations[..i] == relevantLocations;
        var span := newestRelevantTimestamp - oldestRelevantTimestamp;
        if totalDistanceMoved < SafeZoneThreshold(input) && (span as real) >= timeThresholdMillis {
          anomalyDetected := true;
          anomalyTypes := anomalyTypes + [Inactivity];
          detectedInactivityDurationMinutes := Some(WholeMinutes(span));
        }
      }
      assert detectedInactivityDurationMinutes == InactivityDuration(dist, input);
    }
    assert detectedInactivityDurationMinutes == InactivityDuration(dist, input);
    assert anomalyTypes == KindsFired(detectedInactivityDurationMinutes.Some?, false);

    if input.safeZonePolygon.Some? && |input.safeZonePolygon.value| >= 3 {
      var inside := IsPointInsidePolygon(Position(current), input.safeZonePolygon.value);
      if !inside {
        anomalyDetected := true;
        anomalyTypes := anomalyTypes + [OutOfSafeZone];
        isOutsideSafeZone := true;
      }
    }
    assert isOutsideSafeZone == OutsideSafeZone(input);

    v := Verdict(anomalyDetected, anomalyTypes, detectedInactivityDurationMinutes, isOutsideSafeZone);
  }

  /** The whole flow: schema validation, detection, the message generator,
      and the returned record. The generator only supplies the text; the
      flag and the kinds are the detector's. */
  method AnomalyAlertForReceiverFlow(dist: Distance, generate: MessageGenerator, input: AnomalyAlertInput)
    returns (r: Result<AnomalyAlertOutput, FlowError>)
    ensures !ValidInput(input) ==> r == Failure(InvalidInput)
    ensures ValidInput(input) ==>
      var v := Evaluate(dist, input);
      match generate(PromptFor(input, v))
      case None => r == Failure(MessageGenerationFailed)
      case Some(message) =>
        r == Success(AnomalyAlertOutput(message, v.anomalyDetected,
                                        if |v.anomalyTypes| > 0 then Some(v.anomalyTypes) else None))
    ensures r.Success? ==> (r.value.anomalyType.None? <==> !r.value.anomalyDetected)
    ensures r.Success? ==> r.value.anomalyDetected == Evaluate(dist, input).anomalyDetected
  {
    if !ValidInput(input) {
      return Failure(InvalidInput);
    }
    var v := DetectAnomalies(dist, input);
    var output := generate(PromptFor(input, v));
    if output.None? {
      return Failure(MessageGenerationFailed);
    }
    var anomalyType := if |v.anomalyTypes| > 0 then Some(v.anomalyTypes) else None;
    r := Success(AnomalyAlertOutput(output.value, v.anomalyDetected, anomalyType));
  }

  // ---------------------------------------------------------------------------
  // Properties of the window
  // ---------------------------------------------------------------------------

  /** An entry is in the relevant history exactly when it is in the history
      and inside the window. */
  lemma {:induction false} RelevantLocationsMembers(history: seq<Location>, current: Location, windowMillis: real, loc: Location)
    ensures loc in RelevantLocations(history, current, windowMillis)
        <==> loc in history && InWindow(loc, current, windowMillis)
  {
    if history != [] {
      RelevantLocationsMembers(history[1..], current, windowMillis, loc);
      assert history == [history[0]] + history[1..];
    }
  }

  /** Filtering keeps the order: filtering a concatenation is the
      concatenation of the filtered parts. */
  lemma {:induction false} RelevantLocationsAppend(h1: seq<Location>, h2: seq<Location>, current: Location, windowMillis: real)
    ensures RelevantLocations(h1 + h2, current, windowMillis)
         == RelevantLocations(h1, current, windowMillis) + RelevantLocations(h2, current, windowMillis)
  {
    if h1 != [] {
      assert (h1 + h2)[0] == h1[0];
      assert (h1 + h2)[1..] == h1[1..] + h2;
      RelevantLocationsAppend(h1[1..], h2, current, windowMillis);
    } else {
      assert h1 + h2 == h2;
    }
  }

  /** A single entry is kept exactly when it is inside the window. */
  lemma RelevantLocationsSingleton(loc: Location, current: Location, windowMillis: real)
    ensures RelevantLocations([loc], current, windowMillis)
         == if InWindow(loc, current, windowMillis) then [loc] else []
  {
  }

  /** With no history entry inside the window, the window holds only the
      current location. */
  lemma {:induction false} NothingRelevant(history: seq<Location>, current: Location, windowMillis: real)
    requires forall k :: 0 <= k < |history| ==> !InWindow(history[k], current, windowMillis)
    ensures RelevantLocations(history, current, windowMillis) == []
    ensures Window(history, current, windowMillis) == [current]
  {
    if history != [] {
      assert !InWindow(history[0], current, windowMillis);
      assert forall k :: 0 <= k < |history[1..]| ==> history[1..][k] == history[k + 1];
      NothingRelevant(history[1..], current, windowMillis);
    }
  }

  // ---------------------------------------------------------------------------
  // Properties of the inactivity check
  // ---------------------------------------------------------------------------

  /** With an empty history, inactivity never fires. */
  lemma EmptyHistoryNoInactivity(dist: Distance, input: AnomalyAlertInput)
    requires input.senderLocationHistory == []
    ensures Evaluate(dist, input).inactivityDurationMinutes == None
    ensures Evaluate(dist, input).anomalyTypes == (if OutsideSafeZone(input) then [OutOfSafeZone] else [])
  {
  }

  /** With no history entry inside the window, inactivity never fires. */
  lemma NoRecentHistoryNoInactivity(dist: Distance, input: AnomalyAlertInput)
    requires forall k :: 0 <= k < |input.senderLocationHistory| ==>
      !InWindow(input.senderLocationHistory[k], input.senderCurrentLocation,
                TimeWindowMillis(input.inactivityThresholdMinutes))
    ensures Inactivity !in Evaluate(dist, input).anomalyTypes
  {
    NothingRelevant(input.senderLocationHistory, input.senderCurrentLocation,
                    TimeWindowMillis(input.inactivityThresholdMinutes));
  }

  /** When inactivity fires, the window spans exactly the threshold: its
      oldest entry passed the filter (span at most the threshold) and the test
      demands at least the threshold. The reported duration is then the
      threshold rounded down to whole minutes, and the movement was below the
      safe-zone threshold. */
  lemma InactivitySpanIsThreshold(dist: Distance, input: AnomalyAlertInput)
    requires InactivityDuration(dist, input).Some?
    ensures var windowMillis := TimeWindowMillis(input.inactivityThresholdMinutes);
            var w := Window(input.senderLocationHistory, input.senderCurrentLocation, windowMillis);
            && |w| > 1
            && w[|w| - 1] == input.senderCurrentLocation
            && ((input.senderCurrentLocation.timestamp - w[0].timestamp) as real) == windowMillis
            && PathLength(dist, w) < SafeZoneThreshold(input)
    ensures InactivityDuration(dist, input) == Some(input.inactivityThresholdMinutes.Floor)
  {
    var current := input.senderCurrentLocation;
    var windowMillis := TimeWindowMillis(input.inactivityThresholdMinutes);
    var r := RelevantLocations(input.senderLocationHistory, current, windowMillis);
    var w := Window(input.senderLocationHistory, current, windowMillis);
    assert w[0] == r[0];
    RelevantLocationsMembers(input.senderLocationHistory, current, windowMillis, r[0]);
  }

  /** Each leg of a path is at most the whole path length. */
  lemma {:induction false} LegAtMostPathLength(dist: Distance, w: seq<Location>, k: nat)
    requires HaversineLaws(dist)
    requires 0 < k < |w|
    ensures Leg(dist, w[k - 1], w[k]) <= PathLength(dist, w)
  {
    var prefix := w[..|w| - 1];
    if k < |w| - 1 {
      LegAtMostPathLength(dist, prefix, k);
      assert prefix[k - 1] == w[k - 1] && prefix[k] == w[k];
    }
  }

  /** A path whose samples all stand at one position has length 0. */
  lemma {:induction false} StationaryPathLength(dist: Distance, w: seq<Location>, at: Vertex)
    requires HaversineLaws(dist)
    requires forall k :: 0 <= k < |w| ==> Position(w[k]) == at
    ensures PathLength(dist, w) == 0.0
  {
    if |w| > 1 {
      StationaryPathLength(dist, w[..|w| - 1], at);
      assert dist(at.lat, at.lon, at.lat, at.lon) == 0.0;
    }
  }

  /** Any single movement of at least the safe-zone threshold between two
      consecutive window samples rules inactivity out. */
  lemma LongLegSuppressesInactivity(dist: Distance, input: AnomalyAlertInput, k: nat)
    requires HaversineLaws(dist)
    requires var w := Window(input.senderLocationHistory, input.senderCurrentLocation,
                             TimeWindowMillis(input.inactivityThresholdMinutes));
             0 < k < |w| && Leg(dist, w[k - 1], w[k]) >= SafeZoneThreshold(input)
    ensures Inactivity !in Evaluate(dist, input).anomalyTypes
  {
    var w := Window(input.senderLocationHistory, input.senderCurrentLocation,
                    TimeWindowMillis(input.inactivityThresholdMinutes));
    LegAtMostPathLength(dist, w, k);
  }

  /** A sender whose window samples all stand at the current position, the
      oldest exactly one threshold before the current sample, is reported
      inactive for the threshold's whole minutes. History entries the filter
      drops play no part. */
  lemma StationarySenderIsInactive(dist: Distance, input: AnomalyAlertInput)
    requires HaversineLaws(dist) && ValidInput(input)
    requires var w := Window(input.senderLocationHistory, input.senderCurrentLocation,
                             TimeWindowMillis(input.inactivityThresholdMinutes));
             && |w| > 1
             && ((input.senderCurrentLocation.timestamp - w[0].timestamp) as real)
                == TimeWindowMillis(input.inactivityThresholdMinutes)
             && forall k :: 0 <= k < |w| ==> Position(w[k]) == Position(input.senderCurrentLocation)
    ensures Evaluate(dist, input).inactivityDurationMinutes == Some(input.inactivityThresholdMinutes.Floor)
    ensures Inactivity in Evaluate(dist, input).anomalyTypes
  {
    var w := Window(input.senderLocationHistory, input.senderCurrentLocation,
                    TimeWindowMillis(input.inactivityThresholdMinutes));
    StationaryPathLength(dist, w, Position(input.senderCurrentLocation));
  }

  /** The same for a whole history: every entry at the current position and
      the first exactly one threshold old. */
  lemma StationaryHistoryIsInactive(dist: Distance, input: AnomalyAlertInput)
    requires HaversineLaws(dist) && ValidInput(input)
    requires |input.senderLocationHistory| > 0
    requires ((input.senderCurrentLocation.timestamp - input.senderLocationHistory[0].timestamp) as real)
             == TimeWindowMillis(input.inactivityThresholdMinutes)
    requires forall k :: 0 <= k < |input.senderLocationHistory| ==>
      Position(input.senderLocationHistory[k]) == Position(input.senderCurrentLocation)
    ensures Evaluate(dist, input).inactivityDurationMinutes == Some(input.inactivityThresholdMinutes.Floor)
    ensures Inactivity in Evaluate(dist, input).anomalyTypes
  {
    var history := input.senderLocationHistory;
    var current := input.senderCurrentLocation;
    var windowMillis := TimeWindowMillis(input.inactivityThresholdMinutes);
    var w := Window(history, current, windowMillis);
    assert w[0] == history[0];
    forall k | 0 <= k < |w|
      ensures Position(w[k]) == Position(current)
    {
      if k < |w| - 1 {
        RelevantLocationsMembers(history, current, windowMillis, w[k]);
      }
    }
    StationarySenderIsInactive(dist, input);
  }

  /** A worked instance: two stationary samples at 0 and 299000 ms, the
      current one at 300000 ms, a 5-minute threshold and the default movement
      threshold. The span is exactly 300000 ms, so inactivity fires with a
      duration of 5 minutes, and with no safe zone nothing else fires. */
  lemma BoundaryExampleIsInactive(dist: Distance)
    requires HaversineLaws(dist)
    ensures var input := AnomalyAlertInput(
              Location(0.0, 0.0, 300000),
              [Location(0.0, 0.0, 0), Location(0.0, 0.0, 299000)],
              None, 5.0, None, None, None);
            Evaluate(dist, input) == Verdict(true, [Inactivity], Some(5), false)
  {
    var input := AnomalyAlertInput(
      Location(0.0, 0.0, 300000),
      [Location(0.0, 0.0, 0), Location(0.0, 0.0, 299000)],
      None, 5.0, None, None, None);
    StationaryHistoryIsInactive(dist, input);
  }

  /** The window of the next example: the stale sample is dropped. */
  lemma StaleMoveWindow()
    ensures Window([Location(5.0, 5.0, 0), Location(0.0, 0.0, 100000), Location(0.0, 0.0, 250000)],
                   Location(0.0, 0.0, 400000), 300000.0)
         == [Location(0.0, 0.0, 100000), Location(0.0, 0.0, 250000), Location(0.0, 0.0, 400000)]
  {
    var current := Location(0.0, 0.0, 400000);
    var recent := [Location(0.0, 0.0, 100000), Location(0.0, 0.0, 250000)];
    var history := [Location(5.0, 5.0, 0)] + recent;
    RelevantLocationsAppend([Location(5.0, 5.0, 0)], recent, current, 300000.0);
    RelevantLocationsAppend([recent[0]], [recent[1]], current, 300000.0);
    assert recent == [recent[0]] + [recent[1]];
    assert history == [Location(5.0, 5.0, 0), Location(0.0, 0.0, 100000), Location(0.0, 0.0, 250000)];
  }

  /** A worked instance where the filter matters: an old sample somewhere else
      falls outside the 5-minute window, the later samples stand still and the
      oldest of them is exactly 300000 ms old, so inactivity fires. */
  lemma StaleMoveIsIgnored(dist: Distance)
    requires HaversineLaws(dist)
    ensures var input := AnomalyAlertInput(
              Location(0.0, 0.0, 400000),
              [Location(5.0, 5.0, 0), Location(0.0, 0.0, 100000), Location(0.0, 0.0, 250000)],
              None, 5.0, None, None, None);
            Evaluate(dist, input) == Verdict(true, [Inactivity], Some(5), false)
  {
    var input := AnomalyAlertInput(
      Location(0.0, 0.0, 400000),
      [Location(5.0, 5.0, 0), Location(0.0, 0.0, 100000), Location(0.0, 0.0, 250000)],
      None, 5.0, None, None, None);
    StaleMoveWindow();
    assert TimeWindowMillis(5.0) == 300000.0;
    StationarySenderIsInactive(dist, input);
  }

  // ---------------------------------------------------------------------------
  // Properties of the safe-zone check
  // ---------------------------------------------------------------------------

  /** The safe-zone verdict depends only on the current position and the
      polygon: not on the history, the thresholds or the names. */
  lemma SafeZoneDependsOnPositionAndPolygon(dist1: Distance, dist2: Distance, a: AnomalyAlertInput, b: AnomalyAlertInput)
    requires Position(a.senderCurrentLocation) == Position(b.senderCurrentLocation)
    requires a.safeZonePolygon == b.safeZonePolygon
    ensures Evaluate(dist1, a).isOutsideSafeZone == Evaluate(dist2, b).isOutsideSafeZone
    ensures (OutOfSafeZone in Evaluate(dist1, a).anomalyTypes) == (OutOfSafeZone in Evaluate(dist2, b).anomalyTypes)
  {
  }

  /** Without a polygon of at least three corners the safe-zone check is skipped. */
  lemma NoPolygonNoSafeZoneAnomaly(dist: Distance, input: AnomalyAlertInput)
    requires input.safeZonePolygon.None? || |input.safeZonePolygon.value| < 3
    ensures OutOfSafeZone !in Evaluate(dist, input).anomalyTypes
    ensures !Evaluate(dist, input).isOutsideSafeZone
  {
  }

  /** When the point's latitude is north of every corner, or not north of
      any, no edge straddles it and the ray crosses nothing. */
  lemma {:induction false} NoCrossingsOffLatitudeRange(point: Vertex, polygon: seq<Vertex>, k: nat)
    requires k <= |polygon|
    requires (forall m :: 0 <= m < |polygon| ==> polygon[m].lat > point.lat)
          || (forall m :: 0 <= m < |polygon| ==> polygon[m].lat <= point.lat)
    ensures Crossings(point, polygon, k) == 0
  {
    if k > 0 {
      NoCrossingsOffLatitudeRange(point, polygon, k - 1);
    }
  }

  /** A point south of every corner, or north of or level with the
      northernmost, is outside. */
  lemma OffLatitudeRangeIsOutside(point: Vertex, polygon: seq<Vertex>)
    requires (forall m :: 0 <= m < |polygon| ==> polygon[m].lat > point.lat)
          || (forall m :: 0 <= m < |polygon| ==> polygon[m].lat <= point.lat)
    ensures !Inside(point, polygon)
  {
    NoCrossingsOffLatitudeRange(point, polygon, |polygon|);
  }

  /** A quotient of two same-signed numbers, the numerator no larger in size,
      lies in [0, 1]. */
  lemma RatioInUnitInterval(n: real, d: real)
    requires (0.0 <= n <= d && d > 0.0) || (d <= n <= 0.0 && d < 0.0)
    ensures 0.0 <= n / d <= 1.0
  {
  }

  /** Where the eastward ray meets a straddling edge lies between the edge's
      two longitudes, so it is at most the larger one. */
  lemma CrossingBetweenEnds(point: Vertex, vi: Vertex, vj: Vertex)
    requires (vi.lat > point.lat) != (vj.lat > point.lat)
    ensures CrossingLongitude(point, vi, vj) <= vi.lon || CrossingLongitude(point, vi, vj) <= vj.lon
  {
    var a, n, d := vj.lon - vi.lon, point.lat - vi.lat, vj.lat - vi.lat;
    RatioInUnitInterval(n, d);
    var t := n / d;
    assert a * n / d == a * t;
    if a >= 0.0 {
      assert a * (1.0 - t) >= 0.0;
    } else {
      assert a * t <= 0.0;
    }
  }

  /** When the point is east of, or level with, every corner, the ray crosses nothing. */
  lemma {:induction false} NoCrossingsEastOfPolygon(point: Vertex, polygon: seq<Vertex>, k: nat)
    requires k <= |polygon|
    requires forall m :: 0 <= m < |polygon| ==> polygon[m].lon <= point.lon
    ensures Crossings(point, polygon, k) == 0
  {
    if k > 0 {
      NoCrossingsEastOfPolygon(point, polygon, k - 1);
      var i := k - 1;
      var vi, vj := polygon[i], polygon[PrevIndex(i, |polygon|)];
      assert vi.lon <= point.lon && vj.lon <= point.lon;
      if (vi.lat > point.lat) != (vj.lat > point.lat) {
        CrossingBetweenEnds(point, vi, vj);
      }
      assert !Intersects(point, vi, vj);
    }
  }

  /** A point east of, or level with, every corner is outside. */
  lemma EastOfPolygonIsOutside(point: Vertex, polygon: seq<Vertex>)
    requires forall m :: 0 <= m < |polygon| ==> polygon[m].lon <= point.lon
    ensures !Inside(point, polygon)
  {
    NoCrossingsEastOfPolygon(point, polygon, |polygon|);
  }

  /** A positive count has a crossed edge behind it. */
  lemma {:induction false} CrossedEdgeExists(point: Vertex, polygon: seq<Vertex>, k: nat)
    requires k <= |polygon|
    ensures Crossings(point, polygon, k) > 0 ==>
      exists i :: 0 <= i < k && Intersects(point, polygon[i], polygon[PrevIndex(i, |polygon|)])
  {
    if k > 0 {
      CrossedEdgeExists(point, polygon, k - 1);
    }
  }

  /** Counting one more edge adds that edge's own test. */
  lemma CrossingsStep(point: Vertex, polygon: seq<Vertex>, i: nat)
    requires i < |polygon|
    ensures Crossings(point, polygon, i + 1)
         == Crossings(point, polygon, i) + EdgeCount(Intersects(point, polygon[i], polygon[if i == 0 then |polygon| - 1 else i - 1]))
  {
  }

  /** Counting one more edge flips the parity exactly when that edge is crossed. */
  lemma ParityStep(c: nat, crosses: bool)
    ensures ((c + EdgeCount(crosses)) % 2 == 1) == ((c % 2 == 1) != crosses)
  {
  }

  /** An edge counted once or not at all. */
  function EdgeCount(crosses: bool): nat {
    if crosses then 1 else 0
  }

  /** For a four-cornered polygon, the crossings are those of its four edges. */
  lemma CrossingsOfQuadrilateral(point: Vertex, polygon: seq<Vertex>)
    requires |polygon| == 4
    ensures Crossings(point, polygon, 4)
         == EdgeCount(Intersects(point, polygon[0], polygon[3])) + EdgeCount(Intersects(point, polygon[1], polygon[0]))
          + EdgeCount(Intersects(point, polygon[2], polygon[1])) + EdgeCount(Intersects(point, polygon[3], polygon[2]))
  {
    assert PrevIndex(0, 4) == 3;
    var e0 := EdgeCount(Intersects(point, polygon[0], polygon[3]));
    var e1 := EdgeCount(Intersects(point, polygon[1], polygon[0]));
    var e2 := EdgeCount(Intersects(point, polygon[2], polygon[1]));
    assert Crossings(point, polygon, 1) == e0;
    assert Crossings(point, polygon, 2) == e0 + e1;
    assert Crossings(point, polygon, 3) == e0 + e1 + e2;
  }

  /** The corners of the axis-aligned rectangle between two opposite corners,
      listed as the unit square [(0,0),(0,1),(1,1),(1,0)] lists them. */
  function Rectangle(south: real, west: real, north: real, east: real): (polygon: seq<Vertex>)
    ensures |polygon| == 4
  {
    [Vertex(south, west), Vertex(south, east), Vertex(north, east), Vertex(north, west)]
  }

  /** A point strictly inside an axis-aligned rectangle is inside: the ray
      crosses the eastern side and nothing else. */
  lemma RectangleContainsInterior(point: Vertex, south: real, west: real, north: real, east: real)
    requires south < point.lat < north && west < point.lon < east
    ensures Inside(point, Rectangle(south, west, north, east))
  {
    var polygon := Rectangle(south, west, north, east);
    CrossingsOfQuadrilateral(point, polygon);
    assert !Intersects(point, polygon[0], polygon[3]);
    assert !Intersects(point, polygon[1], polygon[0]);
    assert Intersects(point, polygon[2], polygon[1]);
    assert !Intersects(point, polygon[3], polygon[2]);
  }

  /** The unit square, corners listed as (latitude, longitude). */
  const UnitSquare: seq<Vertex> := Rectangle(0.0, 0.0, 1.0, 1.0)

  /** The unit square does not contain (2, 2). */
  lemma UnitSquareExcludesFarPoint()
    ensures !Inside(Vertex(2.0, 2.0), UnitSquare)
  {
    EastOfPolygonIsOutside(Vertex(2.0, 2.0), UnitSquare);
  }

  /** Both checks run: a location that is both inactive and outside its safe
      zone yields both kinds, inactivity first. */
  lemma BothKindsReported(dist: Distance, input: AnomalyAlertInput)
    requires InactivityDuration(dist, input).Some? && OutsideSafeZone(input)
    ensures Evaluate(dist, input).anomalyTypes == [Inactivity, OutOfSafeZone]
    ensures Evaluate(dist, input).anomalyDetected
  {
  }
}
