/** LogFileCalculator: the seed discovery over the parsed log, the one-pass distance
    accumulator and the two-row report. */
module LogFileCalculator {
  import opened LogTypes

  const Human: string := "human"
  const Autopilot: string := "autopilot"

  /** Geodesic distance in metres from the first point to the second. geopy is not part of
      this model: every operation takes the distance function as a parameter. */
  type Distance = (Coord, Coord) -> real

  /** The one property of geodesic distance the monotonicity results rely on. */
  ghost predicate NonNegative(dist: Distance) {
    forall p, q :: dist(p, q) >= 0.0
  }

  // ---------------------------------------------------------------------------
  // Static helpers

  /** validate_coordinates: `(lat or lon) == 0.0` is the invalid case. */
  function ValidateCoordinates(c: Coord): (valid: bool)
    ensures !valid <==> c.lat == 0.0 && c.lon == 0.0
  {
    // Python's `or` yields lat when lat is non-zero, and lon otherwise
    var either := if c.lat != 0.0 then c.lat else c.lon;
    if either == 0.0 then false else true
  }

  /** check_switcher_state: replaces the current state when it differs, keeps it otherwise. */
  function CheckSwitcherState(lineState: int, currentState: Option<int>): (state: int)
    ensures state == lineState
  {
    if currentState != Some(lineState) then lineState else currentState.value
  }

  /** Python truthiness of the switcher: None and 0 are falsy. */
  predicate Truthy(switcher: Option<int>) {
    switcher.Some? && switcher.value != 0
  }

  /** `'autopilot' if placeholder_switcher else 'human'`. */
  function ModeLabel(switcher: Option<int>): (mode: string)
    ensures mode == Human || mode == Autopilot
    ensures mode == Human <==> switcher == None || switcher == Some(0)
  {
    if Truthy(switcher) then Autopilot else Human
  }

  /** The bucket a mode label is not. */
  function OtherMode(mode: string): string {
    if mode == Human then Autopilot else Human
  }

  // ---------------------------------------------------------------------------
  // Seed discovery (get_placeholder_values)

  datatype Seeds = Seeds(switcher: Option<int>, coords: Coord)

  function SwitchValue(e: Event): Option<int> {
    if e.Switch? then Some(e.state) else None
  }

  function GeoValue(e: Event): Option<Coord> {
    if e.Geo? then Some(e.pos) else None
  }

  /** The first value `pick` accepts, scanning the log in order. */
  function FirstOf<T>(log: Timeline, pick: Event -> Option<T>): Option<T>
    decreases |log|
  {
    if log == [] then None
    else if pick(log[0].event).Some? then pick(log[0].event)
    else FirstOf(log[1..], pick)
  }

  function FirstSwitch(log: Timeline): Option<int> {
    FirstOf(log, SwitchValue)
  }

  /** The first geo entry, valid or not: a (0,0) placeholder can be the seed. */
  function FirstCoords(log: Timeline): Option<Coord> {
    FirstOf(log, GeoValue)
  }

  lemma {:induction false} FirstOfAppend<T>(a: Timeline, b: Timeline, pick: Event -> Option<T>)
    ensures FirstOf(a + b, pick) == if FirstOf(a, pick).Some? then FirstOf(a, pick) else FirstOf(b, pick)
    decreases |a|
  {
    if a != [] {
      assert (a + b)[1..] == a[1..] + b;
      FirstOfAppend(a[1..], b, pick);
    } else {
      assert a + b == b;
    }
  }

  /** FirstOf finds the value at the first index that `pick` accepts, and None when there is none. */
  lemma {:induction false} FirstOfIsFirst<T>(log: Timeline, pick: Event -> Option<T>)
    ensures FirstOf(log, pick).None? <==> forall i :: 0 <= i < |log| ==> pick(log[i].event).None?
    ensures FirstOf(log, pick).Some? ==>
      exists i :: 0 <= i < |log| && pick(log[i].event) == FirstOf(log, pick) &&
        forall j :: 0 <= j < i ==> pick(log[j].event).None?
    decreases |log|
  {
    if log != [] && pick(log[0].event).None? {
      FirstOfIsFirst(log[1..], pick);
      forall i | 0 < i < |log| ensures log[i] == log[1..][i - 1] { }
      if FirstOf(log, pick).Some? {
        var k :| 0 <= k < |log[1..]| && pick(log[1..][k].event) == FirstOf(log, pick) &&
          forall j :: 0 <= j < k ==> pick(log[1..][j].event).None?;
        assert pick(log[k + 1].event) == FirstOf(log, pick);
        forall j | 0 <= j < k + 1 ensures pick(log[j].event).None? {
          if j > 0 { assert log[j] == log[1..][j - 1]; }
        }
      }
    } else if log != [] {
      assert pick(log[0].event) == FirstOf(log, pick);
    }
  }

  /** get_placeholder_values: the outer loop over the two placeholders is unrolled into two
      passes over the log. The inner `while slot is None: ...; break` runs its body at most
      once per entry, so it is an `if`. The report at lines 160-162 indexes start_coords[0],
      which raises when no geo entry exists. */
  method GetPlaceholderValues(log: Timeline) returns (r: Result<Seeds>)
    ensures r.Err? <==> FirstCoords(log).None?
    ensures r.Err? ==> r.failure == NoGeoSeed
    ensures r.Ok? ==> r.value == Seeds(FirstSwitch(log), FirstCoords(log).value)
  {
    var startSwitcher: Option<int> := None;
    var startCoords: Option<Coord> := None;

    // placeholder 'start_switcher'
    for i := 0 to |log|
      invariant startSwitcher == FirstSwitch(log[..i])
      invariant startSwitcher.None? ==> startCoords == FirstCoords(log[..i])
      invariant startCoords.Some? ==> startCoords == FirstCoords(log)
    {
      assert log[..i + 1] == log[..i] + [log[i]];
      assert log == log[..i + 1] + log[i + 1..];
      FirstOfAppend(log[..i], [log[i]], SwitchValue);
      FirstOfAppend(log[..i], [log[i]], GeoValue);
      FirstOfAppend(log[..i + 1], log[i + 1..], GeoValue);
      if startSwitcher.None? {
        match log[i].event {
          case Geo(c) =>
            if startCoords.None? {
              startCoords := Some(c);
            }
          case Switch(n) =>
            if startSwitcher.None? {
              startSwitcher := Some(n);
            }
        }
      }
    }
    assert log[..|log|] == log;

    // placeholder 'start_coords'
    for i := 0 to |log|
      invariant startSwitcher == FirstSwitch(log)
      invariant startCoords.Some? ==> startCoords == FirstCoords(log)
      invariant startCoords.None? ==> FirstCoords(log[..i]).None?
    {
      assert log[..i + 1] == log[..i] + [log[i]];
      assert log == log[..i + 1] + log[i + 1..];
      FirstOfAppend(log[..i], [log[i]], GeoValue);
      FirstOfAppend(log[..i + 1], log[i + 1..], GeoValue);
      if startCoords.None? {
        match log[i].event {
          case Geo(c) =>
            startCoords := Some(c);
          case Switch(n) =>
            if startSwitcher.None? {
              FirstOfIsFirst(log, SwitchValue);
              startSwitcher := Some(n);
            }
        }
      }
    }

    if startCoords.None? {
      return Err(NoGeoSeed);
    }
    r := Ok(Seeds(startSwitcher, startCoords.value));
  }

  // ---------------------------------------------------------------------------
  // The accumulator (process_log)

  /** The variables process_log updates: placeholder_switcher, placeholder_geo,
      distance_counter, and the local driven_distance (None while it is unbound). */
  datatype AccState = AccState(
    switcher: Option<int>,
    last: Coord,
    counter: map<string, real>,
    drivenDistance: Option<real>)

  /** distance_counter has exactly the two mode keys. */
  predicate WellFormed(s: AccState) {
    s.counter.Keys == {Human, Autopilot}
  }

  function Total(s: AccState): real
    requires WellFormed(s)
  {
    s.counter[Human] + s.counter[Autopilot]
  }

  function InitialState(switcher: Option<int>, geo: Coord): (s: AccState)
    ensures WellFormed(s) && s.counter[Human] == 0.0 && s.counter[Autopilot] == 0.0
    ensures s.switcher == switcher && s.last == geo && s.drivenDistance.None?
  {
    AccState(switcher, geo, map[Human := 0.0, Autopilot := 0.0], None)
  }

  predicate IsValidFix(e: Entry) {
    e.event.Geo? && ValidateCoordinates(e.event.pos)
  }

  /** One iteration of the loop of process_log. */
  function Step(s: AccState, e: Entry, dist: Distance): (r: Result<AccState>)
    requires WellFormed(s)
    ensures r.Ok? ==> WellFormed(r.value)
    ensures r.Err? <==> e.event.Switch? && s.drivenDistance.None?
    ensures r.Err? ==> r.failure == UnboundDistance
  {
    match e.event
    case Geo(c) =>
      if ValidateCoordinates(c) then
        var mode := ModeLabel(s.switcher);
        var d := dist(s.last, c);
        Ok(s.(counter := s.counter[mode := s.counter[mode] + d], last := c, drivenDistance := Some(d)))
      else
        Ok(s)
    case Switch(v) =>
      var switcher := CheckSwitcherState(v, s.switcher);
      if s.drivenDistance.None? then Err(UnboundDistance)
      else Ok(s.(switcher := Some(switcher)))
  }

  /** The loop of process_log from state s over the remaining log. */
  function Run(s: AccState, log: Timeline, dist: Distance): (r: Result<AccState>)
    requires WellFormed(s)
    ensures r.Ok? ==> WellFormed(r.value)
    ensures r.Err? ==> r.failure == UnboundDistance
    decreases |log|
  {
    if log == [] then
      Ok(s)
    else
      match Step(s, log[0], dist)
      case Err(f) => Err(f)
      case Ok(next) => Run(next, log[1..], dist)
  }

  /** The valid fixes of the log, in timeline order. */
  function ValidFixes(log: Timeline): seq<Coord>
    decreases |log|
  {
    if log == [] then []
    else (if IsValidFix(log[0]) then [log[0].event.pos] else []) + ValidFixes(log[1..])
  }

  /** The naive reference: the distance along a chain of points starting at `from`. */
  function ChainSum(from: Coord, points: seq<Coord>, dist: Distance): real
    decreases |points|
  {
    if points == [] then 0.0 else dist(from, points[0]) + ChainSum(points[0], points[1..], dist)
  }

  function LastPoint(from: Coord, points: seq<Coord>): Coord {
    if points == [] then from else points[|points| - 1]
  }

  /** Conservation: the two totals grow by exactly the chained distance over the valid
      fixes, and the last position ends at the last valid fix. */
  lemma {:induction false} RunConserves(s: AccState, log: Timeline, dist: Distance)
    requires WellFormed(s) && Run(s, log, dist).Ok?
    ensures Total(Run(s, log, dist).value) == Total(s) + ChainSum(s.last, ValidFixes(log), dist)
    ensures Run(s, log, dist).value.last == LastPoint(s.last, ValidFixes(log))
    decreases |log|
  {
    if log != [] {
      var next := Step(s, log[0], dist).value;
      RunConserves(next, log[1..], dist);
      var rest := ValidFixes(log[1..]);
      if IsValidFix(log[0]) {
        var c := log[0].event.pos;
        assert ValidFixes(log) == [c] + rest;
        assert ([c] + rest)[1..] == rest;
        var mode := ModeLabel(s.switcher);
        assert next.counter[mode] == s.counter[mode] + dist(s.last, c);
        assert next.counter[OtherMode(mode)] == s.counter[OtherMode(mode)];
        assert Total(next) == Total(s) + dist(s.last, c);
      } else {
        assert ValidFixes(log) == rest;
      }
    }
  }

  /** A switch event seen before any valid fix. */
  ghost predicate SwitchBeforeFirstFix(log: Timeline) {
    exists i :: 0 <= i < |log| && log[i].event.Switch? && forall j :: 0 <= j < i ==> !IsValidFix(log[j])
  }

  /** The loop raises exactly when driven_distance is still unbound at a switch event. */
  lemma {:induction false} RunFails(s: AccState, log: Timeline, dist: Distance)
    requires WellFormed(s)
    ensures Run(s, log, dist).Err? <==> s.drivenDistance.None? && SwitchBeforeFirstFix(log)
    decreases |log|
  {
    if log != [] {
      var e := log[0];
      if e.event.Switch? {
        if s.drivenDistance.None? {
          assert log[0].event.Switch?;
        } else {
          RunFails(Step(s, e, dist).value, log[1..], dist);
        }
      } else if IsValidFix(e) {
        RunFails(Step(s, e, dist).value, log[1..], dist);
        assert !SwitchBeforeFirstFix(log) by {
          forall i | 0 <= i < |log| && log[i].event.Switch?
            ensures exists j :: 0 <= j < i && IsValidFix(log[j])
          {
            assert i != 0 && IsValidFix(log[0]);
          }
        }
      } else {
        assert Step(s, e, dist) == Ok(s);
        RunFails(s, log[1..], dist);
        if SwitchBeforeFirstFix(log) {
          var i :| 0 <= i < |log| && log[i].event.Switch? && forall j :: 0 <= j < i ==> !IsValidFix(log[j]);
          assert i != 0;
          assert log[1..][i - 1].event.Switch?;
          forall j | 0 <= j < i - 1 ensures !IsValidFix(log[1..][j]) {
            assert log[1..][j] == log[j + 1];
          }
        }
        if SwitchBeforeFirstFix(log[1..]) {
          var i :| 0 <= i < |log[1..]| && log[1..][i].event.Switch? && forall j :: 0 <= j < i ==> !IsValidFix(log[1..][j]);
          assert log[i + 1].event.Switch?;
          forall j | 0 <= j < i + 1 ensures !IsValidFix(log[j]) {
            if j > 0 { assert log[j] == log[1..][j - 1]; }
          }
        }
      }
    }
  }

  /** The totals a run leaves in distance_counter, or the failure it raises. */
  function Counter(r: Result<AccState>): Result<map<string, real>> {
    match r
    case Ok(s) => Ok(s.counter)
    case Err(f) => Err(f)
  }

  /** process_log: one pass over the parsed log. */
  method ProcessLog(log: Timeline, placeholderSwitcher: Option<int>, placeholderGeo: Coord, dist: Distance)
    returns (r: Result<map<string, real>>)
    ensures r == Counter(Run(InitialState(placeholderSwitcher, placeholderGeo), log, dist))
    ensures r.Ok? ==> r.value.Keys == {Human, Autopilot}
    ensures r.Ok? ==> r.value[Human] + r.value[Autopilot] == ChainSum(placeholderGeo, ValidFixes(log), dist)
    ensures r.Err? <==> SwitchBeforeFirstFix(log)
  {
    ghost var init := InitialState(placeholderSwitcher, placeholderGeo);
    var distanceCounter := map[Human := 0.0, Autopilot := 0.0];
    var switcher := placeholderSwitcher;
    var geo := placeholderGeo;
    var drivenDistance: Option<real> := None;
    RunFails(init, log, dist);
    for i := 0 to |log|
      invariant distanceCounter.Keys == {Human, Autopilot}
      invariant Run(init, log, dist) == Run(AccState(switcher, geo, distanceCounter, drivenDistance), log[i..], dist)
    {
      assert log[i..][1..] == log[i + 1..];
      var currentSwitcherStr := ModeLabel(switcher);
      match log[i].event {
        case Geo(c) =>
          if ValidateCoordinates(c) {
            var drivenDist := dist(geo, c);
            distanceCounter := distanceCounter[currentSwitcherStr := distanceCounter[currentSwitcherStr] + drivenDist];
            geo := c;
            drivenDistance := Some(drivenDist);
          }
        case Switch(v) =>
          switcher := Some(CheckSwitcherState(v, switcher));
          if drivenDistance.None? {
            // the log line after the switch update reads driven_distance before assignment
            return Err(UnboundDistance);
          }
      }
    }
    r := Ok(distanceCounter);
    RunConserves(init, log, dist);
  }

  // ---------------------------------------------------------------------------
  // Report

  /** generate_report: the rows (mode, distance) in the insertion order of distance_counter,
      which process_log always creates as human first, then autopilot. */
  function GenerateReport(counter: map<string, real>): (rows: seq<(string, real)>)
    requires counter.Keys == {Human, Autopilot}
    ensures |rows| == |counter|
    ensures rows[0].0 == Human && rows[1].0 == Autopilot
    ensures forall k :: 0 <= k < |rows| ==> rows[k].0 in counter && rows[k].1 == counter[rows[k].0]
  {
    [(Human, counter[Human]), (Autopilot, counter[Autopilot])]
  }

  /** run_calculation: seeds, then the accumulator, then the report. */
  method RunCalculation(parsedLog: Timeline, dist: Distance) returns (r: Result<seq<(string, real)>>)
    ensures r == Err(NoGeoSeed) <==> FirstCoords(parsedLog).None?
    ensures FirstCoords(parsedLog).Some? ==> (r == Err(UnboundDistance) <==> SwitchBeforeFirstFix(parsedLog))
    ensures r.Ok? ==> |r.value| == 2 && r.value[0].0 == Human && r.value[1].0 == Autopilot
    ensures r.Ok? ==> r.value[0].1 + r.value[1].1 == ChainSum(FirstCoords(parsedLog).value, ValidFixes(parsedLog), dist)
    ensures FirstCoords(parsedLog).Some? && r.Ok? ==>
      var fin := Run(InitialState(FirstSwitch(parsedLog), FirstCoords(parsedLog).value), parsedLog, dist);
      fin.Ok? && r.value == GenerateReport(fin.value.counter)
  {
    var seeds := GetPlaceholderValues(parsedLog);
    if seeds.Err? {
      return Err(seeds.failure);
    }
    var counter := ProcessLog(parsedLog, seeds.value.switcher, seeds.value.coords, dist);
    if counter.Err? {
      return Err(counter.failure);
    }
    r := Ok(GenerateReport(counter.value));
  }
}
