/** DrawMap.get_car_route: the ordered list of positions handed to the map renderer. */
module DrawMap {
  import opened LogTypes
  import opened LogFileCalculator

  /** Every geo entry's position in timeline order, (0,0) placeholders included. */
  function GeoFixes(log: Timeline): (route: seq<Coord>)
    ensures |route| <= |log|
    ensures forall c :: c in route <==> exists i :: 0 <= i < |log| && log[i].event == Geo(c)
    decreases |log|
  {
    if log == [] then
      []
    else
      var rest := GeoFixes(log[1..]);
      assert forall c :: (exists i :: 0 <= i < |log[1..]| && log[1..][i].event == Geo(c)) <==>
                         (exists i :: 1 <= i < |log| && log[i].event == Geo(c)) by {
        forall i | 0 <= i < |log[1..]| ensures log[1..][i] == log[i + 1] { }
        forall i | 1 <= i < |log| ensures log[i] == log[1..][i - 1] { }
      }
      (if log[0].event.Geo? then [log[0].event.pos] else []) + rest
  }

  /** On a log of geo entries only, each entry contributes exactly its own position, in
      timeline order: repeated fixes and (0,0) placeholders are all kept. */
  lemma {:induction false} GeoOnlyRoute(log: Timeline)
    requires forall i :: 0 <= i < |log| ==> log[i].event.Geo?
    ensures |GeoFixes(log)| == |log|
    ensures forall i :: 0 <= i < |log| ==> GeoFixes(log)[i] == log[i].event.pos
    decreases |log|
  {
    if log != [] {
      forall i | 0 <= i < |log[1..]| ensures log[1..][i].event.Geo? {
        assert log[1..][i] == log[i + 1];
      }
      GeoOnlyRoute(log[1..]);
      var rest := GeoFixes(log[1..]);
      assert GeoFixes(log) == [log[0].event.pos] + rest;
      forall i | 0 < i < |log| ensures GeoFixes(log)[i] == log[i].event.pos {
        assert GeoFixes(log)[i] == rest[i - 1];
        assert log[1..][i - 1] == log[i];
      }
    }
  }

  /** The positions validate_coordinates accepts, in order. */
  function KeepValid(points: seq<Coord>): seq<Coord>
    decreases |points|
  {
    if points == [] then []
    else (if ValidateCoordinates(points[0]) then [points[0]] else []) + KeepValid(points[1..])
  }

  /** One entry of the log contributes its position, if it is a geo entry, ahead of the rest. */
  lemma GeoFixesStep(log: Timeline, i: nat)
    requires i < |log|
    ensures GeoFixes(log[i..]) == (if log[i].event.Geo? then [log[i].event.pos] else []) + GeoFixes(log[i + 1..])
  {
    assert log[i..][1..] == log[i + 1..];
  }

  /** get_car_route: an int value has no `.keys()`, so the exception is caught and the entry
      skipped; every dict value has a 'lat' key and is appended as [lat, lon]. */
  method GetCarRoute(parsedLog: Timeline) returns (parsedCoords: seq<Coord>)
    ensures parsedCoords == GeoFixes(parsedLog)
  {
    parsedCoords := [];
    for i := 0 to |parsedLog|
      invariant parsedCoords + GeoFixes(parsedLog[i..]) == GeoFixes(parsedLog)
    {
      GeoFixesStep(parsedLog, i);
      match parsedLog[i].event {
        case Geo(c) =>
          parsedCoords := parsedCoords + [c];
        case Switch(_) =>
          // `.keys()` of an int raises: skipped
      }
    }
  }

  /** The route keeps the placeholders the distance pass drops: filtering it through
      validate_coordinates gives exactly the valid fixes the accumulator charges. */
  lemma {:induction false} RouteFiltersToValidFixes(log: Timeline)
    ensures KeepValid(GeoFixes(log)) == ValidFixes(log)
    decreases |log|
  {
    if log != [] {
      RouteFiltersToValidFixes(log[1..]);
      var rest := GeoFixes(log[1..]);
      if log[0].event.Geo? {
        var c := log[0].event.pos;
        assert GeoFixes(log) == [c] + rest;
        assert ([c] + rest)[1..] == rest;
      } else {
        assert GeoFixes(log) == rest;
      }
    }
  }
}
