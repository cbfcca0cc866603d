/** Properties of the accumulator of process_log that relate several runs or several steps. */
module CalculatorProperties {
  import opened LogTypes
  import opened LogFileCalculator
  import opened LogFileParser

  /** Running over a + b is running over a, then over b from where a left off (the boundary
      state carries the mode, the last position, the totals and driven_distance). */
  lemma {:induction false} RunSplit(s: AccState, a: Timeline, b: Timeline, dist: Distance)
    requires WellFormed(s)
    ensures Run(s, a + b, dist) == match Run(s, a, dist) { case Ok(t) => Run(t, b, dist) case Err(f) => Err(f) }
    decreases |a|
  {
    if a == [] {
      assert a + b == b;
    } else {
      assert (a + b)[0] == a[0];
      assert (a + b)[1..] == a[1..] + b;
      match Step(s, a[0], dist) {
        case Err(_) =>
        case Ok(next) => RunSplit(next, a[1..], b, dist);
      }
    }
  }

  /** A prefix of a run that completes also completes. */
  lemma PrefixRuns(s: AccState, log: Timeline, i: nat, dist: Distance)
    requires WellFormed(s) && i <= |log| && Run(s, log, dist).Ok?
    ensures Run(s, log[..i], dist).Ok?
    ensures Run(s, log, dist) == Run(Run(s, log[..i], dist).value, log[i..], dist)
  {
    assert log == log[..i] + log[i..];
    RunSplit(s, log[..i], log[i..], dist);
  }

  /** Given non-negative distances, neither total ever decreases. */
  lemma {:induction false} TotalsGrow(s: AccState, log: Timeline, dist: Distance)
    requires NonNegative(dist) && WellFormed(s) && Run(s, log, dist).Ok?
    ensures Run(s, log, dist).value.counter[Human] >= s.counter[Human]
    ensures Run(s, log, dist).value.counter[Autopilot] >= s.counter[Autopilot]
    decreases |log|
  {
    if log != [] {
      var next := Step(s, log[0], dist).value;
      TotalsGrow(next, log[1..], dist);
      if IsValidFix(log[0]) {
        assert dist(s.last, log[0].event.pos) >= 0.0;
      }
    }
  }

  /** Over the pass of process_log, each total at step i is at most the same total at any
      later step j. */
  lemma TotalsNonDecreasing(s: AccState, log: Timeline, i: nat, j: nat, dist: Distance)
    requires NonNegative(dist) && WellFormed(s) && i <= j <= |log| && Run(s, log, dist).Ok?
    ensures Run(s, log[..i], dist).Ok? && Run(s, log[..j], dist).Ok?
    ensures Run(s, log[..i], dist).value.counter[Human] <= Run(s, log[..j], dist).value.counter[Human]
    ensures Run(s, log[..i], dist).value.counter[Autopilot] <= Run(s, log[..j], dist).value.counter[Autopilot]
  {
    PrefixRuns(s, log, j, dist);
    var pre := log[..j];
    assert pre[..i] == log[..i];
    PrefixRuns(s, pre, i, dist);
    TotalsGrow(Run(s, log[..i], dist).value, pre[i..], dist);
  }

  const Placeholder: Coord := Coord(0.0, 0.0)

  /** A (0,0) fix, wherever it stands, changes neither the totals, nor the last position,
      nor anything else. */
  lemma PlaceholderFixInert(s: AccState, a: Timeline, b: Timeline, ts: Timestamp, dist: Distance)
    requires WellFormed(s)
    ensures Run(s, a + [Entry(ts, Geo(Placeholder))] + b, dist) == Run(s, a + b, dist)
  {
    var e := Entry(ts, Geo(Placeholder));
    assert a + [e] + b == a + ([e] + b);
    RunSplit(s, a, [e] + b, dist);
    RunSplit(s, a, b, dist);
    match Run(s, a, dist) {
      case Err(_) =>
      case Ok(t) =>
        assert ([e] + b)[1..] == b;
        assert Step(t, e, dist) == Ok(t);
    }
  }

  /** A switch event repeating the mode in effect leaves the whole state as it was, once
      driven_distance is bound: feeding the current state to check_switcher_state is idempotent. */
  lemma RepeatedSwitchInert(s: AccState, a: Timeline, b: Timeline, ts: Timestamp, dist: Distance)
    requires WellFormed(s) && Run(s, a, dist).Ok?
    requires Run(s, a, dist).value.switcher.Some? && Run(s, a, dist).value.drivenDistance.Some?
    ensures var v := Run(s, a, dist).value.switcher.value;
      Run(s, a + [Entry(ts, Switch(v))] + b, dist) == Run(s, a + b, dist)
  {
    var t := Run(s, a, dist).value;
    var e := Entry(ts, Switch(t.switcher.value));
    assert a + [e] + b == a + ([e] + b);
    RunSplit(s, a, [e] + b, dist);
    RunSplit(s, a, b, dist);
    assert ([e] + b)[1..] == b;
    assert Step(t, e, dist) == Ok(t);
  }

  // ---------------------------------------------------------------------------
  // Attribution to modes

  /** The value of the last switch entry of the log, or the seed when there is none. */
  function LatestSwitch(log: Timeline, seed: Option<int>): Option<int>
    decreases |log|
  {
    if log == [] then seed
    else if log[|log| - 1].event.Switch? then Some(log[|log| - 1].event.state)
    else LatestSwitch(log[..|log| - 1], seed)
  }

  /** The switcher in effect after a run is the most recent surviving switch value,
      or the seed if none has been seen. */
  lemma {:induction false} SwitcherIsLatest(s: AccState, log: Timeline, dist: Distance)
    requires WellFormed(s) && Run(s, log, dist).Ok?
    ensures Run(s, log, dist).value.switcher == LatestSwitch(log, s.switcher)
    decreases |log|
  {
    if log != [] {
      var n := |log| - 1;
      PrefixRuns(s, log, n, dist);
      SwitcherIsLatest(s, log[..n], dist);
      var t := Run(s, log[..n], dist).value;
      assert log[n..] == [log[n]];
      assert log[n..][1..] == [];
    }
  }

  /** Per-fix accounting: a valid fix at index i adds the distance from the last position
      to the bucket of the mode in effect when it is reached, leaves the other bucket alone
      and becomes the last position. */
  lemma FixAccounting(s: AccState, log: Timeline, i: nat, dist: Distance)
    requires WellFormed(s) && i < |log| && IsValidFix(log[i]) && Run(s, log[..i], dist).Ok?
    ensures var before := Run(s, log[..i], dist).value;
      var mode := ModeLabel(LatestSwitch(log[..i], s.switcher));
      var c := log[i].event.pos;
      && Run(s, log[..i + 1], dist).Ok?
      && Run(s, log[..i + 1], dist).value.counter[mode] == before.counter[mode] + dist(before.last, c)
      && Run(s, log[..i + 1], dist).value.counter[OtherMode(mode)] == before.counter[OtherMode(mode)]
      && Run(s, log[..i + 1], dist).value.last == c
  {
    assert log[..i + 1] == log[..i] + [log[i]];
    RunSplit(s, log[..i], [log[i]], dist);
    SwitcherIsLatest(s, log[..i], dist);
  }

  /** A log without switch events is charged entirely to `human` when the seed switcher is
      None or 0, and never fails. */
  lemma {:induction false} NoSwitchesAllHuman(s: AccState, log: Timeline, dist: Distance)
    requires WellFormed(s) && !Truthy(s.switcher)
    requires forall i :: 0 <= i < |log| ==> log[i].event.Geo?
    ensures Run(s, log, dist).Ok?
    ensures Run(s, log, dist).value.counter[Autopilot] == s.counter[Autopilot]
    ensures Run(s, log, dist).value.counter[Human] == s.counter[Human] + ChainSum(s.last, ValidFixes(log), dist)
    decreases |log|
  {
    if log != [] {
      assert log[0].event.Geo?;
      var next := Step(s, log[0], dist).value;
      forall i | 0 <= i < |log[1..]| ensures log[1..][i].event.Geo? {
        assert log[1..][i] == log[i + 1];
      }
      NoSwitchesAllHuman(next, log[1..], dist);
      if IsValidFix(log[0]) {
        assert ValidFixes(log) == [log[0].event.pos] + ValidFixes(log[1..]);
        assert ([log[0].event.pos] + ValidFixes(log[1..]))[1..] == ValidFixes(log[1..]);
      } else {
        assert ValidFixes(log) == ValidFixes(log[1..]);
      }
    }
  }

  /** Switch events only change attribution: two runs over logs with the same valid fixes,
      whatever their switch events and seed switchers, have the same grand total. */
  lemma SwitchesOnlyAttribute(log1: Timeline, log2: Timeline, seed1: Option<int>, seed2: Option<int>, geo: Coord, dist: Distance)
    requires ValidFixes(log1) == ValidFixes(log2)
    requires Run(InitialState(seed1, geo), log1, dist).Ok? && Run(InitialState(seed2, geo), log2, dist).Ok?
    ensures Total(Run(InitialState(seed1, geo), log1, dist).value) == Total(Run(InitialState(seed2, geo), log2, dist).value)
  {
    RunConserves(InitialState(seed1, geo), log1, dist);
    RunConserves(InitialState(seed2, geo), log2, dist);
  }

  // ---------------------------------------------------------------------------
  // A worked example

  lemma ThreeDistinct(a: Timestamp, b: Timestamp, c: Timestamp)
    requires a < b < c
    ensures |{a, b, c}| == 3
  {
    assert {a, b} == {a} + {b} && b !in {a};
    assert {a, b, c} == {a, b} + {c} && c !in {a, b};
  }

  lemma ThreeAscending(t0: Timestamp, t1: Timestamp, t2: Timestamp, a: Timestamp, b: Timestamp, c: Timestamp)
    requires a < b < c && t0 < t1 < t2
    requires t0 in {a, b, c} && t1 in {a, b, c} && t2 in {a, b, c}
    ensures t0 == a && t1 == b && t2 == c
  {
  }

  /** A merged log with three timestamps a < b < c is rebuilt as its three entries in that order. */
  lemma ThreeKeySequence(merged: map<Timestamp, Event>, a: Timestamp, b: Timestamp, c: Timestamp)
    requires merged.Keys == {a, b, c} && a < b < c
    ensures Sequence(merged) == [Entry(a, merged[a]), Entry(b, merged[b]), Entry(c, merged[c])]
  {
    ThreeDistinct(a, b, c);
    var log := Sequence(merged);
    assert |log| == 3;
    ThreeAscending(log[0].ts, log[1].ts, log[2].ts, a, b, c);
    assert log[0] == Entry(a, merged[a]);
    assert log[1] == Entry(b, merged[b]);
    assert log[2] == Entry(c, merged[c]);
  }

  /** The switch map {100: 0} merged with the geo map {100: (0,0), 200: (10,10),
      300: (10.001,10.001)} and sorted: the switch event at ts 100 is dropped, and the
      timeline holds the three geo entries in ts order. */
  lemma PlaceholderScenarioTimeline(switcher: map<Timestamp, int>, coords: map<Timestamp, Event>)
    requires switcher == map[100 := 0]
    requires coords == map[100 := Geo(Placeholder), 200 := Geo(Coord(10.0, 10.0)), 300 := Geo(Coord(10.001, 10.001))]
    ensures Sequence(Merge(switcher, coords))
         == [Entry(100, Geo(Placeholder)), Entry(200, Geo(Coord(10.0, 10.0))), Entry(300, Geo(Coord(10.001, 10.001)))]
  {
    assert Merge(switcher, coords) == coords;
    ThreeKeySequence(coords, 100, 200, 300);
  }

  /** The timeline PlaceholderScenarioTimeline builds: it holds no switch entry, so the
      seed switcher is None; the seed position is the (0,0) placeholder, and the first valid
      fix is charged its distance from (0,0). Both legs go to `human`. */
  lemma PlaceholderSeedIsCharged(dist: Distance)
    ensures var p200 := Coord(10.0, 10.0);
      var p300 := Coord(10.001, 10.001);
      var log := [Entry(100, Geo(Placeholder)), Entry(200, Geo(p200)), Entry(300, Geo(p300))];
      && FirstSwitch(log) == None
      && FirstCoords(log) == Some(Placeholder)
      && Run(InitialState(None, Placeholder), log, dist).Ok?
      && Run(InitialState(None, Placeholder), log, dist).value.counter[Human] == dist(Placeholder, p200) + dist(p200, p300)
      && Run(InitialState(None, Placeholder), log, dist).value.counter[Autopilot] == 0.0
  {
    var p200 := Coord(10.0, 10.0);
    var p300 := Coord(10.001, 10.001);
    var log := [Entry(100, Geo(Placeholder)), Entry(200, Geo(p200)), Entry(300, Geo(p300))];
    NoSwitchesAllHuman(InitialState(None, Placeholder), log, dist);
    var tail1 := [Entry(200, Geo(p200)), Entry(300, Geo(p300))];
    var tail2 := [Entry(300, Geo(p300))];
    assert log[1..] == tail1 && tail1[1..] == tail2 && tail2[1..] == [];
    assert FirstOf(tail2, SwitchValue) == FirstOf([], SwitchValue) == None;
    assert FirstOf(tail1, SwitchValue) == None;
    assert FirstSwitch(log) == None;
    assert ValidFixes(tail2) == [p300];
    assert ValidFixes(tail1) == [p200] + [p300];
    assert ValidFixes(log) == [p200, p300];
    assert [p200, p300][1..] == [p300];
    assert ChainSum(p200, [p300], dist) == dist(p200, p300) + ChainSum(p300, [], dist);
  }
}
