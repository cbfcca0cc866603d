/** LogFileParser.preprocess_log: routing raw lines into a switch map and a coords map,
    merging the two maps (geo wins) and rebuilding the result in ascending ts order. */
module LogFileParser {
  import opened LogTypes

  const SwitchMarker: string := "control_switch_on"
  const GeoMarker: string := "geo"

  /** The two values of a decoded JSON line, in the order `.values()` yields them. */
  datatype Decoded = Decoded(first: Event, ts: Timestamp)

  /** `json.loads(line).values()` unpacked into two names; None when either step raises. */
  type Decoder = string -> Option<Decoded>

  // ---------------------------------------------------------------------------
  // Substring test

  predicate OccursAt(s: string, sub: string, i: int) {
    0 <= i && i + |sub| <= |s| && s[i..i + |sub|] == sub
  }

  /** Python's `sub in s` on strings. */
  function Contains(s: string, sub: string): (b: bool)
    ensures b <==> exists i :: OccursAt(s, sub, i)
    decreases |s|
  {
    if |sub| > |s| then
      false
    else if s[..|sub|] == sub then
      assert OccursAt(s, sub, 0);
      true
    else
      var rest := Contains(s[1..], sub);
      assert forall i :: OccursAt(s[1..], sub, i) ==> OccursAt(s, sub, i + 1) by {
        forall i | OccursAt(s[1..], sub, i) ensures OccursAt(s, sub, i + 1) {
          assert s[1..][i..i + |sub|] == s[i + 1..i + 1 + |sub|];
        }
      }
      assert forall i :: OccursAt(s, sub, i) ==> OccursAt(s[1..], sub, i - 1) by {
        forall i | OccursAt(s, sub, i) ensures OccursAt(s[1..], sub, i - 1) {
          assert i != 0;
          assert s[1..][i - 1..i - 1 + |sub|] == s[i..i + |sub|];
        }
      }
      rest
  }

  // ---------------------------------------------------------------------------
  // Line classification (the body of the line loop)

  /** What a line contributes to the switch map: `switcher[ts] = int(switch)`.
      A line is routed here whenever it contains the switch marker; `int()` of a
      geo object raises, so only an int first value is kept. */
  function SwitchEntry(line: string, decode: Decoder): (w: Option<(Timestamp, int)>)
    ensures w.Some? <==> Contains(line, SwitchMarker) && decode(line).Some? && decode(line).value.first.Switch?
    ensures w.Some? ==> w.value == (decode(line).value.ts, decode(line).value.first.state)
  {
    if Contains(line, SwitchMarker) then
      match decode(line)
      case Some(Decoded(Switch(n), ts)) => Some((ts, n))
      case _ => None
    else
      None
  }

  /** What a line contributes to the coords map: `coords[ts] = geo`, whatever the first value is.
      The switch marker is tested first, so a line holding both markers never gets here. */
  function CoordsEntry(line: string, decode: Decoder): (w: Option<(Timestamp, Event)>)
    ensures w.Some? <==> !Contains(line, SwitchMarker) && Contains(line, GeoMarker) && decode(line).Some?
    ensures w.Some? ==> w.value == (decode(line).value.ts, decode(line).value.first)
  {
    if Contains(line, SwitchMarker) then
      None
    else if Contains(line, GeoMarker) then
      match decode(line)
      case Some(Decoded(v, ts)) => Some((ts, v))
      case None => None
    else
      None
  }

  /** The dict a line loop builds when each line writes at most one key: later writes win. */
  function Fill<V>(lines: seq<string>, decode: Decoder, pick: (string, Decoder) -> Option<(Timestamp, V)>): map<Timestamp, V>
    decreases |lines|
  {
    if lines == [] then
      map[]
    else
      var m := Fill(lines[..|lines| - 1], decode, pick);
      match pick(lines[|lines| - 1], decode)
      case None => m
      case Some((ts, v)) => m[ts := v]
  }

  predicate WritesAt<V>(lines: seq<string>, decode: Decoder, pick: (string, Decoder) -> Option<(Timestamp, V)>, i: int, ts: Timestamp)
    requires 0 <= i < |lines|
  {
    pick(lines[i], decode).Some? && pick(lines[i], decode).value.0 == ts
  }

  function SwitchMap(lines: seq<string>, decode: Decoder): map<Timestamp, int> {
    Fill(lines, decode, SwitchEntry)
  }

  function CoordsMap(lines: seq<string>, decode: Decoder): map<Timestamp, Event> {
    Fill(lines, decode, CoordsEntry)
  }

  /** A key is in the filled map exactly when some line wrote it. */
  lemma {:induction false} FillKeys<V>(lines: seq<string>, decode: Decoder, pick: (string, Decoder) -> Option<(Timestamp, V)>, ts: Timestamp)
    ensures ts in Fill(lines, decode, pick) <==> exists i :: 0 <= i < |lines| && WritesAt(lines, decode, pick, i, ts)
    decreases |lines|
  {
    if lines != [] {
      var n := |lines| - 1;
      var init := lines[..n];
      FillKeys(init, decode, pick, ts);
      forall i | 0 <= i < n ensures WritesAt(init, decode, pick, i, ts) <==> WritesAt(lines, decode, pick, i, ts) {
        assert init[i] == lines[i];
      }
      if pick(lines[n], decode).Some? && pick(lines[n], decode).value.0 == ts {
        assert WritesAt(lines, decode, pick, n, ts);
      }
    }
  }

  /** Within one map, the last line that writes a timestamp decides its value. */
  lemma {:induction false} FillLastWrite<V>(lines: seq<string>, decode: Decoder, pick: (string, Decoder) -> Option<(Timestamp, V)>, i: nat, ts: Timestamp, v: V)
    requires i < |lines| && pick(lines[i], decode) == Some((ts, v))
    requires forall j :: i < j < |lines| ==> !WritesAt(lines, decode, pick, j, ts)
    ensures ts in Fill(lines, decode, pick) && Fill(lines, decode, pick)[ts] == v
    decreases |lines|
  {
    var n := |lines| - 1;
    var init := lines[..n];
    if i < n {
      forall j | i < j < n ensures !WritesAt(init, decode, pick, j, ts) {
        assert init[j] == lines[j];
        assert !WritesAt(lines, decode, pick, j, ts);
      }
      assert init[i] == lines[i];
      FillLastWrite(init, decode, pick, i, ts, v);
      assert !WritesAt(lines, decode, pick, n, ts);
    }
  }

  // ---------------------------------------------------------------------------
  // Merge and sort (lines 87-88)

  /** `{**switcher, **coords}`: the union of both key sets; at a shared ts the coords value wins. */
  function Merge(switcher: map<Timestamp, int>, coords: map<Timestamp, Event>): (merged: map<Timestamp, Event>)
    ensures merged.Keys == switcher.Keys + coords.Keys
    ensures forall ts :: ts in coords ==> merged[ts] == coords[ts]
    ensures forall ts :: ts in switcher && ts !in coords ==> merged[ts] == Switch(switcher[ts])
  {
    map ts | ts in switcher.Keys + coords.Keys :: if ts in coords then coords[ts] else Switch(switcher[ts])
  }

  lemma NonEmptyHasMember(keys: set<Timestamp>)
    requires keys != {}
    ensures exists x :: x in keys
  {
    if forall x :: x !in keys {
      assert false;
    }
  }

  lemma {:induction false} MinExists(keys: set<Timestamp>)
    requires keys != {}
    ensures exists m :: m in keys && forall k :: k in keys ==> m <= k
    decreases keys
  {
    NonEmptyHasMember(keys);
    var x :| x in keys;
    if keys == {x} {
      assert forall k :: k in keys ==> x <= k;
    } else {
      var others := keys - {x};
      MinExists(others);
      var y :| y in others && forall k :: k in others ==> y <= k;
      var m := if x <= y then x else y;
      forall k | k in keys ensures m <= k {
        if k != x { assert k in others; }
      }
      assert m in keys;
    }
  }

  /** The least timestamp of a non-empty set. */
  function Min(keys: set<Timestamp>): (m: Timestamp)
    requires keys != {}
    ensures m in keys && forall k :: k in keys ==> m <= k
  {
    MinExists(keys);
    var m :| m in keys && forall k :: k in keys ==> m <= k;
    m
  }

  predicate StrictlyAscending(s: seq<Timestamp>) {
    forall i, j :: 0 <= i < j < |s| ==> s[i] < s[j]
  }

  /** `sorted(merged_log.keys())`. */
  function SortedKeys(keys: set<Timestamp>): (sorted: seq<Timestamp>)
    ensures StrictlyAscending(sorted)
    ensures forall ts :: ts in keys <==> ts in sorted
    ensures |sorted| == |keys|
    decreases keys
  {
    if keys == {} then
      []
    else
      var least := Min(keys);
      var rest := SortedKeys(keys - {least});
      assert forall j :: 0 <= j < |rest| ==> least < rest[j] by {
        forall j | 0 <= j < |rest| ensures least < rest[j] {
          assert rest[j] in keys - {least};
        }
      }
      [least] + rest
  }

  predicate AscendingTs(log: Timeline) {
    forall i, j :: 0 <= i < j < |log| ==> log[i].ts < log[j].ts
  }

  /** The entries `(key, merged[key])` for the given keys, in the given order. */
  function EntriesOf(keys: seq<Timestamp>, merged: map<Timestamp, Event>): (log: Timeline)
    requires forall i :: 0 <= i < |keys| ==> keys[i] in merged
    ensures |log| == |keys|
    ensures forall i :: 0 <= i < |log| ==> log[i].ts == keys[i] && log[i].event == merged[keys[i]]
  {
    if keys == [] then [] else [Entry(keys[0], merged[keys[0]])] + EntriesOf(keys[1..], merged)
  }

  lemma EntriesAscending(keys: seq<Timestamp>, merged: map<Timestamp, Event>)
    requires forall i :: 0 <= i < |keys| ==> keys[i] in merged
    requires StrictlyAscending(keys)
    ensures AscendingTs(EntriesOf(keys, merged))
  {
    var log := EntriesOf(keys, merged);
    forall i, j | 0 <= i < j < |log| ensures log[i].ts < log[j].ts {
      assert log[i].ts == keys[i] && log[j].ts == keys[j];
    }
  }

  /** `{key: merged_log[key] for key in sorted(merged_log.keys())}` as an ordered entry list. */
  function Sequence(merged: map<Timestamp, Event>): (log: Timeline)
    ensures AscendingTs(log)
    ensures |log| == |merged.Keys|
    ensures forall i :: 0 <= i < |log| ==> log[i].ts in merged && log[i].event == merged[log[i].ts]
  {
    var keys := SortedKeys(merged.Keys);
    assert forall i :: 0 <= i < |keys| ==> keys[i] in merged by {
      forall i | 0 <= i < |keys| ensures keys[i] in merged {
        assert keys[i] in keys;
      }
    }
    var log := EntriesOf(keys, merged);
    assert AscendingTs(log) by {
      EntriesAscending(keys, merged);
    }
    log
  }

  /** Every key of the merged dict has an entry in the sequence. */
  lemma SequenceCovers(merged: map<Timestamp, Event>, ts: Timestamp)
    requires ts in merged
    ensures exists i :: 0 <= i < |Sequence(merged)| && Sequence(merged)[i].ts == ts
  {
    var keys := SortedKeys(merged.Keys);
    var i :| 0 <= i < |keys| && keys[i] == ts;
    assert Sequence(merged)[i].ts == ts;
  }

  /** The value preprocess_log returns for a file whose lines are `lines`. */
  function ParsedLog(lines: seq<string>, decode: Decoder): Timeline {
    Sequence(Merge(SwitchMap(lines, decode), CoordsMap(lines, decode)))
  }

  /** preprocess_log, after the file is read: the line loop fills both dicts in place,
      a line that raises while decoding is skipped, then the dicts are merged and sorted. */
  method PreprocessLog(lines: seq<string>, decode: Decoder) returns (sequence: Timeline)
    ensures sequence == ParsedLog(lines, decode)
    ensures AscendingTs(sequence)
    ensures forall ts :: (exists i :: 0 <= i < |sequence| && sequence[i].ts == ts) <==>
                         ts in SwitchMap(lines, decode) || ts in CoordsMap(lines, decode)
  {
    var switcher: map<Timestamp, int> := map[];
    var coords: map<Timestamp, Event> := map[];
    for i := 0 to |lines|
      invariant switcher == SwitchMap(lines[..i], decode)
      invariant coords == CoordsMap(lines[..i], decode)
    {
      assert lines[..i + 1][..i] == lines[..i];
      var line := lines[i];
      if Contains(line, SwitchMarker) {
        match decode(line) {
          case Some(Decoded(Switch(n), ts)) =>
            switcher := switcher[ts := n];
          case _ =>
            // json.loads or int() raised: the line is skipped
        }
      } else if Contains(line, GeoMarker) {
        match decode(line) {
          case Some(Decoded(geo, ts)) =>
            coords := coords[ts := geo];
          case None =>
            // json.loads raised: the line is skipped
        }
      }
      // any other line is skipped
    }
    assert lines[..|lines|] == lines;
    var merged := Merge(switcher, coords);
    sequence := Sequence(merged);
    forall ts ensures (exists i :: 0 <= i < |sequence| && sequence[i].ts == ts) <==> ts in merged {
      if ts in merged {
        SequenceCovers(merged, ts);
      }
    }
  }

  // ---------------------------------------------------------------------------
  // Properties of classification and merge

  /** A line carrying the switch marker never reaches the coords map, even when it also
      contains "geo"; a line whose decoding fails reaches neither map. */
  lemma ClassifyLine(lines: seq<string>, line: string, decode: Decoder)
    ensures Contains(line, SwitchMarker) ==> CoordsMap(lines + [line], decode) == CoordsMap(lines, decode)
    ensures !Contains(line, SwitchMarker) ==> SwitchMap(lines + [line], decode) == SwitchMap(lines, decode)
    ensures !Contains(line, SwitchMarker) && !Contains(line, GeoMarker) ==>
              CoordsMap(lines + [line], decode) == CoordsMap(lines, decode)
    ensures decode(line).None? ==>
              SwitchMap(lines + [line], decode) == SwitchMap(lines, decode) &&
              CoordsMap(lines + [line], decode) == CoordsMap(lines, decode)
  {
    assert (lines + [line])[..|lines|] == lines;
  }

  /** The switch map holds, under a timestamp, the value of the last switch-marked line that
      decoded to an int under it (which timestamps are keys at all is FillKeys). */
  lemma SwitchMapLastWrite(lines: seq<string>, decode: Decoder, i: nat, ts: Timestamp, n: int)
    requires i < |lines| && Contains(lines[i], SwitchMarker) && decode(lines[i]) == Some(Decoded(Switch(n), ts))
    requires forall j :: i < j < |lines| ==> !WritesAt(lines, decode, SwitchEntry, j, ts)
    ensures ts in SwitchMap(lines, decode) && SwitchMap(lines, decode)[ts] == n
  {
    FillLastWrite(lines, decode, SwitchEntry, i, ts, n);
  }

  /** The same for the coords map and geo-marked lines. */
  lemma CoordsMapLastWrite(lines: seq<string>, decode: Decoder, i: nat, ts: Timestamp, v: Event)
    requires i < |lines| && !Contains(lines[i], SwitchMarker) && Contains(lines[i], GeoMarker)
    requires decode(lines[i]) == Some(Decoded(v, ts))
    requires forall j :: i < j < |lines| ==> !WritesAt(lines, decode, CoordsEntry, j, ts)
    ensures ts in CoordsMap(lines, decode) && CoordsMap(lines, decode)[ts] == v
  {
    FillLastWrite(lines, decode, CoordsEntry, i, ts, v);
  }

  /** At a timestamp present in both dicts the sorted merge holds exactly one entry for it,
      at index i, and it carries the coords value; the switch event is lost. */
  lemma SharedTimestampKeepsGeo(switcher: map<Timestamp, int>, coords: map<Timestamp, Event>, ts: Timestamp) returns (i: nat)
    requires ts in switcher && ts in coords
    ensures i < |Sequence(Merge(switcher, coords))|
    ensures Sequence(Merge(switcher, coords))[i] == Entry(ts, coords[ts])
    ensures forall j :: 0 <= j < |Sequence(Merge(switcher, coords))| && j != i ==> Sequence(Merge(switcher, coords))[j].ts != ts
  {
    var merged := Merge(switcher, coords);
    var log := Sequence(merged);
    SequenceCovers(merged, ts);
    i :| 0 <= i < |log| && log[i].ts == ts;
    assert log[i] == Entry(ts, coords[ts]);
    forall j | 0 <= j < |log| && j != i ensures log[j].ts != ts {
      if j < i { assert log[j].ts < log[i].ts; } else { assert log[i].ts < log[j].ts; }
    }
  }

  /** The sorted merge has one entry per distinct timestamp: a timestamp shared by both
      dicts costs one entry. */
  lemma MergedLength(switcher: map<Timestamp, int>, coords: map<Timestamp, Event>)
    ensures |Sequence(Merge(switcher, coords))| + |switcher.Keys * coords.Keys| == |switcher.Keys| + |coords.Keys|
  {
  }
}
