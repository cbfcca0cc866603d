# Self-driving log analyzer: a Dafny model

This project models the core of `log_analyzer.py`. The analyzer reads a log of JSON lines
written by a car. A line either carries a `control_switch_on` value or a `geo` fix
(`{"lat": .., "lon": ..}`), and every line carries a nanosecond timestamp (`ts`).
The analyzer builds one timeline ordered by timestamp. It then splits the distance driven
between `human` and `autopilot` mode, and it extracts the route for the map.

The model follows the source's classes, one module each:

- `LogTypes` (`types.dfy`) holds the shared values:
  - timestamps, coordinates and events (an int switch value or a geo fix);
  - the timeline, a sequence of `(ts, event)` entries;
  - the two failures of the calculation that the model keeps.
- `LogFileParser` (`parser.dfy`) models `preprocess_log`:
  - each line goes to the switch map or the coords map by a substring test;
  - the two maps are merged, with the coords map winning;
  - the merged map is rebuilt as a timeline in ascending `ts` order.

  The method `PreprocessLog` keeps the source's loop and its two dictionaries. It is proved
  equal to the specification function `ParsedLog`.
- `LogFileCalculator` (`calculator.dfy`) models the rest of the calculation:
  - the static helpers;
  - the discovery of the seed values (`GetPlaceholderValues`, two passes as in the source);
  - the one-pass accumulator (`ProcessLog`), proved equal to the step function `Run`;
  - the two-row report and `run_calculation`.
- `CalculatorProperties` (`calculator_properties.dfy`) holds lemmas that relate several runs
  and several steps of the accumulator:
  - additivity over concatenation;
  - monotone totals;
  - placeholder fixes and repeated switch values leave the state alone;
  - attribution of each leg to the mode in effect;
  - a worked example.
- `DrawMap` (`draw_map.dfy`) models `get_car_route`. It returns the list of coordinates
  handed to the map.

Some of the source's inputs cannot be modelled directly, so they become parameters:

- JSON decoding becomes a `Decoder` parameter (a function from line to an optional pair of
  decoded values).
- Geodesic distance becomes a `Distance` parameter.

Two places where the source raises are modelled as explicit error results.

- `NoGeoSeed` covers the seed report at lines 161-162. That report indexes `start_coords[0]`
  while it is still `None`, which happens when the log has no geo entry.
- `UnboundDistance` covers the logging call at line 197. That call reads `driven_distance`
  before any valid fix has assigned it, which happens when a switch entry comes before the
  first valid fix.

Two behaviours of the source are easy to miss, and the model keeps both.

- **Merged log on a shared timestamp.** The merge is a dictionary union with the coords map
  second (line 87), so a switch event and a geo event with the same `ts` leave only the geo
  entry. The timeline therefore has one entry per distinct timestamp, and the switch value
  is lost (`SharedTimestampKeepsGeo`, `MergedLength`).
- **First leg of a log that opens with a (0,0) fix.** That (0,0) fix becomes the seed
  position (line 154). The first valid fix is then charged its distance from (0,0)
  (line 183). Nothing excludes that leg from the totals (`PlaceholderScenarioTimeline`,
  `PlaceholderSeedIsCharged`).

## Model

| member | source | states |
|---|---|---|
| LogFileParser.Contains | log_analyzer.py:73 | Python's substring test: true exactly when the marker occurs at some offset of the line |
| LogFileParser.SwitchEntry | log_analyzer.py:73-75 | a line writes the switch map exactly when it contains `control_switch_on`, decodes, and its first value is an int; it writes that int under the decoded ts |
| LogFileParser.CoordsEntry | log_analyzer.py:73-78 | a line writes the coords map exactly when it lacks `control_switch_on`, contains `geo` and decodes; the first decoded value is stored as is under its ts |
| LogFileParser.FillKeys | log_analyzer.py:71-83 | a ts is a key of a map built by the per-line loop exactly when some line writes it |
| LogFileParser.FillLastWrite | log_analyzer.py:71-83 | the value under a ts is the one written by the last line that writes that ts |
| LogFileParser.SwitchMapLastWrite | log_analyzer.py:73-75 | the switch map holds, for each ts, the int of the last switch line with that ts |
| LogFileParser.CoordsMapLastWrite | log_analyzer.py:76-78 | the coords map holds, for each ts, the value of the last geo line with that ts |
| LogFileParser.ClassifyLine | log_analyzer.py:72-83 | a switch-marked line never reaches the coords map; a line without the switch marker never reaches the switch map; an unmarked line or one whose decoding raises changes neither map |
| LogFileParser.Merge | log_analyzer.py:87 | the merged keys are the union of both maps; a coords value wins on a shared ts; other keys keep their switch value |
| LogFileParser.SortedKeys | log_analyzer.py:88 | `sorted` of the keys: strictly ascending, the same members, the same count |
| LogFileParser.Sequence | log_analyzer.py:88 | the rebuilt log is in ascending ts order, has one entry per key, and each entry carries the merged value of its ts |
| LogFileParser.SequenceCovers | log_analyzer.py:88 | every key of the merged map appears in the rebuilt log |
| LogFileParser.PreprocessLog | log_analyzer.py:65-91 | the loop over the lines and the merge-then-sort yield `ParsedLog`: ascending by ts, and a ts occurs exactly when some line put it in the switch or the coords map |
| LogFileParser.SharedTimestampKeepsGeo | log_analyzer.py:87-88 | a ts present in both maps occurs exactly once in the timeline, carrying the geo value |
| LogFileParser.MergedLength | log_analyzer.py:87-88 | timeline length plus number of shared timestamps equals the sizes of the two maps added |
| LogFileCalculator.ValidateCoordinates | log_analyzer.py:119-123 | `(lat or lon) == 0.0` rejects a fix exactly when both lat and lon are 0.0 |
| LogFileCalculator.CheckSwitcherState | log_analyzer.py:126-131 | the state after the check is always the line's state, whatever the current one |
| LogFileCalculator.ModeLabel | log_analyzer.py:176 | the bucket is `human` exactly when the switcher is None or 0, `autopilot` otherwise |
| LogFileCalculator.FirstOfAppend | log_analyzer.py:150-157 | the first value found in a + b is a's first, or b's first when a has none |
| LogFileCalculator.FirstOfIsFirst | log_analyzer.py:150-157 | the scan finds nothing exactly when no entry has the wanted kind, and otherwise returns the value at the lowest such index |
| LogFileCalculator.GetPlaceholderValues | log_analyzer.py:141-164 | the seeds are the first int and the first geo value of the log; a log without geo entries fails with NoGeoSeed, and only such a log |
| LogFileCalculator.InitialState | log_analyzer.py:168-169 | both totals start at zero; the seed mode and position are the given ones; driven_distance is unbound |
| LogFileCalculator.Step | log_analyzer.py:173-200 | one entry keeps exactly the two mode keys; it fails with UnboundDistance exactly when it is a switch entry and driven_distance is still unbound |
| LogFileCalculator.Run | log_analyzer.py:173-200 | a completed pass keeps exactly the two mode keys; the only failure it models is UnboundDistance |
| LogFileCalculator.RunConserves | log_analyzer.py:179-187 | the grand total grows by the chained distance over the valid fixes, starting at the seed; the last position is the last valid fix (or the seed) |
| LogFileCalculator.RunFails | log_analyzer.py:192-197 | from an unbound state, the pass fails exactly when a switch entry precedes every valid fix |
| LogFileCalculator.ProcessLog | log_analyzer.py:166-205 | the loop equals `Run` from the seeds; the counter has the two mode keys; human plus autopilot is the chained distance over the valid fixes from the seed; it fails exactly when a switch entry precedes the first valid fix |
| LogFileCalculator.GenerateReport | log_analyzer.py:138-139 | two rows, `human` then `autopilot`, each holding the counter's total for that mode |
| LogFileCalculator.RunCalculation | log_analyzer.py:207-219 | fails with NoGeoSeed exactly when the log has no geo entry, otherwise with UnboundDistance exactly when a switch entry precedes the first valid fix; on success the report is `GenerateReport` of the counter `Run` leaves from the first switch value and the first geo value, so each row carries that mode's total, and the two rows sum to the chained distance from the first geo value |
| CalculatorProperties.RunSplit | log_analyzer.py:173-200 | passing over a + b is passing over a and continuing over b from the state a left |
| CalculatorProperties.PrefixRuns | log_analyzer.py:173-200 | every prefix of a completed pass completes, and the pass resumes from the prefix's state |
| CalculatorProperties.TotalsGrow | log_analyzer.py:183-184 | with non-negative distances neither total decreases over a pass |
| CalculatorProperties.TotalsNonDecreasing | log_analyzer.py:183-184 | with non-negative distances each total after i entries is at most the same total after j >= i entries |
| CalculatorProperties.PlaceholderFixInert | log_analyzer.py:179-187 | inserting a (0,0) fix anywhere leaves the outcome of the pass unchanged |
| CalculatorProperties.RepeatedSwitchInert | log_analyzer.py:192-197 | inserting a switch entry with the value already in effect, once driven_distance is bound, leaves the outcome unchanged |
| CalculatorProperties.SwitcherIsLatest | log_analyzer.py:192-194 | the mode in effect after a pass is the last switch value seen, or the seed |
| CalculatorProperties.FixAccounting | log_analyzer.py:176-187 | a valid fix adds its leg to the bucket of the latest mode, leaves the other bucket alone and becomes the last position |
| CalculatorProperties.NoSwitchesAllHuman | log_analyzer.py:173-187 | a log of geo entries only, seeded with mode None or 0, never fails and charges everything to `human` |
| CalculatorProperties.SwitchesOnlyAttribute | log_analyzer.py:173-194 | two completed passes over logs with the same valid fixes from the same seed have the same grand total, whatever their switch entries |
| CalculatorProperties.ThreeKeySequence | log_analyzer.py:88 | a merged log with three timestamps a < b < c is rebuilt as exactly its three entries in ts order |
| CalculatorProperties.PlaceholderScenarioTimeline | log_analyzer.py:87-88 | merging the switch map {100: 0} with the geo map {100: (0,0), 200: (10,10), 300: (10.001,10.001)} drops the switch event and yields the three geo entries in ts order |
| CalculatorProperties.PlaceholderSeedIsCharged | log_analyzer.py:147-187 | for fixes (0,0), (10,10), (10.001,10.001) the seed is (0,0), the mode is `human`, and the first leg from (0,0) is charged |
| DrawMap.GeoFixes | log_analyzer.py:235-240 | the route is no longer than the log and holds exactly the positions of the geo entries |
| DrawMap.GeoOnlyRoute | log_analyzer.py:235-238 | on a log of geo entries only the route has one element per entry, each the position of the entry at the same index, repeats and (0,0) fixes included |
| DrawMap.GetCarRoute | log_analyzer.py:232-245 | the loop appends every geo entry's position in timeline order and skips int entries |
| DrawMap.RouteFiltersToValidFixes | log_analyzer.py:235-240 | filtering the route with validate_coordinates gives exactly the fixes the accumulator charges |

## Left out

- `download_file`, `parse_log` and the opening and reading of the file (lines 29-55, 66-71, 98-103) are network and file I/O. The model starts from the sequence of lines.
- The outer `try/except` of `preprocess_log` (lines 93-96) is left out. It returns None when the file cannot be read, which is I/O, and also when `sorted` at line 88 raises `TypeError` on keys that cannot be compared.
- A `ts` that is not an integer is not modelled: the `Decoder` always yields an int timestamp. In the source `json.loads` accepts a string or `null` under `ts`, and lines 74-78 store it without raising. If the log also holds an int `ts`, `sorted` at line 88 raises and `preprocess_log` returns None; if every `ts` is a string, `convert_time` raises at `ts // 10 ** 9` (lines 114, 177) and aborts `process_log`. One such record aborts the whole run, and the model has no such outcome: it can neither skip such a line nor give it an int timestamp faithfully.
- `json.loads` and the unpacking into two values is the `Decoder` parameter. A line that fails to decode, or decodes to other than two values, is a `None` and is skipped, as the per-line `except` does.
- A decoded geo value is stored whatever it is (line 78). Only ints and `{lat, lon}` objects are modelled as values. A string, list or other JSON value under `geo` is not modelled.
- The `'lat' in v.keys()` test of `get_car_route` (line 237) always holds for a modelled geo value.
- `int(switch)` (line 75) is modelled only for int values. An int-valued string or a float that `int()` would coerce is not modelled.
- `LogFileCalculator.ValidateCoordinates`: floats are reals. NaN and the sign of -0.0 are not modelled.
- `calculate_distance` (lines 133-135) is the `Distance` parameter. That includes the geopy call and the rounding to 5 decimals. The `Distance` parameter never fails, while geopy raises `ValueError` on a fix it rejects (a non-finite coordinate, or a latitude outside [-90, 90]) and so aborts the pass. The failure characterisations of `ProcessLog` and `RunCalculation` hold only for fixes geopy accepts.
- `ProcessLog`: float addition is modelled as exact real addition.
- `convert_time` (lines 112-116) is not modelled. It runs on every entry (line 177) and its result only feeds the log output, but `datetime.utcfromtimestamp(ts // 10**9)` raises for a timestamp outside the range `datetime` supports, which aborts `process_log`. The model has no failure for such a timestamp: `ProcessLog` and `RunCalculation` succeed on logs where the source raises there.
- Logging, the `monitor`, `line_cnt` and `time.monotonic` (lines 168, 171, 174, 189-190, 200-203) only produce diagnostics, and are not modelled. The logging call at lines 196-197 is modelled, because it raises `UnboundDistance`; its formatting is not.
- `LogFileCalculator.GenerateReport`: the pandas DataFrame is modelled as its sequence of (mode, total) rows.
- `DrawMap.GetCarRoute`: the pandas DataFrame is modelled as its sequence of rows.
- The source reads a fix positionally, through `.values()`, in three places: the seed position (line 154), both arguments of the distance (lines 183 and 187), and the route of `get_car_route` (line 238). The model assumes the decoded object lists `lat` before `lon`. A fix written with `lon` first is not modelled. `validate_coordinates` reads by key name (line 120), so key order does not affect it.
- The `try/except` inside `get_placeholder_values` (lines 152-159) can never fire for the modelled values, so it is not modelled.
- The polygon download, the map construction and the drawing (lines 247-374) are network, geometry and rendering code.
- `utils.py` (argument parsing, logging setup) and `runner.py` (wiring and CSV output) are not part of this model.
