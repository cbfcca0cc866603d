/** Values shared by the parser, the calculator and the route extraction of log_analyzer.py. */
module LogTypes {

  /** The integer "ts" field of a log line (nanoseconds since the epoch). */
  type Timestamp = int

  datatype Option<T> = None | Some(value: T)

  /** A position fix: the {"lat": ..., "lon": ...} object of a geo line.
      Python floats are modelled as reals. */
  datatype Coord = Coord(lat: real, lon: real)

  /** A value held in the parsed log: an int (a control_switch_on value)
      or a geo object (a dict with lat and lon). */
  datatype Event = Switch(state: int) | Geo(pos: Coord)

  /** One entry of the parsed log, which the source keeps as a dict ordered by ts. */
  datatype Entry = Entry(ts: Timestamp, event: Event)

  type Timeline = seq<Entry>

  /** The two ways the calculation raises on a parsed log that the model keeps (a timestamp
      the clock conversion rejects and a fix the distance library rejects are not modelled). */
  datatype Failure =
    | NoGeoSeed        // the seed report indexes start_coords[0] while it is still None
    | UnboundDistance  // a switch event logs driven_distance before any valid fix assigned it

  datatype Result<T> = Ok(value: T) | Err(failure: Failure)
}
