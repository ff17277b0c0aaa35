/**
 * The records the map visualises and the module-level constants of src/Map.jsx.
 * Timestamps are whole epoch milliseconds; coordinates and magnitudes are exact reals.
 */
module Records {

  /** Width of one sampling interval of the dataset: 30 minutes in milliseconds. */
  const TimeGap: int := 30 * 60000

  /** Milliseconds in a day. */
  const MsPerDay: int := 86400000

  /** The scrubber advance per animation frame that the map passes to its range controller. */
  const AnimationSpeed: int := MsPerDay / 24 / 30

  /** One row of the dataset. */
  datatype Record = Record(timestamp: int, latitude: real, longitude: real, magnitude: real)

  /** A record extended with its 1-based rank (1 = largest magnitude). */
  datatype Ranked = Ranked(record: Record, rank: int)

  /** The sort key of the ranking: the record's magnitude. */
  function Magnitude(r: Record): real
  {
    r.magnitude
  }

  /** The records of a ranked list with their ranks dropped. */
  function Unranked(rs: seq<Ranked>): seq<Record>
  {
    seq(|rs|, i requires 0 <= i < |rs| => rs[i].record)
  }
}
