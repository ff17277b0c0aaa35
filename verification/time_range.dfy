/**
 * `getTimeRange` of src/Map.jsx: one pass over the records that lowers the start of
 * the range to the earliest timestamp and raises its end to the latest
 * `timestamp + TimeGap`, starting from the pair `[Infinity, -Infinity]`.
 */
module TimeRange {
  import opened Wrappers
  import opened Records

  /** A number of the accumulator: a whole millisecond count or one of the two infinities. */
  datatype Bound = NegInfinity | Finite(ms: int) | PosInfinity

  /** The pair `[start, end]` that `getTimeRange` returns. */
  datatype Range = Range(start: Bound, end: Bound)

  /** `Math.min(b, v)` for a finite `v`. */
  function MinWith(b: Bound, v: int): (r: Bound)
    ensures b == NegInfinity ==> r == NegInfinity
    ensures b.Finite? ==> r.Finite? && r.ms <= b.ms && r.ms <= v && (r.ms == b.ms || r.ms == v)
    ensures b == PosInfinity ==> r == Finite(v)
  {
    match b
    case NegInfinity => NegInfinity
    case Finite(m) => Finite(if m <= v then m else v)
    case PosInfinity => Finite(v)
  }

  /** `Math.max(b, v)` for a finite `v`. */
  function MaxWith(b: Bound, v: int): (r: Bound)
    ensures b == PosInfinity ==> r == PosInfinity
    ensures b.Finite? ==> r.Finite? && r.ms >= b.ms && r.ms >= v && (r.ms == b.ms || r.ms == v)
    ensures b == NegInfinity ==> r == Finite(v)
  {
    match b
    case NegInfinity => Finite(v)
    case Finite(m) => Finite(if m >= v then m else v)
    case PosInfinity => PosInfinity
  }

  /**
   * `getTimeRange(data)`: `None` (the source's `null`) exactly when `data` is absent;
   * the seed `[Infinity, -Infinity]` for an empty list; otherwise the earliest timestamp
   * and the latest timestamp plus `TimeGap`, both attained by some record.
   */
  method GetTimeRange(data: Option<seq<Record>>) returns (range: Option<Range>)
    ensures range.None? <==> data.None?
    ensures data == Some([]) ==> range == Some(Range(PosInfinity, NegInfinity))
    ensures data.Some? && data.value != [] ==>
      range.Some? && range.value.start.Finite? && range.value.end.Finite? &&
      (forall i :: 0 <= i < |data.value| ==> range.value.start.ms <= data.value[i].timestamp) &&
      (exists i :: 0 <= i < |data.value| && range.value.start.ms == data.value[i].timestamp) &&
      (forall i :: 0 <= i < |data.value| ==> data.value[i].timestamp + TimeGap <= range.value.end.ms) &&
      (exists i :: 0 <= i < |data.value| && range.value.end.ms == data.value[i].timestamp + TimeGap) &&
      range.value.start.ms + TimeGap <= range.value.end.ms
  {
    if data.None? {
      return None;
    }
    var s := data.value;
    var lo, hi := PosInfinity, NegInfinity;
    var k := 0;
    while k < |s|
      invariant 0 <= k <= |s|
      invariant k == 0 ==> lo == PosInfinity && hi == NegInfinity
      invariant k > 0 ==> lo.Finite? && hi.Finite?
      invariant k > 0 ==> forall i :: 0 <= i < k ==> lo.ms <= s[i].timestamp
      invariant k > 0 ==> exists i :: 0 <= i < k && lo.ms == s[i].timestamp
      invariant k > 0 ==> forall i :: 0 <= i < k ==> s[i].timestamp + TimeGap <= hi.ms
      invariant k > 0 ==> exists i :: 0 <= i < k && hi.ms == s[i].timestamp + TimeGap
    {
      lo := MinWith(lo, s[k].timestamp);
      hi := MaxWith(hi, s[k].timestamp + TimeGap);
      k := k + 1;
    }
    range := Some(Range(lo, hi));
  }
}
