/**
 * `getFilteredData` of src/Map.jsx: the ranked records whose timestamp lies in the
 * half-open window `[T - TimeGap / 2, T + TimeGap / 2)` around the filter time `T`,
 * in their input order. The input list is a value and is never changed.
 */
module TimeFilter {
  import opened Records

  /** Half the window width: 900 000 ms, exact since `TimeGap` is even. */
  const HalfWindow: int := TimeGap / 2

  /** The filter's test for one timestamp: lower bound kept, upper bound dropped. */
  predicate InWindow(ts: int, t: int)
  {
    t - HalfWindow <= ts < t + HalfWindow
  }

  /** `getFilteredData(data, t)`. */
  function GetFilteredData(data: seq<Ranked>, t: int): (r: seq<Ranked>)
    ensures |r| <= |data|
    ensures forall i :: 0 <= i < |r| ==> InWindow(r[i].record.timestamp, t)
  {
    if data == [] then []
    else
      var rest := GetFilteredData(data[1..], t);
      if InWindow(data[0].record.timestamp, t) then [data[0]] + rest else rest
  }

  /** `r` is `s` with some elements left out and the others in their order. */
  ghost predicate IsSubsequence<T>(r: seq<T>, s: seq<T>)
    decreases |s|
  {
    if r == [] then true
    else if s == [] then false
    else (r[0] == s[0] && IsSubsequence(r[1..], s[1..])) || IsSubsequence(r, s[1..])
  }

  /** The filter keeps the input order: its result is a subsequence of its input. */
  lemma {:induction false} FilterIsSubsequence(data: seq<Ranked>, t: int)
    ensures IsSubsequence(GetFilteredData(data, t), data)
  {
    if data != [] {
      FilterIsSubsequence(data[1..], t);
      var r := GetFilteredData(data, t);
      if !InWindow(data[0].record.timestamp, t) && r != [] {
        assert IsSubsequence(r, data[1..]);
      }
    }
  }

  /** Every record in the window is kept as often as it occurs; every other record is dropped. */
  lemma {:induction false} FilterCounts(data: seq<Ranked>, t: int)
    ensures forall x ::
              multiset(GetFilteredData(data, t))[x] == if InWindow(x.record.timestamp, t) then multiset(data)[x] else 0
  {
    if data != [] {
      FilterCounts(data[1..], t);
      assert data == [data[0]] + data[1..];
    }
  }

  /** The filter keeps exactly the records of `data` that lie in the window. */
  lemma FilterMembers(data: seq<Ranked>, t: int)
    ensures forall x :: x in GetFilteredData(data, t) <==> x in data && InWindow(x.record.timestamp, t)
  {
  }

  /** Filtering a concatenation filters each part. */
  lemma {:induction false} FilterAppend(a: seq<Ranked>, b: seq<Ranked>, t: int)
    ensures GetFilteredData(a + b, t) == GetFilteredData(a, t) + GetFilteredData(b, t)
  {
    if a == [] {
      assert a + b == b;
    } else {
      var x, a' := a[0], a[1..];
      var head := if InWindow(x.record.timestamp, t) then [x] else [];
      var fa', fb := GetFilteredData(a', t), GetFilteredData(b, t);
      FilterAppend(a', b, t);
      assert a == [x] + a';
      FilterCons(x, a', t);
      assert a + b == [x] + (a' + b);
      FilterCons(x, a' + b, t);
      assert head + (fa' + fb) == (head + fa') + fb;
    }
  }

  /** The filter on a list with a first element `x`. */
  lemma FilterCons(x: Ranked, s: seq<Ranked>, t: int)
    ensures GetFilteredData([x] + s, t)
         == (if InWindow(x.record.timestamp, t) then [x] else []) + GetFilteredData(s, t)
  {
    assert ([x] + s)[0] == x && ([x] + s)[1..] == s;
  }

  /** Applying the filter again with the same filter time changes nothing. */
  lemma {:induction false} FilterIdempotent(data: seq<Ranked>, t: int)
    ensures GetFilteredData(GetFilteredData(data, t), t) == GetFilteredData(data, t)
  {
    if data != [] {
      FilterIdempotent(data[1..], t);
      var rest := GetFilteredData(data[1..], t);
      if InWindow(data[0].record.timestamp, t) {
        assert ([data[0]] + rest)[1..] == rest;
      }
    }
  }

  /** Everything is kept exactly when every timestamp lies in the window. */
  lemma {:induction false} FilterKeepsAll(data: seq<Ranked>, t: int)
    ensures GetFilteredData(data, t) == data <==>
      forall i :: 0 <= i < |data| ==> InWindow(data[i].record.timestamp, t)
  {
    if data != [] {
      FilterKeepsAll(data[1..], t);
      if !InWindow(data[0].record.timestamp, t) {
        assert |GetFilteredData(data, t)| < |data|;
      } else {
        assert forall i :: 1 <= i < |data| ==> data[i] == data[1..][i - 1];
      }
    }
  }

  /** With filter time `t`, a record at `t - 900000` is kept and one at `t + 900000` is dropped. */
  lemma WindowBoundaries(lower: Ranked, upper: Ranked, t: int)
    requires lower.record.timestamp == t - 900000 && upper.record.timestamp == t + 900000
    ensures GetFilteredData([lower, upper], t) == [lower]
  {
    assert [lower, upper][1..] == [upper] && [upper][1..] == [];
  }
}
