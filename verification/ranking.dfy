/**
 * `getRankedDensity` of src/Map.jsx: sort the records in place by magnitude,
 * largest first (stably), then tag each with its 1-based position as its rank.
 */
module Ranking {
  import opened Records
  import opened StableSort

  /** The ranked list `getRankedDensity` returns for the records `s`. */
  function RankedOf(s: seq<Record>): seq<Ranked>
  {
    var sorted := SortDesc(s, Magnitude);
    seq(|sorted|, i requires 0 <= i < |sorted| => Ranked(sorted[i], i + 1))
  }

  /**
   * `data.sort((a, b) => b.magnitude - a.magnitude)`: reorders the caller's array in
   * place into the stable descending order by magnitude.
   */
  method SortByMagnitude(a: array<Record>)
    modifies a
    ensures a[..] == SortDesc(old(a[..]), Magnitude)
  {
    ghost var s := a[..];
    var i := 0;
    while i < a.Length
      invariant 0 <= i <= a.Length
      invariant a[..i] == SortDesc(s[..i], Magnitude)
      invariant a[i..] == s[i..]
    {
      assert s[..i + 1] == s[..i] + [s[i]];
      InsertNext(a, i);
      i := i + 1;
    }
    assert a[..] == a[..a.Length] && s == s[..a.Length];
  }

  /** One step of the sort: moves `a[i]` back into the sorted prefix `a[..i]`. */
  method InsertNext(a: array<Record>, i: nat)
    requires i < a.Length
    modifies a
    ensures a[..i + 1] == Insert(old(a[..i]), old(a[i]), Magnitude)
    ensures a[i + 1..] == old(a[i + 1..])
  {
    ghost var t := a[..i];
    var x := a[i];
    var j := i;
    while j > 0 && a[j - 1].magnitude < x.magnitude
      invariant 0 <= j <= i
      invariant forall m :: 0 <= m < j ==> a[m] == t[m]
      invariant forall m :: j < m <= i ==> a[m] == t[m - 1]
      invariant forall m :: j <= m < i ==> Magnitude(t[m]) < Magnitude(x)
      invariant a[i + 1..] == old(a[i + 1..])
    {
      a[j] := a[j - 1];
      j := j - 1;
    }
    a[j] := x;
    InsertAt(t, x, Magnitude, j);
    assert a[..i + 1] == t[..j] + [x] + t[j..];
  }

  /**
   * `getRankedDensity(data)`: sorts `data` in place and returns the ranked records
   * with the number of records.
   */
  method GetRankedDensity(data: array<Record>) returns (ranked: seq<Ranked>, length: nat)
    modifies data
    ensures data[..] == SortDesc(old(data[..]), Magnitude)
    ensures ranked == RankedOf(old(data[..]))
    ensures length == data.Length == |ranked|
  {
    SortByMagnitude(data);
    ranked := seq(data.Length, i requires 0 <= i < data.Length reads data => Ranked(data[i], i + 1));
    length := data.Length;
  }

  /** Ranks are 1..N in output order, N is the number of records, and the records are the sorted input. */
  lemma RanksDense(s: seq<Record>)
    ensures |RankedOf(s)| == |s|
    ensures forall i :: 0 <= i < |s| ==> RankedOf(s)[i].rank == i + 1
    ensures Unranked(RankedOf(s)) == SortDesc(s, Magnitude)
  {
    SortDescPermutation(s, Magnitude);
    assert |multiset(SortDesc(s, Magnitude))| == |multiset(s)|;
  }

  /** A lower rank number never carries a smaller magnitude. */
  lemma RankedByMagnitude(s: seq<Record>)
    ensures forall i, j :: 0 <= i < j < |RankedOf(s)| ==>
      RankedOf(s)[i].record.magnitude >= RankedOf(s)[j].record.magnitude
  {
    SortDescSorted(s, Magnitude);
  }

  /** The ranked records are the input records, each exactly as often, with only `rank` added. */
  lemma RankedPermutation(s: seq<Record>)
    ensures multiset(Unranked(RankedOf(s))) == multiset(s)
  {
    RanksDense(s);
    SortDescPermutation(s, Magnitude);
  }

  /** Records of equal magnitude keep their input order. */
  lemma RankedStable(s: seq<Record>)
    ensures StableWrt(Unranked(RankedOf(s)), s, Magnitude)
  {
    RanksDense(s);
    SortDescStable(s, Magnitude);
  }

  /** The record of rank 1 has the largest magnitude. */
  lemma RankOneIsLargest(s: seq<Record>)
    requires s != []
    ensures RankedOf(s)[0].rank == 1
    ensures forall x :: x in s ==> RankedOf(s)[0].record.magnitude >= x.magnitude
  {
    var r := SortDesc(s, Magnitude);
    RanksDense(s);
    SortDescSorted(s, Magnitude);
    SortDescPermutation(s, Magnitude);
    forall x | x in s ensures r[0].magnitude >= x.magnitude {
      assert x in multiset(r);
      var j :| 0 <= j < |r| && r[j] == x;
    }
  }

  /** Among records of the largest magnitude, rank 1 goes to the one that comes first in the input. */
  lemma RankOneIsFirstOfLargest(s: seq<Record>)
    requires s != []
    ensures var m := RankedOf(s)[0].record.magnitude;
      KeyFilter(s, Magnitude, m) != [] && KeyFilter(s, Magnitude, m)[0] == RankedOf(s)[0].record
  {
    var r := SortDesc(s, Magnitude);
    RanksDense(s);
    SortDescStable(s, Magnitude);
    var m := r[0].magnitude;
    assert KeyFilter(r, Magnitude, m) == KeyFilter(s, Magnitude, m);
    FirstOfGroup(r, m);
  }

  /** In a list whose first element has key `m`, that element heads the group of `m`. */
  lemma {:induction false} FirstOfGroup(r: seq<Record>, m: real)
    requires r != [] && r[0].magnitude == m
    ensures KeyFilter(r, Magnitude, m) != [] && KeyFilter(r, Magnitude, m)[0] == r[0]
    decreases |r|
  {
    if |r| > 1 {
      FirstOfGroup(r[..|r| - 1], m);
      assert r[..|r| - 1][..|r| - 2] == r[..|r| - 2];
    } else {
      assert r[..0] == [];
    }
  }

  /** Whatever stable sort the runtime uses, `data.sort` leaves the array as `SortByMagnitude` does. */
  lemma AnyStableSortAgrees(r: seq<Record>, s: seq<Record>)
    requires SortedDesc(r, Magnitude) && StableWrt(r, s, Magnitude)
    ensures r == Unranked(RankedOf(s))
  {
    SortDescUnique(r, s, Magnitude);
    RanksDense(s);
  }

  /** Magnitudes [5, 1, 3] are ranked 5 -> 1, 3 -> 2, 1 -> 3. */
  lemma RankingExample(a: Record, b: Record, c: Record)
    requires a.magnitude == 5.0 && b.magnitude == 1.0 && c.magnitude == 3.0
    ensures RankedOf([a, b, c]) == [Ranked(a, 1), Ranked(c, 2), Ranked(b, 3)]
  {
    assert [a, b, c][..2] == [a, b] && [a, b][..1] == [a] && [a][..0] == [];
    assert SortDesc([a], Magnitude) == Insert([], a, Magnitude) == [a];
    assert SortDesc([a, b], Magnitude) == Insert([a], b, Magnitude) == [a, b];
    assert [a, b][..1] == [a];
    assert Insert([a], c, Magnitude) == [a, c];
    assert SortDesc([a, b, c], Magnitude) == Insert([a, b], c, Magnitude) == [a, c, b];
  }
}
