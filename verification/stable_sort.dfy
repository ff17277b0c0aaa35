/**
 * The reference stable sort, largest key first, that `Array.prototype.sort` performs
 * with a comparator of the shape `(a, b) => key(b) - key(a)` (the sort is stable
 * since ECMAScript 2019). It is written as an insertion sort: each element is
 * inserted after every element whose key is at least its own. The lemmas below
 * prove that its result is ordered, is a permutation of its input and keeps equal
 * keys in their input order, and that these three facts fix the result uniquely.
 */
module StableSort {

  /** Keys never increase from left to right. */
  ghost predicate SortedDesc<T>(s: seq<T>, key: T -> real)
  {
    forall i, j :: 0 <= i < j < |s| ==> key(s[i]) >= key(s[j])
  }

  /** The elements of `s` whose key is `k`, in their order in `s`. */
  function KeyFilter<T>(s: seq<T>, key: T -> real, k: real): seq<T>
  {
    if s == [] then []
    else KeyFilter(s[..|s| - 1], key, k) + (if key(s[|s| - 1]) == k then [s[|s| - 1]] else [])
  }

  /** `r` keeps every group of equal keys of `s` in the order `s` has it. */
  ghost predicate StableWrt<T>(r: seq<T>, s: seq<T>, key: T -> real)
  {
    forall k :: KeyFilter(r, key, k) == KeyFilter(s, key, k)
  }

  /** Inserts `x` into `t` after the last element whose key is at least `key(x)`. */
  function Insert<T>(t: seq<T>, x: T, key: T -> real): seq<T>
  {
    if t == [] || key(t[|t| - 1]) >= key(x) then t + [x]
    else Insert(t[..|t| - 1], x, key) + [t[|t| - 1]]
  }

  /** The stable descending sort of `s`. */
  function SortDesc<T>(s: seq<T>, key: T -> real): seq<T>
  {
    if s == [] then [] else Insert(SortDesc(s[..|s| - 1], key), s[|s| - 1], key)
  }

  /** `Insert` places `x` at the position `j` where the keys behind it are smaller. */
  lemma {:induction false} InsertAt<T>(t: seq<T>, x: T, key: T -> real, j: nat)
    requires j <= |t|
    requires j == 0 || key(t[j - 1]) >= key(x)
    requires forall m :: j <= m < |t| ==> key(t[m]) < key(x)
    ensures Insert(t, x, key) == t[..j] + [x] + t[j..]
    decreases |t|
  {
    if j == |t| {
      assert t[..j] == t && t[j..] == [];
    } else {
      var t' := t[..|t| - 1];
      assert key(t[|t| - 1]) < key(x);
      InsertAt(t', x, key, j);
      assert t'[..j] == t[..j];
      assert t'[j..] + [t[|t| - 1]] == t[j..];
    }
  }

  lemma {:induction false} InsertMultiset<T>(t: seq<T>, x: T, key: T -> real)
    ensures multiset(Insert(t, x, key)) == multiset(t) + multiset{x}
    decreases |t|
  {
    if t == [] || key(t[|t| - 1]) >= key(x) {
    } else {
      var t' := t[..|t| - 1];
      InsertMultiset(t', x, key);
      assert t == t' + [t[|t| - 1]];
    }
  }

  /** The result of the sort is a permutation of its input. */
  lemma {:induction false} SortDescPermutation<T>(s: seq<T>, key: T -> real)
    ensures multiset(SortDesc(s, key)) == multiset(s)
  {
    if s != [] {
      var s', x := s[..|s| - 1], s[|s| - 1];
      var u := SortDesc(s', key);
      assert SortDesc(s, key) == Insert(u, x, key);
      SortDescPermutation(s', key);
      InsertMultiset(u, x, key);
      assert s == s' + [x];
      assert multiset(s) == multiset(s') + multiset{x};
    }
  }

  lemma {:induction false} InsertSorted<T>(t: seq<T>, x: T, key: T -> real)
    requires SortedDesc(t, key)
    ensures SortedDesc(Insert(t, x, key), key)
    decreases |t|
  {
    if t == [] || key(t[|t| - 1]) >= key(x) {
      AppendSorted(t, x, key);
    } else {
      var t', last := t[..|t| - 1], t[|t| - 1];
      var u := Insert(t', x, key);
      assert Insert(t, x, key) == u + [last];
      SortedPrefix(t, key);
      InsertSorted(t', x, key);
      InsertMultiset(t', x, key);
      var z := u[|u| - 1];
      assert z in multiset(u);
      if z != x {
        assert z in multiset(t');
        assert z in t;
        LastIsSmallest(t, key, z);
      }
      AppendSorted(u, last, key);
    }
  }

  /** Appending an element no larger than the last keeps a list ordered. */
  lemma AppendSorted<T>(t: seq<T>, x: T, key: T -> real)
    requires SortedDesc(t, key) && (t == [] || key(t[|t| - 1]) >= key(x))
    ensures SortedDesc(t + [x], key)
  {
    var r := t + [x];
    forall i, j | 0 <= i < j < |r| ensures key(r[i]) >= key(r[j]) {
      assert r[i] == t[i];
      if j == |t| {
        if i < |t| - 1 {
          assert key(t[i]) >= key(t[|t| - 1]);
        }
      } else {
        assert r[j] == t[j];
      }
    }
  }

  /** The result of the sort is ordered, largest key first. */
  lemma {:induction false} SortDescSorted<T>(s: seq<T>, key: T -> real)
    ensures SortedDesc(SortDesc(s, key), key)
  {
    if s != [] {
      SortDescSorted(s[..|s| - 1], key);
      InsertSorted(SortDesc(s[..|s| - 1], key), s[|s| - 1], key);
    }
  }

  lemma {:induction false} KeyFilterAppend<T>(a: seq<T>, b: seq<T>, key: T -> real, k: real)
    ensures KeyFilter(a + b, key, k) == KeyFilter(a, key, k) + KeyFilter(b, key, k)
    decreases |b|
  {
    if b == [] {
      assert a + b == a;
    } else {
      var b' := b[..|b| - 1];
      KeyFilterAppend(a, b', key, k);
      assert (a + b)[..|a + b| - 1] == a + b';
    }
  }

  lemma {:induction false} InsertKeyFilter<T>(t: seq<T>, x: T, key: T -> real, k: real)
    ensures KeyFilter(Insert(t, x, key), key, k)
         == KeyFilter(t, key, k) + (if key(x) == k then [x] else [])
    decreases |t|
  {
    if t == [] || key(t[|t| - 1]) >= key(x) {
      KeyFilterAppend(t, [x], key, k);
      assert KeyFilter([x], key, k) == KeyFilter([], key, k) + (if key(x) == k then [x] else []) by {
        assert [x][..0] == [];
      }
    } else {
      var t' := t[..|t| - 1];
      var last := t[|t| - 1];
      var u := Insert(t', x, key);
      assert Insert(t, x, key) == u + [last];
      assert t == t' + [last];
      InsertKeyFilter(t', x, key, k);
      KeyFilterAppend(u, [last], key, k);
      KeyFilterAppend(t', [last], key, k);
      assert KeyFilter([last], key, k) == KeyFilter([], key, k) + (if key(last) == k then [last] else []) by {
        assert [last][..0] == [];
      }
    }
  }

  /** The sort is stable: records with equal keys keep their relative input order. */
  lemma {:induction false} SortDescStable<T>(s: seq<T>, key: T -> real)
    ensures StableWrt(SortDesc(s, key), s, key)
  {
    if s != [] {
      var s' := s[..|s| - 1];
      SortDescStable(s', key);
      forall k ensures KeyFilter(SortDesc(s, key), key, k) == KeyFilter(s, key, k) {
        InsertKeyFilter(SortDesc(s', key), s[|s| - 1], key, k);
      }
    }
  }

  /** Sorting a list that is already ordered, largest key first, leaves it as it is. */
  lemma {:induction false} SortDescOfSorted<T>(s: seq<T>, key: T -> real)
    requires SortedDesc(s, key)
    ensures SortDesc(s, key) == s
  {
    if s != [] {
      var s' := s[..|s| - 1];
      assert SortedDesc(s', key) by {
        forall i, j | 0 <= i < j < |s'| ensures key(s'[i]) >= key(s'[j]) {
          assert s'[i] == s[i] && s'[j] == s[j];
        }
      }
      SortDescOfSorted(s', key);
      if s' != [] {
        assert key(s'[|s'| - 1]) >= key(s[|s| - 1]);
      }
      assert s' + [s[|s| - 1]] == s;
    }
  }

  lemma {:induction false} KeyFilterMembers<T>(s: seq<T>, key: T -> real, k: real)
    ensures forall x :: x in KeyFilter(s, key, k) <==> x in s && key(x) == k
  {
    if s != [] {
      var s' := s[..|s| - 1];
      KeyFilterMembers(s', key, k);
      assert s == s' + [s[|s| - 1]];
    }
  }

  lemma SortedPrefix<T>(s: seq<T>, key: T -> real)
    requires SortedDesc(s, key) && s != []
    ensures SortedDesc(s[..|s| - 1], key)
  {
  }

  /** A non-empty list has a non-empty group: that of its first key. */
  lemma NonEmptyGroup<T>(r: seq<T>, key: T -> real)
    requires r != []
    ensures KeyFilter(r, key, key(r[0])) != []
  {
  }

  /** Ordered lists with the same groups end in the same element. */
  lemma SameGroupsSameLast<T>(r: seq<T>, q: seq<T>, key: T -> real)
    requires SortedDesc(r, key) && SortedDesc(q, key) && r != [] && q != []
    requires forall k :: KeyFilter(r, key, k) == KeyFilter(q, key, k)
    ensures r[|r| - 1] == q[|q| - 1]
  {
    var a, b := r[|r| - 1], q[|q| - 1];
    var fa, fb := KeyFilter(r, key, key(a)), KeyFilter(q, key, key(b));
    assert fa == KeyFilter(r[..|r| - 1], key, key(a)) + [a];
    assert fb == KeyFilter(q[..|q| - 1], key, key(b)) + [b];
    assert fa == KeyFilter(q, key, key(a)) && fb == KeyFilter(r, key, key(b));
    GroupMember(q, key, key(a), a);
    GroupMember(r, key, key(b), b);
    LastIsSmallest(q, key, a);
    LastIsSmallest(r, key, b);
    assert fa == fb;
  }

  /** A member of a group is an element of the list with that group's key. */
  lemma GroupMember<T>(s: seq<T>, key: T -> real, k: real, x: T)
    requires x in KeyFilter(s, key, k)
    ensures x in s && key(x) == k
  {
    KeyFilterMembers(s, key, k);
  }

  /** In an ordered list no element has a smaller key than the last one. */
  lemma LastIsSmallest<T>(s: seq<T>, key: T -> real, x: T)
    requires SortedDesc(s, key) && x in s
    ensures key(x) >= key(s[|s| - 1])
  {
    var i :| 0 <= i < |s| && s[i] == x;
    if i < |s| - 1 {
      assert key(s[i]) >= key(s[|s| - 1]);
    }
  }

  /** Dropping a common last element keeps the groups equal. */
  lemma SameGroupsOfPrefixes<T>(r: seq<T>, q: seq<T>, x: T, key: T -> real)
    requires forall k :: KeyFilter(r + [x], key, k) == KeyFilter(q + [x], key, k)
    ensures forall k :: KeyFilter(r, key, k) == KeyFilter(q, key, k)
  {
    forall k ensures KeyFilter(r, key, k) == KeyFilter(q, key, k) {
      var fr := KeyFilter(r + [x], key, k);
      assert (r + [x])[..|r|] == r && (q + [x])[..|q|] == q;
      var tail := if key(x) == k then [x] else [];
      assert fr == KeyFilter(r, key, k) + tail;
      assert fr == KeyFilter(q, key, k) + tail;
      assert KeyFilter(r, key, k) == fr[..|fr| - |tail|] == KeyFilter(q, key, k);
    }
  }

  /** Two ordered lists that agree on every group of equal keys are the same list. */
  lemma {:induction false} SortedSameGroupsEqual<T>(r: seq<T>, q: seq<T>, key: T -> real)
    requires SortedDesc(r, key) && SortedDesc(q, key)
    requires forall k :: KeyFilter(r, key, k) == KeyFilter(q, key, k)
    ensures r == q
    decreases |r|
  {
    if r == [] {
      if q != [] {
        NonEmptyGroup(q, key);
        assert false;
      }
    } else if q == [] {
      NonEmptyGroup(r, key);
      assert false;
    } else {
      SameGroupsSameLast(r, q, key);
      var r', q' := r[..|r| - 1], q[..|q| - 1];
      assert r == r' + [r[|r| - 1]] && q == q' + [r[|r| - 1]];
      SameGroupsOfPrefixes(r', q', r[|r| - 1], key);
      SortedPrefix(r, key);
      SortedPrefix(q, key);
      SortedSameGroupsEqual(r', q', key);
    }
  }

  /**
   * Any ordering of `s` that is sorted largest key first and stable is the reference
   * sort: whatever stable algorithm the runtime uses, its result is `SortDesc(s, key)`.
   */
  lemma SortDescUnique<T>(r: seq<T>, s: seq<T>, key: T -> real)
    requires SortedDesc(r, key) && StableWrt(r, s, key)
    ensures r == SortDesc(s, key)
  {
    SortDescSorted(s, key);
    SortDescStable(s, key);
    SortedSameGroupsEqual(r, SortDesc(s, key), key);
  }

  /** A list whose neighbours are in order is ordered. */
  lemma {:induction false} NeighboursSorted<T>(s: seq<T>, key: T -> real)
    requires forall i :: 0 < i < |s| ==> key(s[i - 1]) >= key(s[i])
    ensures SortedDesc(s, key)
    decreases |s|
  {
    if s != [] {
      var s' := s[..|s| - 1];
      NeighboursSorted(s', key);
      forall i, j | 0 <= i < j < |s| ensures key(s[i]) >= key(s[j]) {
        if j < |s| - 1 {
          assert s[i] == s'[i] && s[j] == s'[j];
        } else if i < j - 1 {
          assert key(s'[i]) >= key(s'[j - 1]);
        }
      }
    }
  }
}
