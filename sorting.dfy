/** Python's built-in `sorted(s, key=k)`: a stable sort. The script also
    calls it with `reverse=True`, which Python keeps stable as well, so
    that call is an ascending sort on the negated key. */
module Sorting {
  import opened Seqs

  predicate SortedBy<T>(s: seq<T>, key: T -> int) {
    forall i, j :: 0 <= i < j < |s| ==> key(s[i]) <= key(s[j])
  }

  /** The elements of `s` whose key is `k`, in their order in `s`. */
  function WithKey<T(!new)>(s: seq<T>, key: T -> int, k: int): seq<T> {
    Filter(s, KeyIs(key, k))
  }

  function KeyIs<T>(key: T -> int, k: int): T -> bool {
    x => key(x) == k
  }

  /** Places `x` after every element of the sorted `s` whose key is not
      larger than its own. */
  function InsertLast<T(!new)>(x: T, s: seq<T>, key: T -> int): (r: seq<T>)
    requires SortedBy(s, key)
    ensures |r| == |s| + 1
    ensures multiset(r) == multiset(s) + multiset{x}
    ensures SortedBy(r, key)
  {
    if s == [] || key(s[|s| - 1]) <= key(x) then s + [x]
    else
      var init, last := s[..|s| - 1], s[|s| - 1];
      assert s == init + [last];
      var r' := InsertLast(x, init, key);
      BoundedByLast(r', init, x, last, key);
      SortedSnoc(r', last, key);
      r' + [last]
  }

  lemma BoundedByLast<T>(r: seq<T>, s: seq<T>, x: T, last: T, key: T -> int)
    requires multiset(r) == multiset(s) + multiset{x}
    requires forall j :: 0 <= j < |s| ==> key(s[j]) <= key(last)
    requires key(x) <= key(last)
    ensures forall i :: 0 <= i < |r| ==> key(r[i]) <= key(last)
  {
    forall i | 0 <= i < |r|
      ensures key(r[i]) <= key(last)
    {
      assert r[i] in multiset(r);
      if r[i] != x {
        assert r[i] in multiset(s);
        var j :| 0 <= j < |s| && s[j] == r[i];
      }
    }
  }

  lemma SortedSnoc<T>(s: seq<T>, x: T, key: T -> int)
    requires SortedBy(s, key)
    requires forall i :: 0 <= i < |s| ==> key(s[i]) <= key(x)
    ensures SortedBy(s + [x], key)
  {
  }

  /** `sorted(s, key=key)`: insertion sort, each element placed after the
      ones before it that have an equal key. */
  function SortBy<T(!new)>(s: seq<T>, key: T -> int): (r: seq<T>)
    ensures |r| == |s|
    ensures multiset(r) == multiset(s)
    ensures SortedBy(r, key)
  {
    if s == [] then []
    else
      assert s == s[..|s| - 1] + [s[|s| - 1]];
      InsertLast(s[|s| - 1], SortBy(s[..|s| - 1], key), key)
  }

  lemma {:induction false} InsertLastWithKey<T(!new)>(x: T, s: seq<T>, key: T -> int, k: int)
    requires SortedBy(s, key)
    ensures WithKey(InsertLast(x, s, key), key, k) == WithKey(s, key, k) + (if key(x) == k then [x] else [])
  {
    if s == [] || key(s[|s| - 1]) <= key(x) {
      WithKeySnoc(s, x, key, k);
    } else {
      var init, last := s[..|s| - 1], s[|s| - 1];
      assert s == init + [last];
      InsertLastWithKey(x, init, key, k);
      WithKeyPastLarger(InsertLast(x, init, key), init, x, last, key, k);
    }
  }

  lemma WithKeySnoc<T(!new)>(s: seq<T>, x: T, key: T -> int, k: int)
    ensures WithKey(s + [x], key, k) == WithKey(s, key, k) + (if key(x) == k then [x] else [])
  {
    FilterAppend(s, [x], KeyIs(key, k));
    FilterSingleton(x, KeyIs(key, k));
  }

  /** Appending `last`, whose key exceeds that of `x`, to a sequence that
      differs from `init` only by an `x` leaves them differing only by `x`. */
  lemma WithKeyPastLarger<T(!new)>(r: seq<T>, init: seq<T>, x: T, last: T, key: T -> int, k: int)
    requires WithKey(r, key, k) == WithKey(init, key, k) + (if key(x) == k then [x] else [])
    requires key(x) < key(last)
    ensures WithKey(r + [last], key, k) == WithKey(init + [last], key, k) + (if key(x) == k then [x] else [])
  {
    WithKeySnoc(r, last, key, k);
    WithKeySnoc(init, last, key, k);
    if key(x) == k {
      assert key(last) != k;
    }
  }

  /** Stability: for every key value, the elements carrying it leave the
      sort in the order they entered it. */
  lemma {:induction false} SortByStable<T(!new)>(s: seq<T>, key: T -> int, k: int)
    ensures WithKey(SortBy(s, key), key, k) == WithKey(s, key, k)
  {
    if s != [] {
      var init, last := s[..|s| - 1], s[|s| - 1];
      assert s == init + [last];
      SortByStable(init, key, k);
      InsertLastWithKey(last, SortBy(init, key), key, k);
      WithKeySnoc(init, last, key, k);
    }
  }

  /** The sort only looks at the keys of the elements it is given. */
  lemma {:induction false} SortByKeyAgreement<T(!new)>(s: seq<T>, key1: T -> int, key2: T -> int)
    requires forall x :: x in s ==> key1(x) == key2(x)
    ensures SortBy(s, key1) == SortBy(s, key2)
  {
    if s != [] {
      var init, last := s[..|s| - 1], s[|s| - 1];
      assert s == init + [last];
      SortByKeyAgreement(init, key1, key2);
      var sorted := SortBy(init, key1);
      forall y | y in sorted
        ensures key1(y) == key2(y)
      {
        assert y in multiset(sorted);
      }
      InsertLastKeyAgreement(last, sorted, key1, key2);
      assert SortBy(s, key1) == InsertLast(last, sorted, key1);
      assert SortBy(s, key2) == InsertLast(last, sorted, key2);
    }
  }

  lemma {:induction false} InsertLastKeyAgreement<T(!new)>(x: T, s: seq<T>, key1: T -> int, key2: T -> int)
    requires SortedBy(s, key1) && SortedBy(s, key2)
    requires key1(x) == key2(x)
    requires forall y :: y in s ==> key1(y) == key2(y)
    ensures InsertLast(x, s, key1) == InsertLast(x, s, key2)
  {
    if s != [] && key1(s[|s| - 1]) > key1(x) {
      InsertLastKeyAgreement(x, s[..|s| - 1], key1, key2);
    }
  }

  /** Stability position by position: two elements the sort leaves with
      equal keys come from positions of `s` in the same order. */
  lemma SortByTieOrder<T(!new)>(s: seq<T>, key: T -> int, i: nat, j: nat) returns (i': nat, j': nat)
    requires i < j < |SortBy(s, key)|
    requires key(SortBy(s, key)[i]) == key(SortBy(s, key)[j])
    ensures i' < j' < |s|
    ensures s[i'] == SortBy(s, key)[i] && s[j'] == SortBy(s, key)[j]
  {
    var r, k := SortBy(s, key), key(SortBy(s, key)[i]);
    var a, b := FilterPositions(r, KeyIs(key, k), i, j);
    SortByStable(s, key, k);
    i', j' := FilterSubsequence(s, KeyIs(key, k), a, b);
  }

  /** Sorting two elements swaps them exactly when the second has the
      smaller key. */
  lemma SortTwo<T(!new)>(x: T, y: T, key: T -> int)
    ensures SortBy([x, y], key) == if key(y) < key(x) then [y, x] else [x, y]
  {
    assert [x, y][..1] == [x];
    SortOne(x, key);
    InsertAfterOne(y, x, key);
  }

  lemma SortOne<T(!new)>(x: T, key: T -> int)
    ensures SortBy([x], key) == [x]
  {
    assert [x][..0] == [];
  }

  lemma InsertAfterOne<T(!new)>(y: T, x: T, key: T -> int)
    ensures InsertLast(y, [x], key) == if key(y) < key(x) then [y, x] else [x, y]
  {
    if key(y) < key(x) {
      assert InsertLast(y, [], key) == [y];
    }
  }
}
