/** Sequence notions the report script relies on implicitly: distinctness,
    first-seen de-duplication (the key order a Python dict acquires when it
    is filled from a list) and the order-keeping filter of a list
    comprehension `[x for x in s if p(x)]`. A list's `count(x)` is
    `multiset(s)[x]` throughout the model. */
module Seqs {

  predicate Distinct<T(==)>(s: seq<T>) {
    forall i, j :: 0 <= i < j < |s| ==> s[i] != s[j]
  }

  /** The distinct elements of `s`, each at the place it is first seen. */
  function Dedup<T(==,!new)>(s: seq<T>): (r: seq<T>)
    ensures Distinct(r)
    ensures forall x :: x in r <==> x in s
  {
    if s == [] then []
    else
      var p := Dedup(s[..|s| - 1]);
      if s[|s| - 1] in s[..|s| - 1] then p else p + [s[|s| - 1]]
  }

  lemma DedupSnoc<T(!new)>(s: seq<T>, x: T)
    ensures Dedup(s + [x]) == if x in s then Dedup(s) else Dedup(s) + [x]
  {
    assert (s + [x])[..|s|] == s;
  }

  /** `[x for x in s if p(x)]`. */
  function Filter<T(!new)>(s: seq<T>, p: T -> bool): (r: seq<T>)
    ensures |r| <= |s|
    ensures forall x :: x in r ==> x in s && p(x)
  {
    if s == [] then []
    else Filter(s[..|s| - 1], p) + (if p(s[|s| - 1]) then [s[|s| - 1]] else [])
  }

  /** The filter keeps every occurrence of an element satisfying `p`, and
      only those: `Filter(s, p).count(x) == s.count(x)` when `p(x)`, else 0. */
  lemma {:induction false} FilterCount<T(!new)>(s: seq<T>, p: T -> bool)
    ensures forall x :: multiset(Filter(s, p))[x] == if p(x) then multiset(s)[x] else 0
  {
    if s != [] {
      FilterCount(s[..|s| - 1], p);
      assert s == s[..|s| - 1] + [s[|s| - 1]];
    }
  }

  lemma FilterSingleton<T(!new)>(x: T, p: T -> bool)
    ensures Filter([x], p) == if p(x) then [x] else []
  {
    assert [x][..0] == [];
  }

  lemma {:induction false} FilterAppend<T(!new)>(a: seq<T>, b: seq<T>, p: T -> bool)
    ensures Filter(a + b, p) == Filter(a, p) + Filter(b, p)
    decreases |b|
  {
    if b == [] {
      assert a + b == a;
    } else {
      var b' := b[..|b| - 1];
      assert (a + b)[..|a + b| - 1] == a + b';
      FilterAppend(a, b', p);
    }
  }

  /** The positions of `s` that the filter keeps, in increasing order. */
  function Kept<T(!new)>(s: seq<T>, p: T -> bool): seq<nat> {
    if s == [] then []
    else Kept(s[..|s| - 1], p) + (if p(s[|s| - 1]) then [|s| - 1] else [])
  }

  /** The filter's result is exactly the elements of `s` at the positions
      where `p` holds, in the order of those positions. */
  lemma FilterKeepsOrder<T(!new)>(s: seq<T>, p: T -> bool)
    ensures |Kept(s, p)| == |Filter(s, p)|
    ensures forall k :: 0 <= k < |Kept(s, p)| ==> Kept(s, p)[k] < |s| && Filter(s, p)[k] == s[Kept(s, p)[k]]
    ensures forall k, l :: 0 <= k < l < |Kept(s, p)| ==> Kept(s, p)[k] < Kept(s, p)[l]
    ensures forall m :: 0 <= m < |s| && p(s[m]) ==> m in Kept(s, p)
  {
    KeptPicksFiltered(s, p);
    KeptIncreasing(s, p);
    KeptComplete(s, p);
  }

  lemma {:induction false} KeptPicksFiltered<T(!new)>(s: seq<T>, p: T -> bool)
    ensures |Kept(s, p)| == |Filter(s, p)|
    ensures forall k :: 0 <= k < |Kept(s, p)| ==> Kept(s, p)[k] < |s| && Filter(s, p)[k] == s[Kept(s, p)[k]]
  {
    if s != [] {
      var s' := s[..|s| - 1];
      KeptPicksFiltered(s', p);
      assert forall k :: 0 <= k < |s'| ==> s'[k] == s[k];
    }
  }

  lemma {:induction false} KeptIncreasing<T(!new)>(s: seq<T>, p: T -> bool)
    ensures forall k :: 0 <= k < |Kept(s, p)| ==> Kept(s, p)[k] < |s|
    ensures forall k, l :: 0 <= k < l < |Kept(s, p)| ==> Kept(s, p)[k] < Kept(s, p)[l]
  {
    if s != [] {
      KeptIncreasing(s[..|s| - 1], p);
    }
  }

  lemma {:induction false} KeptComplete<T(!new)>(s: seq<T>, p: T -> bool)
    ensures forall m :: 0 <= m < |s| && p(s[m]) ==> m in Kept(s, p)
  {
    if s != [] {
      var s' := s[..|s| - 1];
      KeptComplete(s', p);
      forall m | 0 <= m < |s| && p(s[m])
        ensures m in Kept(s, p)
      {
        if m < |s| - 1 {
          assert s'[m] == s[m];
        }
      }
    }
  }

  /** `s.index(x)`: the position of the first occurrence of `x`. */
  function FirstIndex<T(==)>(s: seq<T>, x: T): (i: nat)
    requires x in s
    ensures i < |s| && s[i] == x
    ensures forall k :: 0 <= k < i ==> s[k] != x
  {
    if s[0] == x then 0 else 1 + FirstIndex(s[1..], x)
  }

  /** The de-duplicated listing is in order of first appearance. */
  lemma {:induction false} DedupFirstSeen<T(!new)>(s: seq<T>)
    ensures forall i, j :: 0 <= i < j < |Dedup(s)| ==> FirstIndex(s, Dedup(s)[i]) < FirstIndex(s, Dedup(s)[j])
  {
    if s != [] {
      var init, x := s[..|s| - 1], s[|s| - 1];
      assert s == init + [x];
      DedupFirstSeen(init);
      var d, d' := Dedup(s), Dedup(init);
      DedupSnoc(init, x);
      forall i, j | 0 <= i < j < |d|
        ensures FirstIndex(s, d[i]) < FirstIndex(s, d[j])
      {
        assert d[i] == d'[i] && d'[i] in init;
        FirstIndexPrefix(init, s, d[i]);
        if j < |d'| {
          assert d[j] == d'[j] && d'[j] in init;
          FirstIndexPrefix(init, s, d[j]);
        } else {
          assert d[j] == x && x !in init;
        }
      }
    }
  }

  lemma FirstIndexPrefix<T>(s: seq<T>, t: seq<T>, x: T)
    requires x in s && |s| <= |t| && s == t[..|s|]
    ensures FirstIndex(t, x) == FirstIndex(s, x)
  {
    var i, j := FirstIndex(s, x), FirstIndex(t, x);
    assert t[i] == x;
  }

  /** Two elements of a filter's result stand in the same order in `s`. */
  lemma FilterSubsequence<T(!new)>(s: seq<T>, p: T -> bool, i: nat, j: nat) returns (i': nat, j': nat)
    requires i < j < |Filter(s, p)|
    ensures i' < j' < |s|
    ensures s[i'] == Filter(s, p)[i] && s[j'] == Filter(s, p)[j]
  {
    FilterKeepsOrder(s, p);
    i', j' := Kept(s, p)[i], Kept(s, p)[j];
  }

  /** The order of two positions, recovered from the filter of a sequence. */
  lemma FilterPositions<T(!new)>(s: seq<T>, p: T -> bool, i: nat, j: nat) returns (a: nat, b: nat)
    requires i < j < |s| && p(s[i]) && p(s[j])
    ensures a < b < |Filter(s, p)|
    ensures Filter(s, p)[a] == s[i] && Filter(s, p)[b] == s[j]
  {
    FilterKeepsOrder(s, p);
    var kept := Kept(s, p);
    assert i in kept && j in kept;
    a :| 0 <= a < |kept| && kept[a] == i;
    b :| 0 <= b < |kept| && kept[b] == j;
  }

  /** Filtering a duplicate-free sequence leaves it duplicate-free. */
  lemma FilterDistinct<T(!new)>(s: seq<T>, p: T -> bool)
    requires Distinct(s)
    ensures Distinct(Filter(s, p))
  {
    var r := Filter(s, p);
    forall i, j | 0 <= i < j < |r|
      ensures r[i] != r[j]
    {
      var i', j' := FilterSubsequence(s, p, i, j);
    }
  }

  /** `[f(x) for x in s]`. */
  function Map<T, U>(s: seq<T>, f: T -> U): (r: seq<U>)
    ensures |r| == |s|
    ensures forall i :: 0 <= i < |s| ==> r[i] == f(s[i])
  {
    if s == [] then [] else Map(s[..|s| - 1], f) + [f(s[|s| - 1])]
  }

  /** A sequence is duplicate-free exactly when it counts each of its
      elements once. */
  lemma {:induction false} DistinctByCount<T(!new)>(s: seq<T>)
    ensures Distinct(s) <==> forall x :: x in s ==> multiset(s)[x] == 1
  {
    if s != [] {
      var init, last := s[..|s| - 1], s[|s| - 1];
      assert s == init + [last];
      assert multiset(s) == multiset(init) + multiset{last};
      DistinctByCount(init);
      if Distinct(s) {
        assert last !in init;
        forall x | x in s ensures multiset(s)[x] == 1 {
          if x != last { assert x in init; }
        }
      } else {
        var i, j :| 0 <= i < j < |s| && s[i] == s[j];
        if j == |s| - 1 {
          assert s[i] in init;
          assert multiset(s)[last] >= 2;
        } else {
          assert init[i] == init[j];
          assert !Distinct(init);
          var x :| x in init && multiset(init)[x] != 1;
          assert x in s && multiset(s)[x] >= multiset(init)[x] >= 1;
        }
      }
    }
  }

  /** A permutation of a duplicate-free sequence is duplicate-free, with
      the same elements. */
  lemma DistinctPermutation<T(!new)>(s: seq<T>, r: seq<T>)
    requires Distinct(s) && multiset(r) == multiset(s)
    ensures Distinct(r)
    ensures forall x :: x in r <==> x in s
  {
    DistinctByCount(s);
    forall x ensures x in r <==> x in s {
      assert x in r <==> x in multiset(r);
      assert x in s <==> x in multiset(s);
    }
    DistinctByCount(r);
  }
}
