/** A worked example of the report's last two stages on three routes: A
    uses holds 1 and 2, B holds 1, 2 and 3, C holds 3 and 4. A and B are
    each other's nearest and are reported once; C's nearest is B. */
module SimilarityExample {
  import opened Wrappers
  import opened Sorting
  import opened Dicts
  import opened Records
  import opened Similarity
  import opened Pairs

  /** A catalogued hold tagged as an "on" hold. */
  function OnHold(id: int): Hold {
    Hold(id, "", Some('O'))
  }

  function RouteA(): Route {
    Route("A", "V1", "O1 O2", [OnHold(1), OnHold(2)], None)
  }

  function RouteB(): Route {
    Route("B", "V2", "O1 O2 O3", [OnHold(1), OnHold(2), OnHold(3)], None)
  }

  function RouteC(): Route {
    Route("C", "V3", "O3 O4", [OnHold(3), OnHold(4)], None)
  }

  lemma HoldIdSets()
    ensures IdSet([OnHold(1), OnHold(2)]) == {1, 2}
    ensures IdSet([OnHold(1), OnHold(2), OnHold(3)]) == {1, 2, 3}
    ensures IdSet([OnHold(3), OnHold(4)]) == {3, 4}
  {
    assert [] + [OnHold(1)] == [OnHold(1)] && [] + [OnHold(3)] == [OnHold(3)];
    assert [OnHold(1)] + [OnHold(2)] == [OnHold(1), OnHold(2)];
    assert [OnHold(1), OnHold(2)] + [OnHold(3)] == [OnHold(1), OnHold(2), OnHold(3)];
    assert [OnHold(3)] + [OnHold(4)] == [OnHold(3), OnHold(4)];
    IdSetSnoc([], OnHold(1));
    IdSetSnoc([OnHold(1)], OnHold(2));
    IdSetSnoc([OnHold(1), OnHold(2)], OnHold(3));
    IdSetSnoc([], OnHold(3));
    IdSetSnoc([OnHold(3)], OnHold(4));
    assert IdSet([]) == {};
  }

  /** The three distances: A-B is 1, B-C is 3 and A-C is 4. */
  lemma Distances()
    ensures Distance(RouteA(), RouteB()) == 1
    ensures Distance(RouteB(), RouteC()) == 3
    ensures Distance(RouteA(), RouteC()) == 4
  {
    HoldIdSets();
    DistanceOfSets(RouteA(), RouteB(), {1, 2}, {1, 2, 3}, {3});
    DistanceOfSets(RouteB(), RouteC(), {1, 2, 3}, {3, 4}, {1, 2, 4});
    DistanceOfSets(RouteA(), RouteC(), {1, 2}, {3, 4}, {1, 2, 3, 4});
  }

  lemma DistanceOfSets(r1: Route, r2: Route, a: set<int>, b: set<int>, d: set<int>)
    requires IdSet(r1.normalizedHolds) == a && IdSet(r2.normalizedHolds) == b
    requires (a - b) + (b - a) == d
    ensures Distance(r1, r2) == |d|
  {
    DistanceIsSymmetricDifference(r1, r2);
  }

  /** In a collection of three routes with distinct ids, a route ranks the
      other two nearest first, and in collection order on a tie. */
  lemma RankedAmongThree(routes: seq<Route>, route: Route, x: Route, y: Route)
    requires routes == [route, x, y] || routes == [x, route, y] || routes == [x, y, route]
    requires route.id != x.id && route.id != y.id && x.id != y.id
    ensures Ranked(routes, route) == route.(ranking := Some(
      if Distance(route, y) < Distance(route, x) then [y.id, x.id] else [x.id, y.id]))
  {
    var d := Dict([x.id, y.id], map[x.id := Distance(route, x), y.id := Distance(route, y)]);
    SimilarityAmongThree(routes, route, x, y);
    assert SimilarityDict(routes, route, |routes|) == d;
    SortTwo(x.id, y.id, DistanceKey(d));
  }

  /** The distances recorded for a route among three with distinct ids. */
  lemma SimilarityAmongThree(routes: seq<Route>, route: Route, x: Route, y: Route)
    requires routes == [route, x, y] || routes == [x, route, y] || routes == [x, y, route]
    requires route.id != x.id && route.id != y.id && x.id != y.id
    ensures SimilarityDict(routes, route, 3)
      == Dict([x.id, y.id], map[x.id := Distance(route, x), y.id := Distance(route, y)])
  {
    var dx := Distance(route, x);
    if routes == [route, x, y] {
      SimilarityAfterTwo(routes, route, Dict([x.id], map[x.id := dx])) by {
        assert SimilarityDict(routes, route, 1) == Dict([], map[]);
      }
    } else if routes == [x, route, y] {
      SimilarityAfterTwo(routes, route, Dict([x.id], map[x.id := dx])) by {
        assert SimilarityDict(routes, route, 1) == Dict([x.id], map[x.id := dx]);
      }
    } else {
      assert SimilarityDict(routes, route, 1) == Dict([x.id], map[x.id := dx]);
      assert SimilarityDict(routes, route, 2) == SimilarityDict(routes, route, 3);
    }
  }

  /** The last step of SimilarityAmongThree when `route` is not last. */
  lemma SimilarityAfterTwo(routes: seq<Route>, route: Route, d: Dict<string, nat>)
    requires |routes| == 3 && routes[2].id != route.id
    requires SimilarityDict(routes, route, 2) == d && d.Valid() && routes[2].id !in d.at
    ensures SimilarityDict(routes, route, 3)
      == Dict(d.order + [routes[2].id], d.at[routes[2].id := Distance(route, routes[2])])
  {
  }

  /** The ranking pass on three routes with the example's ids and
      distances (Distances shows that RouteA, RouteB and RouteC
      have them): A ranks B (distance 1) before C (distance 4), B ranks A (1)
      before C (3), and C ranks B (3) before A (4). */
  lemma Ranking(a: Route, b: Route, c: Route)
    requires a.id == "A" && b.id == "B" && c.id == "C"
    requires Distance(a, b) == 1 && Distance(b, c) == 3 && Distance(a, c) == 4
    ensures RankedRoutes([a, b, c], 3) == [
      a.(ranking := Some(["B", "C"])),
      b.(ranking := Some(["A", "C"])),
      c.(ranking := Some(["B", "A"]))]
  {
    var r := [a, b, c];
    DistanceSymmetric(a, b);
    DistanceSymmetric(a, c);
    DistanceSymmetric(b, c);
    RankedAmongThree(r, a, b, c);
    RankedAmongThree(r, b, a, c);
    RankedAmongThree(r, c, a, b);
    var ranked := RankedRoutes(r, 3);
    RankedRoutesAt(r, 3, 0);
    RankedRoutesAt(r, 3, 1);
    RankedRoutesAt(r, 3, 2);
    assert ranked[0] == a.(ranking := Some(["B", "C"]));
    assert ranked[1] == b.(ranking := Some(["A", "C"]));
    assert ranked[2] == c.(ranking := Some(["B", "A"]));
    SeqOfThree(ranked);
  }

  lemma SeqOfThree<T>(s: seq<T>)
    requires |s| == 3
    ensures s == [s[0], s[1], s[2]]
  {
  }

  /** The closing pass on the ranked example: A and B are each other's
      nearest and are reported once, as "A - B" at distance 1, and C, whose
      nearest B prefers A, is reported as "C - B" at distance 3. */
  lemma ClosingMessages(a: Route, b: Route, c: Route)
    requires a.id == "A" && b.id == "B" && c.id == "C"
    requires a.ranking == Some(["B", "C"]) && b.ranking == Some(["A", "C"]) && c.ranking == Some(["B", "A"])
    requires Distance(a, b) == 1 && Distance(b, c) == 3
    ensures PairMessages([a, b, c]) == Success([Message(1, "A", "B"), Message(3, "C", "B")])
  {
    var m1, m2 := Message(1, "A", "B"), Message(3, "C", "B");
    ClosingPass(a, b, c);
    SortTwo(m1, m2, ByDistance());
  }

  /** The pass before the sort: B is marked processed on A's turn and
      skipped on its own. */
  lemma ClosingPass(a: Route, b: Route, c: Route)
    requires a.id == "A" && b.id == "B" && c.id == "C"
    requires a.ranking == Some(["B", "C"]) && b.ranking == Some(["A", "C"]) && c.ranking == Some(["B", "A"])
    requires Distance(a, b) == 1 && Distance(b, c) == 3
    ensures PairPass([a, b, c], 3)
      == Success(PairState(["B"], [Message(1, "A", "B"), Message(3, "C", "B")]))
  {
    var r := [a, b, c];
    var m1, m2 := Message(1, "A", "B"), Message(3, "C", "B");
    DistanceSymmetric(b, c);
    assert RouteById(r, "B") == Some(b) by {
      assert r[1..] == [b, c];
    }
    assert NearestId(b) == Success("A");
    var st1 := PairState(["B"], [m1]);
    assert PairPass(r, 1) == Success(st1) by {
      assert PairPass(r, 0) == Success(PairState([], []));
      assert NearestId(a) == Success("B");
      assert [] + ["B"] == ["B"] && [] + [m1] == [m1];
      assert PairStep(r, PairState([], []), a) == Success(st1);
    }
    assert PairPass(r, 2) == Success(st1) by {
      assert PairStep(r, st1, b) == Success(st1);
    }
    assert PairStep(r, st1, c) == Success(PairState(["B"], [m1, m2])) by {
      assert NearestId(c) == Success("B");
      assert [m1] + [m2] == [m1, m2];
    }
  }

  /** The whole report on the example: ranking, then the closing pass. */
  lemma Report()
    ensures PairMessages(RankedRoutes([RouteA(), RouteB(), RouteC()], 3))
      == Success([Message(1, "A", "B"), Message(3, "C", "B")])
  {
    var a, b, c := RouteA(), RouteB(), RouteC();
    Distances();
    Ranking(a, b, c);
    ClosingMessages(a.(ranking := Some(["B", "C"])), b.(ranking := Some(["A", "C"])), c.(ranking := Some(["B", "A"])));
  }
}

/** A worked example of the usage reports on three routes whose normalised
    holds have ids [1, 2], [2, 3] and [2]: hold 2 is used three times,
    holds 1 and 3 once each, and a catalogued hold 4 never. */
module UsageExample {
  import opened Seqs
  import opened Sorting
  import opened Dicts
  import opened Records
  import opened Popularity

  lemma AllHoldIdsSnoc(routes: seq<Route>, route: Route)
    ensures AllHoldIds(routes + [route]) == AllHoldIds(routes) + HoldIds(route.normalizedHolds)
  {
    assert (routes + [route])[..|routes|] == routes;
  }

  /** The ids used, route by route. */
  lemma UsedIds(p: Route, q: Route, r: Route)
    requires HoldIds(p.normalizedHolds) == [1, 2]
    requires HoldIds(q.normalizedHolds) == [2, 3]
    requires HoldIds(r.normalizedHolds) == [2]
    ensures AllHoldIds([p, q, r]) == [1, 2, 2, 3, 2]
  {
    ThreeRoutes(p, q, r);
    assert [1, 2] + [2, 3] + [2] == [1, 2, 2, 3, 2];
  }

  lemma ThreeRoutes(p: Route, q: Route, r: Route)
    ensures AllHoldIds([p, q, r]) == HoldIds(p.normalizedHolds) + HoldIds(q.normalizedHolds) + HoldIds(r.normalizedHolds)
  {
    assert AllHoldIds([p]) == HoldIds(p.normalizedHolds) by {
      AllHoldIdsSnoc([], p);
      assert [] + [p] == [p];
    }
    assert AllHoldIds([p, q]) == HoldIds(p.normalizedHolds) + HoldIds(q.normalizedHolds) by {
      AllHoldIdsSnoc([p], q);
      assert [p] + [q] == [p, q];
    }
    AllHoldIdsSnoc([p, q], r);
    assert [p, q] + [r] == [p, q, r];
  }

  /** How often each id is used. */
  lemma Counts()
    ensures multiset([1, 2, 2, 3, 2])[1] == 1
    ensures multiset([1, 2, 2, 3, 2])[2] == 3
    ensures multiset([1, 2, 2, 3, 2])[3] == 1
  {
    assert multiset([1, 2, 2, 3, 2]) == multiset{1, 2, 2, 3, 2};
  }

  lemma FirstUses()
    ensures Dedup([1, 2, 2, 3, 2]) == [1, 2, 3]
  {
    FirstUsesOfThree();
    assert Dedup([1, 2, 2, 3]) == [1, 2, 3] by {
      DedupSnoc([1, 2, 2], 3);
      assert [1, 2, 2] + [3] == [1, 2, 2, 3];
    }
    DedupSnoc([1, 2, 2, 3], 2);
    assert [1, 2, 2, 3] + [2] == [1, 2, 2, 3, 2];
  }

  lemma FirstUsesOfThree()
    ensures Dedup([1, 2, 2]) == [1, 2]
  {
    assert Dedup([1]) == [1] by {
      DedupSnoc([], 1);
      assert [] + [1] == [1];
    }
    assert Dedup([1, 2]) == [1, 2] by {
      DedupSnoc([1], 2);
      assert [1] + [2] == [1, 2];
    }
    DedupSnoc([1, 2], 2);
    assert [1, 2] + [2] == [1, 2, 2];
  }

  lemma SortByUse(key: int -> int)
    requires key(1) == -1 && key(2) == -3 && key(3) == -1
    ensures SortBy([1, 2, 3], key) == [2, 1, 3]
  {
    assert [1, 2, 3][..2] == [1, 2];
    SortTwo(1, 2, key);
    assert SortBy([1, 2, 3], key) == InsertLast(3, [2, 1], key);
  }

  /** Hold 2 comes first; 1 and 3 tie and keep the order of first use. */
  lemma Ranking(p: Route, q: Route, r: Route)
    requires HoldIds(p.normalizedHolds) == [1, 2]
    requires HoldIds(q.normalizedHolds) == [2, 3]
    requires HoldIds(r.normalizedHolds) == [2]
    ensures PopularityRanking([p, q, r]) == [2, 1, 3]
  {
    UsedIds(p, q, r);
    FirstUses();
    Counts();
    SortByUse(MoreUsedFirst([1, 2, 2, 3, 2]));
  }

  lemma KeepsOnlyLast(p: int -> bool)
    requires !p(1) && !p(2) && !p(3) && p(4)
    ensures Filter([1, 2, 3, 4], p) == [4]
  {
    assert [1, 2, 3, 4] == [1] + [2] + [3] + [4];
    FilterAppend([1] + [2] + [3], [4], p);
    FilterAppend([1] + [2], [3], p);
    FilterAppend([1], [2], p);
    FilterSingleton(1, p);
    FilterSingleton(2, p);
    FilterSingleton(3, p);
    FilterSingleton(4, p);
  }

  /** Against a catalog of holds 1 to 4, only hold 4 is unused. */
  lemma Unused(p: Route, q: Route, r: Route, catalog: Dict<int, Hold>)
    requires HoldIds(p.normalizedHolds) == [1, 2]
    requires HoldIds(q.normalizedHolds) == [2, 3]
    requires HoldIds(r.normalizedHolds) == [2]
    requires catalog.order == [1, 2, 3, 4]
    ensures UnusedHoldIds(catalog, [p, q, r]) == [4]
  {
    UsedIds(p, q, r);
    KeepsOnlyLast(id => id !in [1, 2, 2, 3, 2]);
  }

  lemma KeepsOnce(p: int -> bool)
    requires p(1) && !p(2) && p(3)
    ensures Filter([1, 2, 2, 3, 2], p) == [1, 3]
  {
    assert [1, 2, 2, 3, 2] == [1] + [2] + [2] + [3] + [2];
    FilterAppend([1] + [2] + [2] + [3], [2], p);
    FilterAppend([1] + [2] + [2], [3], p);
    FilterAppend([1] + [2], [2], p);
    FilterAppend([1], [2], p);
    FilterSingleton(1, p);
    FilterSingleton(2, p);
    FilterSingleton(3, p);
  }

  /** Holds 1 and 3 are used exactly once, in the order of their first use. */
  lemma UsedOnce(p: Route, q: Route, r: Route)
    requires HoldIds(p.normalizedHolds) == [1, 2]
    requires HoldIds(q.normalizedHolds) == [2, 3]
    requires HoldIds(r.normalizedHolds) == [2]
    ensures HoldsUsedExactlyOnce([p, q, r]) == [1, 3]
  {
    UsedIds(p, q, r);
    Counts();
    KeepsOnce(id => multiset([1, 2, 2, 3, 2])[id] == 1);
  }
}
