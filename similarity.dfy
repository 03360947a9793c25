/** Route similarity: the hold-inclusion distance between two routes,
    `routeid2route`, and each route's ranking of the other routes by that
    distance. The greedy extraction of mutually nearest routes is in
    `Pairs`. */
module Similarity {
  import opened Wrappers
  import opened Seqs
  import opened Dicts
  import opened Sorting
  import opened Records

  // ---------------------------------------------------------------------
  // Hold-inclusion distance

  /** `set([hold["id"] for hold in hs])`. */
  function IdSet(hs: seq<Hold>): set<int> {
    set i | 0 <= i < |hs| :: hs[i].id
  }

  /** How many distinct ids of `hs` are not in `ys`, counted while scanning
      `hs`: `len(set(ids) - ys)`. */
  function CountMissing(hs: seq<Hold>, ys: set<int>): nat {
    if hs == [] then 0
    else
      var init, last := hs[..|hs| - 1], hs[|hs| - 1];
      CountMissing(init, ys) + if last.id in ys || last.id in IdSet(init) then 0 else 1
  }

  /** `route_similarity_metric`: the number of hold ids that exactly one of
      the two routes uses, `len(set(r1_holds) ^ set(r2_holds))`. */
  function Distance(r1: Route, r2: Route): nat {
    CountMissing(r1.normalizedHolds, IdSet(r2.normalizedHolds)) +
    CountMissing(r2.normalizedHolds, IdSet(r1.normalizedHolds))
  }

  lemma IdSetSnoc(hs: seq<Hold>, h: Hold)
    ensures IdSet(hs + [h]) == IdSet(hs) + {h.id}
  {
    var s := hs + [h];
    forall x | x in IdSet(s) ensures x in IdSet(hs) + {x} {
    }
    forall x | x in IdSet(hs) ensures x in IdSet(s) {
      var i :| 0 <= i < |hs| && hs[i].id == x;
      assert s[i] == hs[i];
    }
    assert s[|hs|] == h;
  }

  lemma {:induction false} CountMissingIsCard(hs: seq<Hold>, ys: set<int>)
    ensures CountMissing(hs, ys) == |IdSet(hs) - ys|
  {
    if hs == [] {
      assert IdSet(hs) == {};
    } else {
      var init, last := hs[..|hs| - 1], hs[|hs| - 1];
      assert hs == init + [last];
      CountMissingIsCard(init, ys);
      IdSetSnoc(init, last);
      if last.id in ys || last.id in IdSet(init) {
        assert IdSet(hs) - ys == IdSet(init) - ys;
      } else {
        assert IdSet(hs) - ys == (IdSet(init) - ys) + {last.id};
      }
    }
  }

  /** The metric is the size of the symmetric difference of the two routes'
      hold-id sets, the value the script returns. */
  lemma DistanceIsSymmetricDifference(r1: Route, r2: Route)
    ensures Distance(r1, r2) ==
              |(IdSet(r1.normalizedHolds) - IdSet(r2.normalizedHolds)) + (IdSet(r2.normalizedHolds) - IdSet(r1.normalizedHolds))|
  {
    var a, b := IdSet(r1.normalizedHolds), IdSet(r2.normalizedHolds);
    CountMissingIsCard(r1.normalizedHolds, b);
    CountMissingIsCard(r2.normalizedHolds, a);
    assert (a - b) * (b - a) == {};
  }

  /** The distance is 0 exactly when both routes use the same hold ids. */
  lemma DistanceZeroIff(r1: Route, r2: Route)
    ensures Distance(r1, r2) == 0 <==> IdSet(r1.normalizedHolds) == IdSet(r2.normalizedHolds)
  {
    var a, b := IdSet(r1.normalizedHolds), IdSet(r2.normalizedHolds);
    DistanceIsSymmetricDifference(r1, r2);
    if (a - b) + (b - a) == {} {
      assert forall x :: x in a <==> x in b;
    }
  }

  /** The assertion the metric makes before returning: the symmetric
      difference has the same size whichever route comes first. */
  lemma DistanceSymmetric(r1: Route, r2: Route)
    ensures Distance(r1, r2) == Distance(r2, r1)
    ensures Distance(r1, r2) ==
              |(IdSet(r2.normalizedHolds) - IdSet(r1.normalizedHolds)) + (IdSet(r1.normalizedHolds) - IdSet(r2.normalizedHolds))|
  {
    var a, b := IdSet(r1.normalizedHolds), IdSet(r2.normalizedHolds);
    DistanceIsSymmetricDifference(r1, r2);
    assert (a - b) + (b - a) == (b - a) + (a - b);
  }

  lemma DistanceToSelf(r: Route)
    ensures Distance(r, r) == 0
  {
    DistanceZeroIff(r, r);
  }

  /** The distance counts the ids that exactly one of the two routes uses:
      all ids of both, less twice the shared ones. */
  lemma DistanceCountsUnsharedIds(r1: Route, r2: Route)
    ensures Distance(r1, r2) ==
              |IdSet(r1.normalizedHolds)| + |IdSet(r2.normalizedHolds)|
              - 2 * |IdSet(r1.normalizedHolds) * IdSet(r2.normalizedHolds)|
  {
    var a, b := IdSet(r1.normalizedHolds), IdSet(r2.normalizedHolds);
    DistanceIsSymmetricDifference(r1, r2);
    assert (a - b) * (b - a) == {};
    assert a == (a - b) + (a * b) && (a - b) * (a * b) == {};
    assert b == (b - a) + (a * b) && (b - a) * (a * b) == {};
  }

  /** Roles, order and repetitions of a route's holds do not matter: two
      routes using the same hold ids are equally far from any route. */
  lemma DistanceSeesOnlyIds(r1: Route, r1': Route, r2: Route)
    requires forall x :: x in HoldIds(r1.normalizedHolds) <==> x in HoldIds(r1'.normalizedHolds)
    ensures Distance(r1, r2) == Distance(r1', r2)
  {
    IdSetIsHoldIds(r1.normalizedHolds);
    IdSetIsHoldIds(r1'.normalizedHolds);
    assert IdSet(r1.normalizedHolds) == IdSet(r1'.normalizedHolds);
    DistanceIsSymmetricDifference(r1, r2);
    DistanceIsSymmetricDifference(r1', r2);
  }

  lemma IdSetIsHoldIds(hs: seq<Hold>)
    ensures forall x :: x in IdSet(hs) <==> x in HoldIds(hs)
  {
    forall x | x in HoldIds(hs) ensures x in IdSet(hs) {
      var i :| 0 <= i < |hs| && HoldIds(hs)[i] == x;
    }
  }

  lemma DistanceSeesHolds(r1: Route, r2: Route, r2': Route)
    requires r2.normalizedHolds == r2'.normalizedHolds
    ensures Distance(r1, r2) == Distance(r1, r2')
  {
  }

  /** The metric obeys the triangle inequality. */
  lemma DistanceTriangle(r1: Route, r2: Route, r3: Route)
    ensures Distance(r1, r3) <= Distance(r1, r2) + Distance(r2, r3)
  {
    var a, b, c := IdSet(r1.normalizedHolds), IdSet(r2.normalizedHolds), IdSet(r3.normalizedHolds);
    var ab, bc, ac := (a - b) + (b - a), (b - c) + (c - b), (a - c) + (c - a);
    DistanceIsSymmetricDifference(r1, r2);
    DistanceIsSymmetricDifference(r2, r3);
    DistanceIsSymmetricDifference(r1, r3);
    assert ac <= ab + bc;
    SubsetCardinality(ac, ab + bc);
  }

  lemma SubsetCardinality(x: set<int>, y: set<int>)
    requires x <= y
    ensures |x| <= |y|
  {
    assert y == x + (y - x);
  }

  // ---------------------------------------------------------------------
  // Looking a route up by id

  /** `routeid2route`: the first route carrying the id, None when none does. */
  function RouteById(routes: seq<Route>, id: string): Option<Route> {
    if routes == [] then None
    else if routes[0].id == id then Some(routes[0])
    else RouteById(routes[1..], id)
  }

  /** The lookup finds a route exactly when one carries the id, and then
      the first one. */
  lemma {:induction false} RouteByIdFindsFirst(routes: seq<Route>, id: string)
    ensures RouteById(routes, id).Some? <==> exists i :: 0 <= i < |routes| && routes[i].id == id
    ensures RouteById(routes, id).Some? ==>
              exists i :: 0 <= i < |routes| && routes[i] == RouteById(routes, id).value && routes[i].id == id &&
                forall j :: 0 <= j < i ==> routes[j].id != id
  {
    if routes != [] && routes[0].id != id {
      RouteByIdFindsFirst(routes[1..], id);
      assert forall i :: 0 < i < |routes| ==> routes[i] == routes[1..][i - 1];
      if RouteById(routes, id).Some? {
        var i :| 0 <= i < |routes[1..]| && routes[1..][i] == RouteById(routes, id).value && routes[1..][i].id == id &&
                 forall j :: 0 <= j < i ==> routes[1..][j].id != id;
        assert routes[i + 1] == routes[1..][i];
      }
    }
  }

  // ---------------------------------------------------------------------
  // Per-route ranking

  /** `[route["id"] for route in routes]`. */
  function RouteIds(routes: seq<Route>): seq<string> {
    Map(routes, (route: Route) => route.id)
  }

  /** `route_similarity` for `route` once the inner loop has visited
      `routes[..n]`: each other id with its distance to `route`. */
  function SimilarityDict(routes: seq<Route>, route: Route, n: nat): (d: Dict<string, nat>)
    requires n <= |routes|
    ensures d.Valid()
  {
    if n == 0 then Empty()
    else
      var d := SimilarityDict(routes, route, n - 1);
      var other := routes[n - 1];
      if other.id == route.id then d else d.Put(other.id, Distance(route, other))
  }

  /** The sort key `lambda x: route_similarity[x]`. */
  function DistanceKey(d: Dict<string, nat>): string -> int {
    id => if id in d.at then d.at[id] else 0
  }

  function SortedIds(d: Dict<string, nat>): seq<string> {
    SortBy(d.order, DistanceKey(d))
  }

  /** What `route["route_similarity"]` holds after the loops: None when no
      route has a different id, since the key is then never assigned. */
  function RankingOf(routes: seq<Route>, route: Route): Option<seq<string>> {
    var d := SimilarityDict(routes, route, |routes|);
    if d.order == [] then None else Some(SortedIds(d))
  }

  /** `route` carrying the ranking a similarity dict gives, or untouched
      while the dict is empty (the key is then never assigned). */
  function WithRanking(route: Route, d: Dict<string, nat>): Route {
    if d.order == [] then route else route.(ranking := Some(SortedIds(d)))
  }

  /** `route` once the ranking loops are over. */
  function Ranked(routes: seq<Route>, route: Route): Route {
    WithRanking(route, SimilarityDict(routes, route, |routes|))
  }

  /** Every route of `routes[..n]` once the ranking loops are over. */
  function RankedRoutes(routes: seq<Route>, n: nat): (r: seq<Route>)
    requires n <= |routes|
    ensures |r| == n
  {
    if n == 0 then [] else RankedRoutes(routes, n - 1) + [Ranked(routes, routes[n - 1])]
  }

  /** The distance the ranking uses for an id. */
  function RecordedDistance(routes: seq<Route>, route: Route, id: string): int {
    DistanceKey(SimilarityDict(routes, route, |routes|))(id)
  }

  /** The inner ranking loop for one route: visit every route, skip those
      with the route's own id, record the distance of the others and re-sort
      the route's ranking after each entry. */
  method RankRoute(routes: seq<Route>, route: Route) returns (ranked: Route)
    ensures ranked == Ranked(routes, route)
  {
    ranked := route;
    var similarity := Empty();
    for k := 0 to |routes|
      invariant similarity == SimilarityDict(routes, route, k)
      invariant ranked == WithRanking(route, similarity)
    {
      var other := routes[k];
      if other.id != route.id {
        var distance := Distance(route, other);
        RankStep(routes, route, k, similarity, ranked);
        similarity := similarity.Put(other.id, distance);
        ranked := ranked.(ranking := Some(SortedIds(similarity)));
      }
    }
  }

  /** One entry of the inner loop keeps the route's ranking equal to the
      sorted ids of the dict built so far. */
  lemma RankStep(routes: seq<Route>, route: Route, k: nat, similarity: Dict<string, nat>, ranked: Route)
    requires k < |routes| && routes[k].id != route.id
    requires similarity == SimilarityDict(routes, route, k)
    requires ranked == WithRanking(route, similarity)
    ensures var next := similarity.Put(routes[k].id, Distance(route, routes[k]));
      && next == SimilarityDict(routes, route, k + 1)
      && ranked.(ranking := Some(SortedIds(next))) == WithRanking(route, next)
  {
    var next := similarity.Put(routes[k].id, Distance(route, routes[k]));
    assert routes[k].id in next.at;
    assert next.order != [];
  }

  /** The ranking loops of the main block: every route of the array gets its
      ranking in place. The other routes are read from the list as it was
      before the loops, which is what the script reads too, since the loops
      change only rankings and never read them. */
  method RankAll(routes: array<Route>)
    modifies routes
    ensures routes[..] == RankedRoutes(old(routes[..]), routes.Length)
  {
    var snapshot := routes[..];
    for i := 0 to routes.Length
      invariant routes[..i] == RankedRoutes(snapshot, i)
      invariant routes[i..] == snapshot[i..]
    {
      assert routes[i] == snapshot[i];
      var ranked := RankRoute(snapshot, routes[i]);
      RankAllStep(snapshot, i, routes[..], ranked);
      routes[i] := ranked;
    }
    assert routes[..] == routes[..routes.Length];
  }

  /** Storing the ranked route `i` extends the ranked prefix by one. */
  lemma RankAllStep(snapshot: seq<Route>, i: nat, current: seq<Route>, ranked: Route)
    requires i < |snapshot| == |current|
    requires current[..i] == RankedRoutes(snapshot, i) && current[i..] == snapshot[i..]
    requires ranked == Ranked(snapshot, snapshot[i])
    ensures current[i := ranked][..i + 1] == RankedRoutes(snapshot, i + 1)
    ensures current[i := ranked][i + 1..] == snapshot[i + 1..]
  {
    assert current[i := ranked][..i + 1] == current[..i] + [ranked];
    assert current[i := ranked][i + 1..] == current[i + 1..];
    assert current[i + 1..] == current[i..][1..];
  }

  /** Position `j` of the ranked list is route `j` with its ranking. */
  lemma {:induction false} RankedRoutesAt(routes: seq<Route>, n: nat, j: nat)
    requires j < n <= |routes|
    ensures RankedRoutes(routes, n)[j] == Ranked(routes, routes[j])
    decreases n
  {
    if j < n - 1 {
      RankedRoutesAt(routes, n - 1, j);
    }
  }

  /** Ranking changes nothing but the ranking: id, grade, holds string and
      normalised holds stay as they were; the ranking is the one computed,
      and an unranked route (no other id) keeps its previous value. */
  lemma RankedKeepsRoute(routes: seq<Route>, route: Route)
    ensures Ranked(routes, route).(ranking := route.ranking) == route
    ensures RankingOf(routes, route).Some? ==> Ranked(routes, route).ranking == RankingOf(routes, route)
    ensures RankingOf(routes, route).None? ==> Ranked(routes, route) == route
  {
  }

  /** The dict's ids are the other routes' ids, each once, in collection
      order. */
  lemma {:induction false} SimilarityDictOrder(routes: seq<Route>, route: Route, n: nat)
    requires n <= |routes|
    ensures SimilarityDict(routes, route, n).order == Dedup(OtherIds(routes[..n], route.id))
    decreases n
  {
    if n > 0 {
      SimilarityDictOrder(routes, route, n - 1);
      var prev := SimilarityDict(routes, route, n - 1);
      var id := routes[n - 1].id;
      assert routes[..n][..n - 1] == routes[..n - 1];
      OtherIdsSnoc(routes[..n], route.id);
      var others := OtherIds(routes[..n - 1], route.id);
      DedupSnoc(others, id);
      assert prev.Valid();
      assert id in prev.at <==> id in prev.order;
      assert prev.order == Dedup(others);
      assert id in Dedup(others) <==> id in others;
      assert id in prev.at <==> id in others;
      assert routes[..n][n - 1] == routes[n - 1];
      if id == route.id {
        assert OtherIds(routes[..n], route.id) == others;
        assert SimilarityDict(routes, route, n) == prev;
      } else {
        assert OtherIds(routes[..n], route.id) == others + [id];
        assert SimilarityDict(routes, route, n) == prev.Put(id, Distance(route, routes[n - 1]));
      }
    }
  }

  /** `[other["id"] for other in routes if other["id"] != id]`. */
  function OtherIds(routes: seq<Route>, id: string): seq<string> {
    Filter(RouteIds(routes), NotId(id))
  }

  lemma OtherIdsSnoc(routes: seq<Route>, id: string)
    requires routes != []
    ensures OtherIds(routes, id) ==
              OtherIds(routes[..|routes| - 1], id) + if routes[|routes| - 1].id != id then [routes[|routes| - 1].id] else []
  {
    assert RouteIds(routes)[..|routes| - 1] == RouteIds(routes[..|routes| - 1]);
  }

  /** Each id records the distance to the last route carrying it (the only
      one when ids are unique). */
  lemma {:induction false} SimilarityDictLastWins(routes: seq<Route>, route: Route, n: nat, j: nat)
    requires j < n <= |routes|
    requires routes[j].id != route.id
    requires forall l :: j < l < n ==> routes[l].id != routes[j].id
    ensures routes[j].id in SimilarityDict(routes, route, n).at
    ensures SimilarityDict(routes, route, n).at[routes[j].id] == Distance(route, routes[j])
    decreases n
  {
    if j < n - 1 {
      SimilarityDictLastWins(routes, route, n - 1, j);
    }
  }

  function NotId(id: string): string -> bool {
    x => x != id
  }

  /** The ids of the routes whose id is not `id`, as a collection. */
  lemma OtherIdsMembers(routes: seq<Route>, id: string)
    ensures forall x :: x in OtherIds(routes, id) <==>
              exists j :: 0 <= j < |routes| && routes[j].id == x && x != id
  {
    var others := OtherIds(routes, id);
    forall x | x in others
      ensures exists j :: 0 <= j < |routes| && routes[j].id == x && x != id
    {
      var j :| 0 <= j < |RouteIds(routes)| && RouteIds(routes)[j] == x;
    }
    forall j | 0 <= j < |routes| && routes[j].id != id
      ensures routes[j].id in others
    {
      FilterCount(RouteIds(routes), NotId(id));
      assert RouteIds(routes)[j] == routes[j].id;
      assert routes[j].id in multiset(RouteIds(routes));
    }
  }

  /** Sorting a dict's keys lists each key once. */
  lemma SortedIdsListKeys(d: Dict<string, nat>)
    requires d.Valid()
    ensures Distinct(SortedIds(d))
    ensures forall x :: x in SortedIds(d) <==> x in d.order
  {
    DistinctPermutation(d.order, SortedIds(d));
  }

  /** The similarity dict's keys are the ids of the routes with a different
      id. */
  lemma SimilarityDictKeys(routes: seq<Route>, route: Route)
    ensures forall x :: x in SimilarityDict(routes, route, |routes|).order <==>
              exists j :: 0 <= j < |routes| && routes[j].id == x && x != route.id
  {
    SimilarityDictOrder(routes, route, |routes|);
    assert routes[..|routes|] == routes;
    OtherIdsMembers(routes, route.id);
  }

  /** Every route's ranking lists each id of the routes with a different id
      exactly once, and nothing else; without such routes there is none. */
  lemma RankingListsOtherIds(routes: seq<Route>, route: Route)
    ensures RankingOf(routes, route).None? <==> forall j :: 0 <= j < |routes| ==> routes[j].id == route.id
    ensures RankingOf(routes, route).Some? ==>
              && Distinct(RankingOf(routes, route).value)
              && forall x :: x in RankingOf(routes, route).value <==>
                   exists j :: 0 <= j < |routes| && routes[j].id == x && x != route.id
  {
    var d := SimilarityDict(routes, route, |routes|);
    SimilarityDictKeys(routes, route);
    forall j | 0 <= j < |routes| && routes[j].id != route.id
      ensures routes[j].id in d.order
    {
    }
    if d.order != [] {
      SortedIdsListKeys(d);
      assert d.order[0] in d.order;
    }
  }

  /** Every ranking is in non-decreasing order of recorded distance, and
      the distance recorded for a route's id is its distance to the ranked
      route when no later route carries the same id. */
  lemma RankingByDistance(routes: seq<Route>, route: Route)
    requires RankingOf(routes, route).Some?
    ensures var q := RankingOf(routes, route).value;
      forall a, b :: 0 <= a < b < |q| ==> RecordedDistance(routes, route, q[a]) <= RecordedDistance(routes, route, q[b])
    ensures forall j :: 0 <= j < |routes| && routes[j].id != route.id &&
                        (forall l :: j < l < |routes| ==> routes[l].id != routes[j].id) ==>
              RecordedDistance(routes, route, routes[j].id) == Distance(route, routes[j])
  {
    forall j | 0 <= j < |routes| && routes[j].id != route.id &&
               (forall l :: j < l < |routes| ==> routes[l].id != routes[j].id)
      ensures RecordedDistance(routes, route, routes[j].id) == Distance(route, routes[j])
    {
      SimilarityDictLastWins(routes, route, |routes|, j);
    }
  }

  /** Ties keep collection order: for every distance, the ids ranked at that
      distance appear as the routes carrying them first appear. */
  lemma RankingTiesInCollectionOrder(routes: seq<Route>, route: Route, distance: int)
    requires RankingOf(routes, route).Some?
    ensures var d := SimilarityDict(routes, route, |routes|);
      WithKey(RankingOf(routes, route).value, DistanceKey(d), distance) ==
      WithKey(Dedup(OtherIds(routes, route.id)), DistanceKey(d), distance)
  {
    var d := SimilarityDict(routes, route, |routes|);
    SimilarityDictOrder(routes, route, |routes|);
    assert routes[..|routes|] == routes;
    SortByStable(d.order, DistanceKey(d), distance);
  }
}
