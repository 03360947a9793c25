/** Hold usage across the normalised routes: the popularity ranking of
    `most_popular_hold_ids`, the per-grade rankings, the unused catalog
    holds and the holds used exactly once. A hold's usage count is the
    number of times its id occurs among the routes' normalised holds. */
module Popularity {
  import opened Wrappers
  import opened Seqs
  import opened Sorting
  import opened Dicts
  import opened Records
  import opened Catalog
  import opened Normalizer

  /** Every normalised hold id of every route, route by route: the order in
      which both `most_popular_hold_ids` and `all_hold_ids_on_all_routes`
      visit the holds. */
  function AllHoldIds(routes: seq<Route>): seq<int> {
    if routes == [] then []
    else AllHoldIds(routes[..|routes| - 1]) + HoldIds(routes[|routes| - 1].normalizedHolds)
  }

  /** Some route has a normalised hold with id `x`. */
  predicate Used(routes: seq<Route>, x: int) {
    exists i, j :: 0 <= i < |routes| && 0 <= j < |routes[i].normalizedHolds| && routes[i].normalizedHolds[j].id == x
  }

  /** The listing holds exactly the ids some route uses. */
  lemma {:induction false} AllHoldIdsMembers(routes: seq<Route>)
    ensures forall x :: x in AllHoldIds(routes) <==> Used(routes, x)
    decreases |routes|
  {
    if routes != [] {
      var init, last := routes[..|routes| - 1], routes[|routes| - 1];
      AllHoldIdsMembers(init);
      var ids := HoldIds(last.normalizedHolds);
      assert AllHoldIds(routes) == AllHoldIds(init) + ids;
      forall x | x in AllHoldIds(routes)
        ensures Used(routes, x)
      {
        if x in AllHoldIds(init) {
          var i, j :| 0 <= i < |init| && 0 <= j < |init[i].normalizedHolds| && init[i].normalizedHolds[j].id == x;
          assert routes[i] == init[i];
        } else {
          var j :| 0 <= j < |ids| && ids[j] == x;
          assert routes[|routes| - 1].normalizedHolds[j].id == x;
        }
      }
      forall x | Used(routes, x)
        ensures x in AllHoldIds(routes)
      {
        var i, j :| 0 <= i < |routes| && 0 <= j < |routes[i].normalizedHolds| && routes[i].normalizedHolds[j].id == x;
        if i < |init| {
          assert init[i] == routes[i];
          assert Used(init, x);
        } else {
          assert ids[j] == x;
        }
      }
    }
  }

  /** `hold_counts` after the ids `ids` have been counted in turn. */
  function Tally(ids: seq<int>): (d: Dict<int, nat>)
    ensures d.Valid()
  {
    if ids == [] then Empty() else CountOne(Tally(ids[..|ids| - 1]), ids[|ids| - 1])
  }

  /** One step of the count: an id seen for the first time is set to 0,
      then the id's count is incremented. */
  function CountOne(d: Dict<int, nat>, x: int): (d': Dict<int, nat>)
    requires d.Valid()
    ensures d'.Valid()
  {
    var d0 := if x in d.at then d else d.Put(x, 0);
    d0.Put(x, d0.at[x] + 1)
  }

  /** The tally lists the ids in order of first appearance and maps each
      to the number of times it occurs. */
  lemma {:induction false} TallyCounts(ids: seq<int>)
    ensures Tally(ids).order == Dedup(ids)
    ensures forall x :: x in Tally(ids).at <==> x in ids
    ensures forall x :: x in Tally(ids).at ==> Tally(ids).at[x] == multiset(ids)[x]
  {
    if ids != [] {
      var init, x := ids[..|ids| - 1], ids[|ids| - 1];
      assert ids == init + [x];
      TallyCounts(init);
      DedupSnoc(init, x);
    }
  }

  /** `key=lambda x: hold_counts[x], reverse=True`: the more uses, the
      earlier. */
  function ByCount(counts: Dict<int, nat>): int -> int {
    x => if x in counts.at then -(counts.at[x] as int) else 0
  }

  /** The same order stated on the listing itself. */
  function MoreUsedFirst(all: seq<int>): int -> int {
    x => -(multiset(all)[x] as int)
  }

  /** What `most_popular_hold_ids` returns: the used ids in order of first
      use, stably sorted by decreasing usage count. */
  function PopularityRanking(routes: seq<Route>): seq<int> {
    var all := AllHoldIds(routes);
    SortBy(Dedup(all), MoreUsedFirst(all))
  }

  /** `most_popular_hold_ids`: count every hold of every route, then sort
      the counted ids. */
  method MostPopularHoldIds(routes: seq<Route>) returns (r: seq<int>)
    ensures r == PopularityRanking(routes)
  {
    var counts: Dict<int, nat> := Empty();
    ghost var seen: seq<int> := [];
    for i := 0 to |routes|
      invariant seen == AllHoldIds(routes[..i])
      invariant counts == Tally(seen)
    {
      assert routes[..i + 1][..i] == routes[..i];
      counts := CountHolds(counts, seen, routes[i].normalizedHolds);
      seen := seen + HoldIds(routes[i].normalizedHolds);
    }
    assert routes[..|routes|] == routes;
    r := SortBy(counts.order, ByCount(counts));
    TallyRanking(seen);
  }

  /** Sorting the tallied ids by their tallies sorts the used ids by their
      number of occurrences. */
  lemma TallyRanking(ids: seq<int>)
    ensures SortBy(Tally(ids).order, ByCount(Tally(ids))) == SortBy(Dedup(ids), MoreUsedFirst(ids))
  {
    var d := Tally(ids);
    TallyCounts(ids);
    forall x | x in Dedup(ids)
      ensures ByCount(d)(x) == MoreUsedFirst(ids)(x)
    {
      assert x in d.at;
    }
    SortByKeyAgreement(Dedup(ids), ByCount(d), MoreUsedFirst(ids));
  }

  /** The inner loop of `most_popular_hold_ids`, over one route's holds. */
  method CountHolds(counts: Dict<int, nat>, ghost seen: seq<int>, holds: seq<Hold>) returns (counts': Dict<int, nat>)
    requires counts == Tally(seen)
    ensures counts' == Tally(seen + HoldIds(holds))
  {
    counts' := counts;
    ghost var ids := seen;
    assert seen + HoldIds(holds[..0]) == seen;
    for j := 0 to |holds|
      invariant ids == seen + HoldIds(holds[..j])
      invariant counts' == Tally(ids)
    {
      TallySnoc(seen, holds, j);
      counts' := CountHold(counts', holds[j].id);
      ids := seen + HoldIds(holds[..j + 1]);
    }
    assert holds[..|holds|] == holds;
  }

  /** The loop body: `hold_counts[hold_id]` is created at 0 when missing,
      then incremented. */
  method CountHold(counts: Dict<int, nat>, x: int) returns (counts': Dict<int, nat>)
    requires counts.Valid()
    ensures counts'.Valid()
    ensures counts'.at == counts.at[x := (if x in counts.at then counts.at[x] else 0) + 1]
    ensures counts'.order == if x in counts.at then counts.order else counts.order + [x]
    ensures counts' == CountOne(counts, x)
  {
    counts' := counts;
    if x !in counts'.at {
      counts' := counts'.Put(x, 0);
    }
    counts' := counts'.Put(x, counts'.at[x] + 1);
  }

  /** Counting one more hold of the route. */
  lemma TallySnoc(seen: seq<int>, holds: seq<Hold>, j: nat)
    requires j < |holds|
    ensures Tally(seen + HoldIds(holds[..j + 1])) == CountOne(Tally(seen + HoldIds(holds[..j])), holds[j].id)
  {
    var ids := seen + HoldIds(holds[..j]);
    assert holds[..j + 1][..j] == holds[..j];
    assert seen + HoldIds(holds[..j + 1]) == ids + [holds[j].id];
    assert (ids + [holds[j].id])[..|ids|] == ids;
  }

  /** The ranking lists each used hold id once, and nothing else. */
  lemma PopularityListsUsedIds(routes: seq<Route>)
    ensures Distinct(PopularityRanking(routes))
    ensures forall x :: x in PopularityRanking(routes) <==> Used(routes, x)
  {
    var all := AllHoldIds(routes);
    var r := PopularityRanking(routes);
    AllHoldIdsMembers(routes);
    DistinctPermutation(Dedup(all), r);
  }

  /** Usage counts never increase along the ranking. */
  lemma PopularityByCount(routes: seq<Route>)
    ensures var all, r := AllHoldIds(routes), PopularityRanking(routes);
      forall i, j :: 0 <= i < j < |r| ==> multiset(all)[r[i]] >= multiset(all)[r[j]]
  {
    var all, r := AllHoldIds(routes), PopularityRanking(routes);
    assert SortedBy(r, MoreUsedFirst(all));
  }

  /** Holds used equally often keep the order of their first use. */
  lemma PopularityTiesFirstSeen(routes: seq<Route>, i: nat, j: nat)
    requires i < j < |PopularityRanking(routes)|
    requires var all, r := AllHoldIds(routes), PopularityRanking(routes);
      multiset(all)[r[i]] == multiset(all)[r[j]]
    ensures var all, r := AllHoldIds(routes), PopularityRanking(routes);
      r[i] in all && r[j] in all && FirstIndex(all, r[i]) < FirstIndex(all, r[j])
  {
    var all := AllHoldIds(routes);
    var d := Dedup(all);
    var i', j' := SortByTieOrder(d, MoreUsedFirst(all), i, j);
    DedupFirstSeen(all);
  }

  /** `most_popular_hold_ids(routes)[0]`, which raises IndexError (None
      here) when no route has a hold. */
  function MostPopularHold(routes: seq<Route>): Option<int> {
    var r := PopularityRanking(routes);
    if r == [] then None else Some(r[0])
  }

  /** The first hold exists exactly when some hold is used, and no hold is
      used more often. */
  lemma MostPopularHoldSpec(routes: seq<Route>)
    ensures MostPopularHold(routes).None? <==> forall x :: !Used(routes, x)
    ensures MostPopularHold(routes).Some? ==>
              var all, top := AllHoldIds(routes), MostPopularHold(routes).value;
              Used(routes, top) && forall x :: Used(routes, x) ==> multiset(all)[x] <= multiset(all)[top]
  {
    var all, r := AllHoldIds(routes), PopularityRanking(routes);
    PopularityListsUsedIds(routes);
    if r == [] {
      forall x
        ensures !Used(routes, x)
      {
        assert x !in r;
      }
    } else {
      assert Used(routes, r[0]);
      PopularityByCount(routes);
      forall x | Used(routes, x)
        ensures multiset(all)[x] <= multiset(all)[r[0]]
      {
        var k :| 0 <= k < |r| && r[k] == x;
      }
    }
  }

  /** `s[:k]`. */
  function Top(s: seq<int>, k: nat): seq<int> {
    if |s| <= k then s else s[..k]
  }

  /** `[route for route in routes if route["crowdGrade"]["hueco"] == grade]`. */
  function RoutesOfGrade(routes: seq<Route>, grade: string): seq<Route> {
    Filter(routes, (route: Route) => route.grade == grade)
  }

  /** The routes of a grade are the routes carrying it, each as often as in
      the collection and in collection order. */
  lemma RoutesOfGradeSpec(routes: seq<Route>, grade: string)
    ensures forall route ::
              multiset(RoutesOfGrade(routes, grade))[route] == if route.grade == grade then multiset(routes)[route] else 0
    ensures forall i, j :: 0 <= i < j < |routes| && routes[i].grade == grade && routes[j].grade == grade ==>
              exists a, b :: 0 <= a < b < |RoutesOfGrade(routes, grade)| &&
                               RoutesOfGrade(routes, grade)[a] == routes[i] && RoutesOfGrade(routes, grade)[b] == routes[j]
  {
    var p := (route: Route) => route.grade == grade;
    FilterCount(routes, p);
    forall i, j | 0 <= i < j < |routes| && routes[i].grade == grade && routes[j].grade == grade
      ensures exists a, b :: 0 <= a < b < |RoutesOfGrade(routes, grade)| &&
                             RoutesOfGrade(routes, grade)[a] == routes[i] && RoutesOfGrade(routes, grade)[b] == routes[j]
    {
      var a, b := FilterPositions(routes, p, i, j);
      assert RoutesOfGrade(routes, grade) == Filter(routes, p);
    }
  }

  /** The grades the per-grade loop walks through, in order. */
  const Grades: seq<string> := ["V1", "V2", "V3", "V4", "V5", "V6", "V7", "V8", "V9", "V10",
    "V11", "V12", "V13", "V14", "V15", "V16", "V17", "V18", "V19", "V20"]

  /** What the per-grade loop draws: for each grade of `grades` that has a
      route, in order, the ten most popular holds of its routes. */
  function GradeTopHolds(routes: seq<Route>, grades: seq<string>): seq<(string, seq<int>)> {
    if grades == [] then []
    else
      var done := GradeTopHolds(routes, grades[..|grades| - 1]);
      var grade := grades[|grades| - 1];
      var gradeRoutes := RoutesOfGrade(routes, grade);
      if |gradeRoutes| == 0 then done else done + [(grade, Top(PopularityRanking(gradeRoutes), 10))]
  }

  /** The grades the loop does not skip. */
  function HasRoutes(routes: seq<Route>): string -> bool {
    grade => RoutesOfGrade(routes, grade) != []
  }

  /** The ten most popular holds of one grade's routes. */
  function GradeTop(routes: seq<Route>, grade: string): seq<int> {
    Top(PopularityRanking(RoutesOfGrade(routes, grade)), 10)
  }

  /** The loop reports the grades that have routes, in their order, each
      with the top ten of its own ranking. */
  lemma {:induction false} GradeTopHoldsSpec(routes: seq<Route>, grades: seq<string>)
    ensures var out, shown := GradeTopHolds(routes, grades), Filter(grades, HasRoutes(routes));
      |out| == |shown| &&
      forall k :: 0 <= k < |out| ==> out[k].0 == shown[k] && out[k].1 == GradeTop(routes, shown[k])
    decreases |grades|
  {
    if grades != [] {
      var init, grade := grades[..|grades| - 1], grades[|grades| - 1];
      GradeTopHoldsSpec(routes, init);
      var out, done := GradeTopHolds(routes, grades), GradeTopHolds(routes, init);
      var shown := Filter(init, HasRoutes(routes));
      assert Filter(grades, HasRoutes(routes)) == shown + if HasRoutes(routes)(grade) then [grade] else [];
      if HasRoutes(routes)(grade) {
        assert out == done + [(grade, GradeTop(routes, grade))];
      } else {
        assert out == done;
      }
    }
  }

  /** The loop draws exactly the listed grades that have routes. */
  lemma GradeTopHoldsShown(routes: seq<Route>, grades: seq<string>)
    ensures var out := GradeTopHolds(routes, grades);
      (forall k :: 0 <= k < |out| ==>
         out[k].0 in grades && RoutesOfGrade(routes, out[k].0) != [] && out[k].1 == GradeTop(routes, out[k].0)) &&
      (forall grade :: grade in grades && RoutesOfGrade(routes, grade) != [] ==>
         exists k :: 0 <= k < |out| && out[k].0 == grade)
  {
    var out, shown := GradeTopHolds(routes, grades), Filter(grades, HasRoutes(routes));
    GradeTopHoldsSpec(routes, grades);
    forall k | 0 <= k < |out|
      ensures out[k].0 in grades && RoutesOfGrade(routes, out[k].0) != []
    {
      assert out[k].0 == shown[k] && shown[k] in shown;
    }
    forall grade | grade in grades && RoutesOfGrade(routes, grade) != []
      ensures exists k :: 0 <= k < |out| && out[k].0 == grade
    {
      FilterCount(grades, HasRoutes(routes));
      assert grade in multiset(shown);
      var k :| 0 <= k < |shown| && shown[k] == grade;
      assert out[k].0 == grade;
    }
  }

  /** Over the script's own grade list, which starts at V1: routes graded
      V0 are never drawn. */
  lemma GradeReportSkipsV0(routes: seq<Route>)
    ensures forall k :: 0 <= k < |GradeTopHolds(routes, Grades)| ==>
              GradeTopHolds(routes, Grades)[k].0 in Grades && GradeTopHolds(routes, Grades)[k].0 != "V0"
  {
    GradeTopHoldsShown(routes, Grades);
    assert "V0" !in Grades;
  }

  /** `unused_hold_ids`: the catalog ids, in catalog order, that no route
      uses. */
  function UnusedHoldIds(catalog: Dict<int, Hold>, routes: seq<Route>): seq<int> {
    var all := AllHoldIds(routes);
    Filter(catalog.order, id => id !in all)
  }

  /** The unused ids are exactly the catalogued ids no route uses, each once
      and in catalog order. */
  lemma UnusedHoldIdsSpec(catalog: Dict<int, Hold>, routes: seq<Route>)
    requires catalog.Valid()
    ensures var r := UnusedHoldIds(catalog, routes);
      && Distinct(r)
      && (forall x :: x in r <==> x in catalog.at && !Used(routes, x))
      && forall i, j :: 0 <= i < j < |r| ==> FirstIndex(catalog.order, r[i]) < FirstIndex(catalog.order, r[j])
  {
    var all := AllHoldIds(routes);
    var p := id => id !in all;
    var r := UnusedHoldIds(catalog, routes);
    AllHoldIdsMembers(routes);
    FilterDistinct(catalog.order, p);
    FilterCount(catalog.order, p);
    forall x
      ensures x in r <==> x in catalog.at && !Used(routes, x)
    {
      assert x in r <==> x in multiset(r);
      assert x in catalog.order <==> x in multiset(catalog.order);
    }
    forall i, j | 0 <= i < j < |r|
      ensures FirstIndex(catalog.order, r[i]) < FirstIndex(catalog.order, r[j])
    {
      var i', j' := FilterSubsequence(catalog.order, p, i, j);
      DistinctFirstIndex(catalog.order, i');
      DistinctFirstIndex(catalog.order, j');
    }
  }

  lemma DistinctFirstIndex(s: seq<int>, i: nat)
    requires Distinct(s) && i < |s|
    ensures FirstIndex(s, s[i]) == i
  {
  }

  /** `holds_used_exactly_once`: the ids of the listing that occur in it
      once. */
  function HoldsUsedExactlyOnce(routes: seq<Route>): seq<int> {
    var all := AllHoldIds(routes);
    Filter(all, id => multiset(all)[id] == 1)
  }

  /** The holds used exactly once are the ids of count 1, listed once each
      in order of first use: the same list as filtering the first-seen
      listing of the used ids. */
  lemma HoldsUsedExactlyOnceSpec(routes: seq<Route>)
    ensures var all, r := AllHoldIds(routes), HoldsUsedExactlyOnce(routes);
      && (forall x :: x in r <==> multiset(all)[x] == 1)
      && r == Filter(Dedup(all), id => multiset(all)[id] == 1)
      && Distinct(r)
  {
    var all := AllHoldIds(routes);
    var p := id => multiset(all)[id] == 1;
    var r := HoldsUsedExactlyOnce(routes);
    FilterCount(all, p);
    forall x
      ensures x in r <==> multiset(all)[x] == 1
    {
      assert x in r <==> x in multiset(r);
    }
    OnceFilterIsDedup(all, p);
    FilterDistinct(Dedup(all), p);
  }

  /** Filtering for elements that occur at most once gives the same list
      whether or not the repeated ones were removed first. */
  lemma {:induction false} OnceFilterIsDedup(s: seq<int>, p: int -> bool)
    requires forall x :: p(x) ==> multiset(s)[x] <= 1
    ensures Filter(s, p) == Filter(Dedup(s), p)
  {
    if s != [] {
      var init, x := s[..|s| - 1], s[|s| - 1];
      assert s == init + [x];
      assert forall y :: p(y) ==> multiset(init)[y] <= 1 by {
        assert multiset(s) == multiset(init) + multiset{x};
      }
      OnceFilterIsDedup(init, p);
      DedupSnoc(init, x);
      FilterAppend(init, [x], p);
      FilterSingleton(x, p);
      if x in init {
        assert !p(x) by {
          assert multiset(s) == multiset(init) + multiset{x};
          assert multiset(init)[x] >= 1;
        }
      } else {
        FilterAppend(Dedup(init), [x], p);
      }
    }
  }

  /** Every id the script looks up in `wall_holds` to draw it is a catalog
      key once normalisation has succeeded: the routes' normalised holds
      were all copied from the catalog. */
  lemma NormalizedIdsCatalogued(routes: seq<Route>, wallHolds: seq<Hold>)
    requires NormalizeAll(routes, CatalogOf(wallHolds)).Success?
    ensures forall x :: x in AllHoldIds(NormalizeAll(routes, CatalogOf(wallHolds)).value) ==>
      x in CatalogOf(wallHolds).at
  {
    var c := CatalogOf(wallHolds);
    var done := NormalizeAll(routes, c).value;
    NormalizeAllSpec(routes, c);
    AllHoldIdsMembers(done);
    forall x | x in AllHoldIds(done)
      ensures x in c.at
    {
      var i, j :| 0 <= i < |done| && 0 <= j < |done[i].normalizedHolds| && done[i].normalizedHolds[j].id == x;
      NormalizeKeepsTokens(routes[i].holdsList, wallHolds);
      assert done[i].normalizedHolds == NormalizedHolds(routes[i].holdsList, c).value;
    }
  }
}
