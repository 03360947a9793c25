/** The report's closing pass over the ranked routes: each route not yet
    paired reports its nearest route, a pair of mutually nearest routes is
    reported once, and the messages are sorted by distance. */
module Pairs {
  import opened Wrappers
  import opened Sorting
  import opened Records
  import opened Similarity

  /** `[distance, text]`, with the text standing for the two routes it names. */
  datatype Message = Message(distance: nat, route: string, neighbour: string)

  /** The exceptions the pass raises: a route without "route_similarity"
      (KeyError), an empty ranking (IndexError), and a nearest id that no
      route carries (`routeid2route` returns None, which is then indexed). */
  datatype PairError =
    | MissingRanking(id: string)
    | EmptyRanking(id: string)
    | UnknownRoute(id: string)

  /** The pass's two lists, `already_processed` and `messages`. */
  datatype PairState = PairState(alreadyProcessed: seq<string>, messages: seq<Message>)

  /** The sort key `lambda x: x[0]`. */
  function ByDistance(): Message -> int {
    (m: Message) => m.distance as int
  }

  /** `route["route_similarity"][0]`. */
  function NearestId(route: Route): Result<string, PairError> {
    match route.ranking
    case None => Failure(MissingRanking(route.id))
    case Some(ranking) => if ranking == [] then Failure(EmptyRanking(route.id)) else Success(ranking[0])
  }

  /** One turn of the pass for `route`. */
  function PairStep(routes: seq<Route>, st: PairState, route: Route): Result<PairState, PairError> {
    if route.id in st.alreadyProcessed then Success(st)
    else
      var mostSimilarId :- NearestId(route);
      var mostSimilar :- RouteById(routes, mostSimilarId).ToResult(UnknownRoute(mostSimilarId));
      var itsNearest :- NearestId(mostSimilar);
      var processed := if itsNearest == route.id then st.alreadyProcessed + [mostSimilarId] else st.alreadyProcessed;
      Success(PairState(processed, st.messages + [Message(Distance(route, mostSimilar), route.id, mostSimilar.id)]))
  }

  /** A pass over `routes[..n]` that takes `turn` for each route in order
      and stops at the first turn that fails. */
  function Pass(routes: seq<Route>, n: nat, turn: (PairState, Route) -> Result<PairState, PairError>): Result<PairState, PairError>
    requires n <= |routes|
  {
    if n == 0 then Success(PairState([], []))
    else
      var st :- Pass(routes, n - 1, turn);
      turn(st, routes[n - 1])
  }

  /** The two lists once the pass has visited `routes[..n]`. */
  function PairPass(routes: seq<Route>, n: nat): Result<PairState, PairError>
    requires n <= |routes|
  {
    Pass(routes, n, (st, route) => PairStep(routes, st, route))
  }

  /** `messages` after the final `sorted(messages, key=lambda x: x[0])`. */
  function PairMessages(routes: seq<Route>): Result<seq<Message>, PairError> {
    var st :- PairPass(routes, |routes|);
    Success(SortBy(st.messages, ByDistance()))
  }

  /** The pass as the script runs it. */
  method ExtractPairMessages(routes: seq<Route>) returns (r: Result<seq<Message>, PairError>)
    ensures r == PairMessages(routes)
  {
    var messages := [];
    var alreadyProcessed := [];
    for i := 0 to |routes|
      invariant PairPass(routes, i) == Success(PairState(alreadyProcessed, messages))
    {
      var route := routes[i];
      if route.id in alreadyProcessed {
        continue;
      }
      if route.ranking.None? {
        PassStopsAt(routes, (st, route) => PairStep(routes, st, route), i, |routes|);
        return Failure(MissingRanking(route.id));
      }
      if route.ranking.value == [] {
        PassStopsAt(routes, (st, route) => PairStep(routes, st, route), i, |routes|);
        return Failure(EmptyRanking(route.id));
      }
      var mostSimilarId := route.ranking.value[0];
      var found := RouteById(routes, mostSimilarId);
      if found.None? {
        PassStopsAt(routes, (st, route) => PairStep(routes, st, route), i, |routes|);
        return Failure(UnknownRoute(mostSimilarId));
      }
      var mostSimilar := found.value;
      if mostSimilar.ranking.None? {
        PassStopsAt(routes, (st, route) => PairStep(routes, st, route), i, |routes|);
        return Failure(MissingRanking(mostSimilar.id));
      }
      if mostSimilar.ranking.value == [] {
        PassStopsAt(routes, (st, route) => PairStep(routes, st, route), i, |routes|);
        return Failure(EmptyRanking(mostSimilar.id));
      }
      if mostSimilar.ranking.value[0] == route.id {
        alreadyProcessed := alreadyProcessed + [mostSimilarId];
      }
      messages := messages + [Message(Distance(route, mostSimilar), route.id, mostSimilar.id)];
    }
    messages := SortBy(messages, ByDistance());
    return Success(messages);
  }

  /** The first failing turn ends the pass with its error. */
  lemma {:induction false} PassStopsAt(routes: seq<Route>, turn: (PairState, Route) -> Result<PairState, PairError>, i: nat, n: nat)
    requires i < n <= |routes|
    requires Pass(routes, i + 1, turn).Failure?
    ensures Pass(routes, n, turn) == Pass(routes, i + 1, turn)
    decreases n
  {
    if n > i + 1 {
      PassStopsAt(routes, turn, i, n - 1);
    }
  }

  // ---------------------------------------------------------------------
  // What one turn and the whole pass do

  /** `msg` is what `route` reports: its first-ranked id, the first route
      carrying that id, and the distance between the two. */
  predicate Chose(routes: seq<Route>, route: Route, msg: Message) {
    && route.ranking.Some? && route.ranking.value != []
    && msg.route == route.id
    && msg.neighbour == route.ranking.value[0]
    && RouteById(routes, msg.neighbour).Some?
    && msg.distance == Distance(route, RouteById(routes, msg.neighbour).value)
  }

  /** The route named as `msg`'s neighbour ranks `msg`'s route first. */
  predicate Reciprocated(routes: seq<Route>, msg: Message) {
    match RouteById(routes, msg.neighbour)
    case None => false
    case Some(m) => m.ranking.Some? && m.ranking.value != [] && m.ranking.value[0] == msg.route
  }

  /** A turn either skips a route already paired, leaving both lists as
      they were, or appends the message the route chose, and records its
      neighbour as paired exactly when the neighbour chose it back. */
  lemma PairStepSpec(routes: seq<Route>, st: PairState, route: Route)
    requires PairStep(routes, st, route).Success?
    ensures var st' := PairStep(routes, st, route).value;
      if route.id in st.alreadyProcessed then st' == st
      else
        && |st'.messages| == |st.messages| + 1
        && st'.messages[..|st.messages|] == st.messages
        && Chose(routes, route, st'.messages[|st.messages|])
        && st'.alreadyProcessed ==
             if Reciprocated(routes, st'.messages[|st.messages|])
             then st.alreadyProcessed + [st'.messages[|st.messages|].neighbour]
             else st.alreadyProcessed
  {
    if route.id !in st.alreadyProcessed {
      RouteByIdFindsFirst(routes, route.ranking.value[0]);
      var st' := PairStep(routes, st, route).value;
      var msg := st'.messages[|st.messages|];
      assert st'.messages == st.messages + [msg];
      assert (st.messages + [msg])[..|st.messages|] == st.messages;
    }
  }

  /** One turn of the pass, as the pass takes it. */
  lemma PairPassNext(routes: seq<Route>, n: nat)
    requires n < |routes|
    requires PairPass(routes, n + 1).Success?
    ensures PairPass(routes, n).Success?
    ensures PairPass(routes, n + 1) == PairStep(routes, PairPass(routes, n).value, routes[n])
  {
  }

  /** At most one message per visited route, each one a message that a
      visited route chose. */
  lemma {:induction false} PairPassMessagesChosen(routes: seq<Route>, n: nat)
    requires n <= |routes| && PairPass(routes, n).Success?
    ensures |PairPass(routes, n).value.messages| <= n
    ensures forall k :: 0 <= k < |PairPass(routes, n).value.messages| ==>
              exists j :: 0 <= j < n && Chose(routes, routes[j], PairPass(routes, n).value.messages[k])
    decreases n
  {
    if n > 0 {
      PairPassNext(routes, n - 1);
      PairPassMessagesChosen(routes, n - 1);
      var st, st' := PairPass(routes, n - 1).value, PairPass(routes, n).value;
      PairStepSpec(routes, st, routes[n - 1]);
      forall k | 0 <= k < |st'.messages|
        ensures exists j :: 0 <= j < n && Chose(routes, routes[j], st'.messages[k])
      {
        if k < |st.messages| {
          assert st'.messages[k] == st.messages[k];
        } else {
          assert Chose(routes, routes[n - 1], st'.messages[k]);
        }
      }
    }
  }

  /** `already_processed` holds exactly the neighbours of the messages
      whose neighbour chose the message's route back. */
  lemma {:induction false} PairPassProcessed(routes: seq<Route>, n: nat)
    requires n <= |routes| && PairPass(routes, n).Success?
    ensures forall x :: x in PairPass(routes, n).value.alreadyProcessed <==>
              exists k :: 0 <= k < |PairPass(routes, n).value.messages| &&
                PairPass(routes, n).value.messages[k].neighbour == x &&
                Reciprocated(routes, PairPass(routes, n).value.messages[k])
    decreases n
  {
    if n > 0 {
      PairPassNext(routes, n - 1);
      PairPassProcessed(routes, n - 1);
      var st, st' := PairPass(routes, n - 1).value, PairPass(routes, n).value;
      PairStepSpec(routes, st, routes[n - 1]);
      if routes[n - 1].id !in st.alreadyProcessed {
        var msg := st'.messages[|st.messages|];
        assert st'.messages == st.messages + [msg];
        forall x
          ensures x in st'.alreadyProcessed <==>
                    exists k :: 0 <= k < |st'.messages| && st'.messages[k].neighbour == x &&
                      Reciprocated(routes, st'.messages[k])
        {
          if x in st'.alreadyProcessed && x !in st.alreadyProcessed {
            assert st'.messages[|st.messages|].neighbour == x;
          }
          if exists k :: 0 <= k < |st'.messages| && st'.messages[k].neighbour == x && Reciprocated(routes, st'.messages[k]) {
            var k :| 0 <= k < |st'.messages| && st'.messages[k].neighbour == x && Reciprocated(routes, st'.messages[k]);
            if k < |st.messages| {
              assert st.messages[k] == st'.messages[k];
            }
          }
        }
      }
    }
  }

  /** Every visited route either reported a message or was already paired
      when the pass reached it. */
  lemma {:induction false} PairPassCovers(routes: seq<Route>, n: nat)
    requires n <= |routes| && PairPass(routes, n).Success?
    ensures forall j :: 0 <= j < n ==>
              || routes[j].id in PairPass(routes, n).value.alreadyProcessed
              || exists k :: 0 <= k < |PairPass(routes, n).value.messages| &&
                   PairPass(routes, n).value.messages[k].route == routes[j].id
    decreases n
  {
    if n > 0 {
      PairPassNext(routes, n - 1);
      PairPassCovers(routes, n - 1);
      var st, st' := PairPass(routes, n - 1).value, PairPass(routes, n).value;
      PairStepSpec(routes, st, routes[n - 1]);
      forall j | 0 <= j < n
        ensures || routes[j].id in st'.alreadyProcessed
                || exists k :: 0 <= k < |st'.messages| && st'.messages[k].route == routes[j].id
      {
        if j == n - 1 {
          if routes[j].id !in st.alreadyProcessed {
            assert st'.messages[|st.messages|].route == routes[j].id;
          }
        } else if routes[j].id !in st.alreadyProcessed {
          var k :| 0 <= k < |st.messages| && st.messages[k].route == routes[j].id;
          assert st'.messages[k].route == routes[j].id;
        }
      }
    }
  }

  /** A route is skipped only when an earlier route chose it as its nearest
      and it chose that route back; a skipped route changes nothing. */
  lemma PairSkipRule(routes: seq<Route>, i: nat)
    requires i < |routes| && PairPass(routes, i).Success?
    requires routes[i].id in PairPass(routes, i).value.alreadyProcessed
    ensures PairPass(routes, i + 1) == PairPass(routes, i)
    ensures var msgs := PairPass(routes, i).value.messages;
      exists k :: 0 <= k < |msgs| && msgs[k].neighbour == routes[i].id && Reciprocated(routes, msgs[k]) &&
        exists j :: 0 <= j < i && Chose(routes, routes[j], msgs[k])
  {
    PairPassProcessed(routes, i);
    PairPassMessagesChosen(routes, i);
  }

  /** When no two routes share an id, no route reports twice. */
  lemma {:induction false} PairPassReportsOnce(routes: seq<Route>, n: nat)
    requires n <= |routes| && PairPass(routes, n).Success?
    requires forall i, j :: 0 <= i < j < |routes| ==> routes[i].id != routes[j].id
    ensures var msgs := PairPass(routes, n).value.messages;
      forall k1, k2 :: 0 <= k1 < k2 < |msgs| ==> msgs[k1].route != msgs[k2].route
    decreases n
  {
    if n > 0 {
      PairPassNext(routes, n - 1);
      PairPassReportsOnce(routes, n - 1);
      PairPassMessagesChosen(routes, n - 1);
      var st, st' := PairPass(routes, n - 1).value, PairPass(routes, n).value;
      PairStepSpec(routes, st, routes[n - 1]);
      forall k1, k2 | 0 <= k1 < k2 < |st'.messages|
        ensures st'.messages[k1].route != st'.messages[k2].route
      {
        assert st'.messages[k1] == st.messages[k1];
        if k2 < |st.messages| {
          assert st'.messages[k2] == st.messages[k2];
        } else {
          var j :| 0 <= j < n - 1 && Chose(routes, routes[j], st.messages[k1]);
        }
      }
    }
  }

  /** The messages come out ordered by distance, as a permutation of the
      pass's messages, with equal distances in the order they were found. */
  lemma PairMessagesSorted(routes: seq<Route>)
    requires PairMessages(routes).Success?
    ensures var found, r := PairPass(routes, |routes|).value.messages, PairMessages(routes).value;
      && SortedBy(r, ByDistance())
      && multiset(r) == multiset(found)
      && forall d :: WithKey(r, ByDistance(), d) == WithKey(found, ByDistance(), d)
  {
    var found := PairPass(routes, |routes|).value.messages;
    forall d ensures WithKey(SortBy(found, ByDistance()), ByDistance(), d) == WithKey(found, ByDistance(), d) {
      SortByStable(found, ByDistance(), d);
    }
  }

  // ---------------------------------------------------------------------
  // The pass after the ranking loops

  /** Every route has a non-empty ranking whose first id some route carries. */
  predicate WellRanked(routes: seq<Route>) {
    forall i :: 0 <= i < |routes| ==>
      && routes[i].ranking.Some? && routes[i].ranking.value != []
      && RouteById(routes, routes[i].ranking.value[0]).Some?
  }

  /** Over well-ranked routes no turn of the pass fails. */
  lemma {:induction false} WellRankedPasses(routes: seq<Route>, n: nat)
    requires n <= |routes| && WellRanked(routes)
    ensures PairPass(routes, n).Success?
    decreases n
  {
    if n > 0 {
      WellRankedPasses(routes, n - 1);
      WellRankedTurn(routes, PairPass(routes, n - 1).value, n - 1);
    }
  }

  lemma WellRankedTurn(routes: seq<Route>, st: PairState, i: nat)
    requires i < |routes| && WellRanked(routes)
    ensures PairStep(routes, st, routes[i]).Success?
  {
    var route := routes[i];
    if route.id !in st.alreadyProcessed {
      var id := route.ranking.value[0];
      RouteByIdFindsFirst(routes, id);
      var k :| 0 <= k < |routes| && routes[k] == RouteById(routes, id).value && routes[k].id == id &&
               forall j :: 0 <= j < k ==> routes[j].id != id;
      assert routes[k].ranking.Some? && routes[k].ranking.value != [];
    }
  }

  /** What the ranking loops leave in route `i`: the same id, and either a
      non-empty ranking of ids other routes carry, when some route has
      another id, or the ranking it came with. */
  lemma RankedRouteAt(s: seq<Route>, i: nat)
    requires i < |s|
    ensures RankedRoutes(s, |s|)[i].id == s[i].id
    ensures (exists j :: 0 <= j < |s| && s[j].id != s[i].id) ==>
              && RankedRoutes(s, |s|)[i].ranking.Some?
              && RankedRoutes(s, |s|)[i].ranking.value != []
              && forall x :: x in RankedRoutes(s, |s|)[i].ranking.value ==>
                   exists j :: 0 <= j < |s| && s[j].id == x && x != s[i].id
    ensures (forall j :: 0 <= j < |s| ==> s[j].id == s[i].id) ==>
              RankedRoutes(s, |s|)[i].ranking == s[i].ranking
  {
    RankedRoutesAt(s, |s|, i);
    RankedKeepsRoute(s, s[i]);
    RankingListsOtherIds(s, s[i]);
    if exists j :: 0 <= j < |s| && s[j].id != s[i].id {
      var j :| 0 <= j < |s| && s[j].id != s[i].id;
      assert s[j].id in RankingOf(s, s[i]).value;
    }
  }

  /** Once two routes carry different ids, every ranked route has a nearest
      route, so the pass over the ranked routes never fails. */
  lemma RankedRoutesWellRanked(s: seq<Route>)
    requires exists a, b :: 0 <= a < |s| && 0 <= b < |s| && s[a].id != s[b].id
    ensures WellRanked(RankedRoutes(s, |s|))
  {
    var r := RankedRoutes(s, |s|);
    var a, b :| 0 <= a < |s| && 0 <= b < |s| && s[a].id != s[b].id;
    forall i | 0 <= i < |r|
      ensures && r[i].ranking.Some? && r[i].ranking.value != []
              && RouteById(r, r[i].ranking.value[0]).Some?
    {
      RankedRouteAt(s, i);
      var other := if s[a].id != s[i].id then a else b;
      assert s[other].id != s[i].id;
      var x := r[i].ranking.value[0];
      assert x in r[i].ranking.value;
      var j :| 0 <= j < |s| && s[j].id == x && x != s[i].id;
      RankedRouteAt(s, j);
      assert r[j].id == x;
      RouteByIdFindsFirst(r, x);
    }
  }

  /** With at least two distinct ids the report's pairing pass succeeds. */
  lemma PairsAfterRankingSucceed(s: seq<Route>)
    requires exists a, b :: 0 <= a < |s| && 0 <= b < |s| && s[a].id != s[b].id
    ensures PairMessages(RankedRoutes(s, |s|)).Success?
  {
    RankedRoutesWellRanked(s);
    WellRankedPasses(RankedRoutes(s, |s|), |s|);
  }

  /** A pass whose first route has no ranking stops there. */
  lemma FirstUnrankedFails(routes: seq<Route>)
    requires routes != [] && routes[0].ranking.None?
    ensures PairMessages(routes) == Failure(MissingRanking(routes[0].id))
  {
    var turn := (st, route) => PairStep(routes, st, route);
    assert Pass(routes, 1, turn) == PairStep(routes, PairState([], []), routes[0]);
    PassStopsAt(routes, turn, 0, |routes|);
  }

  /** When every route carries the same id (a single route, say) no route
      is ever ranked, and the pass stops at the first route: its
      "route_similarity" key is missing. */
  lemma PairsAfterRankingFail(s: seq<Route>)
    requires s != [] && forall i :: 0 <= i < |s| ==> s[i].id == s[0].id && s[i].ranking.None?
    ensures PairMessages(RankedRoutes(s, |s|)) == Failure(MissingRanking(s[0].id))
  {
    RankedRouteAt(s, 0);
    FirstUnrankedFails(RankedRoutes(s, |s|));
  }
}
