/** Route normalisation: each route's compact hold list ("S1 O2") becomes
    the sequence of catalog holds it names, each a copy tagged with the
    token's role character. */
module Normalizer {
  import opened Wrappers
  import opened Dicts
  import opened Records
  import opened Catalog

  /** The exceptions normalisation raises: `hold[0]` on an empty token
      (IndexError), `int(hold[1:])` on a non-numeric rest (ValueError), and
      `wall_holds[id]` on an id the catalog lacks (KeyError). */
  datatype NormalizeError =
    | EmptyToken
    | BadHoldId(token: string)
    | UnresolvedHold(id: int)

  // ---------------------------------------------------------------------
  // Splitting on single spaces

  /** `s.split(" ")`: every single space separates two tokens, so the empty
      string gives one empty token and a double space an empty token. */
  function Split(s: string): (r: seq<string>)
    ensures |r| >= 1
    ensures forall i :: 0 <= i < |r| ==> ' ' !in r[i]
    decreases |s|
  {
    if s == [] then [""]
    else
      var rest := Split(s[1..]);
      if s[0] == ' ' then [""] + rest
      else [[s[0]] + rest[0]] + rest[1..]
  }

  /** `" ".join(ts)`. */
  function Join(ts: seq<string>): string
    requires |ts| >= 1
    decreases |ts|
  {
    if |ts| == 1 then ts[0] else ts[0] + " " + Join(ts[1..])
  }

  lemma {:induction false} JoinCons(c: char, ts: seq<string>)
    requires |ts| >= 1
    ensures Join([[c] + ts[0]] + ts[1..]) == [c] + Join(ts)
  {
    var ts' := [[c] + ts[0]] + ts[1..];
    assert ts'[1..] == ts[1..];
  }

  /** Joining the tokens with single spaces gives back the hold list. */
  lemma {:induction false} SplitJoin(s: string)
    ensures Join(Split(s)) == s
    decreases |s|
  {
    if s != [] {
      var rest := Split(s[1..]);
      SplitJoin(s[1..]);
      if s[0] == ' ' {
        assert ([""] + rest)[1..] == rest;
      } else {
        JoinCons(s[0], rest);
      }
      assert s == [s[0]] + s[1..];
    }
  }

  lemma {:induction false} SplitNoSpace(a: string, b: string)
    requires ' ' !in a
    ensures Split(a) == [a]
    ensures Split(a + " " + b) == [a] + Split(b)
    decreases |a|
  {
    if a == [] {
      assert a + " " + b == [' '] + b;
      assert (a + " " + b)[1..] == b;
    } else {
      SplitNoSpace(a[1..], b);
      assert (a + " " + b)[1..] == a[1..] + " " + b;
      assert a[1..] + " " + b != [] && (a + " " + b)[0] == a[0];
      assert [a[0]] + a[1..] == a;
    }
  }

  /** Splitting tokens that hold no space after joining them gives them back. */
  lemma {:induction false} JoinSplit(ts: seq<string>)
    requires |ts| >= 1
    requires forall i :: 0 <= i < |ts| ==> ' ' !in ts[i]
    ensures Split(Join(ts)) == ts
    decreases |ts|
  {
    if |ts| == 1 {
      SplitNoSpace(ts[0], "");
    } else {
      JoinSplit(ts[1..]);
      SplitNoSpace(ts[0], Join(ts[1..]));
      assert ts == [ts[0]] + ts[1..];
    }
  }

  // ---------------------------------------------------------------------
  // Decimal hold ids

  predicate IsDigit(c: char) {
    '0' <= c <= '9'
  }

  /** A non-empty string of ASCII digits: the hold ids `int()` is given here. */
  predicate IsDecimal(s: string) {
    |s| > 0 && forall i :: 0 <= i < |s| ==> IsDigit(s[i])
  }

  function DecimalValue(s: string): nat
    requires forall i :: 0 <= i < |s| ==> IsDigit(s[i])
  {
    if s == [] then 0
    else
      assert IsDigit(s[|s| - 1]);
      DecimalValue(s[..|s| - 1]) * 10 + (s[|s| - 1] as int - '0' as int)
  }

  /** `str(n)`. */
  function Decimal(n: nat): string
  {
    if n < 10 then [('0' as int + n) as char]
    else Decimal(n / 10) + [('0' as int + n % 10) as char]
  }

  lemma {:induction false} DecimalRoundTrip(n: nat)
    ensures IsDecimal(Decimal(n))
    ensures DecimalValue(Decimal(n)) == n
  {
    if n >= 10 {
      DecimalRoundTrip(n / 10);
      var s := Decimal(n);
      assert s[..|s| - 1] == Decimal(n / 10);
    }
  }

  // ---------------------------------------------------------------------
  // Tokens

  /** `(hold[0], int(hold[1:]))` for one token. */
  function ParseToken(t: string): (r: Result<(char, int), NormalizeError>)
    ensures r.Success? <==> |t| > 0 && IsDecimal(t[1..])
    ensures |t| == 0 ==> r == Failure(EmptyToken)
    ensures |t| > 0 && !IsDecimal(t[1..]) ==> r == Failure(BadHoldId(t))
    ensures r.Success? ==> r.value.0 == t[0] && r.value.1 == DecimalValue(t[1..])
  {
    if |t| == 0 then Failure(EmptyToken)
    else if !IsDecimal(t[1..]) then Failure(BadHoldId(t))
    else Success((t[0], DecimalValue(t[1..])))
  }

  /** A role character followed by the decimal form of an id reads back as
      that role and that id. */
  lemma TokenRoundTrip(role: char, id: nat)
    ensures ParseToken([role] + Decimal(id)) == Success((role, id))
  {
    DecimalRoundTrip(id);
    assert ([role] + Decimal(id))[1..] == Decimal(id);
  }

  /** The list comprehension over the tokens: the first token that does not
      parse aborts it. */
  function ParseTokens(ts: seq<string>): Result<seq<(char, int)>, NormalizeError>
  {
    if ts == [] then Success([])
    else
      var pairs :- ParseTokens(ts[..|ts| - 1]);
      var pair :- ParseToken(ts[|ts| - 1]);
      Success(pairs + [pair])
  }

  function ParseHoldsList(holdsList: string): Result<seq<(char, int)>, NormalizeError> {
    ParseTokens(Split(holdsList))
  }

  /** Parsing succeeds exactly when every token parses, and then keeps the
      tokens' number and order; otherwise it reports the first bad token. */
  lemma ParseTokensSpec(ts: seq<string>)
    ensures ParseTokens(ts).Success? <==> forall i :: 0 <= i < |ts| ==> ParseToken(ts[i]).Success?
    ensures ParseTokens(ts).Success? ==>
              |ParseTokens(ts).value| == |ts| &&
              forall i :: 0 <= i < |ts| ==> ParseTokens(ts).value[i] == ParseToken(ts[i]).value
    ensures ParseTokens(ts).Failure? ==>
              exists k :: 0 <= k < |ts| && ParseToken(ts[k]).Failure? &&
                (forall i :: 0 <= i < k ==> ParseToken(ts[i]).Success?) &&
                ParseTokens(ts).error == ParseToken(ts[k]).error
  {
    ParseTokensSucceedsIff(ts);
    if ParseTokens(ts).Failure? {
      ParseTokensNamesFirstBad(ts);
    }
  }

  lemma {:induction false} ParseTokensSucceedsIff(ts: seq<string>)
    ensures ParseTokens(ts).Success? <==> forall i :: 0 <= i < |ts| ==> ParseToken(ts[i]).Success?
    ensures ParseTokens(ts).Success? ==>
              |ParseTokens(ts).value| == |ts| &&
              forall i :: 0 <= i < |ts| ==> ParseTokens(ts).value[i] == ParseToken(ts[i]).value
  {
    if ts != [] {
      var init := ts[..|ts| - 1];
      ParseTokensSucceedsIff(init);
      assert forall i :: 0 <= i < |init| ==> init[i] == ts[i];
    }
  }

  lemma {:induction false} ParseTokensNamesFirstBad(ts: seq<string>)
    requires ParseTokens(ts).Failure?
    ensures exists k :: 0 <= k < |ts| && ParseToken(ts[k]).Failure? &&
              (forall i :: 0 <= i < k ==> ParseToken(ts[i]).Success?) &&
              ParseTokens(ts).error == ParseToken(ts[k]).error
  {
    var init := ts[..|ts| - 1];
    assert forall i :: 0 <= i < |init| ==> init[i] == ts[i];
    if ParseTokens(init).Failure? {
      ParseTokensNamesFirstBad(init);
      var k :| 0 <= k < |init| && ParseToken(init[k]).Failure? &&
               (forall i :: 0 <= i < k ==> ParseToken(init[i]).Success?) &&
               ParseTokens(init).error == ParseToken(init[k]).error;
      assert ts[k] == init[k];
    } else {
      ParseTokensSucceedsIff(init);
      assert ParseTokens(ts).error == ParseToken(ts[|ts| - 1]).error;
    }
  }

  // ---------------------------------------------------------------------
  // Resolving against the catalog

  /** The loop over the parsed pairs: each id is looked up, the catalog hold
      copied and its copy given the role. */
  function Resolve(pairs: seq<(char, int)>, catalog: Dict<int, Hold>): Result<seq<Hold>, NormalizeError>
  {
    if pairs == [] then Success([])
    else
      var holds :- Resolve(pairs[..|pairs| - 1], catalog);
      var (role, id) := pairs[|pairs| - 1];
      if id !in catalog.at then Failure(UnresolvedHold(id))
      else Success(holds + [catalog.at[id].(role := Some(role))])
  }

  /** Resolution succeeds exactly when every id is catalogued. */
  lemma {:induction false} ResolveSucceedsIff(pairs: seq<(char, int)>, catalog: Dict<int, Hold>)
    ensures Resolve(pairs, catalog).Success? <==> forall i :: 0 <= i < |pairs| ==> pairs[i].1 in catalog.at
  {
    if pairs != [] {
      var init := pairs[..|pairs| - 1];
      ResolveSucceedsIff(init, catalog);
      if Resolve(init, catalog).Failure? {
        var i :| 0 <= i < |init| && init[i].1 !in catalog.at;
        assert pairs[i] == init[i];
      } else {
        assert forall i :: 0 <= i < |init| ==> pairs[i] == init[i];
      }
    }
  }

  /** A successful resolution yields, pair by pair, the catalog's hold with
      the pair's role. */
  lemma {:induction false} ResolveSpec(pairs: seq<(char, int)>, catalog: Dict<int, Hold>)
    requires Resolve(pairs, catalog).Success?
    ensures forall i :: 0 <= i < |pairs| ==> pairs[i].1 in catalog.at
    ensures |Resolve(pairs, catalog).value| == |pairs|
    ensures forall i :: 0 <= i < |pairs| ==>
              Resolve(pairs, catalog).value[i] == catalog.at[pairs[i].1].(role := Some(pairs[i].0))
  {
    ResolveSucceedsIff(pairs, catalog);
    if pairs != [] {
      var init, last := pairs[..|pairs| - 1], pairs[|pairs| - 1];
      ResolveSpec(init, catalog);
      var hs := Resolve(init, catalog).value;
      var r := Resolve(pairs, catalog);
      assert r.value == hs + [catalog.at[last.1].(role := Some(last.0))];
      forall i | 0 <= i < |pairs|
        ensures r.value[i] == catalog.at[pairs[i].1].(role := Some(pairs[i].0))
      {
        if i < |init| {
          assert pairs[i] == init[i];
        }
      }
    }
  }

  /** A failing resolution names the first id the catalog lacks. */
  lemma {:induction false} ResolveNamesFirstMissing(pairs: seq<(char, int)>, catalog: Dict<int, Hold>)
    requires Resolve(pairs, catalog).Failure?
    ensures exists k :: 0 <= k < |pairs| && pairs[k].1 !in catalog.at &&
              (forall i :: 0 <= i < k ==> pairs[i].1 in catalog.at) &&
              Resolve(pairs, catalog).error == UnresolvedHold(pairs[k].1)
  {
    var init := pairs[..|pairs| - 1];
    if Resolve(init, catalog).Failure? {
      ResolveNamesFirstMissing(init, catalog);
      var k :| 0 <= k < |init| && init[k].1 !in catalog.at &&
               (forall i :: 0 <= i < k ==> init[i].1 in catalog.at) &&
               Resolve(init, catalog).error == UnresolvedHold(init[k].1);
      FirstMissingExtends(pairs, init, catalog, k);
    } else {
      ResolveSucceedsIff(init, catalog);
      FirstMissingIsLast(pairs, init, catalog);
    }
  }

  lemma FirstMissingExtends(pairs: seq<(char, int)>, init: seq<(char, int)>, catalog: Dict<int, Hold>, k: nat)
    requires |pairs| > 0 && init == pairs[..|pairs| - 1] && k < |init|
    requires Resolve(init, catalog).Failure?
    requires init[k].1 !in catalog.at
    requires forall i :: 0 <= i < k ==> init[i].1 in catalog.at
    requires Resolve(init, catalog).error == UnresolvedHold(init[k].1)
    ensures pairs[k].1 !in catalog.at
    ensures forall i :: 0 <= i < k ==> pairs[i].1 in catalog.at
    ensures Resolve(pairs, catalog).error == UnresolvedHold(pairs[k].1)
  {
    assert forall i :: 0 <= i <= k ==> init[i] == pairs[i];
  }

  lemma FirstMissingIsLast(pairs: seq<(char, int)>, init: seq<(char, int)>, catalog: Dict<int, Hold>)
    requires |pairs| > 0 && init == pairs[..|pairs| - 1] && Resolve(pairs, catalog).Failure?
    requires forall i :: 0 <= i < |init| ==> init[i].1 in catalog.at
    requires Resolve(init, catalog).Success?
    ensures pairs[|pairs| - 1].1 !in catalog.at
    ensures forall i :: 0 <= i < |pairs| - 1 ==> pairs[i].1 in catalog.at
    ensures Resolve(pairs, catalog).error == UnresolvedHold(pairs[|pairs| - 1].1)
  {
    assert forall i :: 0 <= i < |init| ==> init[i] == pairs[i];
  }

  /** One route's "normalizedHolds". */
  function NormalizedHolds(holdsList: string, catalog: Dict<int, Hold>): Result<seq<Hold>, NormalizeError> {
    var pairs :- ParseHoldsList(holdsList);
    Resolve(pairs, catalog)
  }

  /** A token normalisation accepts: a role character followed by digits. */
  predicate WellFormedToken(t: string) {
    |t| > 0 && IsDecimal(t[1..])
  }

  /** Normalising one route succeeds exactly when every token is a role
      character followed by digits and every id it names is catalogued. */
  lemma NormalizeSucceedsIff(holdsList: string, catalog: Dict<int, Hold>)
    ensures NormalizedHolds(holdsList, catalog).Success? <==>
              && (forall t :: t in Split(holdsList) ==> WellFormedToken(t))
              && (forall t :: t in Split(holdsList) ==> DecimalValue(t[1..]) in catalog.at)
  {
    var ts := Split(holdsList);
    ParseTokensSpec(ts);
    if ParseTokens(ts).Success? {
      var ps := ParseTokens(ts).value;
      ResolveSucceedsIff(ps, catalog);
      if Resolve(ps, catalog).Failure? {
        var k :| 0 <= k < |ps| && ps[k].1 !in catalog.at;
        assert ts[k] in ts;
      }
    } else {
      var k :| 0 <= k < |ts| && ParseToken(ts[k]).Failure?;
      assert ts[k] in ts;
      assert !WellFormedToken(ts[k]);
      assert ParseHoldsList(holdsList).Failure?;
      assert NormalizedHolds(holdsList, catalog).Failure?;
    }
  }

  /** The normalised holds of a route, against the catalog built from the
      wall's holds: one hold per token, in token order, with the token's id
      and its first character as role, and otherwise the catalog's hold for
      that id unchanged. */
  lemma NormalizeKeepsTokens(holdsList: string, wallHolds: seq<Hold>)
    requires NormalizedHolds(holdsList, CatalogOf(wallHolds)).Success?
    ensures |NormalizedHolds(holdsList, CatalogOf(wallHolds)).value| == |Split(holdsList)|
    ensures forall i :: 0 <= i < |Split(holdsList)| ==>
              var t, h := Split(holdsList)[i], NormalizedHolds(holdsList, CatalogOf(wallHolds)).value[i];
              && WellFormedToken(t)
              && h.id == DecimalValue(t[1..])
              && h.role == Some(t[0])
              && h.id in CatalogOf(wallHolds).at
              && h == CatalogOf(wallHolds).at[h.id].(role := Some(t[0]))
  {
    var ts, c := Split(holdsList), CatalogOf(wallHolds);
    ParseTokensSucceedsIff(ts);
    var ps := ParseTokens(ts).value;
    assert NormalizedHolds(holdsList, c) == Resolve(ps, c);
    ResolveSpec(ps, c);
    CatalogKeysMatch(wallHolds);
    var hs := Resolve(ps, c).value;
    forall i | 0 <= i < |ts|
      ensures && WellFormedToken(ts[i])
              && hs[i].id == DecimalValue(ts[i][1..])
              && hs[i].role == Some(ts[i][0])
              && hs[i].id in c.at
              && hs[i] == c.at[hs[i].id].(role := Some(ts[i][0]))
    {
      assert ps[i] == ParseToken(ts[i]).value;
      assert ps[i].1 in c.at;
      assert hs[i] == c.at[ps[i].1].(role := Some(ps[i].0));
    }
  }

  // ---------------------------------------------------------------------
  // The whole collection

  /** The loop over the routes with `normalize` standing for one route's
      normalisation: each route in turn gets its "normalizedHolds", and the
      first route that fails ends it with that route's error. */
  function SetAllHolds(routes: seq<Route>, normalize: string -> Result<seq<Hold>, NormalizeError>): Result<seq<Route>, NormalizeError>
  {
    if routes == [] then Success([])
    else
      var done :- SetAllHolds(routes[..|routes| - 1], normalize);
      var route := routes[|routes| - 1];
      var holds :- normalize(route.holdsList);
      Success(done + [route.(normalizedHolds := holds)])
  }

  /** The route collection after normalisation, or the first route's error. */
  function NormalizeAll(routes: seq<Route>, catalog: Dict<int, Hold>): Result<seq<Route>, NormalizeError> {
    SetAllHolds(routes, holdsList => NormalizedHolds(holdsList, catalog))
  }

  /** Normalising the collection only sets each route's "normalizedHolds",
      succeeds exactly when every route normalises, and otherwise reports
      the error of the first route that does not. */
  lemma NormalizeAllSpec(routes: seq<Route>, catalog: Dict<int, Hold>)
    ensures NormalizeAll(routes, catalog).Success? <==>
              forall i :: 0 <= i < |routes| ==> NormalizedHolds(routes[i].holdsList, catalog).Success?
    ensures NormalizeAll(routes, catalog).Success? ==>
              |NormalizeAll(routes, catalog).value| == |routes| &&
              forall i :: 0 <= i < |routes| ==>
                NormalizeAll(routes, catalog).value[i] ==
                  routes[i].(normalizedHolds := NormalizedHolds(routes[i].holdsList, catalog).value)
    ensures NormalizeAll(routes, catalog).Failure? ==>
              exists k :: 0 <= k < |routes| && NormalizedHolds(routes[k].holdsList, catalog).Failure? &&
                (forall i :: 0 <= i < k ==> NormalizedHolds(routes[i].holdsList, catalog).Success?) &&
                NormalizeAll(routes, catalog).error == NormalizedHolds(routes[k].holdsList, catalog).error
  {
    var normalize := holdsList => NormalizedHolds(holdsList, catalog);
    SetAllHoldsSucceedsIff(routes, normalize);
    if SetAllHolds(routes, normalize).Success? {
      SetAllHoldsValues(routes, normalize);
    } else {
      SetAllHoldsNamesFirstFailure(routes, normalize);
    }
  }

  lemma {:induction false} SetAllHoldsSucceedsIff(routes: seq<Route>, normalize: string -> Result<seq<Hold>, NormalizeError>)
    ensures SetAllHolds(routes, normalize).Success? <==>
              forall i :: 0 <= i < |routes| ==> normalize(routes[i].holdsList).Success?
  {
    if routes != [] {
      var init := routes[..|routes| - 1];
      SetAllHoldsSucceedsIff(init, normalize);
      assert forall i :: 0 <= i < |init| ==> init[i] == routes[i];
    }
  }

  lemma {:induction false} SetAllHoldsValues(routes: seq<Route>, normalize: string -> Result<seq<Hold>, NormalizeError>)
    requires SetAllHolds(routes, normalize).Success?
    ensures |SetAllHolds(routes, normalize).value| == |routes|
    ensures forall i :: 0 <= i < |routes| ==>
              normalize(routes[i].holdsList).Success? &&
              SetAllHolds(routes, normalize).value[i] ==
                routes[i].(normalizedHolds := normalize(routes[i].holdsList).value)
  {
    if routes != [] {
      var init := routes[..|routes| - 1];
      SetAllHoldsValues(init, normalize);
      assert forall i :: 0 <= i < |init| ==> init[i] == routes[i];
    }
  }

  lemma {:induction false} SetAllHoldsNamesFirstFailure(routes: seq<Route>, normalize: string -> Result<seq<Hold>, NormalizeError>)
    requires SetAllHolds(routes, normalize).Failure?
    ensures exists k :: 0 <= k < |routes| && normalize(routes[k].holdsList).Failure? &&
              (forall i :: 0 <= i < k ==> normalize(routes[i].holdsList).Success?) &&
              SetAllHolds(routes, normalize).error == normalize(routes[k].holdsList).error
  {
    var init := routes[..|routes| - 1];
    assert forall i :: 0 <= i < |init| ==> init[i] == routes[i];
    if SetAllHolds(init, normalize).Failure? {
      SetAllHoldsNamesFirstFailure(init, normalize);
      var k :| 0 <= k < |init| && normalize(init[k].holdsList).Failure? &&
               (forall i :: 0 <= i < k ==> normalize(init[i].holdsList).Success?) &&
               SetAllHolds(init, normalize).error == normalize(init[k].holdsList).error;
      assert routes[k] == init[k];
    } else {
      SetAllHoldsSucceedsIff(init, normalize);
    }
  }

  /** The array when the pass stops at route `k`: route `k` fails with
      `e`, the routes before it are normalised in `after`, and the rest are
      as they were. */
  predicate StoppedAt(before: seq<Route>, after: seq<Route>, k: nat, catalog: Dict<int, Hold>, e: NormalizeError) {
    k < |before| == |after| &&
    NormalizedHolds(before[k].holdsList, catalog) == Failure(e) &&
    NormalizeAll(before[..k], catalog) == Success(after[..k]) &&
    after[k..] == before[k..]
  }

  /** Where the pass stops is the first route that does not normalise, and
      its error is the error of the whole collection. */
  lemma StoppedAtFirstFailure(before: seq<Route>, after: seq<Route>, k: nat, catalog: Dict<int, Hold>, e: NormalizeError)
    requires StoppedAt(before, after, k, catalog, e)
    ensures forall i :: 0 <= i < k ==> NormalizedHolds(before[i].holdsList, catalog).Success?
    ensures NormalizeAll(before, catalog) == Failure(e)
  {
    var normalize := holdsList => NormalizedHolds(holdsList, catalog);
    SetAllHoldsSucceedsIff(before[..k], normalize);
    assert forall i :: 0 <= i < k ==> before[..k][i] == before[i];
    SetAllHoldsStopsAt(before, normalize, k);
  }

  /** `normalize()` without its file I/O: builds `wall_holds`, then sets
      every route's "normalizedHolds" in place, stopping at the first error. */
  method Normalize(wallHolds: seq<Hold>, routes: array<Route>) returns (err: Option<NormalizeError>)
    modifies routes
    ensures NormalizeAll(old(routes[..]), CatalogOf(wallHolds)).Success? <==> err.None?
    ensures err.None? ==> routes[..] == NormalizeAll(old(routes[..]), CatalogOf(wallHolds)).value
    ensures err.Some? ==> err.value == NormalizeAll(old(routes[..]), CatalogOf(wallHolds)).error
    ensures err.Some? ==> exists k :: StoppedAt(old(routes[..]), routes[..], k, CatalogOf(wallHolds), err.value)
  {
    err := None;
    var wallCatalog := BuildCatalog(wallHolds);
    ghost var normalize := holdsList => NormalizedHolds(holdsList, wallCatalog);
    ghost var input := routes[..];
    for i := 0 to routes.Length
      invariant SetAllHolds(input[..i], normalize) == Success(routes[..i])
      invariant routes[i..] == input[i..]
    {
      assert routes[i] == input[i];
      var holds := NormalizeRoute(routes[i].holdsList, wallCatalog);
      assert holds == normalize(input[i].holdsList);
      if holds.Failure? {
        SetAllHoldsStopsAt(input, normalize, i);
        assert StoppedAt(input, routes[..], i, wallCatalog, holds.error);
        return Some(holds.error);
      }
      SetAllHoldsStep(input, normalize, i);
      routes[i] := routes[i].(normalizedHolds := holds.value);
      assert routes[..i + 1] == routes[..i] + [routes[i]];
    }
    assert input[..routes.Length] == input;
    assert routes[..routes.Length] == routes[..];
  }

  /** The body of the loop over the routes for one route: split and parse
      its hold list, then look every id up in the catalog. */
  method NormalizeRoute(holdsList: string, catalog: Dict<int, Hold>) returns (r: Result<seq<Hold>, NormalizeError>)
    ensures r == NormalizedHolds(holdsList, catalog)
  {
    var parsed := ParseHoldsList(holdsList);
    if parsed.Failure? {
      return Failure(parsed.error);
    }
    r := ResolveHolds(parsed.value, catalog);
  }

  /** The inner loop of `normalize()` over one route's parsed tokens. */
  method ResolveHolds(pairs: seq<(char, int)>, catalog: Dict<int, Hold>) returns (r: Result<seq<Hold>, NormalizeError>)
    ensures r == Resolve(pairs, catalog)
  {
    var routeHolds := [];
    for j := 0 to |pairs|
      invariant Resolve(pairs[..j], catalog) == Success(routeHolds)
    {
      assert pairs[..j + 1][..j] == pairs[..j];
      var (role, id) := pairs[j];
      if id !in catalog.at {
        ResolveStopsAt(pairs, catalog, j);
        return Failure(UnresolvedHold(id));
      }
      var hold := catalog.at[id].(role := Some(role));
      routeHolds := routeHolds + [hold];
    }
    assert pairs[..|pairs|] == pairs;
    return Success(routeHolds);
  }

  lemma {:induction false} ResolveStopsAt(pairs: seq<(char, int)>, catalog: Dict<int, Hold>, j: nat)
    requires j < |pairs| && pairs[j].1 !in catalog.at
    requires Resolve(pairs[..j], catalog).Success?
    ensures Resolve(pairs, catalog) == Failure(UnresolvedHold(pairs[j].1))
    decreases |pairs|
  {
    if |pairs| - 1 > j {
      assert pairs[..|pairs| - 1][..j] == pairs[..j];
      ResolveStopsAt(pairs[..|pairs| - 1], catalog, j);
    } else {
      assert pairs[..|pairs| - 1] == pairs[..j];
    }
  }

  lemma SetAllHoldsStep(routes: seq<Route>, normalize: string -> Result<seq<Hold>, NormalizeError>, i: nat)
    requires i < |routes| && normalize(routes[i].holdsList).Success?
    requires SetAllHolds(routes[..i], normalize).Success?
    ensures SetAllHolds(routes[..i + 1], normalize) ==
              Success(SetAllHolds(routes[..i], normalize).value + [routes[i].(normalizedHolds := normalize(routes[i].holdsList).value)])
  {
    assert routes[..i + 1][..i] == routes[..i];
  }

  lemma {:induction false} SetAllHoldsStopsAt(routes: seq<Route>, normalize: string -> Result<seq<Hold>, NormalizeError>, i: nat)
    requires i < |routes| && normalize(routes[i].holdsList).Failure?
    requires SetAllHolds(routes[..i], normalize).Success?
    ensures SetAllHolds(routes, normalize) == Failure(normalize(routes[i].holdsList).error)
    decreases |routes|
  {
    if |routes| - 1 > i {
      assert routes[..|routes| - 1][..i] == routes[..i];
      SetAllHoldsStopsAt(routes[..|routes| - 1], normalize, i);
    } else {
      assert routes[..|routes| - 1] == routes[..i];
    }
  }
}
