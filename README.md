# Stokt hold report, modelled in Dafny

`stokt_report.py` downloads the routes set on a Stokt climbing wall and the
wall's hold catalogue. It then reports on hold usage and on route
similarity. This project models the computational core of that script and
proves what its results mean:

- **Catalogue.** The wall's hold list becomes an id → hold dict, in which a
  later hold with the same id overwrites an earlier one (`Catalog`).
- **Normalisation.** Each route's compact `holdsList` such as `"S1 O2"` is
  split on single spaces. Every token becomes a role character and an
  integer id. Every id is looked up in the catalogue, and a copy of the hold
  tagged with the role is stored as the route's `normalizedHolds`
  (`Normalizer`, including the in-place pass over an array of routes).
- **Hold colours.** `type2color` maps the role characters F, T, O, S to
  colours and fails on any other character (`Colors`).
- **Hold-inclusion distance.** This is the size of the symmetric difference
  of two routes' hold-id sets (`Similarity.Distance`).
- **Route lookup.** `routeid2route` returns the first route with a given id.
- **Per-route similarity ranking.** For every route, the ids of the other
  routes are stably sorted by distance (`Similarity`, including the
  in-place pass over an array of routes).
- **Mutual-pair messages.** A greedy pass picks each route's nearest
  neighbour and skips routes already reported as the reciprocated
  neighbour of an earlier route. The messages are then stably sorted by
  distance (`Pairs`).
- **Popularity.** Hold usage is counted across routes, and the distinct ids
  are ranked by decreasing count with ties in first-seen order. This covers
  the overall top hold, the per-grade top ten, the unused catalogue holds
  and the holds used exactly once (`Popularity`).
- **Worked examples.**
  - Against a catalogue of holds 1 and 2, the hold list `"S1 O2"` becomes
    hold 1 tagged S and hold 2 tagged O, and `"S1 O3"` fails on hold 3
    (`NormalizeExample`).
  - Three routes A {1,2}, B {1,2,3} and C {3,4}: A and B choose each other
    and C chooses B, so the report holds two messages (`SimilarityExample`).
  - Routes with hold ids [1,2], [2,3] and [2]: they rank the holds [2,1,3],
    leave hold 4 of the catalogue unused and use holds 1 and 3 exactly once
    (`UsageExample`).

Supporting modules:

| module | models |
|---|---|
| `Wrappers` | `Option` and `Result` |
| `Seqs` | first-seen deduplication, list comprehensions with and without a condition (`Filter`, `Map`), and duplicate-freedom |
| `Sorting` | Python's stable `sorted` with a key, as an insertion sort; `reverse=True` is an ascending sort on the negated key, which is just as stable |
| `Dicts` | a Python dict: insertion-ordered keys, and assignment that overwrites in place |
| `Records` | the hold and route records |

Python raises `KeyError`, `IndexError`, `ValueError` or `TypeError` when a
step cannot go on, or, in `type2color` (stokt_report.py:126), a plain
`Exception` for an unknown role character. The `TypeError` arises in the pair pass when
`routeid2route` finds no route for the nearest neighbour's id and returns
`None`, which is then indexed. The model returns most of these as
`Failure` values that name the offending role character, token, id or
route. An empty token (`hold[0]` on `""`) fails as `EmptyToken`, which
names nothing. The `[0]` at stokt_report.py:204 on routes that use no hold is
`MostPopularHold` returning `None`.

## Model

| member | source | states |
|---|---|---|
| Colors.TypeToColor | stokt_report.py:116-126 | succeeds exactly for the role characters F, T, O and S, and otherwise fails with an error naming the character |
| Colors.TypeToColorInverse | stokt_report.py:116-126 | each role character maps to exactly one colour and each colour comes from exactly one character, so the colouring is one-to-one |
| Catalog.BuildCatalog | stokt_report.py:88-90 | the dict the loop builds is the catalogue of the wall's hold list |
| Catalog.CatalogIndexesHolds | stokt_report.py:88-90 | the catalogue's keys are the hold ids in order of first appearance; each entry has its own key as id; a hold whose id does not recur later is the one stored |
| Catalog.CatalogOrder | stokt_report.py:88-90 | the key order is the first-seen order of the hold ids |
| Catalog.CatalogKeysMatch | stokt_report.py:88-90 | every entry is stored under its own id |
| Catalog.CatalogLastWins | stokt_report.py:88-90 | for a repeated id the last hold wins |
| Normalizer.SplitJoin | stokt_report.py:99 | joining the pieces of `split(" ")` with single spaces gives back the string |
| Normalizer.JoinSplit | stokt_report.py:99 | splitting space-free pieces joined by single spaces gives back the pieces |
| Normalizer.DecimalRoundTrip | stokt_report.py:97 | the decimal spelling of a natural number is a digit string that parses back to it |
| Normalizer.ParseToken | stokt_report.py:97 | a token parses exactly when it is non-empty and the rest after its first character is a digit string; an empty token fails as `hold[0]` does, a non-numeric rest fails naming the token; the role is the first character and the id is the value of the digits |
| Normalizer.TokenRoundTrip | stokt_report.py:97 | a role character followed by the decimal spelling of an id parses to that role and id |
| Normalizer.ParseTokensSpec | stokt_report.py:97-100 | the list comprehension succeeds exactly when every token parses, keeps the tokens' number and order, and otherwise reports the first bad token's error |
| Normalizer.ResolveSucceedsIff | stokt_report.py:101-107 | the lookups succeed exactly when every id is catalogued |
| Normalizer.ResolveSpec | stokt_report.py:101-107 | on success, the i-th hold is the catalogue entry of the i-th id, tagged with the i-th role |
| Normalizer.ResolveNamesFirstMissing | stokt_report.py:101-107 | on failure, the error names the first id that is not catalogued |
| Normalizer.ResolveHolds | stokt_report.py:101-108 | the lookup loop computes the resolution above and stops at the first missing id |
| Normalizer.NormalizeRoute | stokt_report.py:97-109 | one route's normalisation is parsing followed by resolution |
| Normalizer.NormalizeSucceedsIff | stokt_report.py:97-107 | normalising a hold list succeeds exactly when every token is a role character followed by digits that name a catalogued id |
| Normalizer.NormalizeKeepsTokens | stokt_report.py:97-109 | normalisation keeps the tokens' number and order: hold i has token i's id and role and is a tagged copy of that id's catalogue entry |
| Normalizer.NormalizeAllSpec | stokt_report.py:92-109 | the pass over all routes sets only each route's `normalizedHolds`; it succeeds exactly when every route normalises, and otherwise reports the first failing route's error |
| Normalizer.Normalize | stokt_report.py:88-109 | the in-place pass over the route array builds the catalogue, leaves the routes normalised on success, and otherwise returns the error of the first failing route `k`, with routes `0..k-1` already normalised and route `k` onwards untouched |
| Normalizer.StoppedAtFirstFailure | stokt_report.py:92-109 | the route where the pass stops is the first route that does not normalise, and its error is the collection's error |
| Similarity.DistanceIsSymmetricDifference | stokt_report.py:10-15 | the distance is the size of the symmetric difference of the two hold-id sets |
| Similarity.DistanceZeroIff | stokt_report.py:10-15 | the distance is zero exactly when the two routes use the same set of hold ids |
| Similarity.DistanceSymmetric | stokt_report.py:14-15 | the distance does not depend on argument order, which is the `assert` at line 14 |
| Similarity.DistanceToSelf | stokt_report.py:10-15 | a route is at distance zero from itself |
| Similarity.DistanceCountsUnsharedIds | stokt_report.py:10-15 | distance = ids of the first + ids of the second − 2 × shared ids |
| Similarity.DistanceSeesOnlyIds | stokt_report.py:11-15 | routes whose hold lists contain the same ids are equally far from every route, whatever the roles, order or repetitions |
| Similarity.DistanceSeesHolds | stokt_report.py:11-15 | the distance depends on a route only through its normalised holds |
| Similarity.DistanceTriangle | stokt_report.py:10-15 | the distance satisfies the triangle inequality |
| Similarity.RouteByIdFindsFirst | stokt_report.py:18-21 | the lookup finds a route exactly when one has the id, and then returns the first such route |
| Similarity.RankRoute | stokt_report.py:256-262 | the inner loop leaves the route carrying the ranking of its similarity dict, or untouched if no other route exists |
| Similarity.RankAll | stokt_report.py:255-262 | the outer loop ranks every route of the array |
| Similarity.RankedRoutesAt | stokt_report.py:255-262 | after the loop, route j carries its own ranking |
| Similarity.RankedKeepsRoute | stokt_report.py:255-262 | ranking changes only the route's `route_similarity`, and leaves it as it was when no other route exists (absent for freshly normalised routes) |
| Similarity.SimilarityDictOrder | stokt_report.py:256-261 | the dict's keys are the other routes' ids in first-seen collection order |
| Similarity.SimilarityDictLastWins | stokt_report.py:256-261 | for an id held by several routes, the distance to the last of them is recorded |
| Similarity.RankingListsOtherIds | stokt_report.py:255-262 | the ranking is absent exactly when every route has the route's own id; otherwise it lists every other route id exactly once |
| Similarity.RankingByDistance | stokt_report.py:255-262 | the ranking is ordered by non-decreasing recorded distance, and the recorded distance of an id is the real distance to the last route with that id |
| Similarity.RankingTiesInCollectionOrder | stokt_report.py:255-262 | ids at the same distance keep their first-seen collection order |
| Pairs.ExtractPairMessages | stokt_report.py:266-279 | the loop computes the pass followed by a sort by distance |
| Pairs.PairStepSpec | stokt_report.py:268-278 | a turn either skips an already-processed route and changes nothing, or appends the message for the route's nearest neighbour; it records that neighbour as processed exactly when the neighbour ranks the route first |
| Pairs.PairPassMessagesChosen | stokt_report.py:266-278 | there is at most one message per route visited, and each message is the choice of a visited route |
| Pairs.PairPassProcessed | stokt_report.py:267-274 | `already_processed` holds exactly the neighbours of reciprocated messages |
| Pairs.PairPassCovers | stokt_report.py:266-278 | every visited route is either reported or already processed |
| Pairs.PairSkipRule | stokt_report.py:268-274 | a route is skipped only after an earlier route chose it and it chose that route back; the skip changes nothing |
| Pairs.PairPassReportsOnce | stokt_report.py:266-278 | when route ids are distinct, no route is reported twice |
| Pairs.PairMessagesSorted | stokt_report.py:279 | the messages are sorted by distance and are a permutation of those found; messages at equal distance keep their order |
| Pairs.WellRankedPasses | stokt_report.py:266-278 | over ranked routes whose nearest neighbours exist, the pass does not fail |
| Pairs.PairsAfterRankingSucceed | stokt_report.py:255-279 | after ranking a collection with two distinct ids, message extraction succeeds |
| Pairs.FirstUnrankedFails | stokt_report.py:271 | a first route without `route_similarity` makes the pass fail with an error naming it |
| Pairs.PairsAfterRankingFail | stokt_report.py:255-271 | a collection whose routes all share one id is left unranked, so message extraction fails on the first route |
| Popularity.AllHoldIdsMembers | stokt_report.py:234-237 | the collected list holds exactly the ids some route uses |
| Popularity.TallyCounts | stokt_report.py:171-177 | the counts dict lists each used id once in first-seen order, and holds each id's number of uses |
| Popularity.CountHold | stokt_report.py:174-177 | counting one hold raises its count by one, starting from 0 for a new id, which is appended to the key order; the other counts are unchanged |
| Popularity.CountHolds | stokt_report.py:173-177 | the inner loop extends the tally by one route's holds |
| Popularity.MostPopularHoldIds | stokt_report.py:170-178 | the function returns the used ids in first-seen order, stably sorted by decreasing count |
| Popularity.PopularityListsUsedIds | stokt_report.py:170-178 | the result lists each used id exactly once and nothing else |
| Popularity.PopularityByCount | stokt_report.py:178 | counts do not increase along the result |
| Popularity.PopularityTiesFirstSeen | stokt_report.py:170-178 | ids with equal counts appear in the order of their first use |
| Popularity.MostPopularHoldSpec | stokt_report.py:204 | a most popular hold exists exactly when some hold is used (otherwise `[0]` raises), and no hold is used more often than it |
| Popularity.RoutesOfGradeSpec | stokt_report.py:223 | the routes of a grade are exactly those carrying it, each as often as in the collection and in collection order |
| Popularity.GradeTopHoldsSpec | stokt_report.py:222-227 | the grade loop reports the grades that have routes, in list order, each with the first ten of its own popularity ranking |
| Popularity.GradeTopHoldsShown | stokt_report.py:222-227 | every listed grade with routes is drawn, and every drawn grade is listed and has routes |
| Popularity.GradeReportSkipsV0 | stokt_report.py:222 | over the script's grade list, which starts at V1, routes graded V0 are never drawn |
| Popularity.UnusedHoldIdsSpec | stokt_report.py:238 | the unused holds are exactly the catalogued ids no route uses, once each, in catalogue order |
| Popularity.HoldsUsedExactlyOnceSpec | stokt_report.py:245-246 | the list holds exactly the ids used once, without duplicates, in order of first use |
| Popularity.NormalizedIdsCatalogued | stokt_report.py:105-109 | after successful normalisation, every used id is a catalogue key, so the `wall_holds[hold_id]` lookups of the report cannot fail |
| SimilarityExample.Distances | stokt_report.py:10-15 | the distances between A {1,2}, B {1,2,3} and C {3,4} are 1, 3 and 4 |
| SimilarityExample.Ranking | stokt_report.py:255-262 | A ranks [B, C], B ranks [A, C] and C ranks [B, A] |
| SimilarityExample.ClosingMessages | stokt_report.py:266-279 | A and B choose each other and C chooses B, so the messages are (1, A, B) and (3, C, B) |
| SimilarityExample.Report | stokt_report.py:255-279 | ranking then pairing the three routes gives those two messages |
| NormalizeExample.TwoTokens | stokt_report.py:97-107 | two well-formed tokens naming catalogued ids become the two catalogue holds, each tagged with its token's role |
| NormalizeExample.SecondTokenMissing | stokt_report.py:97-107 | two well-formed tokens whose second id is not catalogued fail naming that id |
| NormalizeExample.StartAndOn | stokt_report.py:97-107 | against a catalogue of holds 1 and 2, "S1 O2" becomes hold 1 tagged S and hold 2 tagged O |
| NormalizeExample.UnresolvedId | stokt_report.py:97-107 | against the same catalogue, "S1 O3" fails naming hold 3 |
| UsageExample.Ranking | stokt_report.py:170-178 | for hold ids [1,2], [2,3] and [2] the ranking is [2, 1, 3] |
| UsageExample.Unused | stokt_report.py:234-238 | with a catalogue of holds 1 to 4, only hold 4 is unused |
| UsageExample.UsedOnce | stokt_report.py:234-246 | holds 1 and 3 are used exactly once |

## Left out

- Downloading routes, the wall configuration and the image over HTTP, and
  all JSON file reading and writing. The model takes the parsed records as
  inputs.
- Drawing the holds with matplotlib, including the float parsing of polygon
  strings. A hold's polygon is carried as an uninterpreted string.
- The HTML report, command-line arguments, the interactive prompt, the
  per-route images and all printing.
- The English text of each pair message. A message is modelled as its
  distance, route id and neighbour id.
- Hold metadata other than the id and the role. It is carried along as one
  opaque field.
- Normalizer.ParseToken: accepts only a non-empty string of ASCII digits as
  an id. Python's `int()` also takes signs, surrounding whitespace,
  underscores and non-ASCII digits.
- Similarity.RankAll: ranks every route against the collection as it was
  before the loop began. The loop changes only `route_similarity`, which
  the distance does not read (`Similarity.DistanceSeesHolds`), so this
  gives the same result.
- Popularity.Top: the `[:5]` and `[:10]` slices at lines 210 and 216 are
  modelled only as this function. Only the per-grade use of the top ten has
  a lemma (`Popularity.GradeTopHoldsSpec`).

Three behaviours of the script that the model keeps:

- The hold list is split on single spaces, not on any run of whitespace.
  An empty list or a doubled space yields an empty token, which fails at
  `hold[0]`.
- A duplicate id in the wall's hold list is not reported. The later hold
  silently replaces the earlier one in the catalogue.
- Normalisation does not check the role character. Only `type2color`
  rejects an unknown role.
