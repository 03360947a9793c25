/** The wall's hold catalog: the dict `wall_holds` from hold id to hold,
    filled from the wall configuration's hold list. */
module Catalog {
  import opened Seqs
  import opened Dicts
  import opened Records

  /** `wall_holds` after `for hold in holds: wall_holds[hold["id"]] = hold`. */
  function CatalogOf(holds: seq<Hold>): (c: Dict<int, Hold>)
    ensures c.Valid()
  {
    if holds == [] then Empty()
    else CatalogOf(holds[..|holds| - 1]).Put(holds[|holds| - 1].id, holds[|holds| - 1])
  }

  /** The loop that fills `wall_holds`. */
  method BuildCatalog(holds: seq<Hold>) returns (c: Dict<int, Hold>)
    ensures c == CatalogOf(holds)
  {
    c := Empty();
    for i := 0 to |holds|
      invariant c == CatalogOf(holds[..i])
    {
      assert holds[..i + 1][..i] == holds[..i];
      c := c.Put(holds[i].id, holds[i]);
    }
    assert holds[..|holds|] == holds;
  }

  /** The catalog lists every configured id once, in first-seen order; each
      id leads to a hold carrying that id; and a repeated id leads to the
      last hold configured with it (a later entry silently overwrites). */
  lemma CatalogIndexesHolds(holds: seq<Hold>)
    ensures CatalogOf(holds).order == Dedup(HoldIds(holds))
    ensures forall x :: x in CatalogOf(holds).at ==> CatalogOf(holds).at[x].id == x
    ensures forall i :: 0 <= i < |holds| && (forall j :: i < j < |holds| ==> holds[j].id != holds[i].id) ==>
              CatalogOf(holds).at[holds[i].id] == holds[i]
  {
    CatalogOrder(holds);
    CatalogKeysMatch(holds);
    forall i | 0 <= i < |holds| && (forall j :: i < j < |holds| ==> holds[j].id != holds[i].id)
      ensures CatalogOf(holds).at[holds[i].id] == holds[i]
    {
      CatalogLastWins(holds, i);
    }
  }

  /** The catalog's ids in the order they were first configured. */
  lemma {:induction false} CatalogOrder(holds: seq<Hold>)
    ensures CatalogOf(holds).order == Dedup(HoldIds(holds))
  {
    if holds != [] {
      var init, last := holds[..|holds| - 1], holds[|holds| - 1];
      CatalogOrder(init);
      var prev := CatalogOf(init);
      DedupSnoc(HoldIds(init), last.id);
      assert last.id in prev.at <==> last.id in HoldIds(init);
    }
  }

  /** Every id leads to a hold carrying that id. */
  lemma {:induction false} CatalogKeysMatch(holds: seq<Hold>)
    ensures forall x :: x in CatalogOf(holds).at ==> CatalogOf(holds).at[x].id == x
  {
    if holds != [] {
      CatalogKeysMatch(holds[..|holds| - 1]);
    }
  }

  /** A hold no later hold shares an id with is the one its id leads to. */
  lemma {:induction false} CatalogLastWins(holds: seq<Hold>, i: nat)
    requires i < |holds|
    requires forall j :: i < j < |holds| ==> holds[j].id != holds[i].id
    ensures holds[i].id in CatalogOf(holds).at && CatalogOf(holds).at[holds[i].id] == holds[i]
    decreases |holds|
  {
    if i < |holds| - 1 {
      var init := holds[..|holds| - 1];
      assert init[i] == holds[i];
      CatalogLastWins(init, i);
    }
  }
}
