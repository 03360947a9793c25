/** A worked example of normalisation: the hold list "S1 O2" against a
    catalogue of holds 1 and 2 becomes a start copy of hold 1 and an "on"
    copy of hold 2, while "S1 O3" names an uncatalogued hold and fails. */
module NormalizeExample {
  import opened Wrappers
  import opened Dicts
  import opened Records
  import opened Catalog
  import opened Normalizer

  /** Two space-free tokens joined by one space split back into them. */
  lemma SplitTwoTokens(a: string, b: string)
    requires ' ' !in a && ' ' !in b
    ensures Split(a + " " + b) == [a, b]
  {
    SplitNoSpace(a, b);
    SplitNoSpace(b, "");
  }

  /** A role character followed by one digit is a token naming that digit. */
  lemma OneDigitToken(role: char, digit: char)
    requires '0' <= digit <= '9'
    ensures WellFormedToken([role, digit])
    ensures DecimalValue([role, digit][1..]) == digit as int - '0' as int
  {
    assert [role, digit][1..] == [digit];
    assert [digit][..0] == [];
  }

  lemma TwoHoldCatalog(h1: Hold, h2: Hold)
    requires h1.id == 1 && h2.id == 2
    ensures 1 in CatalogOf([h1, h2]).at && CatalogOf([h1, h2]).at[1] == h1
    ensures 2 in CatalogOf([h1, h2]).at && CatalogOf([h1, h2]).at[2] == h2
    ensures 3 !in CatalogOf([h1, h2]).at
  {
    CatalogIndexesHolds([h1, h2]);
  }

  /** A list of two well-formed tokens naming catalogued ids becomes the
      two catalogue holds, each tagged with its token's role. */
  lemma TwoTokens(holdsList: string, c: Dict<int, Hold>, wallHolds: seq<Hold>, t1: string, t2: string)
    requires c == CatalogOf(wallHolds)
    requires Split(holdsList) == [t1, t2]
    requires WellFormedToken(t1) && DecimalValue(t1[1..]) in c.at
    requires WellFormedToken(t2) && DecimalValue(t2[1..]) in c.at
    ensures NormalizedHolds(holdsList, c) ==
              Success([c.at[DecimalValue(t1[1..])].(role := Some(t1[0])), c.at[DecimalValue(t2[1..])].(role := Some(t2[0]))])
  {
    var ts := Split(holdsList);
    assert forall t :: t in ts ==> t == t1 || t == t2;
    NormalizeSucceedsIff(holdsList, c);
    NormalizeKeepsTokens(holdsList, wallHolds);
    var r := NormalizedHolds(holdsList, c).value;
    assert ts[0] == t1 && ts[1] == t2;
    var h1, h2 := r[0], r[1];
    assert h1 == c.at[DecimalValue(t1[1..])].(role := Some(t1[0]));
    assert h2 == c.at[DecimalValue(t2[1..])].(role := Some(t2[0]));
    assert r == [h1, h2];
  }

  /** "S1 O2" resolves to hold 1 tagged S and hold 2 tagged O. */
  lemma StartAndOn(holdsList: string, h1: Hold, h2: Hold)
    requires holdsList == "S1 O2"
    requires h1.id == 1 && h2.id == 2
    ensures NormalizedHolds(holdsList, CatalogOf([h1, h2])) ==
              Success([h1.(role := Some('S')), h2.(role := Some('O'))])
  {
    assert holdsList == "S1" + " " + "O2";
    SplitTwoTokens("S1", "O2");
    TwoHoldCatalog(h1, h2);
    OneDigitToken('S', '1');
    OneDigitToken('O', '2');
    assert "S1" == ['S', '1'] && "O2" == ['O', '2'];
    TwoTokens(holdsList, CatalogOf([h1, h2]), [h1, h2], "S1", "O2");
  }

  /** A list of two well-formed tokens whose second id is not catalogued
      fails naming that id. */
  lemma SecondTokenMissing(holdsList: string, c: Dict<int, Hold>, t1: string, t2: string)
    requires Split(holdsList) == [t1, t2]
    requires WellFormedToken(t1) && DecimalValue(t1[1..]) in c.at
    requires WellFormedToken(t2) && DecimalValue(t2[1..]) !in c.at
    ensures NormalizedHolds(holdsList, c) == Failure(UnresolvedHold(DecimalValue(t2[1..])))
  {
    var ts := Split(holdsList);
    ParseTokensSpec(ts);
    var pairs := ParseTokens(ts).value;
    assert pairs[0].1 == DecimalValue(t1[1..]) && pairs[1].1 == DecimalValue(t2[1..]);
    ResolveSucceedsIff(pairs, c);
    ResolveNamesFirstMissing(pairs, c);
  }

  /** "S1 O3" fails on hold 3, which the catalogue does not hold. */
  lemma UnresolvedId(holdsList: string, h1: Hold, h2: Hold)
    requires holdsList == "S1 O3"
    requires h1.id == 1 && h2.id == 2
    ensures NormalizedHolds(holdsList, CatalogOf([h1, h2])) == Failure(UnresolvedHold(3))
  {
    assert holdsList == "S1" + " " + "O3";
    SplitTwoTokens("S1", "O3");
    TwoHoldCatalog(h1, h2);
    OneDigitToken('O', '3');
    OneDigitToken('S', '1');
    assert "S1" == ['S', '1'] && "O3" == ['O', '3'];
    SecondTokenMissing(holdsList, CatalogOf([h1, h2]), "S1", "O3");
  }
}
