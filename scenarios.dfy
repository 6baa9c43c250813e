/**
 * Concrete walks through the bot's behaviour: adding, looking up, listing,
 * deleting and the empty reply, on literal inputs.
 */
module Scenarios {
  import opened Wrappers
  import opened Text
  import opened Store
  import opened Formatter
  import opened Tokens
  import opened Interactions

  const Meaning1 := "Authority to Operate"
  const Meaning2 := "Approval to Operate"
  /** The first meaning as typed, with padding. */
  const Typed1 := "  Authority to Operate "

  lemma NormalizeLower()
    ensures Normalize("ato") == "ATO"
  {
    assert IsStripped("ato");
    StrippedIsFixed("ato");
    assert Upper("ato") == "ATO";
  }

  lemma NormalizeMixed()
    ensures Normalize("Ato") == "ATO"
  {
    assert IsStripped("Ato");
    StrippedIsFixed("Ato");
    assert Upper("Ato") == "ATO";
  }

  lemma NormalizePadded()
    ensures Normalize(" ato ") == "ATO"
  {
    NormalizeLower();
    assert " ato " == " " + "ato" + " ";
    StripPadded(" ", "ato", " ");
  }

  lemma NormalizeUpper()
    ensures Normalize("ATO") == "ATO"
  {
    assert IsStripped("ATO");
    StrippedIsFixed("ATO");
    UpperCaseIsFixed("ATO");
  }

  lemma StripFirstMeaning()
    ensures Strip(Typed1) == Meaning1
  {
    hide Strip, TrimStart, TrimEnd;
    assert IsStripped(Meaning1);
    StrippedIsFixed(Meaning1);
    assert Typed1 == "  " + Meaning1 + " ";
    StripPadded("  ", Meaning1, " ");
  }

  lemma StripSecondMeaning()
    ensures Strip(Meaning2) == Meaning2
  {
    assert IsStripped(Meaning2);
    StrippedIsFixed(Meaning2);
  }

  /** Two tables built by the same two additions: one meaning of ATO typed
      in lower case with padding, one typed in mixed case. */
  method TwoMeanings() returns (table: AcronymTable)
    ensures fresh(table) && table.Valid()
    ensures table.rows == [Row(1, "ATO", Meaning1), Row(2, "ATO", Meaning2)]
  {
    NormalizePadded();
    NormalizeMixed();
    StripFirstMeaning();
    StripSecondMeaning();
    hide Normalize, Strip, Upper, MapChars, TrimStart, TrimEnd;
    table := new AcronymTable();
    table.Add(" ato ", Typed1);
    table.Add("Ato", Meaning2);
  }

  /** The token on the first row's delete button. */
  lemma FirstToken()
    ensures MakeToken(1, "ato") == "1|ato"
    ensures TokenId("1|ato") == Some(1)
    ensures ParseToken("1|ato") == Some(("1", "ato"))
  {
    assert NatToString(1) == "1";
    TokenRoundTrip(1, "ato");
  }

  /** The two meanings get ids 1 and 2 and are listed in that order,
      whatever the case of the query. */
  method ListTwoMeanings() returns (listed: seq<(nat, string)>, shown: seq<string>)
    ensures listed == [(1, Meaning1), (2, Meaning2)]
    ensures shown == [Meaning1, Meaning2]
  {
    var table := TwoMeanings();
    NormalizeLower();
    NormalizeUpper();
    WhereKeepsAll(table.rows, HasTerm("ATO"));
    hide Strip, Upper, MapChars, TrimStart, TrimEnd;
    listed := GetIdsAndExpansions(table.rows, "ato");
    shown := GetAcronyms(table.rows, "ATO");
  }

  /** Confirming the delete of row 1 leaves only the second meaning, and
      the reply names the term uppercased. */
  method DeleteFirstMeaning() returns (reply: Option<string>, shown: seq<string>)
    ensures reply == Some(DeletedText("ato"))
    ensures shown == [Meaning2]
  {
    var table := TwoMeanings();
    FirstToken();
    RemoveFirstRow();
    LookupSecondRow();
    hide RemoveId, GetAcronyms, Normalize, Strip, Upper, MapChars, TrimStart, TrimEnd, NatToString, ParseToken, TokenId;
    reply := DeleteConfirm(table, "1|ato");
    shown := GetAcronyms(table.rows, "ato");
  }

  lemma RemoveFirstRow()
    ensures RemoveId([Row(1, "ATO", Meaning1), Row(2, "ATO", Meaning2)], 1) == [Row(2, "ATO", Meaning2)]
  {
    var r1 := Row(1, "ATO", Meaning1);
    var r2 := Row(2, "ATO", Meaning2);
    assert [r1, r2] == [r1] + [r2];
    WhereAppend([r1], [r2], HasOtherId(1));
    WhereSingle(r1, HasOtherId(1));
    WhereSingle(r2, HasOtherId(1));
  }

  lemma LookupSecondRow()
    ensures GetAcronyms([Row(2, "ATO", Meaning2)], "ato") == [Meaning2]
  {
    NormalizeLower();
    WhereSingle(Row(2, "ATO", Meaning2), HasTerm("ATO"));
  }

  lemma DeletedAto()
    ensures DeletedText("ato") == "Deleted one definition for *ATO*."
  {
    assert Upper("ato") == "ATO";
  }

  lemma NormalizeUnknown()
    ensures Normalize("zzz") == "ZZZ"
  {
    assert IsStripped("zzz");
    StrippedIsFixed("zzz");
    assert Upper("zzz") == "ZZZ";
  }

  /** Looking up a term nobody has added gives the invitation to add it. */
  lemma NothingForUnknownTerm()
    ensures DefsText("/wtf", "zzz", []) == NothingYet("/wtf", "ZZZ")
  {
    NormalizeUnknown();
  }
}
