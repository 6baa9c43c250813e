/**
 * The button and dialog handlers that follow a pick list: choosing a row to
 * delete and confirming it, choosing a row to edit and saving the edit, and
 * saving the add dialog. Each receives the `id|term` value back from Slack;
 * a value without `|` makes the tuple unpacking raise, and `int(aid)` on a
 * non-decimal id raises, so the handler does nothing further.
 */
module Interactions {
  import opened Wrappers
  import opened Text
  import opened Store
  import opened Tokens

  // ---------- Delete ----------

  const DefinitionNotFound := "(definition not found)"

  /** The confirmation message shown after a delete button is pressed:
      its text, the value of "Yes, Delete" and the value of "Cancel". */
  datatype ConfirmPrompt = ConfirmPrompt(text: string, confirmValue: string, cancelValue: string)

  function ConfirmText(term: string, exp: string): string {
    "Are you sure you want to delete this definition for *" + Upper(term) + "*?\n> " + exp
  }

  /** `handle_delete_select`: splits the button value, fetches the row's
      expansion (or the not-found placeholder) and asks for confirmation.
      The confirm button carries the same value back. */
  function DeleteSelect(rows: seq<Row>, value: string): (r: Option<ConfirmPrompt>)
    ensures r.None? <==> '|' !in value
    ensures r.Some? ==> r.value.confirmValue == value &&
                        r.value.cancelValue == ParseToken(value).value.1
  {
    match ParseToken(value)
    case None => None
    case Some((aid, term)) =>
      var exp := match FetchByText(rows, aid) case Some(e) => e case None => DefinitionNotFound;
      Some(ConfirmPrompt(ConfirmText(term, exp), aid + "|" + term, term))
  }

  /** Pressing the button of a stored row shows that row's expansion. */
  lemma {:induction false} DeleteSelectShowsRow(rows: seq<Row>, id: nat, exp: string, term: string)
    requires FindExpansion(rows, id) == Some(exp)
    ensures DeleteSelect(rows, MakeToken(id, term)) ==
            Some(ConfirmPrompt(ConfirmText(term, exp), MakeToken(id, term), term))
  {
    TokenRoundTrip(id, term);
    DecimalRoundTrip(id);
  }

  /** A row deleted in the meantime, or an id that is not a number, shows
      the placeholder text instead. */
  lemma {:induction false} DeleteSelectMissing(rows: seq<Row>, aid: string, term: string)
    requires '|' !in aid
    requires FetchByText(rows, aid) == None
    ensures DeleteSelect(rows, aid + "|" + term) ==
            Some(ConfirmPrompt(ConfirmText(term, DefinitionNotFound), aid + "|" + term, term))
  {
    IndexOfFirst(aid, '|', term);
    var v := aid + "|" + term;
    assert v == aid + ['|'] + term;
    assert v[..|aid|] == aid;
    assert v[|aid| + 1..] == term;
  }

  /** Pressing the button of the k-th row a pick list for `term` shows
      (whose value is `MakeToken(found[k].0, term)`, by
      `Router.PickListShape`) asks to confirm deleting that row, showing its
      expansion; the confirm button carries the row's id. */
  lemma {:induction false} DeleteFlow(rows: seq<Row>, term: string, k: nat)
    requires TableInvariant(rows)
    requires k < |GetIdsAndExpansions(rows, term)|
    ensures var found := GetIdsAndExpansions(rows, term);
            var value := MakeToken(found[k].0, term);
            DeleteSelect(rows, value) == Some(ConfirmPrompt(ConfirmText(term, found[k].1), value, term)) &&
            TokenId(value) == Some(found[k].0)
  {
    var found := GetIdsAndExpansions(rows, term);
    FetchListedRow(rows, term, k);
    DeleteSelectShowsRow(rows, found[k].0, found[k].1, term);
    TokenRoundTrip(found[k].0, term);
  }

  function DeletedText(term: string): string {
    "Deleted one definition for *" + Upper(term) + "*."
  }

  const DeleteCancelled := "Delete cancelled."

  /** The smallest integer the sqlite3 module cannot bind as a statement
      parameter: binding a Python int outside the signed 64-bit range
      raises `OverflowError`. */
  const BindLimit: nat := 0x8000_0000_0000_0000

  /** Whether `delete_acronym_by_id(int(aid))` gets as far as the `DELETE`:
      the id converts and fits a 64-bit parameter. */
  predicate DeletableToken(value: string) {
    TokenId(value).Some? && TokenId(value).value < BindLimit
  }

  /** `handle_delete_confirm`: deletes the row whose id the value carries and
      reports it; `None` is the exception raised for a malformed value or
      an id too large to bind, which leaves the table as it was. */
  method DeleteConfirm(table: AcronymTable, value: string) returns (reply: Option<string>)
    requires table.Valid()
    modifies table
    ensures table.Valid()
    ensures table.nextId == old(table.nextId) && table.issued == old(table.issued)
    ensures !DeletableToken(value) ==> reply.None? && table.rows == old(table.rows)
    ensures DeletableToken(value) ==>
              table.rows == RemoveId(old(table.rows), TokenId(value).value) &&
              reply == Some(DeletedText(ParseToken(value).value.1))
  {
    var parsed := ParseToken(value);
    if parsed.None? {
      return None;
    }
    var (aid, term) := parsed.value;
    var id := ParseDecimal(aid);
    if id.None? || id.value >= BindLimit {
      return None;
    }
    table.Delete(id.value);
    reply := Some(DeletedText(term));
  }

  /** The confirm button of a row's token reaches the `DELETE` exactly when
      the row's id fits a 64-bit parameter. */
  lemma {:induction false} TokenDeletable(id: nat, term: string)
    ensures DeletableToken(MakeToken(id, term)) <==> id < BindLimit
  {
    TokenRoundTrip(id, term);
  }

  // ---------- Edit ----------

  /** The edit dialog: its private metadata, the heading naming the term,
      and the text the expansion field starts with. */
  datatype EditModal = EditModal(metadata: string, heading: string, prefill: string)

  /** `handle_edit_select`: the dialog for the chosen row, prefilled with its
      current expansion, or empty when the row is gone. */
  function EditSelect(rows: seq<Row>, value: string): (r: Option<EditModal>)
    ensures r.None? <==> '|' !in value
    ensures r.Some? ==> r.value.metadata == value &&
                        r.value.heading == "*" + Upper(ParseToken(value).value.1) + "*"
  {
    match ParseToken(value)
    case None => None
    case Some((aid, term)) =>
      var exp := match FetchByText(rows, aid) case Some(e) => e case None => "";
      Some(EditModal(aid + "|" + term, "*" + Upper(term) + "*", exp))
  }

  /** The dialog for a stored row starts with that row's expansion. */
  lemma {:induction false} EditSelectPrefill(rows: seq<Row>, id: nat, exp: string, term: string)
    requires FindExpansion(rows, id) == Some(exp)
    ensures EditSelect(rows, MakeToken(id, term)) ==
            Some(EditModal(MakeToken(id, term), "*" + Upper(term) + "*", exp))
  {
    TokenRoundTrip(id, term);
    DecimalRoundTrip(id);
  }

  /** Pressing the edit button of the k-th row a pick list for `term`
      shows opens the dialog prefilled with that row's expansion, whose
      metadata carries the row's id. */
  lemma {:induction false} EditFlow(rows: seq<Row>, term: string, k: nat)
    requires TableInvariant(rows)
    requires k < |GetIdsAndExpansions(rows, term)|
    ensures var found := GetIdsAndExpansions(rows, term);
            var value := MakeToken(found[k].0, term);
            EditSelect(rows, value) == Some(EditModal(value, "*" + Upper(term) + "*", found[k].1)) &&
            TokenId(value) == Some(found[k].0)
  {
    var found := GetIdsAndExpansions(rows, term);
    FetchListedRow(rows, term, k);
    EditSelectPrefill(rows, found[k].0, found[k].1, term);
    TokenRoundTrip(found[k].0, term);
  }

  function UpdatedText(term: string): string {
    "Updated definition for *" + Upper(term) + "*."
  }

  const EditCancelled := "Edit cancelled."

  /** `handle_edit_view`: the submitted expansion is stripped and, when
      nonempty, written to the row the metadata names; the requester is told
      the definition was updated either way. A metadata id that is not a
      number matches no row. */
  method EditSave(table: AcronymTable, metadata: string, submitted: string) returns (notice: Option<string>)
    requires table.Valid()
    modifies table
    ensures table.Valid()
    ensures table.nextId == old(table.nextId) && table.issued == old(table.issued)
    ensures ParseToken(metadata).None? ==> notice.None? && table.rows == old(table.rows)
    ensures ParseToken(metadata).Some? ==>
              var (aid, term) := ParseToken(metadata).value;
              notice == Some(UpdatedText(term)) &&
              table.rows == if Strip(submitted) != [] && ParseDecimal(aid).Some?
                            then SetExpansion(old(table.rows), ParseDecimal(aid).value, Strip(submitted))
                            else old(table.rows)
  {
    var parsed := ParseToken(metadata);
    if parsed.None? {
      return None;
    }
    var (aid, term) := parsed.value;
    var id := ParseDecimal(aid);
    if id.Some? {
      table.Edit(id.value, submitted);
    }
    notice := Some(UpdatedText(term));
  }

  // ---------- Add ----------

  function SavedText(term: string, expansion: string): string {
    "Saved: *" + Upper(term) + "* → " + expansion
  }

  /** `handle_add_view`: both fields are stripped and, when both are
      nonempty, stored; the notice goes to the channel the dialog was opened
      from whenever there is one, whether or not anything was stored. */
  method AddSave(table: AcronymTable, termField: string, expField: string, channel: string)
    returns (notice: Option<string>)
    requires table.Valid()
    modifies table
    ensures table.Valid()
    ensures Normalize(termField) == [] || Strip(expField) == [] ==>
              table.rows == old(table.rows) && table.nextId == old(table.nextId)
    ensures Normalize(termField) != [] && Strip(expField) != [] ==>
              table.rows == old(table.rows) + [Row(old(table.nextId), Normalize(termField), Strip(expField))] &&
              table.nextId == old(table.nextId) + 1
    ensures channel == [] ==> notice.None?
    ensures channel != [] ==> notice == Some(SavedText(Strip(termField), Strip(expField)))
  {
    var term := Strip(termField);
    var expansion := Strip(expField);
    StripIdempotent(termField);
    StripIdempotent(expField);
    assert Normalize(term) == Normalize(termField);
    if term != [] && expansion != [] {
      table.Add(term, expansion);
    }
    notice := if channel != [] then Some(SavedText(term, expansion)) else None;
  }
}
