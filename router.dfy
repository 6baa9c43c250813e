/**
 * `handle_acronym` (the slash command) and `on_mention`.
 *
 * The two deployments differ in the command name and in whether the
 * `edit` subcommand exists: `Wtf` is app.py, `AcronymBot` is
 * acronym_bot/app.py.
 */
module Router {
  import opened Wrappers
  import opened Text
  import opened Store
  import opened Formatter
  import opened Tokens

  datatype Variant = Variant(command: string, hasEdit: bool)

  const Wtf := Variant("/wtf", true)
  const AcronymBot := Variant("/acronym", false)

  datatype ListAction = DeleteAction | EditAction

  function ActionWord(a: ListAction): string {
    match a
    case DeleteAction => "delete"
    case EditAction => "edit"
  }

  /** One entry of a pick list: its text and the value its button carries. */
  datatype Choice = Choice(text: string, value: string)

  /** What the command handler does: a reply visible only to the requester
      (`Usage`, `ChooseList`, `NotFound`), opening the add dialog, or a lookup
      reply that is ephemeral or posted in the channel. */
  datatype Reply =
    | Usage(text: string)
    | OpenAddModal(prefill: string)
    | ChooseList(action: ListAction, header: string, choices: seq<Choice>, cancelValue: string)
    | NotFound(text: string)
    | Lookup(text: string, ephemeral: bool)

  function UsageText(v: Variant): string {
    "Usage: `" + v.command + " ATO` or `" + v.command + " add`"
  }

  function ActionUsageText(v: Variant, a: ListAction): string {
    "Usage: `" + v.command + " " + ActionWord(a) + " [acronym]`"
  }

  function NotFoundText(term: string): string {
    "No definitions found for *" + Upper(term) + "*."
  }

  function ListHeader(term: string, n: nat, a: ListAction): string {
    "*" + Upper(term) + "* has " + NatToString(n) + " meaning(s). Which one do you want to " + ActionWord(a) + "?"
  }

  /** One button per matching row: "i. expansion" and the value `id|term`. */
  function Choices(found: seq<(nat, string)>, term: string): (r: seq<Choice>)
    ensures |r| == |found|
  {
    seq(|found|, k requires 0 <= k < |found| =>
      Choice(NatToString(k + 1) + ". " + found[k].1, MakeToken(found[k].0, term)))
  }

  /** The reply listing the rows of `term`, or saying there are none. */
  function ListFor(rows: seq<Row>, term: string, a: ListAction): Reply {
    var found := GetIdsAndExpansions(rows, term);
    if found == [] then NotFound(NotFoundText(term))
    else ChooseList(a, ListHeader(term, |found|, a), Choices(found, term), term)
  }

  /** The `delete` and `edit` branches: the term is the second word. */
  function PickList(v: Variant, rows: seq<Row>, text: string, a: ListAction): Reply {
    var parts := SplitWhitespace(text, 2);
    if |parts| < 2 then Usage(ActionUsageText(v, a))
    else ListFor(rows, parts[1], a)
  }

  /** Which branch of `handle_acronym` the stripped command text takes. */
  datatype Route = BlankRoute | AddRoute | ListRoute(action: ListAction) | LookupRoute

  /** The `if` chain on the lowercased text: "add", then "delete", then
      (where the deployment has it) "edit", each a prefix test. */
  function Dispatch(v: Variant, text: string): Route {
    if text == [] then BlankRoute
    else if StartsWith(Lower(text), "add") then AddRoute
    else if StartsWith(Lower(text), "delete") then ListRoute(DeleteAction)
    else if v.hasEdit && StartsWith(Lower(text), "edit") then ListRoute(EditAction)
    else LookupRoute
  }

  /** `handle_acronym`: `rawText` is the command text, "" when absent. */
  function HandleCommand(v: Variant, rows: seq<Row>, rawText: string): Reply {
    var text := Strip(rawText);
    match Dispatch(v, text)
    case BlankRoute => Usage(UsageText(v))
    case AddRoute =>
      var parts := SplitWhitespace(text, 2);
      OpenAddModal(if |parts| > 1 then Upper(parts[1]) else "")
    case ListRoute(a) => PickList(v, rows, text, a)
    case LookupRoute =>
      var exps := GetAcronyms(rows, text);
      Lookup(DefsText(v.command, text, exps), exps == [])
  }

  /** Whether the command text selects one of the subcommands. */
  predicate IsSubcommand(v: Variant, text: string) {
    StartsWith(Lower(text), "add") || StartsWith(Lower(text), "delete") ||
    (v.hasEdit && StartsWith(Lower(text), "edit"))
  }

  // ---------- Router properties ----------

  /** An empty (or blank) command gives the usage text. */
  lemma {:induction false} BlankIsUsage(v: Variant, rows: seq<Row>, rawText: string)
    requires Strip(rawText) == []
    ensures HandleCommand(v, rows, rawText) == Usage(UsageText(v))
  {
  }

  /** A command whose text starts with "add" in any case takes the add
      branch, whatever follows ("address" too); "delete" and "edit" are
      prefix matches as well, tested in that order, and the lookup branch
      is taken exactly when the text is not blank and selects no
      subcommand. */
  lemma {:induction false} RouteByPrefix(v: Variant, text: string)
    ensures text != [] && StartsWith(Lower(text), "add") ==> Dispatch(v, text) == AddRoute
    ensures text != [] && StartsWith(Lower(text), "delete") ==> Dispatch(v, text) == ListRoute(DeleteAction)
    ensures text != [] && v.hasEdit && StartsWith(Lower(text), "edit") ==> Dispatch(v, text) == ListRoute(EditAction)
    ensures Dispatch(v, text) == LookupRoute <==> text != [] && !IsSubcommand(v, text)
  {
    var low := Lower(text);
    assert StartsWith(low, "add") ==> low[0] == 'a';
    assert StartsWith(low, "delete") ==> low[0] == 'd';
    assert StartsWith(low, "edit") ==> low[0] == 'e';
  }

  /** What each branch replies: the add dialog, a pick list (or its usage
      or not-found text), or a lookup. */
  lemma {:induction false} ReplyByRoute(v: Variant, rows: seq<Row>, rawText: string)
    ensures var r := HandleCommand(v, rows, rawText);
            match Dispatch(v, Strip(rawText))
            case BlankRoute => r == Usage(UsageText(v))
            case AddRoute => r.OpenAddModal?
            case ListRoute(a) => r.Usage? || r.NotFound? || (r.ChooseList? && r.action == a)
            case LookupRoute =>
              var exps := GetAcronyms(rows, Strip(rawText));
              r == Lookup(DefsText(v.command, Strip(rawText), exps), exps == [])
  {
    hide Strip, Lower, StartsWith, SplitWhitespace, GetAcronyms, GetIdsAndExpansions, DefsText;
  }

  /** "add TERM ..." prefills the dialog with the uppercased term, the
      second word of the stripped text, whatever follows it. */
  lemma {:induction false} AddPrefills(v: Variant, rows: seq<Row>, rawText: string,
                                       word: string, gap: string, term: string, tail: string)
    requires word != [] && NoSpace(word) && StartsWith(Lower(word), "add")
    requires gap != [] && AllSpace(gap)
    requires term != [] && NoSpace(term)
    requires tail == [] || IsSpace(tail[0])
    requires Strip(rawText) == word + gap + term + tail
    ensures HandleCommand(v, rows, rawText) == OpenAddModal(Upper(term))
  {
    hide Strip, Lower, StartsWith, SplitWhitespace, Dispatch;
    SplitSecondWord(word, gap, term, tail);
    assert word + gap + term + tail == word + (gap + term + tail);
    AddWordRoutes(v, word, gap + term + tail);
  }

  /** The command text "address" takes the add branch, with no prefill. */
  lemma AddressOpensAddDialog(v: Variant, rows: seq<Row>)
    ensures HandleCommand(v, rows, "address") == OpenAddModal("")
  {
    hide HandleCommand, Strip, Lower, StartsWith, SplitWhitespace, Dispatch;
    assert NoSpace("address");
    OneWordIsStripped("address");
    AddressStartsWithAdd();
    AddAloneOpensEmpty(v, rows, "address", "address");
  }

  /** "add" alone (in any case, or any word starting with it) opens the
      add dialog with no prefill. */
  lemma {:induction false} AddAloneOpensEmpty(v: Variant, rows: seq<Row>, rawText: string, word: string)
    requires word != [] && NoSpace(word) && StartsWith(Lower(word), "add")
    requires Strip(rawText) == word
    ensures HandleCommand(v, rows, rawText) == OpenAddModal("")
  {
    hide Strip, Lower, StartsWith, SplitWhitespace, Dispatch;
    SplitOneWord(word, 2);
    assert word + [] == word;
    AddWordRoutes(v, word, []);
  }

  lemma AddressStartsWithAdd()
    ensures StartsWith(Lower("address"), "add")
  {
    assert Lower("address")[..3] == "add";
  }

  /** A text whose first word starts with "add" takes the add branch,
      whatever follows it. */
  lemma {:induction false} AddWordRoutes(v: Variant, word: string, rest: string)
    requires word != [] && StartsWith(Lower(word), "add")
    ensures Dispatch(v, word + rest) == AddRoute
  {
    assert Lower(word + rest)[..3] == Lower(word)[..3];
  }

  /** One word is its own stripped form. */
  lemma {:induction false} OneWordIsStripped(word: string)
    requires word != [] && NoSpace(word)
    ensures Strip(word) == word
  {
    StrippedIsFixed(word);
  }

  /** "delete" or "edit" without a term gives that subcommand's usage. */
  lemma {:induction false} SubcommandNeedsTerm(v: Variant, rows: seq<Row>, rawText: string, word: string, a: ListAction)
    requires word != [] && NoSpace(word)
    requires StartsWith(Lower(word), ActionWord(a))
    requires a == EditAction ==> v.hasEdit
    requires Strip(rawText) == word
    ensures HandleCommand(v, rows, rawText) == Usage(ActionUsageText(v, a))
  {
    hide Strip, Lower, StartsWith, SplitWhitespace, Dispatch, GetIdsAndExpansions;
    SplitOneWord(word, 2);
    assert word + [] == word;
    ListWordRoutes(v, word, [], a);
  }

  /** Each button of a pick list splits back into its row's id and the term. */
  lemma {:induction false} ChoicesAreTokens(found: seq<(nat, string)>, term: string)
    ensures var cs := Choices(found, term);
            forall k :: 0 <= k < |found| ==>
              cs[k].text == NatToString(k + 1) + ". " + found[k].1 &&
              cs[k].value == MakeToken(found[k].0, term) &&
              ParseToken(cs[k].value) == Some((NatToString(found[k].0), term)) &&
              TokenId(cs[k].value) == Some(found[k].0)
  {
    var cs := Choices(found, term);
    forall k | 0 <= k < |found|
      ensures ParseToken(cs[k].value) == Some((NatToString(found[k].0), term))
      ensures TokenId(cs[k].value) == Some(found[k].0)
    {
      TokenRoundTrip(found[k].0, term);
    }
  }

  /** The pick list for a term: not found when no row matches, otherwise
      one entry per matching row in id order, whose button value splits
      back into that row's id and the term; cancelling carries the term. */
  lemma {:induction false} PickListShape(rows: seq<Row>, term: string, a: ListAction)
    ensures var r := ListFor(rows, term, a);
            var found := GetIdsAndExpansions(rows, term);
            (found == [] ==> r == NotFound(NotFoundText(term))) &&
            (found != [] ==>
              r.ChooseList? && r.action == a && r.cancelValue == term &&
              |r.choices| == |found| && r.header == ListHeader(term, |found|, a) &&
              forall k :: 0 <= k < |found| ==>
                r.choices[k].text == NatToString(k + 1) + ". " + found[k].1 &&
                r.choices[k].value == MakeToken(found[k].0, term) &&
                ParseToken(r.choices[k].value) == Some((NatToString(found[k].0), term)) &&
                TokenId(r.choices[k].value) == Some(found[k].0))
  {
    ChoicesAreTokens(GetIdsAndExpansions(rows, term), term);
  }

  /** A text whose first word selects "delete" (or "edit") takes that
      branch, whatever follows it. */
  lemma {:induction false} ListWordRoutes(v: Variant, word: string, rest: string, a: ListAction)
    requires word != []
    requires StartsWith(Lower(word), ActionWord(a))
    requires a == EditAction ==> v.hasEdit
    ensures Dispatch(v, word + rest) == ListRoute(a)
  {
    var text := word + rest;
    var n := |ActionWord(a)|;
    assert Lower(text)[..n] == Lower(word)[..n];
    assert Lower(text)[0] == Lower(word)[0] == ActionWord(a)[0];
  }

  /** "delete TERM ..." (or "edit TERM ...") gives the pick list of TERM,
      the second word of the stripped text, whatever follows it;
      `PickListShape` describes that list. */
  lemma {:induction false} ListNamesTerm(v: Variant, rows: seq<Row>, rawText: string, a: ListAction,
                                         word: string, gap: string, term: string, tail: string)
    requires word != [] && NoSpace(word)
    requires StartsWith(Lower(word), ActionWord(a))
    requires a == EditAction ==> v.hasEdit
    requires gap != [] && AllSpace(gap)
    requires term != [] && NoSpace(term)
    requires tail == [] || IsSpace(tail[0])
    requires Strip(rawText) == word + gap + term + tail
    ensures HandleCommand(v, rows, rawText) == ListFor(rows, term, a)
  {
    hide Strip, Lower, StartsWith, SplitWhitespace, Dispatch, GetIdsAndExpansions;
    SplitSecondWord(word, gap, term, tail);
    assert word + gap + term + tail == word + (gap + term + tail);
    ListWordRoutes(v, word, gap + term + tail, a);
  }

  /** A lookup reply is `format_defs` of the command text over its
      expansions, and is ephemeral exactly when there are none. */
  lemma {:induction false} LookupReply(v: Variant, rows: seq<Row>, rawText: string)
    ensures var r := HandleCommand(v, rows, rawText);
            r.Lookup? ==>
              r.text == DefsText(v.command, rawText, GetAcronyms(rows, rawText)) &&
              (r.ephemeral <==> GetAcronyms(rows, rawText) == [])
    ensures Dispatch(v, Strip(rawText)) == LookupRoute ==>
              var exps := GetAcronyms(rows, rawText);
              HandleCommand(v, rows, rawText) == Lookup(DefsText(v.command, rawText, exps), exps == [])
  {
    ReplyByRoute(v, rows, rawText);
    LookupIgnoresCaseAndPadding(rows, [], rawText, []);
    FormatIgnoresCaseAndPadding(v.command, [], rawText, [], GetAcronyms(rows, rawText));
  }

  /** Without the edit branch, "edit ..." is looked up as a term, the whole
      text included. */
  lemma {:induction false} AcronymBotLooksUpEdit(rows: seq<Row>, rawText: string)
    requires StartsWith(Lower(Strip(rawText)), "edit")
    ensures var exps := GetAcronyms(rows, rawText);
            HandleCommand(AcronymBot, rows, rawText) ==
              Lookup(DefsText(AcronymBot.command, rawText, exps), exps == [])
  {
    hide HandleCommand, Dispatch, Strip, Lower, StartsWith, SplitWhitespace, GetAcronyms, DefsText;
    var text := Strip(rawText);
    EditIsNoSubcommand(text);
    RouteByPrefix(AcronymBot, text);
    ReplyByRoute(AcronymBot, rows, rawText);
    LookupReply(AcronymBot, rows, rawText);
    var r := HandleCommand(AcronymBot, rows, rawText);
    assert r.Lookup?;
  }

  /** Without the edit branch, text starting with "edit" is no subcommand. */
  lemma {:induction false} EditIsNoSubcommand(text: string)
    requires StartsWith(Lower(text), "edit")
    ensures text != [] && !IsSubcommand(AcronymBot, text)
  {
    assert Lower(text)[0] == 'e';
  }

  // ---------- on_mention ----------

  const MentionPrompt := "Give me an acronym, e.g., `ATO`"

  /** `on_mention`: every `<@...>` mention is removed, the rest stripped;
      blank gives the prompt, anything else a lookup reply. */
  function OnMention(v: Variant, rows: seq<Row>, eventText: string): string {
    var term := Strip(RemoveMentions(eventText));
    if term == [] then MentionPrompt
    else DefsText(v.command, term, GetAcronyms(rows, term))
  }

  /** Removing a leading mention and stripping leave the stripped term. */
  lemma {:induction false} MentionStripped(mention: string, gap: string, t: string)
    requires IsMention(mention) && AllSpace(gap) && '<' !in t
    ensures Strip(RemoveMentions(mention + gap + t)) == Strip(t)
  {
    assert mention + gap + t == mention + (gap + t);
    assert '<' !in gap by {
      forall i | 0 <= i < |gap| ensures gap[i] != '<' {
        assert IsSpace(gap[i]);
      }
    }
    assert '<' !in gap + t;
    RemoveMentionsPrefix(mention, gap + t);
    RemoveMentionsKeeps(gap + t, []);
    assert (gap + t) + [] == gap + t;
    StripPadded(gap, t, []);
    assert gap + t + [] == gap + t;
  }

  /** "@bot TERM" answers with the lookup of TERM, exactly as the slash
      command's formatter would; "@bot" alone gives the prompt. */
  lemma {:induction false} MentionLooksUp(v: Variant, rows: seq<Row>, mention: string, gap: string, t: string)
    requires IsMention(mention) && AllSpace(gap) && '<' !in t
    ensures Strip(t) == [] ==> OnMention(v, rows, mention + gap + t) == MentionPrompt
    ensures Strip(t) != [] ==>
              OnMention(v, rows, mention + gap + t) == DefsText(v.command, t, GetAcronyms(rows, t))
  {
    MentionStripped(mention, gap, t);
    LookupIgnoresCaseAndPadding(rows, [], t, []);
    FormatIgnoresCaseAndPadding(v.command, [], t, [], GetAcronyms(rows, t));
  }
}
