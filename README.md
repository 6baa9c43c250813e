# Acronym bot — a Dafny model

The repository is a Slack bot that keeps a shared glossary of acronyms in
an SQLite table `acronyms(id, term, expansion, created_at)`. Users query it
with a slash command or an `@` mention, and edit it with dialogs and
buttons. There are two deployments of the same code:

- `app.py` answers `/wtf` and also has an `edit` flow.
- `acronym_bot/app.py` answers `/acronym` and has no `edit` flow.

This project models both with one set of definitions. `Router.Variant`
carries the command name and whether `edit` exists:

- `Router.Wtf` is `app.py`.
- `Router.AcronymBot` is `acronym_bot/app.py`.

The matching lines of `acronym_bot/app.py` for each store operation are:

| operation | lines |
|---|---|
| `add_acronym` | 27-38 |
| `get_acronyms` | 40-49 |
| `format_defs` | 51-58 |
| `get_acronym_ids_and_expansions` | 61-69 |
| `delete_acronym_by_id` | 71-75 |
| `handle_acronym` | 80-172 |
| delete select | 175-205 |
| delete confirm | 207-214 |
| add dialog submission | 222-245 |
| `on_mention` | 248-255 |

These are the same members as `app.py`'s, applied with `Router.AcronymBot`.

Modules:

- `Wrappers` — `Option`.
- `Text` — the string operations the bot uses, over ASCII (`Strip`, `Upper`, `Lower`, `StartsWith`, `SplitWhitespace`, `SplitOnce`, `Join`, `NatToString`, `ParseDecimal`, `RemoveMentions`):
  - `strip()` (whitespace is `\t \n \v \f \r`, `\x1c`–`\x1f` and space, as in Python);
  - `upper()` / `lower()`;
  - `startswith`;
  - `split(None, n)`, following CPython's algorithm;
  - `split("|", 1)`;
  - `"\n".join`;
  - `str(n)` and `int(s)` on decimal digits;
  - the regular-expression substitution `re.sub(r"<@[^>]+>", "", s)`, written as a left-to-right scan.
- `Store` — the table as a sequence of rows in id order, with the queries as functions:
  - `get_acronyms` is `GetAcronyms`, `get_acronym_ids_and_expansions` is `GetIdsAndExpansions`, the fetch by id is `FindExpansion`, `delete_acronym_by_id`'s `DELETE` is `RemoveId` and the edit's `UPDATE` is `SetExpansion`; the key `term.strip().upper()` is `Normalize`.
  - The class `AcronymTable` holds the rows and the `AUTOINCREMENT` counter (which starts at 1), and a ghost set of every id ever issued.
  - Its methods change the table in place: `Add` is `add_acronym`, `Delete` is `delete_acronym_by_id`, and `Edit` is the `UPDATE` of the edit save.
  - What every stored row satisfies: its term is nonempty, stripped and upper case, and its expansion is nonempty and stripped. Ids strictly increase.
- `Formatter` — `format_defs`. The function `DefsText` gives its text. The method `FormatDefs` builds the same text with the source's loop.
- `Tokens` — the `id|term` value that buttons and the edit dialog carry:
  - it is built with `f"{id}|{term}"` (`MakeToken`) and split with `split("|", 1)` (`ParseToken`);
  - `int(aid)` converts the id (`TokenId`);
  - the text id compares against the integer id column (`FetchByText`).
- `Router` — `handle_acronym` is `HandleCommand`, which returns a `Reply` through the branch `Dispatch` picks:
  - usage text, the add dialog with its prefill, a pick list, not found, or a lookup that is ephemeral or posted to the channel;
  - the branch order `add`, `delete`, `edit`, then lookup;
  - `on_mention` is `OnMention`.
- `Interactions` — each button and dialog handler, and its effect on the table:
  - choose and confirm a delete (`handle_delete_select` is `DeleteSelect`, `handle_delete_confirm` is `DeleteConfirm`);
  - choose and save an edit (`handle_edit_select` is `EditSelect`, `handle_edit_view` is `EditSave`);
  - save the add dialog (`handle_add_view` is `AddSave`).
- `Scenarios` — worked scenarios, proved over literal inputs: two meanings of ATO, listing them, deleting one, and the reply for an unknown term.

## Model

| member | source | states |
|---|---|---|
| Text.TrimStart | app.py:30 | The result is a suffix of the input. Everything removed is whitespace. The result does not start with whitespace. |
| Text.TrimEnd | app.py:30 | The result is a prefix of the input. Everything removed is whitespace. The result does not end with whitespace. |
| Text.StripIsStripped | app.py:92 | `strip()` leaves nothing, or text with no whitespace at either end. |
| Text.StrippedIsFixed | app.py:365-366 | Text with no whitespace at either end is unchanged by `strip()`. |
| Text.StripIdempotent | app.py:368-369 | Stripping twice is stripping once. This is why `add_acronym` stripping again is harmless. |
| Text.StripPadded | app.py:44 | Whitespace added before or after a term is removed by `strip()`. |
| Text.StripUpper | app.py:30 | `strip()` commutes with `upper()`. |
| Text.StripLower | app.py:99 | `strip()` commutes with `lower()`. |
| Text.UpperOfLower | app.py:44 | Upper-casing a lower-cased string is upper-casing the original. |
| Text.UpperIdempotent | app.py:44 | Upper-casing twice is upper-casing once. |
| Text.UpperIsUpperCase | app.py:30 | After `upper()` no character is a lower-case ASCII letter. |
| Text.UpperCaseIsFixed | app.py:30 | `upper()` leaves text with no lower-case letters unchanged. |
| Text.SplitWhitespace | app.py:100 | `split(None, n)` gives at most n+1 parts, none of them empty. |
| Text.SplitWords | app.py:136 | The same as `SplitWhitespace`, once leading whitespace has been skipped. |
| Text.WordLength | app.py:100 | The length of the run of non-whitespace a string starts with. It ends at whitespace or at the end of the string. |
| Text.WordLengthOfWord | app.py:100 | A word followed by whitespace or nothing measures exactly its own length. |
| Text.SplitAfterSpace | app.py:100 | Leading whitespace does not change `split(None, n)`. |
| Text.SplitLeadingWord | app.py:100 | `split(None, n)` of a text starting with a word gives that word, then the split of the rest with one split fewer. |
| Text.SplitTwoWords | app.py:136 | "word gap term" splits into exactly the two words. |
| Text.SplitSecondWord | app.py:136-141 | With two splits, the first two parts of "word gap term tail" are the word and the term, whatever the tail holds after its leading whitespace. |
| Text.SplitOneWord | app.py:137 | A single word splits into just itself, so there is no second part. |
| Text.IndexOf | app.py:234 | Finds the first occurrence of the separator, or says there is none. |
| Text.IndexOfFirst | app.py:234 | When the prefix holds no separator, the first separator found is the one right after it. |
| Text.SplitOnce | app.py:234 | `split` on the bar with maxsplit 1 gives one part (the whole input) exactly when there is no bar. Otherwise it gives two parts around the first bar. |
| Text.SplitOn | app.py:62 | Splitting on a character always gives at least one part. |
| Text.SplitOnAt | app.py:62 | Splitting `a + c + b`, where `a` holds no `c`, gives `a` followed by the parts of `b`. |
| Text.SplitJoin | app.py:62 | Splitting a `"\n".join` of lines that contain no line feed gives the lines back. |
| Text.NatToString | app.py:160 | The decimal text of an id is nonempty and all digits, and starts with `0` only for 0 itself, so it has no leading zero: the canonical form `str(n)` gives. |
| Text.DigitChar | app.py:160 | Each decimal digit is written as a digit character. |
| Text.ParseDecimal | app.py:348 | The model's `int(aid)` succeeds exactly on nonempty strings of decimal digits, the form every id token carries. |
| Text.DecimalRoundTrip | app.py:348 | `int(str(n)) == n`. |
| Text.MentionLength | app.py:386 | A nonzero length always marks a complete `<@...>` mention. |
| Text.MentionLengthExact | app.py:386 | A mention at the start of the text is matched to exactly its own length. |
| Text.NoMentionAtStart | app.py:386 | When the matcher reports no mention at the start, no prefix of the text matches `<@[^>]+>`: the matcher misses no mention. |
| Text.RemoveMentionsPrefix | app.py:386 | A leading mention is removed entirely. |
| Text.RemoveMentionsKeeps | app.py:386 | Text containing no `<` passes through the substitution unchanged. |
| Store.NormalizeIsNormal | app.py:30 | The key `term.strip().upper()` is stripped and upper case. |
| Store.NormalizeIdempotent | app.py:44 | Normalising a stored key again changes nothing. |
| Store.NormalizeVariants | app.py:44 | Padding, lower case, upper case and stripping all give the same key. |
| Store.Where | app.py:47 | The `WHERE` filter keeps exactly the rows that satisfy it. |
| Store.WhereAscending | app.py:47 | Filtering keeps the ids in ascending order (`ORDER BY id ASC`). |
| Store.WhereAppend | app.py:47 | Filtering distributes over concatenation. |
| Store.WhereKeepsAll | app.py:47 | A filter that every row passes changes nothing. |
| Store.WhereCommute | app.py:79 | Two filters commute, so deleting and then selecting by term gives the same as selecting and then deleting. |
| Store.AscendingUnique | app.py:47 | Two id-ascending sequences with the same elements are equal. This makes the ordered result of a query unique. |
| Store.MatchingIsQuery | app.py:42-52 | The lookup is the only id-ascending sequence of exactly the stored rows whose term equals the normalised query. |
| Store.LookupsAgree | app.py:65-74 | `get_acronyms` and `get_acronym_ids_and_expansions` list the same expansions in the same order. |
| Store.LookupIgnoresCaseAndPadding | app.py:44 | A padded, lower-cased, upper-cased or stripped query gets the same expansions and the same (id, expansion) lists as the query itself. So "delete ato" and "delete ATO" list the same buttons. |
| Store.FindExpansion | app.py:237 | `SELECT expansion ... WHERE id = ?` returns none exactly when no row has that id. Otherwise it returns the expansion of a row with that id. |
| Store.FindRow | app.py:317 | With unique ids, fetching a row's id gives that row's expansion. |
| Store.FetchListedRow | app.py:317 | Every (id, expansion) in a pick list is what fetching that id returns. |
| Store.ExpansionsAppend | app.py:49 | Taking the expansions distributes over concatenation. |
| Store.WhereSingle | app.py:47 | Filtering a single row keeps it or drops it. |
| Store.AppendThenSelect | app.py:36 | A query on an appended table is the old result plus the new row, if the new row matches. |
| Store.AddThenLookup | app.py:28-52 | After an insert, a lookup gives the old expansions plus the new one, exactly when the new term equals the query's key. |
| Store.AppendKeepsInvariant | app.py:16-21 | Appending a well-formed row whose id is larger than every stored id keeps the table invariant. |
| Store.AddedRowWellFormed | app.py:30-32 | A row built from a term and expansion that are nonblank after normalising is well formed. |
| Store.AcronymTable.constructor | app.py:13-25 | The table starts empty and valid, and the first id is 1. |
| Store.AcronymTable.Add | app.py:28-40 | A blank term or expansion (after stripping) leaves the table unchanged. Otherwise one row is appended with the normalised term, the stripped expansion and a fresh id that is larger than all before it, and the counter moves up by one. The invariant is kept. |
| Store.DeleteRemovesOnly | app.py:76-81 | A delete removes the rows with that id and no others. An absent id is a no-op. |
| Store.DeleteIdempotent | app.py:79 | Deleting twice is deleting once. |
| Store.DeleteThenLookup | app.py:79 | After a delete, a lookup is the old lookup without that id, and fetching the id returns nothing. |
| Store.DeleteKeepsInvariant | app.py:79 | Deleting keeps the table invariant. |
| Store.AcronymTable.Delete | app.py:76-81 | The rows become the old rows without that id. The counter and the issued ids are unchanged, so ids are never reused. |
| Store.SetExpansion | app.py:282 | `UPDATE ... SET expansion = ? WHERE id = ?` keeps the row count. |
| Store.EditChangesOnlyExpansion | app.py:282 | An update never changes an id or a term, and it changes only the matching rows' expansions. |
| Store.EditThenFetch | app.py:282 | After the update, fetching the id gives the new expansion. An absent id leaves the rows unchanged. |
| Store.EditKeepsInvariant | app.py:279-282 | Writing a nonempty stripped expansion keeps the table invariant. |
| Store.AcronymTable.Edit | app.py:279-283 | The submitted text is stripped. A blank result changes nothing. Otherwise that row's expansion is replaced and nothing else changes. |
| Formatter.NumberedLines | app.py:60-61 | There is one numbered line per expansion. |
| Formatter.FormatDefs | app.py:54-62 | The loop builds the header and one line "i. e" per expansion, and joins them with line feeds. With no expansions it gives the "Nothing for" text. |
| Formatter.FormatNothingYet | app.py:57-58 | No expansions give exactly "Nothing for \*TERM\* yet. Try \`CMD add\` to submit one." |
| Formatter.NoLineFeedInNumber | app.py:60-61 | An item number contains no line feed. |
| Formatter.HeaderIsOneLine | app.py:59 | The header is a single line when the term is. |
| Formatter.NumberedLinesAreLines | app.py:60-61 | Each numbered line is a single line when its expansion is. |
| Formatter.FormatLines | app.py:59-62 | When neither the normalised term nor any expansion contains a line feed, the reply read line by line is "\*TERM\* has N meaning(s):" followed by "k. e_k" for each expansion, in order. An expansion typed over several lines adds lines of its own. |
| Formatter.FormatIgnoresCaseAndPadding | app.py:56 | The reply for the term padded with whitespace, lower-cased, or stripped is the reply for the term itself. |
| Formatter.SameKeySameText | app.py:56 | Terms with the same key get the same reply. |
| Tokens.ParseToken | app.py:234 | Unpacking fails exactly when there is no bar. Otherwise the id part holds no bar and the two parts rejoin to the value. |
| Tokens.NoBarInNumber | app.py:160 | The decimal text of an id contains no bar. |
| Tokens.TokenRoundTrip | app.py:160 | Splitting the token (id, bar, term) gives the id's text and the term exactly, even when the term contains a bar, and `int` of the id part gives the id. |
| Tokens.FetchByText | app.py:317 | A text id that is not a decimal number matches no row. |
| Router.Choices | app.py:151-161 | There is one button per listed row. |
| Router.BlankIsUsage | app.py:94-96 | A blank command gives the usage text. |
| Router.RouteByPrefix | app.py:99 | The prefix tests run in the order "add", "delete", "edit", on the lowercased text. Any text starting with "add" takes the add branch. The lookup branch is taken exactly when the text is nonblank and selects no subcommand. |
| Router.AddPrefills | app.py:99-101 | When the stripped command text is a word starting with "add", whitespace, TERM and anything after further whitespace, the add dialog opens prefilled with TERM upper-cased. |
| Router.AddAloneOpensEmpty | app.py:99-101 | When the stripped command text is a single word starting with "add", such as "add" or " ADD ", the add dialog opens with no prefill. |
| Router.AddressOpensAddDialog | app.py:99-101 | "address" opens the add dialog with no prefill. |
| Router.SubcommandNeedsTerm | app.py:136-139 | When the stripped command text is a single word starting with "delete" (or "edit", where the edit branch exists), such as " delete ", the reply is that subcommand's usage text. |
| Router.ChoicesAreTokens | app.py:151-161 | Button k reads "k. expansion", and its value splits back into that row's id and the term. |
| Router.PickListShape | app.py:141-175 | A pick list has one button per matching row, in id order, and a header that counts them. Each button's value is that row's token, the cancel button carries the term, and the list is never empty. |
| Router.ListWordRoutes | app.py:135 | A first word starting with "delete" (or "edit") selects that branch, whatever follows it. |
| Router.ListNamesTerm | app.py:135-145 | When the stripped command text is a word starting with "delete" (or "edit", where the edit branch exists), whitespace, TERM and anything after further whitespace, the reply is the list for TERM alone. So "delete ATO please" lists ATO. That list is "No definitions found" for the upper-cased term when nothing matches. |
| Router.LookupReply | app.py:221-226 | When no subcommand matches the nonblank stripped text, the reply is `format_defs` of the command text as typed over its expansions, ephemeral exactly when there are none. Any lookup reply has that text and that flag. |
| Router.AcronymBotLooksUpEdit | acronym_bot/app.py:125-172 | Without the edit branch, "edit X" is looked up as the whole term "EDIT X". |
| Router.MentionStripped | app.py:386 | Removing a leading mention and stripping leave the stripped term. |
| Router.MentionLooksUp | app.py:383-391 | "@bot TERM" replies with `format_defs` of TERM. "@bot" alone gives the prompt. |
| Interactions.DeleteSelect | app.py:308-339 | Fails exactly when the value has no bar. Otherwise the confirm button carries the same value back and cancel carries the term. |
| Interactions.DeleteSelectShowsRow | app.py:317-319 | In any table, a stored row's button shows that row's expansion for confirmation. |
| Interactions.DeleteSelectMissing | app.py:319 | A missing row, or an id that is not a number, shows "(definition not found)". |
| Interactions.DeleteFlow | app.py:308-339 | Pressing the k-th button of a pick list asks to confirm the k-th listed row and shows its expansion. The confirm token converts back to that row's id. |
| Interactions.DeleteConfirm | app.py:341-349 | A malformed value or id raises, and so does an id of 2^63 or more, which sqlite3 cannot bind. Then nothing is deleted and there is no reply. Otherwise the row with that id is removed, the reply names the term upper-cased, and ids are never reissued. |
| Interactions.TokenDeletable | app.py:347-348 | A row's confirm button reaches the `DELETE` exactly when its id is below 2^63. |
| Interactions.EditSelect | app.py:228-262 | Fails exactly when the value has no bar. Otherwise the dialog's metadata is the value and its heading is the upper-cased term. |
| Interactions.EditSelectPrefill | app.py:237-239 | In any table, a stored row's dialog is prefilled with its current expansion. |
| Interactions.EditFlow | app.py:228-262 | Pressing the k-th edit button opens the dialog for the k-th listed row, prefilled with its expansion. |
| Interactions.EditSave | app.py:271-305 | Metadata without a bar raises, so nothing changes and there is no notice. Otherwise the stripped expansion, when nonblank and when the id is a number, replaces that row's expansion, and "Updated definition for \*TERM\*." is sent either way. |
| Interactions.AddSave | app.py:358-380 | Both fields are stripped. When both are nonblank, one row is stored with the normalised term. The "Saved" notice goes to the originating channel whenever there is one, even when nothing was stored. |
| Scenarios.TwoMeanings | app.py:28-40 | Adding " ato " and "Ato" stores two ATO rows with ids 1 and 2. |
| Scenarios.ListTwoMeanings | app.py:42-74 | Both meanings are listed in id order whatever the query's case. |
| Scenarios.DeleteFirstMeaning | app.py:341-349 | Confirming the token for id 1 and "ato" leaves only the second meaning. |
| Scenarios.NothingForUnknownTerm | app.py:57-58 | Looking up "zzz" invites the user to add "ZZZ". |

## Left out

- The Slack layer is not modelled. This covers `ack()`, `respond`, `say`, `views_open` and `chat_postEphemeral`, and the JSON of the blocks and views. Replies are modelled as values: their text, the values their buttons carry, and whether they are ephemeral.
- The reply texts are written once, with the command name as a parameter. The two deployments' texts differ only in that name.
- The SQLite layer is not modelled. This covers connections, commits, the `CREATE TABLE` and `CREATE INDEX` statements, and the on-disk file. The table is a sequence of rows kept in id order.
- The `created_at` column is left out. It comes from the clock (`time.time()`), and nothing reads it back.
- Concurrent handlers are left out. Each handler is one atomic step on the table.
- Store.AcronymTable.Add: the model does not cover the `AUTOINCREMENT` counter reaching its 64-bit limit. Ids are unbounded naturals.
- Characters outside ASCII are left out. Outside ASCII, Python's `strip()`, `isspace()`, `upper()` and `lower()` follow Unicode rules, which the model does not cover.
- Only decimal digits are modelled in an id. Python's `int()` also accepts a sign, surrounding whitespace and `_` separators. SQLite's conversion of a text id compared with the integer column is modelled the same way.
- Input fields are never absent (`None`) in the model. Slack's input blocks are required, so the dialogs always submit text.
- Only the texts of the two cancel buttons are modelled, as the constants `Interactions.DeleteCancelled` and `Interactions.EditCancelled`. The handlers do nothing else.
- After an edit, `handle_edit_view` also tries to post "Updated: …" to the channel named by `private_metadata`. That value holds the `id|term` token, not a channel, so the post fails and is logged. This post is not modelled. The notice to the user is modelled.
- The blank check on an edit happens in the handler, before the `UPDATE`. `Store.AcronymTable.Edit` models the handler's strip and check together with the `UPDATE`.
- A handler that raises while unpacking the token or converting the id is modelled as returning `None` and leaving the table unchanged; the exception itself is not modelled. Slack's retry of an unacknowledged action is not modelled.
- Reading configuration from the environment or `.env`, logging, and starting the socket-mode handler are left out.
