/**
 * The `id|term` value carried on buttons and in the edit dialog's private
 * metadata, which stands in for a session: built as `f"{id}|{term}"` and
 * taken apart with `aid, term = value.split("|", 1)`.
 */
module Tokens {
  import opened Wrappers
  import opened Text
  import opened Store

  /** `f"{id}|{term}"`. */
  function MakeToken(id: nat, term: string): string {
    NatToString(id) + "|" + term
  }

  /** `aid, term = value.split("|", 1)`; `None` is the `ValueError` the
      unpacking raises when the value holds no `|`. */
  function ParseToken(value: string): (r: Option<(string, string)>)
    ensures r.None? <==> '|' !in value
    ensures r.Some? ==> r.value.0 + "|" + r.value.1 == value && '|' !in r.value.0
  {
    var parts := SplitOnce(value, '|');
    if |parts| == 2 then Some((parts[0], parts[1])) else None
  }

  /** The id `int(aid)` gives for a token, or `None` when either the split
      or the conversion raises. */
  function TokenId(value: string): Option<nat> {
    match ParseToken(value)
    case None => None
    case Some((aid, _)) => ParseDecimal(aid)
  }

  lemma {:induction false} NoBarInNumber(n: nat)
    ensures '|' !in NatToString(n)
  {
  }

  /** Splitting a token gives back the id's decimal text and the term
      exactly, even if the term itself contains `|`, and the id text
      converts back to the id. */
  lemma {:induction false} TokenRoundTrip(id: nat, term: string)
    ensures ParseToken(MakeToken(id, term)) == Some((NatToString(id), term))
    ensures TokenId(MakeToken(id, term)) == Some(id)
  {
    var digits := NatToString(id);
    NoBarInNumber(id);
    assert MakeToken(id, term) == digits + ['|'] + term;
    IndexOfFirst(digits, '|', term);
    var v := MakeToken(id, term);
    assert v[..|digits|] == digits;
    assert v[|digits| + 1..] == term;
    DecimalRoundTrip(id);
  }

  /** `SELECT expansion FROM acronyms WHERE id = ?` with the id still in
      text form: text that is not a decimal number matches no row. */
  function FetchByText(rows: seq<Row>, aid: string): (r: Option<string>)
    ensures ParseDecimal(aid).None? ==> r.None?
  {
    match ParseDecimal(aid)
    case None => None
    case Some(id) => FindExpansion(rows, id)
  }
}
