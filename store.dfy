/**
 * The `acronyms` table and the queries the bot runs against it.
 *
 * The table is a sequence of rows kept in insertion order. Ids come from an
 * AUTOINCREMENT counter, so they increase along the sequence, and
 * `ORDER BY id ASC` is the sequence order. Every query is a filter over
 * the rows.
 */
module Store {
  import opened Wrappers
  import opened Text

  /** One row of the table; the `created_at` clock column is not modelled. */
  datatype Row = Row(id: nat, term: string, expansion: string)

  /** How terms are keyed: `term.strip().upper()`. */
  function Normalize(t: string): string {
    Upper(Strip(t))
  }

  /** A normalised term is stripped and uppercase. */
  lemma {:induction false} NormalizeIsNormal(t: string)
    ensures IsStripped(Normalize(t)) && IsUpperCase(Normalize(t))
  {
    StripIsStripped(t);
    UpperKeepsStripped(Strip(t));
    UpperIsUpperCase(Strip(t));
  }

  lemma {:induction false} NormalizeIdempotent(t: string)
    ensures Normalize(Normalize(t)) == Normalize(t)
  {
    NormalizeIsNormal(t);
    StrippedIsFixed(Normalize(t));
    UpperCaseIsFixed(Normalize(t));
  }

  /** Any case or surrounding-whitespace variant of a term is keyed alike. */
  lemma {:induction false} NormalizeVariants(a: string, t: string, b: string)
    requires AllSpace(a) && AllSpace(b)
    ensures Normalize(a + t + b) == Normalize(t)
    ensures Normalize(Lower(t)) == Normalize(t)
    ensures Normalize(Upper(t)) == Normalize(t)
    ensures Normalize(Strip(t)) == Normalize(t)
  {
    StripIdempotent(t);
    StripPadded(a, t, b);
    StripLower(t);
    UpperOfLower(Strip(t));
    StripUpper(t);
    UpperIdempotent(Strip(t));
  }

  // ---------- Table invariant ----------

  /** What every stored row satisfies: a nonempty stripped uppercase term
      and a nonempty stripped expansion. */
  predicate WellFormed(r: Row) {
    r.term != [] && IsStripped(r.term) && IsUpperCase(r.term) &&
    r.expansion != [] && IsStripped(r.expansion)
  }

  predicate IdsAscending(rows: seq<Row>) {
    forall i, j :: 0 <= i < j < |rows| ==> rows[i].id < rows[j].id
  }

  predicate TableInvariant(rows: seq<Row>) {
    (forall k :: 0 <= k < |rows| ==> WellFormed(rows[k])) && IdsAscending(rows)
  }

  // ---------- Selection ----------

  /** `SELECT ... WHERE keep(row)` in table order. */
  function Where(rows: seq<Row>, keep: Row -> bool): (r: seq<Row>)
    ensures forall x :: x in r <==> x in rows && keep(x)
    ensures |r| <= |rows|
  {
    if rows == [] then []
    else
      assert forall x :: x in rows <==> x == rows[0] || x in rows[1..];
      (if keep(rows[0]) then [rows[0]] else []) + Where(rows[1..], keep)
  }

  function HasTerm(key: string): Row -> bool {
    (r: Row) => r.term == key
  }

  function HasOtherId(id: int): Row -> bool {
    (r: Row) => r.id != id
  }

  lemma {:induction false} WhereAscending(rows: seq<Row>, keep: Row -> bool)
    requires IdsAscending(rows)
    ensures IdsAscending(Where(rows, keep))
    decreases |rows|
  {
    if rows != [] {
      WhereAscending(rows[1..], keep);
      var rest := Where(rows[1..], keep);
      forall x | x in rest ensures rows[0].id < x.id {
        var k :| 0 <= k < |rows[1..]| && rows[1..][k] == x;
        assert rows[k + 1] == x;
      }
    }
  }

  lemma {:induction false} WhereAppend(a: seq<Row>, b: seq<Row>, keep: Row -> bool)
    ensures Where(a + b, keep) == Where(a, keep) + Where(b, keep)
    decreases |a|
  {
    if a == [] {
      assert a + b == b;
    } else {
      assert (a + b)[0] == a[0];
      assert (a + b)[1..] == a[1..] + b;
      WhereAppend(a[1..], b, keep);
    }
  }

  lemma {:induction false} WhereKeepsAll(rows: seq<Row>, keep: Row -> bool)
    requires forall k :: 0 <= k < |rows| ==> keep(rows[k])
    ensures Where(rows, keep) == rows
    decreases |rows|
  {
    if rows != [] {
      WhereKeepsAll(rows[1..], keep);
      assert rows == [rows[0]] + rows[1..];
    }
  }

  lemma {:induction false} WhereCommute(rows: seq<Row>, p: Row -> bool, q: Row -> bool)
    ensures Where(Where(rows, p), q) == Where(Where(rows, q), p)
    decreases |rows|
  {
    if rows != [] {
      var head := [rows[0]];
      var tail := rows[1..];
      assert rows == head + tail;
      WhereAppend(head, tail, p);
      WhereAppend(head, tail, q);
      WhereAppend(Where(head, p), Where(tail, p), q);
      WhereAppend(Where(head, q), Where(tail, q), p);
      WhereCommute(tail, p, q);
    }
  }

  /** Two id-ordered sequences holding the same rows are the same sequence:
      the order `ORDER BY id ASC` fixes is unique. */
  lemma {:induction false} AscendingUnique(a: seq<Row>, b: seq<Row>)
    requires IdsAscending(a) && IdsAscending(b)
    requires forall x :: x in a <==> x in b
    ensures a == b
    decreases |a| + |b|
  {
    assert a != [] ==> a[0] in b;
    assert b != [] ==> b[0] in a;
    if a != [] && b != [] {
      var ka :| 0 <= ka < |a| && a[ka] == b[0];
      var kb :| 0 <= kb < |b| && b[kb] == a[0];
      assert a[0].id <= a[ka].id;
      assert b[0].id <= b[kb].id;
      assert ka == 0 && kb == 0;
      TailsHoldSameRows(a, b);
      AscendingUnique(a[1..], b[1..]);
      assert a == [a[0]] + a[1..] && b == [b[0]] + b[1..];
    }
  }

  /** Two id-ordered sequences with the same rows and the same first row
      have the same rows after it. */
  lemma {:induction false} TailsHoldSameRows(a: seq<Row>, b: seq<Row>)
    requires IdsAscending(a) && IdsAscending(b)
    requires forall x :: x in a <==> x in b
    requires a != [] && b != [] && a[0] == b[0]
    ensures IdsAscending(a[1..]) && IdsAscending(b[1..])
    ensures forall x :: x in a[1..] <==> x in b[1..]
  {
    forall x ensures x in a[1..] <==> x in b[1..] {
      if x in a[1..] {
        var i :| 0 <= i < |a[1..]| && a[1..][i] == x;
        assert a[i + 1] == x && a[0].id < x.id;
        assert x in b && x != b[0];
      }
      if x in b[1..] {
        var i :| 0 <= i < |b[1..]| && b[1..][i] == x;
        assert b[i + 1] == x && b[0].id < x.id;
        assert x in a && x != a[0];
      }
    }
  }

  // ---------- The queries ----------

  /** The rows `WHERE term = t.strip().upper() ORDER BY id ASC`. */
  function Matching(rows: seq<Row>, t: string): seq<Row> {
    Where(rows, HasTerm(Normalize(t)))
  }

  function Expansions(m: seq<Row>): (r: seq<string>)
    ensures |r| == |m|
  {
    seq(|m|, i requires 0 <= i < |m| => m[i].expansion)
  }

  function IdsAndExpansions(m: seq<Row>): (r: seq<(nat, string)>)
    ensures |r| == |m|
  {
    seq(|m|, i requires 0 <= i < |m| => (m[i].id, m[i].expansion))
  }

  /** `get_acronyms(t)`. */
  function GetAcronyms(rows: seq<Row>, t: string): seq<string> {
    Expansions(Matching(rows, t))
  }

  /** `get_acronym_ids_and_expansions(t)`. */
  function GetIdsAndExpansions(rows: seq<Row>, t: string): seq<(nat, string)> {
    IdsAndExpansions(Matching(rows, t))
  }

  /** The lookup selects exactly the rows whose stored term is the
      normalised query, in ascending id order; and it is the only
      sequence that does. */
  lemma {:induction false} MatchingIsQuery(rows: seq<Row>, t: string, s: seq<Row>)
    requires IdsAscending(rows)
    requires IdsAscending(s)
    requires forall x :: x in s <==> x in rows && x.term == Normalize(t)
    ensures forall x :: x in Matching(rows, t) <==> x in rows && x.term == Normalize(t)
    ensures IdsAscending(Matching(rows, t))
    ensures s == Matching(rows, t)
  {
    WhereAscending(rows, HasTerm(Normalize(t)));
    AscendingUnique(s, Matching(rows, t));
  }

  /** Both lookups see the same rows in the same order. */
  lemma {:induction false} LookupsAgree(rows: seq<Row>, t: string)
    ensures |GetAcronyms(rows, t)| == |GetIdsAndExpansions(rows, t)|
    ensures forall k :: 0 <= k < |GetAcronyms(rows, t)| ==>
              GetAcronyms(rows, t)[k] == GetIdsAndExpansions(rows, t)[k].1
  {
  }

  /** The lookup gives the same answer for every case or
      surrounding-whitespace variant of the query. */
  lemma {:induction false} LookupIgnoresCaseAndPadding(rows: seq<Row>, a: string, t: string, b: string)
    requires AllSpace(a) && AllSpace(b)
    ensures GetAcronyms(rows, a + t + b) == GetAcronyms(rows, t)
    ensures GetAcronyms(rows, Lower(t)) == GetAcronyms(rows, t)
    ensures GetAcronyms(rows, Upper(t)) == GetAcronyms(rows, t)
    ensures GetAcronyms(rows, Strip(t)) == GetAcronyms(rows, t)
    ensures GetIdsAndExpansions(rows, a + t + b) == GetIdsAndExpansions(rows, t)
    ensures GetIdsAndExpansions(rows, Lower(t)) == GetIdsAndExpansions(rows, t)
    ensures GetIdsAndExpansions(rows, Upper(t)) == GetIdsAndExpansions(rows, t)
    ensures GetIdsAndExpansions(rows, Strip(t)) == GetIdsAndExpansions(rows, t)
  {
    NormalizeVariants(a, t, b);
  }

  /** `SELECT expansion FROM acronyms WHERE id = ?` with `fetchone()`. */
  function FindExpansion(rows: seq<Row>, id: int): (r: Option<string>)
    ensures r.None? <==> forall k :: 0 <= k < |rows| ==> rows[k].id != id
    ensures r.Some? ==> exists k :: 0 <= k < |rows| && rows[k].id == id && rows[k].expansion == r.value
  {
    if rows == [] then None
    else if rows[0].id == id then Some(rows[0].expansion)
    else
      var r := FindExpansion(rows[1..], id);
      assert forall k :: 1 <= k < |rows| ==> rows[k] == rows[1..][k - 1];
      r
  }

  /** With unique ids, fetching by a row's id gives that row's expansion. */
  lemma {:induction false} FindRow(rows: seq<Row>, k: nat)
    requires IdsAscending(rows)
    requires k < |rows|
    ensures FindExpansion(rows, rows[k].id) == Some(rows[k].expansion)
  {
    var r := FindExpansion(rows, rows[k].id);
    var j :| 0 <= j < |rows| && rows[j].id == rows[k].id && rows[j].expansion == r.value;
    assert j == k;
  }

  /** Every (id, expansion) pair a lookup lists is what fetching that id
      gives back. */
  lemma {:induction false} FetchListedRow(rows: seq<Row>, t: string, k: nat)
    requires IdsAscending(rows)
    requires k < |GetIdsAndExpansions(rows, t)|
    ensures var found := GetIdsAndExpansions(rows, t);
            FindExpansion(rows, found[k].0) == Some(found[k].1)
  {
    var m := Matching(rows, t);
    assert m[k] in m;
    var j :| 0 <= j < |rows| && rows[j] == m[k];
    FindRow(rows, j);
  }

  // ---------- Insert ----------

  lemma {:induction false} ExpansionsAppend(a: seq<Row>, b: seq<Row>)
    ensures Expansions(a + b) == Expansions(a) + Expansions(b)
  {
  }

  lemma {:induction false} WhereSingle(row: Row, keep: Row -> bool)
    ensures Where([row], keep) == if keep(row) then [row] else []
  {
    assert [row][1..] == [];
  }

  lemma {:induction false} AppendThenSelect(rows: seq<Row>, row: Row, key: string)
    ensures Expansions(Where(rows + [row], HasTerm(key))) ==
            Expansions(Where(rows, HasTerm(key))) + (if row.term == key then [row.expansion] else [])
  {
    var keep := HasTerm(key);
    WhereAppend(rows, [row], keep);
    WhereSingle(row, keep);
    ExpansionsAppend(Where(rows, keep), Where([row], keep));
  }

  /** Appending a row adds its expansion at the end of the lookup of its
      term and leaves every other lookup as it was. */
  lemma {:induction false} AddThenLookup(rows: seq<Row>, row: Row, q: string)
    ensures GetAcronyms(rows + [row], q) ==
            GetAcronyms(rows, q) + (if row.term == Normalize(q) then [row.expansion] else [])
  {
    AppendThenSelect(rows, row, Normalize(q));
  }

  /** A well-formed row with an id above every stored id keeps the table
      invariant when appended. */
  lemma {:induction false} AppendKeepsInvariant(rows: seq<Row>, row: Row)
    requires TableInvariant(rows) && WellFormed(row)
    requires forall k :: 0 <= k < |rows| ==> rows[k].id < row.id
    ensures TableInvariant(rows + [row])
  {
    var r := rows + [row];
    forall k | 0 <= k < |r| ensures WellFormed(r[k]) {
      if k < |rows| {
        assert r[k] == rows[k];
      }
    }
    forall i, j | 0 <= i < j < |r| ensures r[i].id < r[j].id {
      assert r[i] == rows[i];
      if j < |rows| {
        assert r[j] == rows[j];
      }
    }
  }

  /** The row `add_acronym` inserts is well formed. */
  lemma {:induction false} AddedRowWellFormed(id: nat, term: string, expansion: string)
    requires Normalize(term) != [] && Strip(expansion) != []
    ensures WellFormed(Row(id, Normalize(term), Strip(expansion)))
  {
    NormalizeIsNormal(term);
    StripIsStripped(expansion);
  }

  // ---------- Delete ----------

  /** `DELETE FROM acronyms WHERE id = ?`. */
  function RemoveId(rows: seq<Row>, id: int): seq<Row> {
    Where(rows, HasOtherId(id))
  }

  /** Delete removes the rows with that id and no other row;
      deleting an id that is absent changes nothing. */
  lemma {:induction false} DeleteRemovesOnly(rows: seq<Row>, id: int)
    ensures forall x :: x in RemoveId(rows, id) <==> x in rows && x.id != id
    ensures (forall k :: 0 <= k < |rows| ==> rows[k].id != id) ==> RemoveId(rows, id) == rows
  {
    if forall k :: 0 <= k < |rows| ==> rows[k].id != id {
      WhereKeepsAll(rows, HasOtherId(id));
    }
  }

  /** Deleting the same id twice is the same as deleting it once. */
  lemma {:induction false} DeleteIdempotent(rows: seq<Row>, id: int)
    ensures RemoveId(RemoveId(rows, id), id) == RemoveId(rows, id)
  {
    var once := RemoveId(rows, id);
    forall k | 0 <= k < |once| ensures once[k].id != id {
      assert once[k] in once;
    }
    WhereKeepsAll(once, HasOtherId(id));
  }

  /** After a delete, a lookup shows the same rows as before except the
      deleted one, in the same order. */
  lemma {:induction false} DeleteThenLookup(rows: seq<Row>, id: int, t: string)
    ensures Matching(RemoveId(rows, id), t) == RemoveId(Matching(rows, t), id)
    ensures FindExpansion(RemoveId(rows, id), id) == None
  {
    hide Normalize;
    WhereCommute(rows, HasOtherId(id), HasTerm(Normalize(t)));
    var r := RemoveId(rows, id);
    forall k | 0 <= k < |r| ensures r[k].id != id {
      assert r[k] in r;
    }
  }

  lemma {:induction false} DeleteKeepsInvariant(rows: seq<Row>, id: int)
    requires TableInvariant(rows)
    ensures TableInvariant(RemoveId(rows, id))
  {
    WhereAscending(rows, HasOtherId(id));
    var r := RemoveId(rows, id);
    forall k | 0 <= k < |r| ensures WellFormed(r[k]) {
      assert r[k] in rows;
    }
  }

  // ---------- Update ----------

  /** `UPDATE acronyms SET expansion = ? WHERE id = ?`. */
  function SetExpansion(rows: seq<Row>, id: int, e: string): (r: seq<Row>)
    ensures |r| == |rows|
  {
    seq(|rows|, k requires 0 <= k < |rows| =>
      if rows[k].id == id then rows[k].(expansion := e) else rows[k])
  }

  /** An update never changes a row's id or term, and replaces the
      expansion of the row with that id only. */
  lemma {:induction false} EditChangesOnlyExpansion(rows: seq<Row>, id: int, e: string)
    ensures forall k :: 0 <= k < |rows| ==>
              SetExpansion(rows, id, e)[k].id == rows[k].id &&
              SetExpansion(rows, id, e)[k].term == rows[k].term &&
              (rows[k].id != id ==> SetExpansion(rows, id, e)[k] == rows[k])
  {
  }

  /** Fetching an updated row gives the new expansion; updating an absent
      id changes nothing. */
  lemma {:induction false} EditThenFetch(rows: seq<Row>, id: int, e: string)
    requires IdsAscending(rows)
    ensures (exists k :: 0 <= k < |rows| && rows[k].id == id) ==>
              FindExpansion(SetExpansion(rows, id, e), id) == Some(e)
    ensures (forall k :: 0 <= k < |rows| ==> rows[k].id != id) ==>
              SetExpansion(rows, id, e) == rows
  {
    var r := SetExpansion(rows, id, e);
    if k :| 0 <= k < |rows| && rows[k].id == id {
      assert IdsAscending(r);
      FindRow(r, k);
    }
  }

  lemma {:induction false} EditKeepsInvariant(rows: seq<Row>, id: int, e: string)
    requires TableInvariant(rows)
    requires e != [] && IsStripped(e)
    ensures TableInvariant(SetExpansion(rows, id, e))
  {
  }

  // ---------- The table ----------

  /** The `acronyms` table: its rows in id order and the AUTOINCREMENT
      counter. `issued` records every id ever handed out. */
  class AcronymTable {
    var rows: seq<Row>
    var nextId: nat
    ghost var issued: set<nat>

    ghost predicate Valid()
      reads this
    {
      TableInvariant(rows) && 1 <= nextId &&
      (forall i :: i in issued ==> i < nextId) &&
      (forall k :: 0 <= k < |rows| ==> rows[k].id in issued)
    }

    /** A freshly created, empty table; the first id is 1. */
    constructor ()
      ensures Valid()
      ensures rows == [] && nextId == 1 && issued == {}
    {
      rows := [];
      nextId := 1;
      issued := {};
    }

    /** `add_acronym(term, expansion)`: skipped when either field is blank
        after normalisation, otherwise one row with a never-issued id,
        larger than every stored id, is appended. */
    method Add(term: string, expansion: string)
      requires Valid()
      modifies this
      ensures Valid()
      ensures Normalize(term) == [] || Strip(expansion) == [] ==>
                rows == old(rows) && nextId == old(nextId) && issued == old(issued)
      ensures Normalize(term) != [] && Strip(expansion) != [] ==>
                rows == old(rows) + [Row(old(nextId), Normalize(term), Strip(expansion))] &&
                nextId == old(nextId) + 1 &&
                old(nextId) !in old(issued) && issued == old(issued) + {old(nextId)} &&
                (forall k :: 0 <= k < |old(rows)| ==> old(rows)[k].id < old(nextId))
    {
      hide Normalize, Strip;
      var t := Normalize(term);
      var e := Strip(expansion);
      if t == [] || e == [] {
        return;
      }
      var row := Row(nextId, t, e);
      AddedRowWellFormed(nextId, term, expansion);
      assert forall k :: 0 <= k < |rows| ==> rows[k].id < nextId by {
        forall k | 0 <= k < |rows| ensures rows[k].id < nextId {
          assert rows[k].id in issued;
        }
      }
      AppendKeepsInvariant(rows, row);
      ghost var before := rows;
      rows := rows + [row];
      issued := issued + {nextId};
      nextId := nextId + 1;
      forall k | 0 <= k < |rows| ensures rows[k].id in issued {
        if k < |before| {
          assert rows[k] == before[k];
        }
      }
    }

    /** `delete_acronym_by_id(id)`. */
    method Delete(id: int)
      requires Valid()
      modifies this
      ensures Valid()
      ensures rows == RemoveId(old(rows), id)
      ensures nextId == old(nextId) && issued == old(issued)
    {
      DeleteKeepsInvariant(rows, id);
      var r := RemoveId(rows, id);
      forall k | 0 <= k < |r| ensures r[k].id in issued {
        assert r[k] in rows;
      }
      rows := r;
    }

    /** The edit save: the new expansion is stripped and, when nonempty,
        written to the row with that id. */
    method Edit(id: int, newExpansion: string)
      requires Valid()
      modifies this
      ensures Valid()
      ensures Strip(newExpansion) == [] ==> rows == old(rows)
      ensures Strip(newExpansion) != [] ==> rows == SetExpansion(old(rows), id, Strip(newExpansion))
      ensures nextId == old(nextId) && issued == old(issued)
    {
      hide Strip;
      var e := Strip(newExpansion);
      if e != [] {
        StripIsStripped(newExpansion);
        EditKeepsInvariant(rows, id, e);
        rows := SetExpansion(rows, id, e);
      }
    }
  }
}
