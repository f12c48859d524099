/**
 * The value-level table store. A row holds, per field, a stored value and an
 * override flag; keeping the pair in one map entry keeps the source's two
 * dictionaries (values and overridden) in lock-step by construction. The
 * rows of a table form an insertion-ordered dictionary from row id to row,
 * modelled as the sequence of ids in insertion order plus a map; the ids
 * are distinct and are exactly the map's keys.
 */
module Store {
  import opened Wrappers
  import opened Schema

  /** One field of a row: the stored value and its override flag. */
  datatype Entry = Entry(value: Value, overridden: bool)

  /** A row: field name to stored value and override flag. */
  type Row = map<string, Entry>

  const EmptyRow: Row := map[]

  predicate Distinct(s: seq<string>) {
    forall i, j | 0 <= i < j < |s| :: s[i] != s[j]
  }

  datatype RowTable = RowTable(order: seq<string>, data: map<string, Row>)

  ghost predicate Consistent(t: RowTable) {
    && Distinct(t.order)
    && (forall id :: id in t.data <==> id in t.order)
  }

  /** The rows of one table, in insertion order. */
  type Rows = t: RowTable | Consistent(t) witness RowTable([], map[])

  const NoRows: Rows := RowTable([], map[])

  // ---------------------------------------------------------------------
  // Sequence helpers for the key order

  /** `s` with every occurrence of `x` taken out, the rest in order. */
  function Without(s: seq<string>, x: string): (r: seq<string>)
    ensures forall y :: y in r <==> y in s && y != x
    ensures Distinct(s) ==> Distinct(r)
    ensures x !in s ==> r == s
  {
    if s == [] then []
    else if s[0] == x then Without(s[1..], x)
    else
      var rest := Without(s[1..], x);
      assert Distinct(s) ==> s[0] !in s[1..];
      [s[0]] + rest
  }

  /** `s` with `x` replaced by `y` wherever it occurs, positions kept. */
  function Replace(s: seq<string>, x: string, y: string): (r: seq<string>)
    ensures |r| == |s|
    ensures forall i | 0 <= i < |s| :: r[i] == if s[i] == x then y else s[i]
  {
    seq(|s|, i requires 0 <= i < |s| => if s[i] == x then y else s[i])
  }

  lemma ReplaceMembers(s: seq<string>, x: string, y: string)
    ensures forall z :: z in Replace(s, x, y) <==> (z == y && x in s) || (z in s && z != x)
  {
    var r := Replace(s, x, y);
    forall z ensures z in r <==> (z == y && x in s) || (z in s && z != x) {
      if z in r {
        var i :| 0 <= i < |r| && r[i] == z;
      }
      if z == y && x in s {
        var i :| 0 <= i < |s| && s[i] == x;
        assert r[i] == z;
      }
      if z in s && z != x {
        var i :| 0 <= i < |s| && s[i] == z;
        assert r[i] == z;
      }
    }
  }

  lemma ReplaceDistinct(s: seq<string>, x: string, y: string)
    requires Distinct(s) && y !in s
    ensures Distinct(Replace(s, x, y))
  {
    var r := Replace(s, x, y);
    forall i, j | 0 <= i < j < |r| ensures r[i] != r[j] {
      if s[i] != x && s[j] == x { assert s[i] in s; }
      if s[i] == x && s[j] != x { assert s[j] in s; }
    }
  }

  // ---------------------------------------------------------------------
  // The Python dictionary operations the source applies to `rows`

  /** `rows[id] = row`: replaces in place when `id` is present, appends otherwise. */
  function Put(t: Rows, id: string, row: Row): (r: Rows)
    ensures r.data == t.data[id := row]
    ensures r.order == if id in t.data then t.order else t.order + [id]
  {
    RowTable(if id in t.data then t.order else t.order + [id], t.data[id := row])
  }

  /** `del rows[id]`: the other rows keep their relative order. */
  function Delete(t: Rows, id: string): (r: Rows)
    requires id in t.data
    ensures r.data == t.data - {id}
    ensures r.order == Without(t.order, id)
  {
    var order := Without(t.order, id);
    assert forall i | 0 <= i < |order| :: order[i] in t.data - {id} by {
      forall i | 0 <= i < |order| ensures order[i] in t.data - {id} {
        assert order[i] in order;
      }
    }
    RowTable(order, t.data - {id})
  }

  /** `rows.get(id)`. */
  function Get(t: Rows, id: string): (r: Option<Row>)
    ensures r.Some? <==> id in t.data
    ensures r.Some? ==> r.value == t.data[id]
  {
    if id in t.data then Some(t.data[id]) else None
  }

  /** The row stored under `id`, or a fresh empty row when there is none. */
  function RowOrEmpty(t: Rows, id: string): Row {
    if id in t.data then t.data[id] else EmptyRow
  }

  // ---------------------------------------------------------------------
  // The four internal primitives of a table

  /** Creates row `id` if absent, then overwrites one field's value and flag. */
  function SetField(t: Rows, id: string, field: string, val: Value, isOv: bool): (r: Rows)
    ensures r.data.Keys == t.data.Keys + {id}
    ensures r.order == if id in t.data then t.order else t.order + [id]
    ensures id in t.data ==> r.data[id] == t.data[id][field := Entry(val, isOv)]
    ensures id !in t.data ==> r.data[id] == map[field := Entry(val, isOv)]
    ensures forall other | other in t.data && other != id :: r.data[other] == t.data[other]
  {
    Put(t, id, RowOrEmpty(t, id)[field := Entry(val, isOv)])
  }

  /** Adds an empty row `id` at the end, unless `id` is already present. */
  function AddRow(t: Rows, id: string): (r: Rows)
    ensures id in r.data
    ensures id in t.data ==> r == t
    ensures id !in t.data ==> r.data == t.data[id := EmptyRow] && r.order == t.order + [id]
  {
    if id in t.data then t else Put(t, id, EmptyRow)
  }

  /** Deletes row `id` if present; otherwise nothing changes. */
  function RemoveRow(t: Rows, id: string): (r: Rows)
    ensures r.data == t.data - {id}
    ensures r.order == Without(t.order, id)
  {
    if id in t.data then Delete(t, id) else t
  }

  /**
   * Moves the row under `oldId` to `newId`, keeping its position in the
   * order; nothing changes when `oldId` is absent or `newId` is taken.
   */
  function RenameRow(t: Rows, oldId: string, newId: string): (r: Rows)
    ensures oldId !in t.data || newId in t.data ==> r == t
    ensures oldId in t.data && newId !in t.data ==>
              && r.order == Replace(t.order, oldId, newId)
              && r.data.Keys == t.data.Keys - {oldId} + {newId}
              && r.data[newId] == t.data[oldId]
              && forall id | id in t.data && id != oldId :: r.data[id] == t.data[id]
  {
    if oldId !in t.data || newId in t.data then t
    else
      ReplaceMembers(t.order, oldId, newId);
      ReplaceDistinct(t.order, oldId, newId);
      RowTable(Replace(t.order, oldId, newId), (t.data - {oldId})[newId := t.data[oldId]])
  }

  // ---------------------------------------------------------------------
  // Reading a cell

  /** `row.overridden.get(field, False)` for the row under `id`, False when absent. */
  function IsOverridden(t: Rows, id: string, field: string): (b: bool)
    ensures b ==> id in t.data && field in t.data[id]
    ensures Get(t, id).None? ==> !b
  {
    id in t.data && field in t.data[id] && t.data[id][field].overridden
  }

  /**
   * The effective value of a cell: the stored value when the row exists and
   * its override flag for the field is set, the schema default otherwise
   * (also for a row that does not exist).
   */
  function GetCell(t: Rows, structs: map<string, StructDefinition>, structName: string,
                   id: string, field: string): (v: Value)
    ensures IsOverridden(t, id, field) ==> v == t.data[id][field].value
    ensures !IsOverridden(t, id, field) ==> v == DefaultValue(structs, structName, field)
  {
    if IsOverridden(t, id, field) then t.data[id][field].value
    else DefaultValue(structs, structName, field)
  }

  // ---------------------------------------------------------------------
  // Properties of the primitives

  lemma {:induction false} WithoutAppended(s: seq<string>, x: string)
    requires x !in s
    ensures Without(s + [x], x) == s
  {
    if s != [] {
      assert (s + [x])[1..] == s[1..] + [x];
      WithoutAppended(s[1..], x);
    }
  }

  /** Deleting the key at position `k` of a distinct order keeps the others in their order. */
  lemma {:induction false} WithoutAt(s: seq<string>, k: nat)
    requires Distinct(s) && k < |s|
    ensures Without(s, s[k]) == s[..k] + s[k + 1..]
  {
    if k == 0 {
      assert s[0] !in s[1..];
    } else {
      assert Distinct(s[1..]);
      assert s[1..][k - 1] == s[k];
      WithoutAt(s[1..], k - 1);
      assert s[0] != s[k];
      assert s[1..][..k - 1] == s[1..k];
      assert s[1..][k..] == s[k + 1..];
      assert s[..k] == [s[0]] + s[1..k];
    }
  }

  /** Adding a row that is already there changes nothing, so adding twice is adding once. */
  lemma AddRowIdempotent(t: Rows, id: string)
    ensures AddRow(AddRow(t, id), id) == AddRow(t, id)
  {
  }

  /** Removing a row that was just stored under a new id gives the table back exactly. */
  lemma RemoveRowAfterPut(t: Rows, id: string, row: Row)
    requires id !in t.data
    ensures RemoveRow(Put(t, id, row), id) == t
  {
    WithoutAppended(t.order, id);
  }

  /** Removing a row that was just added to a table without it gives the table back exactly. */
  lemma RemoveRowAfterAddRow(t: Rows, id: string)
    requires id !in t.data
    ensures RemoveRow(AddRow(t, id), id) == t
  {
    RemoveRowAfterPut(t, id, EmptyRow);
  }

  lemma {:induction false} ReplaceBack(s: seq<string>, x: string, y: string)
    requires y !in s
    ensures Replace(Replace(s, x, y), y, x) == s
  {
    var r := Replace(Replace(s, x, y), y, x);
    assert |r| == |s|;
    forall i | 0 <= i < |s| ensures r[i] == s[i] {
      assert s[i] != y by { assert s[i] in s; }
    }
  }

  /**
   * Renaming `oldId` to a free `newId` and then back restores the table
   * exactly: the same ids in the same order with the same rows.
   */
  lemma {:induction false} RenameRowRoundTrip(t: Rows, oldId: string, newId: string)
    requires oldId in t.data && newId !in t.data
    ensures RenameRow(RenameRow(t, oldId, newId), newId, oldId) == t
  {
    var r := RenameRow(t, oldId, newId);
    assert oldId !in r.data;
    ReplaceBack(t.order, oldId, newId);
    var back := RenameRow(r, newId, oldId);
    assert back.data == t.data;
  }

  /** Writing a field with its flag set makes that cell read back as the written value. */
  lemma GetCellAfterSetField(t: Rows, structs: map<string, StructDefinition>, structName: string,
                             id: string, field: string, val: Value)
    ensures GetCell(SetField(t, id, field, val, true), structs, structName, id, field) == val
  {
  }

  /** Writing one field leaves every other cell of every row reading as before. */
  lemma GetCellOtherUnchanged(t: Rows, structs: map<string, StructDefinition>, structName: string,
                              id: string, field: string, val: Value, isOv: bool,
                              otherId: string, otherField: string)
    requires otherId != id || otherField != field
    ensures GetCell(SetField(t, id, field, val, isOv), structs, structName, otherId, otherField)
         == GetCell(t, structs, structName, otherId, otherField)
  {
  }

  /** A second write of the same field supersedes the first entirely. */
  lemma SetFieldTwice(t: Rows, id: string, field: string, a: Value, aOv: bool, b: Value, bOv: bool)
    ensures SetField(SetField(t, id, field, a, aOv), id, field, b, bOv) == SetField(t, id, field, b, bOv)
  {
    var row := RowOrEmpty(t, id);
    assert row[field := Entry(a, aOv)][field := Entry(b, bOv)] == row[field := Entry(b, bOv)];
  }

}
