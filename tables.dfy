/**
 * A table instance: its definition, its rows and the counter from which
 * fresh row ids are synthesised. Setting a field, adding and removing a row
 * change the rows in place; renaming rebuilds them in order and replaces
 * them. The four primitives are invoked only by the history commands and by
 * the project's bulk load, which is not part of this model.
 */
module Tables {
  import opened Schema
  import opened Store
  import RowIds

  class DataTable {
    const meta: TableDefinition
    var rows: Rows
    var rowCounter: nat

    constructor (definition: TableDefinition)
      ensures meta == definition && rows == NoRows && rowCounter == 0
    {
      meta := definition;
      rows := NoRows;
      rowCounter := 0;
    }

    /**
     * Tries "NewRow_<counter>" for increasing counter values and returns the
     * first that is not a row id. The counter moves past every value tried,
     * so it only ever increases. The loop ends because each collision is
     * with a different one of the finitely many existing ids.
     */
    method GenerateUniqueId() returns (id: string)
      modifies this`rowCounter
      ensures old(rowCounter) < rowCounter
      ensures id == RowIds.IdFor(rowCounter - 1) && id !in rows.data
      ensures forall k | old(rowCounter) <= k < rowCounter - 1 :: RowIds.IdFor(k) in rows.data
    {
      ghost var tried: set<string> := {};
      while true
        invariant old(rowCounter) <= rowCounter
        invariant forall k | old(rowCounter) <= k < rowCounter :: RowIds.IdFor(k) in rows.data
        invariant tried <= rows.data.Keys
        invariant forall s | s in tried ::
                    |s| >= |RowIds.Prefix| && RowIds.AllDigits(s[|RowIds.Prefix|..]) &&
                    RowIds.IdNumber(s) < rowCounter
        decreases rows.data.Keys - tried
      {
        var candidate := RowIds.IdFor(rowCounter);
        RowIds.IdNumberOfIdFor(rowCounter);
        rowCounter := rowCounter + 1;
        if candidate !in rows.data {
          return candidate;
        }
        tried := tried + {candidate};
      }
    }

    /** Creates the row if absent, then sets one field's value and override flag. */
    method SetInternal(rowId: string, fieldName: string, val: Value, isOv: bool)
      modifies this`rows
      ensures rows == SetField(old(rows), rowId, fieldName, val, isOv)
    {
      if rowId !in rows.data {
        rows := Put(rows, rowId, EmptyRow);
      }
      var row := rows.data[rowId];
      rows := Put(rows, rowId, row[fieldName := Entry(val, isOv)]);
    }

    method AddRowInternal(rowId: string)
      modifies this`rows
      ensures rows == AddRow(old(rows), rowId)
    {
      if rowId !in rows.data {
        rows := Put(rows, rowId, EmptyRow);
      }
    }

    method RemoveRowInternal(rowId: string)
      modifies this`rows
      ensures rows == RemoveRow(old(rows), rowId)
    {
      if rowId in rows.data {
        rows := Delete(rows, rowId);
      }
    }

    /**
     * Rebuilds the rows in insertion order, putting the row of `oldId` under
     * `newId` where `oldId` stood; a no-op when `oldId` is absent or
     * `newId` is taken.
     */
    method RenameRowInternal(oldId: string, newId: string)
      modifies this`rows
      ensures rows == RenameRow(old(rows), oldId, newId)
    {
      if oldId !in rows.data || newId in rows.data {
        return;
      }
      var t := rows;
      var newOrder: seq<string> := [];
      var newData: map<string, Row> := map[];
      for i := 0 to |t.order|
        invariant newOrder == Replace(t.order[..i], oldId, newId)
        invariant forall k :: k in newData <==> k in newOrder
        invariant forall k | k in newData :: RenamedFrom(t, oldId, newId, k, newData[k])
      {
        var k := t.order[i];
        var v := t.data[k];
        ReplaceSnoc(t.order[..i], oldId, newId, k);
        assert t.order[..i + 1] == t.order[..i] + [k];
        if k == oldId {
          newData := newData[newId := v];
        } else {
          newData := newData[k := v];
        }
        newOrder := newOrder + [if k == oldId then newId else k];
      }
      assert t.order[..|t.order|] == t.order;
      RenamedDataIsRenameRow(t, oldId, newId, newData);
      rows := RowTable(newOrder, newData);
    }
  }

  /** The row under `k` after renaming `oldId` to `newId` is the row that stood under its old id. */
  ghost predicate RenamedFrom(t: Rows, oldId: string, newId: string, k: string, row: Row) {
    var from := if k == newId then oldId else k;
    from in t.data && row == t.data[from]
  }

  lemma ReplaceSnoc(s: seq<string>, x: string, y: string, e: string)
    ensures Replace(s + [e], x, y) == Replace(s, x, y) + [if e == x then y else e]
  {
  }

  lemma RenamedDataIsRenameRow(t: Rows, oldId: string, newId: string, newData: map<string, Row>)
    requires oldId in t.data && newId !in t.data
    requires forall k :: k in newData <==> k in Replace(t.order, oldId, newId)
    requires forall k | k in newData :: RenamedFrom(t, oldId, newId, k, newData[k])
    ensures Consistent(RowTable(Replace(t.order, oldId, newId), newData))
    ensures RowTable(Replace(t.order, oldId, newId), newData) == RenameRow(t, oldId, newId)
  {
    ReplaceMembers(t.order, oldId, newId);
    ReplaceDistinct(t.order, oldId, newId);
    var renamed := RenameRow(t, oldId, newId);
    assert newData.Keys == renamed.data.Keys;
    assert newData == renamed.data;
  }
}
