/**
 * The command/history engine: four reversible commands over a shared table,
 * and a bounded undo stack with a redo stack.
 *
 * Each command's effect on the rows of its table is given by a function
 * (ExecuteOn, UndoOn); the member methods Execute and Undo change the
 * table's rows to exactly that.
 */
module History {
  import opened Wrappers
  import opened Schema
  import opened Store
  import opened Tables

  datatype Command =
    | EditCommand(table: DataTable, rowId: string, fieldName: string,
                  oldVal: Value, oldOv: bool, newVal: Value, newOv: bool)
    | AddRowCommand(table: DataTable, rowId: string)
    | DeleteRowCommand(table: DataTable, rowId: string, backup: Option<Row>)
    | RenameRowCommand(table: DataTable, oldId: string, newId: string)
  {
    /** The rows of the command's table after `execute`, given the rows before. */
    function ExecuteOn(t: Rows): (r: Rows)
      ensures EditCommand? ==> rowId in r.data && fieldName in r.data[rowId] && r.data[rowId][fieldName] == Entry(newVal, newOv)
      ensures AddRowCommand? ==> rowId in r.data
      ensures DeleteRowCommand? ==> rowId !in r.data
      ensures RenameRowCommand? && oldId in t.data && newId !in t.data ==>
                newId in r.data && oldId !in r.data && r.data[newId] == t.data[oldId]
    {
      match this
      case EditCommand(_, id, f, _, _, newVal, newOv) => SetField(t, id, f, newVal, newOv)
      case AddRowCommand(_, id) => AddRow(t, id)
      case DeleteRowCommand(_, id, _) => RemoveRow(t, id)
      case RenameRowCommand(_, oldId, newId) => RenameRow(t, oldId, newId)
    }

    /**
     * The rows after `undo`. A deleted row comes back through `rows[id] =
     * backup`, so it is appended at the end rather than at its old position.
     */
    function UndoOn(t: Rows): (r: Rows)
      ensures EditCommand? ==> rowId in r.data && fieldName in r.data[rowId] && r.data[rowId][fieldName] == Entry(oldVal, oldOv)
      ensures AddRowCommand? ==> rowId !in r.data
      ensures DeleteRowCommand? && backup.Some? ==> rowId in r.data && r.data[rowId] == backup.value
      ensures DeleteRowCommand? && backup.None? ==> r == t
      ensures RenameRowCommand? && newId in t.data && oldId !in t.data ==>
                oldId in r.data && newId !in r.data && r.data[oldId] == t.data[newId]
    {
      match this
      case EditCommand(_, id, f, oldVal, oldOv, _, _) => SetField(t, id, f, oldVal, oldOv)
      case AddRowCommand(_, id) => RemoveRow(t, id)
      case DeleteRowCommand(_, id, backup) =>
        if backup.Some? then Put(t, id, backup.value) else t
      case RenameRowCommand(_, oldId, newId) => RenameRow(t, newId, oldId)
    }

    method Execute()
      modifies table`rows
      ensures table.rows == ExecuteOn(old(table.rows))
    {
      match this
      case EditCommand(_, id, f, _, _, newVal, newOv) => table.SetInternal(id, f, newVal, newOv);
      case AddRowCommand(_, id) => table.AddRowInternal(id);
      case DeleteRowCommand(_, id, _) => table.RemoveRowInternal(id);
      case RenameRowCommand(_, oldId, newId) => table.RenameRowInternal(oldId, newId);
    }

    method Undo()
      modifies table`rows
      ensures table.rows == UndoOn(old(table.rows))
    {
      match this
      case EditCommand(_, id, f, oldVal, oldOv, _, _) => table.SetInternal(id, f, oldVal, oldOv);
      case AddRowCommand(_, id) => table.RemoveRowInternal(id);
      case DeleteRowCommand(_, id, backup) =>
        if backup.Some? {
          table.rows := Put(table.rows, id, backup.value);
        }
      case RenameRowCommand(_, oldId, newId) => table.RenameRowInternal(newId, oldId);
    }
  }

  /** A delete command snapshots the row it will remove, or records that there is none. */
  function DeleteRowCommandFor(table: DataTable, rowId: string): (c: Command)
    reads table
    ensures c.DeleteRowCommand? && c.table == table && c.rowId == rowId
    ensures c.backup.Some? <==> rowId in table.rows.data
    ensures c.backup.Some? ==> c.backup.value == table.rows.data[rowId]
  {
    DeleteRowCommand(table, rowId, Get(table.rows, rowId))
  }

  // -----------------------------------------------------------------------
  // Inverse laws of the commands

  /**
   * An edit whose old state is the cell as it read before (its effective
   * value and its flag) is undone observably: afterwards every cell of
   * every row reads as before the edit.
   */
  lemma EditUndoRestoresCells(c: Command, t: Rows, structs: map<string, StructDefinition>, structName: string)
    requires c.EditCommand?
    requires c.oldVal == GetCell(t, structs, structName, c.rowId, c.fieldName)
    requires c.oldOv == IsOverridden(t, c.rowId, c.fieldName)
    ensures forall id, f :: GetCell(c.UndoOn(c.ExecuteOn(t)), structs, structName, id, f)
                         == GetCell(t, structs, structName, id, f)
  {
    var after := c.UndoOn(c.ExecuteOn(t));
    SetFieldTwice(t, c.rowId, c.fieldName, c.newVal, c.newOv, c.oldVal, c.oldOv);
    assert after == SetField(t, c.rowId, c.fieldName, c.oldVal, c.oldOv);
    forall id, f ensures GetCell(after, structs, structName, id, f) == GetCell(t, structs, structName, id, f) {
      if id != c.rowId || f != c.fieldName {
        GetCellOtherUnchanged(t, structs, structName, c.rowId, c.fieldName, c.oldVal, c.oldOv, id, f);
      }
    }
  }

  /**
   * The undo of an edit restores the rows exactly when the field was already
   * stored with the old value and flag.
   */
  lemma EditUndoExact(c: Command, t: Rows)
    requires c.EditCommand?
    requires c.rowId in t.data && c.fieldName in t.data[c.rowId]
    requires t.data[c.rowId][c.fieldName] == Entry(c.oldVal, c.oldOv)
    ensures c.UndoOn(c.ExecuteOn(t)) == t
  {
    SetFieldTwice(t, c.rowId, c.fieldName, c.newVal, c.newOv, c.oldVal, c.oldOv);
    var row := t.data[c.rowId];
    assert row[c.fieldName := Entry(c.oldVal, c.oldOv)] == row;
    assert t.data[c.rowId := row] == t.data;
  }

  /**
   * Editing a field the row has never stored and undoing leaves the field
   * stored with the schema default and the flag off: every cell reads as
   * before, but the rows differ from the original.
   */
  lemma EditUndoStoresDefault(c: Command, t: Rows, structs: map<string, StructDefinition>, structName: string)
    requires c.EditCommand?
    requires c.rowId in t.data && c.fieldName !in t.data[c.rowId]
    requires c.oldVal == GetCell(t, structs, structName, c.rowId, c.fieldName)
    requires c.oldOv == IsOverridden(t, c.rowId, c.fieldName)
    ensures c.UndoOn(c.ExecuteOn(t)) != t
    ensures c.UndoOn(c.ExecuteOn(t)).data[c.rowId][c.fieldName]
         == Entry(DefaultValue(structs, structName, c.fieldName), false)
  {
    var after := c.UndoOn(c.ExecuteOn(t));
    assert c.fieldName in after.data[c.rowId];
  }

  /** Editing a row that does not exist and undoing leaves that row behind. */
  lemma EditUndoLeavesRow(c: Command, t: Rows)
    requires c.EditCommand? && c.rowId !in t.data
    ensures c.rowId in c.UndoOn(c.ExecuteOn(t)).data
    ensures c.UndoOn(c.ExecuteOn(t)).order == t.order + [c.rowId]
  {
  }

  /** Undoing the addition of a previously absent row restores the rows exactly. */
  lemma AddRowUndoAfterExecute(c: Command, t: Rows)
    requires c.AddRowCommand? && c.rowId !in t.data
    ensures c.UndoOn(c.ExecuteOn(t)) == t
  {
    RemoveRowAfterAddRow(t, c.rowId);
  }

  /** Undoing an addition whose id was already taken deletes the existing row. */
  lemma AddRowUndoDropsExistingRow(c: Command, t: Rows)
    requires c.AddRowCommand? && c.rowId in t.data
    ensures c.rowId !in c.UndoOn(c.ExecuteOn(t)).data
  {
  }

  /**
   * Undoing a delete whose snapshot was taken from these rows gives back
   * every row with its values and flags; the restored row moves to the end
   * of the order. A delete of a missing row is undone as a no-op.
   */
  lemma {:induction false} DeleteRowUndoAfterExecute(c: Command, t: Rows)
    requires c.DeleteRowCommand? && c.backup == Get(t, c.rowId)
    ensures c.UndoOn(c.ExecuteOn(t)).data == t.data
    ensures c.UndoOn(c.ExecuteOn(t)).order ==
              if c.rowId in t.data then Without(t.order, c.rowId) + [c.rowId] else t.order
  {
    if c.rowId in t.data {
      var removed := RemoveRow(t, c.rowId);
      assert c.ExecuteOn(t) == removed;
      assert c.UndoOn(removed) == Put(removed, c.rowId, t.data[c.rowId]);
      RestoreKey(t.data, c.rowId);
    }
  }

  lemma RestoreKey<K, V>(m: map<K, V>, k: K)
    requires k in m
    ensures (m - {k})[k := m[k]] == m
  {
  }

  /** Undoing a rename whose preconditions held restores the rows exactly. */
  lemma RenameRowUndoAfterExecute(c: Command, t: Rows)
    requires c.RenameRowCommand? && c.oldId in t.data && c.newId !in t.data
    ensures c.UndoOn(c.ExecuteOn(t)) == t
  {
    RenameRowRoundTrip(t, c.oldId, c.newId);
  }

  /**
   * When the rename was a no-op because only the new id is present, undo
   * still renames, moving that row to the old id.
   */
  lemma RenameRowUndoOfNoOp(c: Command, t: Rows)
    requires c.RenameRowCommand? && c.oldId !in t.data && c.newId in t.data
    ensures c.ExecuteOn(t) == t
    ensures c.oldId in c.UndoOn(c.ExecuteOn(t)).data && c.newId !in c.UndoOn(c.ExecuteOn(t)).data
  {
  }

  /**
   * Redo after undo: executing a command again on the rows its undo left
   * gives exactly the rows its first execution gave. The one exception is
   * an addition whose id was already taken, whose undo destroys that row.
   */
  lemma {:induction false} ExecuteAfterUndo(c: Command, t: Rows)
    requires c.AddRowCommand? ==> c.rowId !in t.data
    ensures c.ExecuteOn(c.UndoOn(c.ExecuteOn(t))) == c.ExecuteOn(t)
  {
    match c
    case EditCommand(_, id, f, oldVal, oldOv, newVal, newOv) =>
      SetFieldTwice(t, id, f, newVal, newOv, oldVal, oldOv);
      SetFieldTwice(t, id, f, oldVal, oldOv, newVal, newOv);
    case AddRowCommand(_, id) =>
      RemoveRowAfterAddRow(t, id);
    case DeleteRowCommand(_, id, backup) =>
      if backup.Some? {
        RemoveRowAfterPut(RemoveRow(t, id), id, backup.value);
      }
    case RenameRowCommand(_, oldId, newId) =>
      if oldId in t.data && newId !in t.data {
        RenameRowRoundTrip(t, oldId, newId);
      } else if oldId !in t.data && newId in t.data {
        RenameRowRoundTrip(t, newId, oldId);
      }
  }

  // -----------------------------------------------------------------------
  // The undo and redo stacks

  /** How many entries the history may hold; a negative depth keeps it empty. */
  function Capacity(maxDepth: int): nat {
    if maxDepth < 0 then 0 else maxDepth
  }

  /** The two stacks; the top of each is its last element. */
  datatype Stacks = Stacks(undo: seq<Command>, redo: seq<Command>)

  /** The invariant of the history: both stacks together fit the depth bound. */
  ghost predicate Bounded(s: Stacks, maxDepth: int) {
    |s.undo| + |s.redo| <= Capacity(maxDepth)
  }

  /** push_and_execute: append, clear redo, and drop index 0 when over the bound. */
  function Pushed(s: Stacks, c: Command, maxDepth: int): (r: Stacks)
    ensures r.redo == []
    ensures |r.undo| <= |s.undo| + 1
    ensures maxDepth >= 1 ==> r.undo != [] && r.undo[|r.undo| - 1] == c
    ensures |s.undo| < maxDepth ==> r.undo == s.undo + [c]
  {
    var undo := s.undo + [c];
    Stacks(if |undo| > maxDepth then undo[1..] else undo, [])
  }

  /** undo: the top undo entry moves onto the redo stack; nothing happens when empty. */
  function Undone(s: Stacks): (r: Stacks)
    ensures s.undo == [] ==> r == s
    ensures s.undo != [] ==> |r.redo| == |s.redo| + 1 &&
                             r.undo + [r.redo[|s.redo|]] == s.undo && r.redo[..|s.redo|] == s.redo
  {
    if s.undo == [] then s
    else Stacks(s.undo[..|s.undo| - 1], s.redo + [s.undo[|s.undo| - 1]])
  }

  /** redo: the top redo entry moves back onto the undo stack; nothing happens when empty. */
  function Redone(s: Stacks): (r: Stacks)
    ensures s.redo == [] ==> r == s
    ensures s.redo != [] ==> |r.undo| == |s.undo| + 1 &&
                             r.redo + [r.undo[|s.undo|]] == s.redo && r.undo[..|s.undo|] == s.undo
  {
    if s.redo == [] then s
    else Stacks(s.undo + [s.redo[|s.redo| - 1]], s.redo[..|s.redo| - 1])
  }

  /** The last `n` entries of `q` (all of them when there are fewer). */
  function Newest(q: seq<Command>, n: nat): (r: seq<Command>)
    ensures |r| <= n && |r| <= |q|
  {
    if |q| <= n then q else q[|q| - n..]
  }

  /**
   * A push on bounded stacks leaves the redo stack empty and keeps the
   * newest entries that fit: the command is appended, and when the undo
   * stack was full exactly its oldest entry is lost.
   */
  lemma PushedKeepsNewest(s: Stacks, c: Command, maxDepth: int)
    requires Bounded(s, maxDepth)
    ensures Bounded(Pushed(s, c, maxDepth), maxDepth)
    ensures Pushed(s, c, maxDepth).redo == []
    ensures Pushed(s, c, maxDepth).undo == Newest(s.undo + [c], Capacity(maxDepth))
    ensures |s.undo| < Capacity(maxDepth) ==> Pushed(s, c, maxDepth).undo == s.undo + [c]
    ensures |s.undo| == Capacity(maxDepth) ==> Pushed(s, c, maxDepth).undo == (s.undo + [c])[1..]
  {
  }

  lemma UndoneKeepsBound(s: Stacks, maxDepth: int)
    requires Bounded(s, maxDepth)
    ensures Bounded(Undone(s), maxDepth)
    ensures |Undone(s).undo| + |Undone(s).redo| == |s.undo| + |s.redo|
  {
  }

  lemma RedoneKeepsBound(s: Stacks, maxDepth: int)
    requires Bounded(s, maxDepth)
    ensures Bounded(Redone(s), maxDepth)
    ensures |Redone(s).undo| + |Redone(s).redo| == |s.undo| + |s.redo|
  {
  }

  /** Redo right after an undo returns both stacks to what they were. */
  lemma RedoneAfterUndone(s: Stacks)
    requires s.undo != []
    ensures Redone(Undone(s)) == s
  {
    assert s.undo[..|s.undo| - 1] + [s.undo[|s.undo| - 1]] == s.undo;
  }

  /** Undo right after a redo returns both stacks to what they were. */
  lemma UndoneAfterRedone(s: Stacks)
    requires s.redo != []
    ensures Undone(Redone(s)) == s
  {
    assert s.redo[..|s.redo| - 1] + [s.redo[|s.redo| - 1]] == s.redo;
  }

  /** After a push there is nothing to redo. */
  lemma RedoAfterPushIsNoOp(s: Stacks, c: Command, maxDepth: int)
    ensures Redone(Pushed(s, c, maxDepth)) == Pushed(s, c, maxDepth)
  {
  }

  /** The stacks after pushing the commands `cs` one after the other. */
  function PushedAll(s: Stacks, cs: seq<Command>, maxDepth: int): Stacks
    decreases |cs|
  {
    if cs == [] then s else PushedAll(Pushed(s, cs[0], maxDepth), cs[1..], maxDepth)
  }

  /**
   * The history bound over many pushes: after pushing `cs` (at least one)
   * the undo stack holds exactly the newest entries of the old undo stack
   * followed by `cs` that fit the bound, so pushing `maxDepth + k` commands
   * leaves `maxDepth` of them and the oldest can no longer be undone.
   */
  lemma {:induction false} PushedAllKeepsNewest(s: Stacks, cs: seq<Command>, maxDepth: int)
    requires Bounded(s, maxDepth) && cs != []
    ensures Bounded(PushedAll(s, cs, maxDepth), maxDepth)
    ensures PushedAll(s, cs, maxDepth).redo == []
    ensures PushedAll(s, cs, maxDepth).undo == Newest(s.undo + cs, Capacity(maxDepth))
    decreases |cs|
  {
    var n := Capacity(maxDepth);
    var next := Pushed(s, cs[0], maxDepth);
    PushedKeepsNewest(s, cs[0], maxDepth);
    var rest := cs[1..];
    var result := PushedAll(s, cs, maxDepth);
    assert result == PushedAll(next, rest, maxDepth);
    SplitFirst(s.undo, cs);
    if rest != [] {
      PushedAllKeepsNewest(next, rest, maxDepth);
      NewestOfNewest(s.undo + [cs[0]], rest, n);
    }
  }

  lemma SplitFirst<T>(a: seq<T>, b: seq<T>)
    requires b != []
    ensures a + b == a + [b[0]] + b[1..]
  {
    assert b == [b[0]] + b[1..];
  }

  lemma NewestOfNewest(a: seq<Command>, b: seq<Command>, n: nat)
    ensures Newest(Newest(a, n) + b, n) == Newest(a + b, n)
  {
    if |a| > n {
      var lhs := Newest(Newest(a, n) + b, n);
      var rhs := Newest(a + b, n);
      assert |lhs| == |rhs| == n;
      forall i | 0 <= i < n ensures lhs[i] == rhs[i] {
        if i + |b| < n {
          assert lhs[i] == a[|a| - n + |b| + i];
        }
      }
    }
  }

  class HistoryManager {
    var undoStack: seq<Command>
    var redoStack: seq<Command>
    const maxDepth: int

    function State(): Stacks
      reads this
    {
      Stacks(undoStack, redoStack)
    }

    ghost predicate Valid()
      reads this
    {
      Bounded(State(), maxDepth)
    }

    constructor (maxDepth: int)
      ensures Valid() && State() == Stacks([], []) && this.maxDepth == maxDepth
    {
      this.maxDepth := maxDepth;
      undoStack := [];
      redoStack := [];
    }

    /** Executes the command, records it for undo and forgets every redo entry. */
    method PushAndExecute(cmd: Command)
      requires Valid()
      modifies this, cmd.table`rows
      ensures Valid()
      ensures cmd.table.rows == cmd.ExecuteOn(old(cmd.table.rows))
      ensures State() == Pushed(old(State()), cmd, maxDepth)
    {
      PushedKeepsNewest(State(), cmd, maxDepth);
      cmd.Execute();
      undoStack := undoStack + [cmd];
      redoStack := [];
      if |undoStack| > maxDepth {
        undoStack := undoStack[1..];
      }
    }

    /** Undoes the most recent command and moves it onto the redo stack. */
    method Undo()
      requires Valid()
      modifies this, TopTables(undoStack)`rows
      ensures Valid()
      ensures State() == Undone(old(State()))
      ensures old(undoStack) != [] ==>
                var cmd := old(undoStack)[|old(undoStack)| - 1];
                cmd.table.rows == cmd.UndoOn(old(cmd.table.rows))
    {
      UndoneKeepsBound(State(), maxDepth);
      if undoStack != [] {
        var cmd := undoStack[|undoStack| - 1];
        undoStack := undoStack[..|undoStack| - 1];
        cmd.Undo();
        redoStack := redoStack + [cmd];
      }
    }

    /** Executes the most recently undone command again and moves it back onto the undo stack. */
    method Redo()
      requires Valid()
      modifies this, TopTables(redoStack)`rows
      ensures Valid()
      ensures State() == Redone(old(State()))
      ensures old(redoStack) != [] ==>
                var cmd := old(redoStack)[|old(redoStack)| - 1];
                cmd.table.rows == cmd.ExecuteOn(old(cmd.table.rows))
    {
      RedoneKeepsBound(State(), maxDepth);
      if redoStack != [] {
        var cmd := redoStack[|redoStack| - 1];
        redoStack := redoStack[..|redoStack| - 1];
        cmd.Execute();
        undoStack := undoStack + [cmd];
      }
    }
  }

  /** The table the top entry of a stack acts on; none for an empty stack. */
  function TopTables(stack: seq<Command>): set<DataTable> {
    if stack == [] then {} else {stack[|stack| - 1].table}
  }
}
