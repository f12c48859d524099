# DataTable core in Dafny

A verified model of the in-memory core of DataTable, a schema-backed table
editor. The model covers four parts:

- **The table store** (`Store`, `Tables`, `RowIds`). A table keeps its rows in
  an insertion-ordered dictionary from row id to row. A row maps each field
  name to a stored value and an override flag. A cell read gives the stored
  value when the flag is set and the schema default otherwise. New row ids
  `NewRow_<n>` come from a counter that only ever increases. Setting a
  field, adding a row and removing a row change the dictionary in place;
  renaming a row builds a new dictionary in order and replaces the old one.
- **The command and history engine** (`History`). There are four reversible
  commands: Edit, AddRow, DeleteRow and RenameRow. The history keeps a
  bounded undo stack and a redo stack. Pushing a command clears the redo
  stack and evicts the oldest undo entry on overflow.
- **The schema registry and mutation façade** (`Schema`, `Types`). Struct and
  enum definitions are registered by name, and the last registration wins.
  Default values are looked up by the first field with a matching name.
  Requests to add a row or edit a cell build a command and push it.
- **The export flattening** (`Export`). For each table whose struct is
  registered, it builds one record per stored row, in row order. A record
  holds `ID` and every struct field at its effective value.

The dictionary behaviour of the source language is written out:

- Assigning to a present key replaces its value in place.
- Assigning to a new key appends it.
- Deleting a key keeps the others in order.

The row dictionary is a sequence of ids in insertion order plus a map. The
subset type `Store.Rows` carries the invariant that the ids are distinct and
are exactly the map's keys.

Each state-changing method is proved against a function of the old state:

- `Command.Execute` against `Command.ExecuteOn`, and `Command.Undo` against
  `Command.UndoOn`.
- `HistoryManager.PushAndExecute`, `Undo` and `Redo` against `Pushed`,
  `Undone` and `Redone`.
- The table primitives against `SetField`, `AddRow`, `RemoveRow` and
  `RenameRow`.

The inverse laws, the depth bound and the round trips are lemmas about those
functions.

The module-level singletons of the source (registry, history, project
context) are explicit objects here. The registry holds the history and the
project context.

## Model

| member | source | states |
|---|---|---|
| `Schema.FindField` | src/core/type_manager.py:32-34 | the result is the index of the first field with the name, no earlier field has it, and it is None exactly when no field has it |
| `Schema.DefaultValue` | src/core/type_manager.py:28-35 | Null for an unregistered struct or an undeclared field, otherwise the declared default of the first field with that name |
| `RowIds.NatToString` | src/core/data_table.py:19 | the decimal text of the counter is non-empty, all digits and has no leading zero |
| `RowIds.IdFor` | src/core/data_table.py:19 | the id for counter value n is `NewRow_` followed by decimal digits; `IdNumberOfIdFor` reads n back and `IdForInjective` shows distinct values give distinct ids |
| `RowIds.ParseNatToString` | src/core/data_table.py:19 | parsing the decimal text of n gives n back |
| `RowIds.IdNumberOfIdFor` | src/core/data_table.py:19 | an id is the prefix followed by digits, and the counter value can be read back from it |
| `RowIds.IdForInjective` | src/core/data_table.py:19-20 | two counter values give the same id if and only if they are equal, so ids from distinct counter values differ |
| `Store.Get` | src/core/history_manager.py:52 | `rows.get(id)` is Some exactly when the id is a row, and then holds that row; this is the snapshot a delete command takes |
| `Store.IsOverridden` | src/core/type_manager.py:61 | `overridden.get(f, False)` of the row, False for a missing row; when it holds, the row stores a value for the field, so reading the stored value is defined |
| `Store.Without` | src/core/data_table.py:47 | deleting a key keeps exactly the other keys, still distinct, and deleting an absent key changes nothing; `WithoutAt` gives the order of the rest |
| `Store.WithoutAt` | src/core/data_table.py:47 | deleting the key at position k of the order leaves the keys before it followed by the keys after it, so the rest keep their relative order |
| `Store.Put` | src/core/data_table.py:36 | assigning a row under an id updates the map; the order is kept when the id is present and the id is appended otherwise |
| `Store.Delete` | src/core/data_table.py:47 | deleting a present id removes it from the map and from the order, and the remaining ids keep their order |
| `Store.SetField` | src/core/data_table.py:34-39 | the row is created when absent, the field's value and flag are both set, the order gains the id only when it was new, and every other row is unchanged |
| `Store.AddRow` | src/core/data_table.py:41-43 | a present id leaves the table unchanged; otherwise an empty row is appended under it |
| `Store.RemoveRow` | src/core/data_table.py:45-47 | the id is removed when present and the other ids keep their order; nothing else changes |
| `Store.RenameRow` | src/core/data_table.py:49-58 | a no-op when the old id is absent or the new id is taken; otherwise the new id stands where the old one stood, it holds the old row, and every other row is unchanged |
| `Store.GetCell` | src/core/data_table.py:24-32 | the stored value when the row exists and its flag is set, the schema default otherwise, including for a missing row |
| `Store.AddRowIdempotent` | src/core/data_table.py:41-43 | adding the same row twice is the same as adding it once |
| `Store.RemoveRowAfterPut` | src/core/data_table.py:45-47 | deleting a row just stored under a new id gives the original table back, order included |
| `Store.RemoveRowAfterAddRow` | src/core/data_table.py:41-47 | removing a row just added under a new id gives the original table back |
| `Store.RenameRowRoundTrip` | src/core/data_table.py:49-58 | renaming to a free id and back restores the table exactly |
| `Store.GetCellAfterSetField` | src/core/data_table.py:24-39 | after setting a field with its flag on, that cell reads as the written value |
| `Store.GetCellOtherUnchanged` | src/core/data_table.py:24-39 | setting one field leaves every other cell of every row reading as before |
| `Store.SetFieldTwice` | src/core/data_table.py:34-39 | a second write of the same field supersedes the first |
| `Tables.DataTable.constructor` | src/core/data_table.py:12-15 | a new table has its definition, no rows and a counter of 0 |
| `Tables.DataTable.GenerateUniqueId` | src/core/data_table.py:17-22 | the counter strictly increases, the id is `NewRow_` followed by the last counter value tried, it is not a row id, and every value skipped was taken; the loop terminates |
| `Tables.DataTable.SetInternal` | src/core/data_table.py:34-39 | the rows become exactly `SetField` of the old rows |
| `Tables.DataTable.AddRowInternal` | src/core/data_table.py:41-43 | the rows become exactly `AddRow` of the old rows |
| `Tables.DataTable.RemoveRowInternal` | src/core/data_table.py:45-47 | the rows become exactly `RemoveRow` of the old rows |
| `Tables.DataTable.RenameRowInternal` | src/core/data_table.py:49-58 | rebuilding the dictionary in order gives exactly `RenameRow` of the old rows |
| `History.Command.ExecuteOn` | src/core/history_manager.py:28-72 | the rows after each command's execute: an edit leaves the field stored, an addition leaves the id present, a delete leaves it absent, and a rename whose guard holds moves the row to the new id; the inverse laws below relate it to `UndoOn` |
| `History.Command.UndoOn` | src/core/history_manager.py:31-72 | the rows after each command's undo: an edit stores the old value and flag, an addition's id is absent, a delete with a snapshot stores that snapshot and one without changes nothing, and a rename whose new id alone is present moves that row back to the old id |
| `History.Command.Execute` | src/core/history_manager.py:18-72 | each command's execute changes its table's rows to `ExecuteOn` of the old rows and nothing else |
| `History.Command.Undo` | src/core/history_manager.py:18-72 | each command's undo changes its table's rows to `UndoOn` of the old rows; a deleted row is put back through assignment |
| `History.DeleteRowCommandFor` | src/core/history_manager.py:47-52 | a delete command snapshots the row it will remove, and has no snapshot exactly when there is no such row |
| `History.EditUndoRestoresCells` | src/core/history_manager.py:28-32 | when the old value and flag are the cell's effective value and flag, execute then undo leaves every cell reading as before |
| `History.EditUndoExact` | src/core/history_manager.py:28-32 | when the field was stored with the old value and flag, execute then undo restores the rows exactly |
| `History.EditUndoStoresDefault` | src/core/history_manager.py:28-32 | editing a field an existing row has never stored and undoing leaves that field stored with the schema default and the flag off, so the rows differ from the original although every cell reads as before |
| `History.EditUndoLeavesRow` | src/core/history_manager.py:28-32 | editing a missing row and undoing leaves a new row behind at the end of the order |
| `History.AddRowUndoAfterExecute` | src/core/history_manager.py:40-44 | for an absent id, undo after execute restores the rows exactly |
| `History.AddRowUndoDropsExistingRow` | src/core/history_manager.py:40-44 | for an id already present, undo after execute deletes that existing row |
| `History.DeleteRowUndoAfterExecute` | src/core/history_manager.py:52-59 | with the snapshot taken from the rows, undo after execute gives every row back with its values and flags; the restored row moves to the end, and a delete of a missing row is undone as a no-op |
| `History.RenameRowUndoAfterExecute` | src/core/history_manager.py:68-72 | when the old id is present and the new one free, undo after execute restores the rows exactly |
| `History.RenameRowUndoOfNoOp` | src/core/history_manager.py:68-72 | when only the new id is present, execute changes nothing but undo still moves that row to the old id |
| `History.ExecuteAfterUndo` | src/core/history_manager.py:94-98 | redoing a command on the rows its undo left gives the rows of its first execution, except for an addition whose id was already taken |
| `History.Pushed` | src/core/history_manager.py:83-86 | a push empties the redo stack, grows the undo stack by at most one, appends the command when the stack is not full, and leaves it on top whenever the depth is at least 1; `PushedKeepsNewest` and `PushedAllKeepsNewest` give the bound and the eviction |
| `History.Undone` | src/core/history_manager.py:88-92 | an empty undo stack changes nothing; otherwise its top entry moves to the top of the redo stack and nothing else moves; `UndoneKeepsBound` and `RedoneAfterUndone` are about it |
| `History.Redone` | src/core/history_manager.py:94-98 | an empty redo stack changes nothing; otherwise its top entry moves to the top of the undo stack and nothing else moves; `RedoneKeepsBound` and `UndoneAfterRedone` are about it |
| `History.PushedKeepsNewest` | src/core/history_manager.py:81-86 | a push keeps the depth bound, empties the redo stack and appends the command; on a full undo stack exactly the oldest entry is lost |
| `History.UndoneKeepsBound` | src/core/history_manager.py:88-92 | undo keeps the depth bound and the total number of entries |
| `History.RedoneKeepsBound` | src/core/history_manager.py:94-98 | redo keeps the depth bound and the total number of entries |
| `History.RedoneAfterUndone` | src/core/history_manager.py:88-98 | redo right after an undo returns both stacks to their prior contents |
| `History.UndoneAfterRedone` | src/core/history_manager.py:88-98 | undo right after a redo returns both stacks to their prior contents |
| `History.RedoAfterPushIsNoOp` | src/core/history_manager.py:81-86 | after a push there is nothing to redo |
| `History.PushedAllKeepsNewest` | src/core/history_manager.py:81-86 | after one or more pushes the undo stack holds exactly the newest entries that fit the bound and the redo stack is empty |
| `History.HistoryManager.constructor` | src/core/history_manager.py:76-79 | a new history has two empty stacks, the given depth and satisfies the bound |
| `History.HistoryManager.PushAndExecute` | src/core/history_manager.py:81-86 | the command's table rows become `ExecuteOn` of the old rows, the stacks become `Pushed` of the old stacks, and the bound is kept |
| `History.HistoryManager.Undo` | src/core/history_manager.py:88-92 | the stacks become `Undone` of the old stacks; when there was an entry, its table's rows become `UndoOn` of the old rows; an empty undo stack changes nothing |
| `History.HistoryManager.Redo` | src/core/history_manager.py:94-98 | the stacks become `Redone` of the old stacks; when there was an entry, its table's rows become `ExecuteOn` of the old rows; an empty redo stack changes nothing |
| `Types.ProjectContext.constructor` | src/core/project_context.py:14 | a new project context is not dirty |
| `Types.ProjectContext.MarkDirty` | src/core/project_context.py:90-91 | the project is dirty afterwards |
| `Types.TypeManager.constructor` | src/core/type_manager.py:10-13 | a new registry has no structs, enums or tables |
| `Types.TypeManager.RegisterSchema` | src/core/type_manager.py:15-19 | a struct or enum is upserted under its name, so the last one wins; the other registry and the tables are unchanged, and a table definition is ignored |
| `Types.TypeManager.CreateTableInstance` | src/core/type_manager.py:21-26 | a fresh table with no rows and a counter of 0 replaces any table of the same name |
| `Types.TypeManager.GetDefaultValue` | src/core/type_manager.py:28-35 | the first-match scan returns exactly `DefaultValue` |
| `Types.TypeManager.RequestAddRow` | src/core/type_manager.py:37-51 | for an unknown table, returns None and changes nothing; otherwise returns a previously absent id that is now a row, pushes that AddRow command, empties the redo stack and marks the project dirty |
| `Types.TypeManager.RequestEdit` | src/core/type_manager.py:53-68 | for an unknown table, changes nothing; otherwise pushes an edit that captures the cell's effective value and flag, sets the flag, makes the cell read as the new value and marks the project dirty |
| `Types.RequestedEditUndoRestoresCells` | src/core/type_manager.py:59-64 | undoing the edit a request pushed makes every cell of the table read as before the request |
| `Export.CompleteRow` | src/generators/json_exporter.py:29-41 | a record has exactly `ID` and the struct's field names as keys; `ID` is the row id unless a field has that name; a field holds the stored value when overridden and the default otherwise |
| `Export.CompleteRows` | src/generators/json_exporter.py:24-43 | one record per stored row, in row order |
| `Export.CompleteRowIsCell` | src/generators/json_exporter.py:35-41 | every exported field equals the table's own cell read |
| `Export.ExportRow` | src/generators/json_exporter.py:29-41 | the per-field loop builds exactly `CompleteRow` of the row |
| `Export.ExportTable` | src/generators/json_exporter.py:24-43 | the per-row loop produces exactly `CompleteRows` of the table |
| `Export.ExportAll` | src/generators/json_exporter.py:18-43 | exactly the tables whose struct is registered are exported, and each one as `CompleteRows` |

## Where undo does not restore the prior state

Each undo is meant to restore the prior state: src/test/test_containers.py:49
and src/test/test_containers.py:52 expect an undone cell to return to its
initial value. The code does less in five cases, and the model follows the
code:

- An edit of a row that did not exist creates the row. Its undo writes the
  old value back but does not remove the row (`History.EditUndoLeavesRow`).
- An edit of a field that an existing row has never stored, such as any
  field of a row just added, is undone by storing the field's default with
  the flag off. Every cell reads as before, but the row now stores that
  field, and saving a project writes it out (`History.EditUndoStoresDefault`).
- Undoing a delete puts the row back through dictionary assignment, so it
  comes back at the end of the order, not at its old position
  (`History.DeleteRowUndoAfterExecute`).
- Undoing an addition whose id was already present deletes the row that was
  there before (`History.AddRowUndoDropsExistingRow`).
- A rename that was a no-op because only the new id existed is still undone
  by renaming the new id to the old one (`History.RenameRowUndoOfNoOp`).

In the export, a struct field called `ID` overwrites the row id in the
record (`Export.CompleteRow`).

## Left out

- File and console I/O: creating the export directory, writing the JSON
  files, and loading and saving a project. These are I/O.
- The project context's paths and load/save logic. Only its dirty flag is
  modelled.
- The bulk load in src/core/project_context.py:69. It converts each row id
  with `int(...)`, although row ids are strings everywhere else. This is
  load I/O and is not modelled.
- The thread-locked lazy singletons. They are a concurrency concern; the
  model passes explicit objects instead.
- Pydantic validation and the schema's comment metadata.
- Enum definitions are stored but never interpreted.
- src/schema/enum.py and src/schema/table.py are not part of this model. The
  enum and table definitions are reduced to the fields the core reads.
- Floating-point values are opaque literals; the core does no float
  arithmetic.
- `copy.deepcopy` and aliasing. Dafny values are immutable, so each deep copy
  becomes value semantics. The fact that `get_cell` returns the stored object
  without copying it has no observable counterpart here.
- The façade has no request to delete or rename a row. Those two commands
  are modelled directly.
- The history depth is a parameter of the model. Every history in the
  program is the singleton, built with no arguments (src/core/singleton.py:14);
  later constructor calls return that instance and ignore their arguments
  (src/core/singleton.py:17-18). So the program always runs with the default
  depth of 100 (src/core/history_manager.py:76), which the model covers. The
  model also accepts a negative depth and treats it as capacity 0, keeping
  the source's comparison `len > max_depth` as written; the program never
  reaches that case.
- `Export.ExportAll`: the result is a map from table name to records. It does
  not capture the order of the exported files, the list of paths returned,
  or the key order inside each JSON record.
- History: undo/redo laws over arbitrary interleavings of many commands on a
  shared table are not stated. The laws are per command and per stack step.
