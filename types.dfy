/**
 * The schema registry and mutation facade. The registry keeps struct and
 * enum definitions by name (last registration wins) and the table
 * instances by table name. The facade's requests build a command that
 * captures the state needed to undo it and submit it to the history; the
 * project's dirty flag is set on every submitted request.
 *
 * The registry, the history and the project context are process-wide
 * singletons in the source; here they are objects the registry holds.
 */
module Types {
  import opened Wrappers
  import opened Schema
  import opened Store
  import opened Tables
  import opened History
  import RowIds

  /** The part of the project context the facade uses: its dirty flag. */
  class ProjectContext {
    var isDirty: bool

    constructor ()
      ensures !isDirty
    {
      isDirty := false;
    }

    method MarkDirty()
      modifies this
      ensures isDirty
    {
      isDirty := true;
    }
  }

  class TypeManager {
    var structDefs: map<string, StructDefinition>
    var enumDefs: map<string, EnumDefinition>
    var tables: map<string, DataTable>
    const history: HistoryManager
    const project: ProjectContext

    /** Every definition is registered under its own name, and the history keeps its bound. */
    ghost predicate Valid()
      reads this, history
    {
      && history.Valid()
      && (forall n | n in structDefs :: structDefs[n].name == n)
      && (forall n | n in enumDefs :: enumDefs[n].name == n)
    }

    constructor (history: HistoryManager, project: ProjectContext)
      requires history.Valid()
      ensures Valid()
      ensures structDefs == map[] && enumDefs == map[] && tables == map[]
      ensures this.history == history && this.project == project
    {
      structDefs, enumDefs, tables := map[], map[], map[];
      this.history, this.project := history, project;
    }

    /** The table registered under `tableName`, as a frame. */
    function TableNamed(tableName: string): set<DataTable>
      reads this
    {
      if tableName in tables then {tables[tableName]} else {}
    }

    /** Upserts a struct or enum definition by name; any other definition is ignored. */
    method RegisterSchema(definition: Definition)
      requires Valid()
      modifies this
      ensures Valid() && tables == old(tables)
      ensures structDefs == if definition.StructDef?
                            then old(structDefs)[definition.structDef.name := definition.structDef]
                            else old(structDefs)
      ensures enumDefs == if definition.EnumDef?
                          then old(enumDefs)[definition.enumDef.name := definition.enumDef]
                          else old(enumDefs)
    {
      match definition
      case StructDef(s) => structDefs := structDefs[s.name := s];
      case EnumDef(e) => enumDefs := enumDefs[e.name := e];
      case TableDef(_) =>
    }

    /** Registers a fresh, empty table under the definition's name, replacing any earlier one. */
    method CreateTableInstance(tableDef: TableDefinition) returns (instance: DataTable)
      requires Valid()
      modifies this
      ensures Valid()
      ensures fresh(instance)
      ensures instance.meta == tableDef && instance.rows == NoRows && instance.rowCounter == 0
      ensures tables == old(tables)[tableDef.name := instance]
      ensures structDefs == old(structDefs) && enumDefs == old(enumDefs)
    {
      instance := new DataTable(tableDef);
      tables := tables[tableDef.name := instance];
    }

    /**
     * Scans the struct's fields in order and returns the default of the
     * first one called `fieldName`; Null when the struct or field is unknown.
     */
    method GetDefaultValue(structName: string, fieldName: string) returns (v: Value)
      ensures v == DefaultValue(structDefs, structName, fieldName)
    {
      if structName !in structDefs {
        return Null;
      }
      var fields := structDefs[structName].fields;
      for i := 0 to |fields|
        invariant forall j | 0 <= j < i :: fields[j].name != fieldName
      {
        if fields[i].name == fieldName {
          return fields[i].defaultValue;
        }
      }
      return Null;
    }

    /**
     * Adds a row with a freshly synthesised id through the history and
     * returns the id; None, with nothing changed, for an unknown table.
     */
    method RequestAddRow(tableName: string) returns (newId: Option<string>)
      requires Valid()
      modifies history, project, TableNamed(tableName)
      ensures Valid()
      ensures newId.Some? <==> tableName in tables
      ensures tableName !in tables ==>
                unchanged(history, project)
      ensures tableName in tables ==>
                var table := tables[tableName];
                && newId.value !in old(table.rows.data)
                && newId.value in table.rows.data
                && old(table.rowCounter) < table.rowCounter
                && newId.value == RowIds.IdFor(table.rowCounter - 1)
                && table.rows == AddRow(old(table.rows), newId.value)
                && history.State() == Pushed(old(history.State()), AddRowCommand(table, newId.value), history.maxDepth)
                && history.redoStack == []
                && project.isDirty
    {
      if tableName !in tables {
        return None;
      }
      var table := tables[tableName];
      var id := table.GenerateUniqueId();
      var cmd := AddRowCommand(table, id);
      history.PushAndExecute(cmd);
      project.MarkDirty();
      return Some(id);
    }

    /**
     * Sets one cell through the history. The command's old state is the
     * cell's current effective value and override flag; its new flag is
     * always set, so the cell then reads as `newVal`. Nothing changes for
     * an unknown table.
     */
    method RequestEdit(tableName: string, rowId: string, fieldName: string, newVal: Value)
      requires Valid()
      modifies history, project, TableNamed(tableName)`rows
      ensures Valid()
      ensures tableName !in tables ==> unchanged(history, project)
      ensures tableName in tables ==>
                var table := tables[tableName];
                var cmd := EditCommand(table, rowId, fieldName,
                             GetCell(old(table.rows), structDefs, table.meta.structName, rowId, fieldName),
                             IsOverridden(old(table.rows), rowId, fieldName),
                             newVal, true);
                && table.rows == SetField(old(table.rows), rowId, fieldName, newVal, true)
                && GetCell(table.rows, structDefs, table.meta.structName, rowId, fieldName) == newVal
                && history.State() == Pushed(old(history.State()), cmd, history.maxDepth)
                && project.isDirty
    {
      if tableName !in tables {
        return;
      }
      var table := tables[tableName];
      var oldVal := GetCell(table.rows, structDefs, table.meta.structName, rowId, fieldName);
      var row := Get(table.rows, rowId);
      var oldOv := if row.Some? && fieldName in row.value then row.value[fieldName].overridden else false;
      var cmd := EditCommand(table, rowId, fieldName, oldVal, oldOv, newVal, true);
      history.PushAndExecute(cmd);
      project.MarkDirty();
      GetCellAfterSetField(old(table.rows), structDefs, table.meta.structName, rowId, fieldName, newVal);
    }
  }

  /**
   * The command a requested edit pushes captures the cell's effective value
   * and flag, so undoing it makes every cell of the table read as it did
   * before the request.
   */
  lemma RequestedEditUndoRestoresCells(table: DataTable, t: Rows, structs: map<string, StructDefinition>,
                                       rowId: string, fieldName: string, newVal: Value)
    ensures var cmd := EditCommand(table, rowId, fieldName,
                                   GetCell(t, structs, table.meta.structName, rowId, fieldName),
                                   IsOverridden(t, rowId, fieldName), newVal, true);
            forall id, f :: GetCell(cmd.UndoOn(cmd.ExecuteOn(t)), structs, table.meta.structName, id, f)
                         == GetCell(t, structs, table.meta.structName, id, f)
  {
    var cmd := EditCommand(table, rowId, fieldName,
                           GetCell(t, structs, table.meta.structName, rowId, fieldName),
                           IsOverridden(t, rowId, fieldName), newVal, true);
    EditUndoRestoresCells(cmd, t, structs, table.meta.structName);
  }
}
