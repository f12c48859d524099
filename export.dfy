/**
 * The flattening step of the full export: for every table whose struct is
 * registered, one record per stored row, in row order, holding "ID" and
 * every field of the struct at its effective value. Writing the records
 * to files is not modelled.
 */
module Export {
  import opened Schema
  import opened Store
  import opened Tables
  import opened Types

  /** One exported row, keyed by "ID" and field names. */
  type Record = map<string, Value>

  const IdKey: string := "ID"

  function FieldNames(fields: seq<FieldDefinition>): set<string> {
    set i | 0 <= i < |fields| :: fields[i].name
  }

  lemma FieldNamesSnoc(fields: seq<FieldDefinition>, f: FieldDefinition)
    ensures FieldNames(fields + [f]) == FieldNames(fields) + {f.name}
  {
    var lhs := FieldNames(fields + [f]);
    forall k | k in lhs ensures k in FieldNames(fields) + {f.name} {
      var i :| 0 <= i < |fields| + 1 && (fields + [f])[i].name == k;
      if i < |fields| { assert fields[i].name == k; }
    }
    forall k | k in FieldNames(fields) ensures k in lhs {
      var i :| 0 <= i < |fields| && fields[i].name == k;
      assert (fields + [f])[i].name == k;
    }
    assert (fields + [f])[|fields|].name == f.name;
  }

  /**
   * The exported record of row `id`: "ID" and every field name of the
   * struct. A field reads as its stored value when that row overrides it,
   * and as the schema default otherwise; a field called "ID" takes the
   * place of the id.
   */
  function CompleteRow(t: Rows, structs: map<string, StructDefinition>, structName: string,
                       fields: seq<FieldDefinition>, id: string): (r: Record)
    ensures r.Keys == FieldNames(fields) + {IdKey}
    ensures IdKey !in FieldNames(fields) ==> r[IdKey] == Str(id)
    ensures forall k | k in FieldNames(fields) && IsOverridden(t, id, k) :: r[k] == t.data[id][k].value
    ensures forall k | k in FieldNames(fields) && !IsOverridden(t, id, k) ::
              r[k] == DefaultValue(structs, structName, k)
  {
    map k | k in FieldNames(fields) + {IdKey} ::
      if k in FieldNames(fields) then GetCell(t, structs, structName, id, k) else Str(id)
  }

  /** One record per stored row, in insertion order. */
  function CompleteRows(t: Rows, structs: map<string, StructDefinition>, structName: string,
                        fields: seq<FieldDefinition>): (r: seq<Record>)
    ensures |r| == |t.order|
    ensures forall i | 0 <= i < |t.order| :: r[i] == CompleteRow(t, structs, structName, fields, t.order[i])
  {
    seq(|t.order|, i requires 0 <= i < |t.order| => CompleteRow(t, structs, structName, fields, t.order[i]))
  }

  /** Adding one more field to the struct adds that field's cell to the record. */
  lemma CompleteRowSnoc(t: Rows, structs: map<string, StructDefinition>, structName: string,
                        fields: seq<FieldDefinition>, f: FieldDefinition, id: string)
    ensures CompleteRow(t, structs, structName, fields + [f], id)
         == CompleteRow(t, structs, structName, fields, id)[f.name := GetCell(t, structs, structName, id, f.name)]
  {
    FieldNamesSnoc(fields, f);
    var lhs := CompleteRow(t, structs, structName, fields + [f], id);
    var rhs := CompleteRow(t, structs, structName, fields, id)[f.name := GetCell(t, structs, structName, id, f.name)];
    assert lhs.Keys == rhs.Keys;
    forall k | k in lhs ensures lhs[k] == rhs[k] {
    }
  }

  /** Every exported field equals the table's own reading of that cell. */
  lemma CompleteRowIsCell(t: Rows, structs: map<string, StructDefinition>, structName: string,
                          fields: seq<FieldDefinition>, id: string, k: string)
    requires k in FieldNames(fields)
    ensures CompleteRow(t, structs, structName, fields, id)[k] == GetCell(t, structs, structName, id, k)
  {
  }

  lemma PrefixSnoc<T>(s: seq<T>, i: nat)
    requires i < |s|
    ensures s[..i + 1] == s[..i] + [s[i]]
  {
  }

  lemma PrefixAll<T>(s: seq<T>)
    ensures s[..|s|] == s
  {
  }

  /** The records of one table whose struct is registered. */
  method ExportTable(tm: TypeManager, table: DataTable) returns (data: seq<Record>)
    requires tm.Valid() && table.meta.structName in tm.structDefs
    ensures data == CompleteRows(table.rows, tm.structDefs, table.meta.structName,
                                 tm.structDefs[table.meta.structName].fields)
  {
    var structDef := tm.structDefs[table.meta.structName];
    var t := table.rows;
    ghost var want := CompleteRows(t, tm.structDefs, structDef.name, structDef.fields);
    data := [];
    for i := 0 to |t.order|
      invariant data == want[..i]
    {
      var completeRow := ExportRow(tm, structDef, t, t.order[i]);
      PrefixSnoc(want, i);
      data := data + [completeRow];
    }
    PrefixAll(want);
  }

  /** The record of the stored row `rid`: its id, then each field of the struct in turn. */
  method ExportRow(tm: TypeManager, structDef: StructDefinition, t: Rows, rid: string)
    returns (completeRow: Record)
    requires tm.Valid() && structDef.name in tm.structDefs && tm.structDefs[structDef.name] == structDef
    requires rid in t.data
    ensures completeRow == CompleteRow(t, tm.structDefs, structDef.name, structDef.fields, rid)
  {
    var fields := structDef.fields;
    var rowData := t.data[rid];
    completeRow := map[IdKey := Str(rid)];
    assert fields[..0] == [];
    assert completeRow == CompleteRow(t, tm.structDefs, structDef.name, [], rid);
    for j := 0 to |fields|
      invariant completeRow == CompleteRow(t, tm.structDefs, structDef.name, fields[..j], rid)
    {
      var fName := fields[j].name;
      CompleteRowSnoc(t, tm.structDefs, structDef.name, fields[..j], fields[j], rid);
      assert fields[..j + 1] == fields[..j] + [fields[j]];
      if fName in rowData && rowData[fName].overridden {
        completeRow := completeRow[fName := rowData[fName].value];
      } else {
        var d := tm.GetDefaultValue(structDef.name, fName);
        completeRow := completeRow[fName := d];
      }
    }
    assert fields[..|fields|] == fields;
  }

  /**
   * The flattened export of every table whose struct is registered, keyed
   * by table name; tables with an unregistered struct are skipped.
   */
  method ExportAll(tm: TypeManager) returns (out: map<string, seq<Record>>)
    requires tm.Valid()
    ensures forall n :: n in out <==> n in tm.tables && tm.tables[n].meta.structName in tm.structDefs
    ensures forall n | n in out ::
              var table := tm.tables[n];
              out[n] == CompleteRows(table.rows, tm.structDefs, table.meta.structName,
                                     tm.structDefs[table.meta.structName].fields)
  {
    out := map[];
    var remaining := tm.tables.Keys;
    while remaining != {}
      invariant remaining <= tm.tables.Keys
      invariant forall n :: n in out <==>
                  n in tm.tables && n !in remaining && tm.tables[n].meta.structName in tm.structDefs
      invariant forall n | n in out ::
                  var table := tm.tables[n];
                  out[n] == CompleteRows(table.rows, tm.structDefs, table.meta.structName,
                                         tm.structDefs[table.meta.structName].fields)
      decreases remaining
    {
      var name :| name in remaining;
      remaining := remaining - {name};
      var table := tm.tables[name];
      if table.meta.structName in tm.structDefs {
        var data := ExportTable(tm, table);
        out := out[name := data];
      }
    }
  }
}
