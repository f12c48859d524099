/**
 * The schema model (field, struct, enum and table definitions) and the
 * default-value lookup of the schema registry.
 *
 * Cell values are JSON-like literals. Floating-point literals occur only as
 * data; no arithmetic is done on them, so they are kept as opaque text.
 */
module Schema {
  import opened Wrappers

  datatype Value =
    | Null
    | Bool(b: bool)
    | Int(i: int)
    | Float(literal: string)
    | Str(s: string)
    | List(items: seq<Value>)
    | Dict(entries: map<string, Value>)

  /** How a field holds its values: one value, an array of values, or a map. */
  datatype ContainerType = Single | Array | Map

  /** A named, typed slot of a struct with its declared default literal. */
  datatype FieldDefinition = FieldDefinition(
    name: string,
    typeName: string,
    container: ContainerType,
    keyType: Option<string>,
    defaultValue: Value)

  datatype StructDefinition = StructDefinition(name: string, fields: seq<FieldDefinition>)

  datatype EnumItem = EnumItem(name: string, value: int)

  datatype EnumDefinition = EnumDefinition(name: string, items: seq<EnumItem>)

  /** Binds a table name to the name of the struct every row conforms to. */
  datatype TableDefinition = TableDefinition(name: string, structName: string)

  /** What the registry may be handed; only structs and enums are registered. */
  datatype Definition =
    | StructDef(structDef: StructDefinition)
    | EnumDef(enumDef: EnumDefinition)
    | TableDef(tableDef: TableDefinition)

  /** Whether some field of `s` is called `name`. */
  predicate Declares(s: StructDefinition, name: string) {
    exists j | 0 <= j < |s.fields| :: s.fields[j].name == name
  }

  /** The position of the first field called `name`, scanning in declaration order. */
  function FindField(fields: seq<FieldDefinition>, name: string): (r: Option<nat>)
    ensures r.Some? ==> r.value < |fields| && fields[r.value].name == name
    ensures r.Some? ==> forall j | 0 <= j < r.value :: fields[j].name != name
    ensures r.None? <==> forall j | 0 <= j < |fields| :: fields[j].name != name
  {
    if fields == [] then None
    else if fields[0].name == name then Some(0)
    else match FindField(fields[1..], name)
      case None => None
      case Some(k) => Some(k + 1)
  }

  /**
   * The default of field `fieldName` of struct `structName`: Null when the
   * struct is not registered or has no such field, otherwise the declared
   * default of the first field with that name.
   */
  function DefaultValue(structs: map<string, StructDefinition>, structName: string, fieldName: string): (v: Value)
    ensures structName !in structs ==> v == Null
    ensures structName in structs && !Declares(structs[structName], fieldName) ==> v == Null
    ensures structName in structs ==>
              forall i | 0 <= i < |structs[structName].fields| &&
                         structs[structName].fields[i].name == fieldName &&
                         (forall j | 0 <= j < i :: structs[structName].fields[j].name != fieldName) ::
                v == structs[structName].fields[i].defaultValue
  {
    if structName !in structs then Null
    else match FindField(structs[structName].fields, fieldName)
      case None => Null
      case Some(i) => structs[structName].fields[i].defaultValue
  }
}
