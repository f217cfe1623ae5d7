/**
 * A table schema: the typed fields of a record in declaration order, the
 * fields whose values feed the record's hash, and the optional list of fields
 * that get a value -> hash index.
 */
module Schemas {
  import opened Wrappers

  /** The three type tags a schema field may carry. */
  datatype FieldType = StringType | NumberType | BooleanType

  /** The tag as written in a schema, which is what `typeof` answers for a conforming value. */
  function Tag(t: FieldType): string {
    match t
    case StringType => "string"
    case NumberType => "number"
    case BooleanType => "boolean"
  }

  /** One entry of the `fields` object: a field name and its type tag. */
  datatype Field = Field(name: string, kind: FieldType)

  /**
   * `fields` lists the entries of the `fields` object in key order;
   * `indexFields` is the optional member the engine reads besides the declared ones.
   */
  datatype TableSchema = TableSchema(
    fields: seq<Field>,
    hashFields: seq<string>,
    indexFields: Option<seq<string>>)

  /** `Object.keys(schema.fields)`. */
  function Names(fields: seq<Field>): (r: seq<string>)
    ensures |r| == |fields|
    ensures forall i :: 0 <= i < |fields| ==> r[i] == fields[i].name
  {
    seq(|fields|, i requires 0 <= i < |fields| => fields[i].name)
  }

  /** The keys of an object are distinct: no field name is declared twice. */
  predicate DistinctNames(fields: seq<Field>) {
    forall i, j :: 0 <= i < j < |fields| ==> fields[i].name != fields[j].name
  }

  /** The indexed fields; a schema without `indexFields` indexes nothing. */
  function IndexedFields(schema: TableSchema): seq<string> {
    if schema.indexFields.Some? then schema.indexFields.value else []
  }
}
