/**
 * The record engine: a schema registry over a content store. A record lives
 * at `<table>/<hash>` in its `|`-delimited form, where the hash is the MD5 of
 * its hash input; each indexed field has an index at
 * `<table>/index_<field>.json` mapping the string form of a value to the hash
 * of the record last inserted with it.
 *
 * The remote repository is modelled as two maps: record files (path to text)
 * and index files (path to the decoded JSON object). MD5 is a function the
 * engine is given. Every operation catches its own errors. Provider
 * failures are not modelled, and every remaining failure comes before any
 * write, so here a failing operation answers nothing (`None`) or changes
 * nothing.
 */
module RecordEngine {
  import opened Wrappers
  import opened Js
  import opened Schemas
  import opened RecordCodec

  /** Where a record with hash `hash` is stored. */
  function RecordPath(table: string, hash: string): string {
    table + "/" + hash
  }

  /** Where the index of `field` is stored. */
  function IndexPath(table: string, field: string): string {
    table + "/index_" + field + ".json"
  }

  /** The index paths of a list of fields. */
  function IndexPaths(table: string, fields: seq<string>): set<string> {
    set f | f in fields :: IndexPath(table, f)
  }

  /** Within one table, distinct fields have distinct index files. */
  lemma IndexPathInjective(table: string, f1: string, f2: string)
    requires IndexPath(table, f1) == IndexPath(table, f2)
    ensures f1 == f2
  {
    var p := table + "/index_";
    var s1 := IndexPath(table, f1);
    assert s1 == p + f1 + ".json";
    assert |f1| == |f2|;
    assert f1 == s1[|p|..|p| + |f1|];
    assert f2 == IndexPath(table, f2)[|p|..|p| + |f2|];
  }

  /** Within one table, distinct hashes have distinct record files. */
  lemma RecordPathInjective(table: string, h1: string, h2: string)
    requires RecordPath(table, h1) == RecordPath(table, h2)
    ensures h1 == h2
  {
    var p := table + "/";
    assert h1 == RecordPath(table, h1)[|p|..];
    assert h2 == RecordPath(table, h2)[|p|..];
  }

  /** The index stored at `path`; a missing file (the 404 answer) reads as the empty index. */
  function IndexAt(indexes: map<string, map<string, string>>, path: string): map<string, string> {
    if path in indexes then indexes[path] else map[]
  }

  /**
   * `after` is `before` with only the `paths` written: it holds every path of
   * either, and every path outside `paths` keeps its old index.
   */
  predicate WrittenOnly(before: map<string, map<string, string>>, after: map<string, map<string, string>>, paths: set<string>) {
    && after.Keys == before.Keys + paths
    && forall p :: p in before && p !in paths ==> after[p] == before[p]
  }

  /** The index key a record's field value is stored under: `String(record[field])`. */
  function IndexKey(r: Record, field: string): string {
    ToJsString(Get(r, field))
  }

  /**
   * `after` is `before` with the indexes of `fields` updated for a record
   * stored under `hash`: each of them maps the record's value to `hash`,
   * on top of what it held (nothing, when it was missing), and no other
   * index changed.
   */
  predicate Reindexed(before: map<string, map<string, string>>, after: map<string, map<string, string>>,
                      table: string, fields: seq<string>, r: Record, hash: string) {
    && WrittenOnly(before, after, IndexPaths(table, fields))
    && forall f :: f in fields ==>
         after[IndexPath(table, f)] == IndexAt(before, IndexPath(table, f))[IndexKey(r, f) := hash]
  }

  /** The index paths of `done + [field]` are those of `done` plus the path of `field`. */
  lemma IndexPathsSnoc(table: string, done: seq<string>, field: string)
    ensures IndexPaths(table, done + [field]) == IndexPaths(table, done) + {IndexPath(table, field)}
  {
    forall q | q in IndexPaths(table, done + [field]) ensures q in IndexPaths(table, done) + {IndexPath(table, field)} {
      var f :| f in done + [field] && q == IndexPath(table, f);
      if f != field { assert f in done; }
    }
  }

  /** A field not yet updated has an index path outside the updated ones. */
  lemma IndexPathNotYetWritten(table: string, done: seq<string>, field: string)
    requires field !in done
    ensures IndexPath(table, field) !in IndexPaths(table, done)
  {
    if IndexPath(table, field) in IndexPaths(table, done) {
      var f :| f in done && IndexPath(table, field) == IndexPath(table, f);
      IndexPathInjective(table, f, field);
    }
  }

  /** Writing one more path extends `WrittenOnly` to that path. */
  lemma WrittenOnlyStep(before: map<string, map<string, string>>, cur: map<string, map<string, string>>,
                        paths: set<string>, path: string, index: map<string, string>)
    requires WrittenOnly(before, cur, paths)
    ensures WrittenOnly(before, cur[path := index], paths + {path})
  {
  }

  /** The index of the next field, once updated, is its old index with the record's key added. */
  lemma ReindexNewField(before: map<string, map<string, string>>, cur: map<string, map<string, string>>,
                        table: string, done: seq<string>, field: string, r: Record, hash: string)
    requires Reindexed(before, cur, table, done, r, hash)
    ensures var path := IndexPath(table, field);
      IndexAt(cur, path)[IndexKey(r, field) := hash] == IndexAt(before, path)[IndexKey(r, field) := hash]
  {
    if field !in done {
      IndexPathNotYetWritten(table, done, field);
    }
  }

  /** Updating the index of `field` after those of `done` gives `Reindexed` for `done + [field]`. */
  lemma ReindexSnoc(before: map<string, map<string, string>>, cur: map<string, map<string, string>>,
                    table: string, done: seq<string>, field: string, r: Record, hash: string)
    requires Reindexed(before, cur, table, done, r, hash)
    ensures var path := IndexPath(table, field);
      Reindexed(before, cur[path := IndexAt(cur, path)[IndexKey(r, field) := hash]], table, done + [field], r, hash)
  {
    var path := IndexPath(table, field);
    var next := cur[path := IndexAt(cur, path)[IndexKey(r, field) := hash]];
    IndexPathsSnoc(table, done, field);
    WrittenOnlyStep(before, cur, IndexPaths(table, done), path, IndexAt(cur, path)[IndexKey(r, field) := hash]);
    ReindexNewField(before, cur, table, done, field, r, hash);
    forall f | f in done + [field]
      ensures next[IndexPath(table, f)] == IndexAt(before, IndexPath(table, f))[IndexKey(r, f) := hash]
    {
      if f != field {
        if IndexPath(table, f) == path { IndexPathInjective(table, f, field); }
      }
    }
  }

  /** Updating the index of one more field extends `Reindexed` to that field. */
  lemma ReindexStep(before: map<string, map<string, string>>, cur: map<string, map<string, string>>,
                    table: string, fields: seq<string>, i: int, r: Record, hash: string)
    requires 0 <= i < |fields|
    requires Reindexed(before, cur, table, fields[..i], r, hash)
    ensures var path := IndexPath(table, fields[i]);
      Reindexed(before, cur[path := IndexAt(cur, path)[IndexKey(r, fields[i]) := hash]], table, fields[..i + 1], r, hash)
  {
    assert fields[..i + 1] == fields[..i] + [fields[i]];
    ReindexSnoc(before, cur, table, fields[..i], fields[i], r, hash);
  }

  class Orm {
    /** MD5, rendered as hex. */
    const digest: string -> string
    var schemas: map<string, TableSchema>
    /** Record files: path to `|`-delimited text. */
    var files: map<string, string>
    /** Index files: path to the object `JSON.parse` gives, value string to hash. */
    var indexes: map<string, map<string, string>>

    constructor (digest: string -> string, files: map<string, string>, indexes: map<string, map<string, string>>)
      ensures this.digest == digest && schemas == map[]
      ensures this.files == files && this.indexes == indexes
    {
      this.digest := digest;
      schemas := map[];
      this.files := files;
      this.indexes := indexes;
    }

    /**
     * The name under which a conforming record of `table` is stored: MD5 of
     * its hash input. Every record whose hash fields are all falsy gets the
     * name MD5 gives the empty string, so such records overwrite each other.
     */
    function HashOf(table: string, r: Record): (h: string)
      reads this
      requires table in schemas
      ensures HashPieces(schemas[table].hashFields, r) == [] ==> h == digest("")
    {
      digest(HashInput(schemas[table].hashFields, r))
    }

    /** What reading `<table>/<hash>` answers: the decoded record, or nothing when the file or the schema is missing. */
    function RecordAt(table: string, hash: string): Option<Record>
      reads this
    {
      var path := RecordPath(table, hash);
      if table in schemas && path in files
      then Some(Decoded(Names(schemas[table].fields), Split(files[path], '|')))
      else None
    }

    /** The hash `index[value]` names when it is truthy, for an indexed field whose index file exists. */
    function IndexedHash(table: string, field: string, value: string): Option<string>
      reads this
    {
      var path := IndexPath(table, field);
      if table in schemas && field in IndexedFields(schemas[table]) && path in indexes
         && value in indexes[path] && Truthy(Str(indexes[path][value]))
      then Some(indexes[path][value])
      else None
    }

    /**
     * `registerTableSchema(table, schema)`: replaces any earlier schema for
     * the table and writes an empty index for every indexed field, replacing
     * an index that already exists.
     */
    method RegisterTableSchema(table: string, schema: TableSchema)
      modifies this
      ensures schemas == old(schemas)[table := schema]
      ensures files == old(files)
      ensures WrittenOnly(old(indexes), indexes, IndexPaths(table, IndexedFields(schema)))
      ensures forall f :: f in IndexedFields(schema) ==> indexes[IndexPath(table, f)] == map[]
    {
      schemas := schemas[table := schema];
      var fields := IndexedFields(schema);
      for i := 0 to |fields|
        invariant schemas == old(schemas)[table := schema] && files == old(files)
        invariant WrittenOnly(old(indexes), indexes, IndexPaths(table, fields[..i]))
        invariant forall f :: f in fields[..i] ==> indexes[IndexPath(table, f)] == map[]
      {
        indexes := indexes[IndexPath(table, fields[i]) := map[]];
        assert fields[..i + 1] == fields[..i] + [fields[i]];
      }
      assert fields[..|fields|] == fields;
    }

    /**
     * `validateRecord(table, record)`: fails when the table has no schema;
     * otherwise passes exactly when every declared field has the declared
     * type, and on failure reports the first field that does not.
     */
    method ValidateRecord(table: string, r: Record) returns (res: Outcome<OrmError>)
      ensures table !in schemas ==> res == Fail(SchemaNotFound(table))
      ensures table in schemas ==> (res.Pass? <==> Conforms(schemas[table].fields, r))
      ensures table in schemas && res.Fail? ==>
        exists k :: FirstMismatchAt(schemas[table].fields, r, k) && res.error == Mismatch(schemas[table].fields[k], r)
    {
      if table !in schemas {
        return Fail(SchemaNotFound(table));
      }
      var fields := schemas[table].fields;
      for i := 0 to |fields|
        invariant forall j :: 0 <= j < i ==> FieldConforms(fields[j], r)
      {
        if TypeOf(Get(r, fields[i].name)) != Tag(fields[i].kind) {
          assert FirstMismatchAt(fields, r, i);
          return Fail(Mismatch(fields[i], r));
        }
      }
      return Pass;
    }

    /**
     * `convertDelimitedStringToRecord(table, content)`: assigns the pieces of
     * `content` to the schema fields in order; nothing when the table has no
     * schema.
     */
    method ConvertDelimitedStringToRecord(table: string, content: string) returns (r: Option<Record>)
      ensures table !in schemas ==> r == None
      ensures table in schemas ==> r == Some(Decoded(Names(schemas[table].fields), Split(content, '|')))
    {
      if table !in schemas {
        return None;
      }
      var names := Names(schemas[table].fields);
      var values := Split(content, '|');
      var record: Record := map[];
      for i := 0 to |names|
        invariant record == Decoded(names[..i], values)
      {
        assert names[..i + 1][..i] == names[..i];
        record := record[names[i] := PieceAt(values, i)];
      }
      assert names[..|names|] == names;
      return Some(record);
    }

    /**
     * `insertRecord(table, record)`: validates first and writes nothing when
     * that fails. Otherwise writes the encoded record at `<table>/<hash>`,
     * then sets `index[String(record[field])] = hash` in each indexed field's
     * index, starting from an empty index when the file is missing.
     */
    method InsertRecord(table: string, r: Record)
      modifies this
      ensures schemas == old(schemas)
      ensures !(table in schemas && Conforms(schemas[table].fields, r)) ==>
        files == old(files) && indexes == old(indexes)
      ensures table in schemas && Conforms(schemas[table].fields, r) ==>
        && files == old(files)[RecordPath(table, HashOf(table, r)) := Encode(schemas[table].fields, r)]
        && Reindexed(old(indexes), indexes, table, IndexedFields(schemas[table]), r, HashOf(table, r))
    {
      var valid := ValidateRecord(table, r);
      if valid.Fail? {
        return;
      }
      var schema := schemas[table];
      var hash := digest(HashInput(schema.hashFields, r));
      files := files[RecordPath(table, hash) := Encode(schema.fields, r)];
      var fields := IndexedFields(schema);
      for i := 0 to |fields|
        invariant schemas == old(schemas) && files == old(files)[RecordPath(table, hash) := Encode(schema.fields, r)]
        invariant Reindexed(old(indexes), indexes, table, fields[..i], r, hash)
      {
        var field := fields[i];
        var path := IndexPath(table, field);
        var index := if path in indexes then indexes[path] else map[];
        index := index[ToJsString(Get(r, field)) := hash];
        ReindexStep(old(indexes), indexes, table, fields, i, r, hash);
        indexes := indexes[path := index];
      }
      assert fields[..|fields|] == fields;
    }

    /** `getRecordByHash(table, hash)`: the decoded record at `<table>/<hash>`, or nothing. */
    method GetRecordByHash(table: string, hash: string) returns (r: Option<Record>)
      ensures r == RecordAt(table, hash)
      ensures r.Some? ==> forall n :: n in r.value ==> r.value[n].Str? || r.value[n].Undefined?
    {
      var path := RecordPath(table, hash);
      if path !in files {
        return None;
      }
      r := ConvertDelimitedStringToRecord(table, files[path]);
    }

    /**
     * `getRecordByField(table, field, value)`: nothing unless `field` is
     * indexed, its index file exists and maps `value` to a truthy hash;
     * then the record stored under that hash.
     */
    method GetRecordByField(table: string, field: string, value: string) returns (r: Option<Record>)
      ensures IndexedHash(table, field, value).None? ==> r == None
      ensures IndexedHash(table, field, value).Some? ==> r == RecordAt(table, IndexedHash(table, field, value).value)
    {
      if table !in schemas {
        return None;
      }
      var schema := schemas[table];
      if schema.indexFields.None? || field !in schema.indexFields.value {
        return None;
      }
      var path := IndexPath(table, field);
      if path !in indexes {
        return None;
      }
      var index := indexes[path];
      if value !in index || !Truthy(Str(index[value])) {
        return None;
      }
      r := GetRecordByHash(table, index[value]);
    }

    /**
     * `updateRecordByHash(table, hash, updates)`: merges `updates` over the
     * stored record and writes the merge at the same path when it passes
     * validation. The hash is not recomputed and no index is touched; a
     * missing record or a failed validation writes nothing.
     */
    method UpdateRecordByHash(table: string, hash: string, updates: Record)
      modifies this
      ensures schemas == old(schemas) && indexes == old(indexes)
      ensures old(RecordAt(table, hash)).None? ==> files == old(files)
      ensures old(RecordAt(table, hash)).Some? ==>
        var merged := old(RecordAt(table, hash)).value + updates;
        files == if Conforms(schemas[table].fields, merged)
                 then old(files)[RecordPath(table, hash) := Encode(schemas[table].fields, merged)]
                 else old(files)
    {
      var existing := GetRecordByHash(table, hash);
      if existing.None? {
        return;
      }
      var merged := existing.value + updates;
      var valid := ValidateRecord(table, merged);
      if valid.Fail? {
        return;
      }
      files := files[RecordPath(table, hash) := Encode(schemas[table].fields, merged)];
    }

    /** `deleteRecordByHash(table, hash)`: removes `<table>/<hash>` and nothing else. */
    method DeleteRecordByHash(table: string, hash: string)
      modifies this
      ensures files == old(files) - {RecordPath(table, hash)}
      ensures schemas == old(schemas) && indexes == old(indexes)
      ensures RecordAt(table, hash) == None
      ensures forall h :: h != hash ==> RecordAt(table, h) == old(RecordAt(table, h))
    {
      files := files - {RecordPath(table, hash)};
      forall h | h != hash
        ensures RecordPath(table, h) != RecordPath(table, hash)
      {
        if RecordPath(table, h) == RecordPath(table, hash) {
          RecordPathInjective(table, h, hash);
        }
      }
    }
  }

  /**
   * Inserting a conforming record and then looking it up by one of its
   * indexed fields, with the string form of its value, finds it again:
   * every field comes back as the string form of its value. MD5 answers are
   * never empty, so the stored hash is truthy.
   */
  method InsertThenFind(o: Orm, table: string, r: Record, field: string) returns (found: Option<Record>)
    requires forall s :: o.digest(s) != ""
    requires table in o.schemas && field in IndexedFields(o.schemas[table])
    requires DistinctNames(o.schemas[table].fields)
    requires Conforms(o.schemas[table].fields, r)
    requires forall i :: 0 <= i < |o.schemas[table].fields| && o.schemas[table].fields[i].kind == StringType ==>
      '|' !in Get(r, o.schemas[table].fields[i].name).s
    modifies o
    ensures o.schemas == old(o.schemas)
    ensures found.Some?
    ensures forall i :: 0 <= i < |o.schemas[table].fields| ==>
      Get(found.value, o.schemas[table].fields[i].name) == Str(ToJsString(Get(r, o.schemas[table].fields[i].name)))
  {
    o.InsertRecord(table, r);
    found := o.GetRecordByField(table, field, ToJsString(Get(r, field)));
    DecodeEncodeConforming(o.schemas[table].fields, r);
  }

  /**
   * Because a stored record reads back with strings only, an update that
   * leaves out a number or boolean field of the schema writes nothing.
   */
  method UpdateWithoutTypedField(o: Orm, table: string, hash: string, updates: Record, k: int)
    requires table in o.schemas
    requires 0 <= k < |o.schemas[table].fields|
    requires o.schemas[table].fields[k].kind != StringType
    requires o.schemas[table].fields[k].name !in updates
    modifies o
    ensures o.files == old(o.files) && o.indexes == old(o.indexes)
  {
    var existing := o.RecordAt(table, hash);
    if existing.Some? {
      DecodedNeedsTypedUpdates(o.schemas[table].fields, Split(o.files[RecordPath(table, hash)], '|'), updates, k);
    }
    o.UpdateRecordByHash(table, hash, updates);
  }

  /**
   * Registering a schema again empties the indexes of its indexed fields, so
   * records inserted before can no longer be found through them.
   */
  method ReRegisterForgetsIndex(o: Orm, table: string, schema: TableSchema, field: string, value: string)
    returns (found: Option<Record>)
    requires field in IndexedFields(schema)
    modifies o
    ensures found == None
  {
    o.RegisterTableSchema(table, schema);
    found := o.GetRecordByField(table, field, value);
  }
}
