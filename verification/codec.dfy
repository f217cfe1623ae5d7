/**
 * The pure parts of the record engine: type validation against a schema,
 * the hash input built from the hash fields, and the `|`-delimited text form
 * a record is stored in.
 */
module RecordCodec {
  import opened Js
  import opened Schemas

  /** A record object: its own properties. */
  type Record = map<string, Value>

  /** `record[field]`: `undefined` when the record has no such property. */
  function Get(r: Record, field: string): Value {
    if field in r then r[field] else Undefined
  }

  // ---------------------------------------------------------------------------
  // Validation
  // ---------------------------------------------------------------------------

  /** `typeof record[field] === type` for one schema entry. */
  predicate FieldConforms(f: Field, r: Record) {
    TypeOf(Get(r, f.name)) == Tag(f.kind)
  }

  /**
   * Every declared field has the declared type; undeclared properties do not
   * matter. A conforming field holds a value of the matching kind, so it is
   * never missing.
   */
  predicate Conforms(fields: seq<Field>, r: Record)
    ensures Conforms(fields, r) ==> forall i :: 0 <= i < |fields| ==>
      && fields[i].name in r
      && (fields[i].kind == StringType ==> r[fields[i].name].Str?)
      && (fields[i].kind == NumberType ==> r[fields[i].name].Num?)
      && (fields[i].kind == BooleanType ==> r[fields[i].name].Bool?)
  {
    forall i :: 0 <= i < |fields| ==> FieldConforms(fields[i], r)
  }

  /** `fields[k]` is the first declared field whose value has the wrong type. */
  predicate FirstMismatchAt(fields: seq<Field>, r: Record, k: int) {
    && 0 <= k < |fields|
    && (forall j :: 0 <= j < k ==> FieldConforms(fields[j], r))
    && !FieldConforms(fields[k], r)
  }

  /** The errors the engine throws (and then catches and logs). */
  datatype OrmError =
    | SchemaNotFound(table: string)
    | IncorrectType(field: string, expected: string, actual: string)

  /** The error reported for a field whose value has the wrong type. */
  function Mismatch(f: Field, r: Record): OrmError {
    IncorrectType(f.name, Tag(f.kind), TypeOf(Get(r, f.name)))
  }

  /** A record that fails validation has a first failing field. */
  lemma {:induction false} FirstMismatchExists(fields: seq<Field>, r: Record)
    requires !Conforms(fields, r)
    ensures exists k :: FirstMismatchAt(fields, r, k)
    decreases |fields|
  {
    if FieldConforms(fields[0], r) {
      assert !Conforms(fields[1..], r) by {
        var i :| 0 <= i < |fields| && !FieldConforms(fields[i], r);
        assert fields[1..][i - 1] == fields[i];
      }
      FirstMismatchExists(fields[1..], r);
      var k :| FirstMismatchAt(fields[1..], r, k);
      assert forall j :: 1 <= j < k + 1 ==> fields[j] == fields[1..][j - 1];
      assert FirstMismatchAt(fields, r, k + 1);
    } else {
      assert FirstMismatchAt(fields, r, 0);
    }
  }

  /**
   * Validation looks only at the declared fields: two records that agree on
   * them are accepted or refused alike, whatever else they hold.
   */
  lemma ConformsIgnoresUndeclared(fields: seq<Field>, r1: Record, r2: Record)
    requires forall i :: 0 <= i < |fields| ==> Get(r1, fields[i].name) == Get(r2, fields[i].name)
    ensures Conforms(fields, r1) <==> Conforms(fields, r2)
  {
    assert forall i :: 0 <= i < |fields| ==> (FieldConforms(fields[i], r1) <==> FieldConforms(fields[i], r2));
  }

  // ---------------------------------------------------------------------------
  // Hash input
  // ---------------------------------------------------------------------------

  /** The hash fields with a truthy value, in order, each rendered by `toString()`; no piece is empty. */
  function HashPieces(hashFields: seq<string>, r: Record): (p: seq<string>)
    ensures |p| <= |hashFields|
    ensures forall i :: 0 <= i < |p| ==> p[i] != ""
    decreases |hashFields|
  {
    if |hashFields| == 0 then []
    else
      var rest := HashPieces(hashFields[1..], r);
      var v := Get(r, hashFields[0]);
      if Truthy(v) then [ToJsString(v)] + rest else rest
  }

  /** The string handed to MD5: the hash pieces joined with "-". It is empty exactly when no hash field is truthy. */
  function HashInput(hashFields: seq<string>, r: Record): (h: string)
    ensures h == "" <==> HashPieces(hashFields, r) == []
    ensures h == "" <==> forall i :: 0 <= i < |hashFields| ==> !Truthy(Get(r, hashFields[i]))
  {
    HashPiecesEmpty(hashFields, r);
    Join("-", HashPieces(hashFields, r))
  }

  /** A truthy hash field always contributes a piece, whatever the other fields hold. */
  lemma {:induction false} TruthyGivesPiece(hashFields: seq<string>, r: Record, i: int)
    requires 0 <= i < |hashFields| && Truthy(Get(r, hashFields[i]))
    ensures HashPieces(hashFields, r) != []
    decreases |hashFields|
  {
    if i > 0 && !Truthy(Get(r, hashFields[0])) {
      assert hashFields[1..][i - 1] == hashFields[i];
      TruthyGivesPiece(hashFields[1..], r, i - 1);
    }
  }

  /** There are no hash pieces exactly when every hash field is falsy. */
  lemma HashPiecesEmpty(hashFields: seq<string>, r: Record)
    ensures HashPieces(hashFields, r) == [] <==> forall i :: 0 <= i < |hashFields| ==> !Truthy(Get(r, hashFields[i]))
  {
    if forall i :: 0 <= i < |hashFields| ==> !Truthy(Get(r, hashFields[i])) {
      HashPiecesAllFalsy(hashFields, r);
    } else {
      var i :| 0 <= i < |hashFields| && Truthy(Get(r, hashFields[i]));
      TruthyGivesPiece(hashFields, r, i);
    }
  }

  /** When every hash field is truthy, each contributes exactly one piece, in order. */
  lemma {:induction false} HashPiecesAllTruthy(hashFields: seq<string>, r: Record)
    requires forall i :: 0 <= i < |hashFields| ==> Truthy(Get(r, hashFields[i]))
    ensures |HashPieces(hashFields, r)| == |hashFields|
    ensures forall i :: 0 <= i < |hashFields| ==>
      HashPieces(hashFields, r)[i] == ToJsString(Get(r, hashFields[i]))
    decreases |hashFields|
  {
    if |hashFields| > 0 {
      assert forall i :: 0 <= i < |hashFields[1..]| ==> hashFields[1..][i] == hashFields[i + 1];
      HashPiecesAllTruthy(hashFields[1..], r);
    }
  }

  /** When every hash field is falsy there are no pieces. */
  lemma {:induction false} HashPiecesAllFalsy(hashFields: seq<string>, r: Record)
    requires forall i :: 0 <= i < |hashFields| ==> !Truthy(Get(r, hashFields[i]))
    ensures HashPieces(hashFields, r) == []
    decreases |hashFields|
  {
    if |hashFields| > 0 {
      assert forall i :: 0 <= i < |hashFields[1..]| ==> hashFields[1..][i] == hashFields[i + 1];
      HashPiecesAllFalsy(hashFields[1..], r);
    }
  }

  /** The pieces of two records agree when, field by field, they are equally truthy and render alike. */
  lemma {:induction false} HashPiecesAgree(hashFields: seq<string>, r1: Record, r2: Record)
    requires forall i :: 0 <= i < |hashFields| ==>
      Truthy(Get(r1, hashFields[i])) == Truthy(Get(r2, hashFields[i]))
    requires forall i :: 0 <= i < |hashFields| && Truthy(Get(r1, hashFields[i])) ==>
      ToJsString(Get(r1, hashFields[i])) == ToJsString(Get(r2, hashFields[i]))
    ensures HashPieces(hashFields, r1) == HashPieces(hashFields, r2)
    decreases |hashFields|
  {
    if |hashFields| > 0 {
      assert forall i :: 0 <= i < |hashFields[1..]| ==> hashFields[1..][i] == hashFields[i + 1];
      HashPiecesAgree(hashFields[1..], r1, r2);
    }
  }

  /** A falsy hash field contributes nothing, whatever the other fields hold: it may as well be absent. */
  lemma HashPiecesSkipFalsy(hashFields: seq<string>, r: Record, field: string)
    requires !Truthy(Get(r, field))
    ensures HashPieces(hashFields, r) == HashPieces(hashFields, r - {field})
  {
    HashPiecesAgree(hashFields, r, r - {field});
  }

  /** Fields outside `hashFields` never influence the hash input. */
  lemma HashIgnoresOtherFields(hashFields: seq<string>, r1: Record, r2: Record)
    requires forall i :: 0 <= i < |hashFields| ==> Get(r1, hashFields[i]) == Get(r2, hashFields[i])
    ensures HashInput(hashFields, r1) == HashInput(hashFields, r2)
  {
    HashPiecesAgree(hashFields, r1, r2);
  }

  /** `0`, `false`, `""`, `null` and a missing value are interchangeable in a hash field. */
  lemma FalsyValuesHashAlike(hashFields: seq<string>, r: Record, field: string, v: Value)
    requires !Truthy(Get(r, field)) && !Truthy(v)
    ensures HashInput(hashFields, r[field := v]) == HashInput(hashFields, r)
  {
    var r2 := r[field := v];
    assert forall i :: 0 <= i < |hashFields| && hashFields[i] != field ==>
      Get(r2, hashFields[i]) == Get(r, hashFields[i]);
    HashPiecesAgree(hashFields, r2, r);
  }

  // ---------------------------------------------------------------------------
  // Delimited text form
  // ---------------------------------------------------------------------------

  /** One piece per schema field, as `join` renders the field's value. */
  function EncodePieces(names: seq<string>, r: Record): (p: seq<string>)
    ensures |p| == |names|
  {
    seq(|names|, i requires 0 <= i < |names| => JoinElement(Get(r, names[i])))
  }

  /**
   * `Object.keys(schema.fields).map(field => record[field]).join("|")`. When
   * no value's rendering contains `|`, splitting gives back one piece per
   * field, in order.
   */
  function Encode(fields: seq<Field>, r: Record): (e: string)
    ensures |fields| >= 1 && (forall i :: 0 <= i < |fields| ==> '|' !in JoinElement(Get(r, fields[i].name))) ==>
      Split(e, '|') == EncodePieces(Names(fields), r)
  {
    var pieces := EncodePieces(Names(fields), r);
    assert "|" == ['|'];
    if |fields| >= 1 && forall i :: 0 <= i < |fields| ==> '|' !in JoinElement(Get(r, fields[i].name)) then
      SplitJoin(pieces, '|');
      Join("|", pieces)
    else
      Join("|", pieces)
  }

  /** The i-th piece of a split string, or `undefined` past the last piece. */
  function PieceAt(values: seq<string>, i: nat): Value {
    if i < |values| then Str(values[i]) else Undefined
  }

  /**
   * The record the decoder builds: each schema field in turn is assigned the
   * piece at its position. Every field is present and every value is a string
   * or `undefined`.
   */
  function Decoded(names: seq<string>, values: seq<string>): (r: Record)
    ensures forall n :: n in names ==> n in r
    ensures forall n :: n in r ==> n in names && (r[n].Str? || r[n].Undefined?)
    decreases |names|
  {
    if |names| == 0 then map[]
    else
      var k := |names| - 1;
      Decoded(names[..k], values)[names[k] := PieceAt(values, k)]
  }

  /** With distinct field names, the i-th field holds the i-th piece. */
  lemma {:induction false} DecodedAt(names: seq<string>, values: seq<string>)
    requires forall i, j :: 0 <= i < j < |names| ==> names[i] != names[j]
    ensures forall i :: 0 <= i < |names| ==> Decoded(names, values)[names[i]] == PieceAt(values, i)
    decreases |names|
  {
    if |names| > 0 {
      var k := |names| - 1;
      var init := names[..k];
      assert forall i :: 0 <= i < k ==> init[i] == names[i];
      DecodedAt(init, values);
      var d := Decoded(init, values);
      assert Decoded(names, values) == d[names[k] := PieceAt(values, k)];
      forall i | 0 <= i < |names|
        ensures Decoded(names, values)[names[i]] == PieceAt(values, i)
      {
        if i < k {
          assert names[i] != names[k];
          assert d[init[i]] == PieceAt(values, i);
        }
      }
    }
  }

  /** The encoded form holds at least one `|` between consecutive fields, and exactly that many when no value contains one. */
  lemma EncodeSeparators(fields: seq<Field>, r: Record)
    requires |fields| >= 1
    ensures Count('|', Encode(fields, r)) >= |fields| - 1
    ensures (forall i :: 0 <= i < |fields| ==> '|' !in JoinElement(Get(r, fields[i].name))) ==>
      Count('|', Encode(fields, r)) == |fields| - 1
  {
    var pieces := EncodePieces(Names(fields), r);
    assert "|" == ['|'];
    JoinCount('|', pieces);
  }

  /**
   * Decoding the encoded form gives every schema field the string form of
   * its value (`undefined` and `null` becoming ""), provided no value
   * contains the delimiter.
   */
  lemma DecodeEncode(fields: seq<Field>, r: Record)
    requires DistinctNames(fields)
    requires forall i :: 0 <= i < |fields| ==> '|' !in JoinElement(Get(r, fields[i].name))
    ensures forall i :: 0 <= i < |fields| ==>
      Decoded(Names(fields), Split(Encode(fields, r), '|'))[fields[i].name] == Str(JoinElement(Get(r, fields[i].name)))
  {
    var names := Names(fields);
    var pieces := EncodePieces(names, r);
    if |fields| > 0 {
      assert "|" == ['|'];
      assert forall i :: 0 <= i < |pieces| ==> '|' !in pieces[i];
      SplitJoin(pieces, '|');
    }
    DecodedAt(names, Split(Encode(fields, r), '|'));
  }

  /**
   * For a record that passes validation the round trip is exact on string
   * fields and gives `String(v)` on number and boolean fields, provided no
   * string value contains the delimiter.
   */
  lemma DecodeEncodeConforming(fields: seq<Field>, r: Record)
    requires DistinctNames(fields)
    requires Conforms(fields, r)
    requires forall i :: 0 <= i < |fields| && fields[i].kind == StringType ==>
      '|' !in Get(r, fields[i].name).s
    ensures var d := Decoded(Names(fields), Split(Encode(fields, r), '|'));
      forall i :: 0 <= i < |fields| ==>
        && d[fields[i].name] == Str(ToJsString(Get(r, fields[i].name)))
        && (fields[i].kind == StringType ==> d[fields[i].name] == Get(r, fields[i].name))
  {
    forall i | 0 <= i < |fields|
      ensures ConformingPiece(fields[i], r)
    {
      assert FieldConforms(fields[i], r);
      ConformingPieceHasNoBar(fields[i], r);
    }
    DecodeEncode(fields, r);
  }

  /** The piece of one field: free of `|`, rendered as `String(v)`, and the value itself for a string field. */
  predicate ConformingPiece(f: Field, r: Record) {
    var v := Get(r, f.name);
    && '|' !in JoinElement(v)
    && JoinElement(v) == ToJsString(v)
    && (f.kind == StringType ==> Str(ToJsString(v)) == v)
  }

  lemma ConformingPieceHasNoBar(f: Field, r: Record)
    requires FieldConforms(f, r)
    requires f.kind == StringType ==> '|' !in Get(r, f.name).s
    ensures ConformingPiece(f, r)
  {
    var v := Get(r, f.name);
    if v.Num? {
      NumToStringHasNoBar(v.n);
    }
  }

  /**
   * A decoded record holds only strings and `undefined`, so merging updates
   * into it fails validation as soon as a number or boolean field is left
   * out of the updates.
   */
  lemma DecodedNeedsTypedUpdates(fields: seq<Field>, values: seq<string>, updates: Record, k: int)
    requires 0 <= k < |fields| && fields[k].kind != StringType && fields[k].name !in updates
    ensures !Conforms(fields, Decoded(Names(fields), values) + updates)
  {
    var d := Decoded(Names(fields), values);
    var name := fields[k].name;
    assert Get(d + updates, name) == Get(d, name);
    assert !FieldConforms(fields[k], d + updates);
  }
}
