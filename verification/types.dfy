/** The fixed-width field types of a schema and the values that fill tuple
    slots. `simpledb.common.Type` and the `Field` classes are not part of this
    model: a type is known only by an identity and a positive byte length, and
    a field value only by the bytes that encode it. Parsing reads exactly the
    type's length and serializing writes it back, so the two are inverse. */
module Types {
  import opened Util

  datatype TypeInfo = TypeInfo(code: nat, len: nat)

  /** A field type: every type has a fixed, positive on-disk length. */
  type Type = t: TypeInfo | t.len > 0 witness TypeInfo(0, 4)

  /** A field value of type `ftype`, held as its encoded bytes. */
  datatype Field = Field(ftype: Type, bytes: seq<int8>)

  /** A field whose encoding has exactly its type's length. */
  predicate WellFormedField(f: Field) {
    |f.bytes| == f.ftype.len
  }

  /** `Type.parse` from the stream positioned at `off` in `data`: fails with
      a ParseException when the stream ends before `t.len` bytes are read. */
  function Parse(t: Type, data: seq<int8>, off: nat): (r: Result<Field>)
    ensures r.Ok? <==> off + t.len <= |data|
    ensures r.Err? ==> r.error == ParseError
    ensures r.Ok? ==> r.value.ftype == t && WellFormedField(r.value)
    ensures r.Ok? ==> r.value.bytes == data[off..off + t.len]
  {
    if off + t.len <= |data| then Ok(Field(t, data[off..off + t.len])) else Err(ParseError)
  }

  /** `Field.serialize`: the bytes written for a field value. */
  function Serialize(f: Field): seq<int8> {
    f.bytes
  }

  /** Parsing what was serialized gives the field back, whatever follows it. */
  lemma ParseSerialize(f: Field, prefix: seq<int8>, suffix: seq<int8>)
    requires WellFormedField(f)
    ensures Parse(f.ftype, prefix + Serialize(f) + suffix, |prefix|) == Ok(f)
  {
    var data := prefix + Serialize(f) + suffix;
    assert data[|prefix|..|prefix| + f.ftype.len] == f.bytes;
  }
}
