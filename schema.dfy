/** Schemas: the kind tags of the registry, the schema nodes built from them, the values a schema
    describes, and the codec's error conditions. */
module Schemas {
  import opened Bits

  datatype Option<T> = None | Some(value: T)

  datatype Result<T> = Ok(value: T) | Err(error: Error)

  /** The `types` table: one tag per schema kind. */
  datatype Kind = BOOL | INT | UINT | FLOAT | STRING | ARRAY | OBJECT | NOTHING

  /** The string each tag stands for in a schema's `type` property. */
  function TagName(k: Kind): string
  {
    match k
    case BOOL => "BOOL"
    case INT => "INT"
    case UINT => "UINT"
    case FLOAT => "FLOAT"
    case STRING => "STRING"
    case ARRAY => "ARRAY"
    case OBJECT => "OBJECT"
    case NOTHING => "NOTHING"
  }

  /** Each width is a number of bits; an object's fields are listed in declaration order, which
      is the order both codecs visit them in. */
  datatype Schema =
    | Bool
    | Int(size: nat)
    | UInt(size: nat)
    | Float
    | String(lengthSize: nat)
    | Array(lengthSize: nat, content: Schema)
    | Object(fields: seq<Field>)
    | Nothing

  datatype Field = Field(name: string, schema: Schema)

  /** A JavaScript value as the codec sees it. A string is held as its UTF-8 bytes; an object as
      its properties in insertion order. */
  datatype Value =
    | Null
    | BoolVal(b: bool)
    | IntVal(i: int)
    | StrVal(bytes: seq<Byte>)
    | ArrVal(elems: seq<Value>)
    | ObjVal(entries: seq<Entry>)

  datatype Entry = Entry(key: string, value: Value)

  datatype Error =
    | UnregisteredEvent(event: int)
    | UnknownType(kind: Kind)
    | ReferenceError(identifier: string)
    | DecompressFailed
    | ParseFailed

  /** Success or the error that aborted an operation. */
  datatype Outcome = Pass | Fail(error: Error)

  /** `data[key]`: the first property named `key`. */
  function Lookup(entries: seq<Entry>, key: string): (r: Option<Value>)
    ensures r.Some? <==> exists i :: 0 <= i < |entries| && entries[i].key == key
  {
    if entries == [] then None
    else if entries[0].key == key then Some(entries[0].value)
    else Lookup(entries[1..], key)
  }

  predicate DistinctNames(fields: seq<Field>)
  {
    forall i, j :: 0 <= i < j < |fields| ==> fields[i].name != fields[j].name
  }

  /** A schema the model covers: every width at most MaxWidth, and an object's field names
      distinct (they are the keys of a JavaScript object). */
  predicate WellFormed(s: Schema)
  {
    match s
    case Int(size) => size <= MaxWidth
    case UInt(size) => size <= MaxWidth
    case String(lengthSize) => lengthSize <= MaxWidth
    case Array(lengthSize, content) => lengthSize <= MaxWidth && WellFormed(content)
    case Object(fields) =>
      DistinctNames(fields) && forall i :: 0 <= i < |fields| ==> WellFormed(fields[i].schema)
    case _ => true
  }

  /** Every schema of an event table is well formed. */
  predicate AllWellFormed(schemas: map<int, Schema>)
  {
    forall e :: e in schemas ==> WellFormed(schemas[e])
  }

  /** A value of the shape the encoder handles for `s`: a boolean for BOOL, a number for INT and
      UINT, a string for STRING, an array for ARRAY and an object holding every declared field for
      OBJECT. Out-of-range numbers and over-long strings and arrays are accepted (the encoder
      truncates them); NOTHING and FLOAT accept anything. */
  predicate Encodable(v: Value, s: Schema)
    decreases s
  {
    match s
    case Bool => v.BoolVal?
    case Int(_) => v.IntVal?
    case UInt(_) => v.IntVal?
    case String(_) => v.StrVal?
    case Array(_, content) =>
      v.ArrVal? && forall i :: 0 <= i < |v.elems| ==> Encodable(v.elems[i], content)
    case Object(fields) =>
      v.ObjVal? &&
      forall i :: 0 <= i < |fields| ==>
        var x := Lookup(v.entries, fields[i].name);
        x.Some? && Encodable(x.value, fields[i].schema)
    case Nothing => true
    case Float => true
  }

  /** A value that survives a round trip through `s`: what the decoder produces for `s`, with every
      number, string length and array length within its declared width. */
  predicate Conforms(v: Value, s: Schema)
  {
    match s
    case Bool => v.BoolVal?
    case Int(size) => v.IntVal? && -(Pow2(size) as int) < v.i < Pow2(size)
    case UInt(size) => v.IntVal? && 0 <= v.i < Pow2(size)
    case String(lengthSize) => v.StrVal? && |v.bytes| < Pow2(lengthSize)
    case Array(lengthSize, content) =>
      v.ArrVal? && |v.elems| < Pow2(lengthSize) &&
      forall i :: 0 <= i < |v.elems| ==> Conforms(v.elems[i], content)
    case Object(fields) =>
      v.ObjVal? && |v.entries| == |fields| &&
      forall i :: 0 <= i < |fields| ==>
        v.entries[i].key == fields[i].name && Conforms(v.entries[i].value, fields[i].schema)
    case Nothing => v == Null
    case Float => false
  }

  /** What the decoder gives back for an encodable `v`: an object becomes exactly the schema's
      fields, in schema order, each holding the value the encoder read under that key; a NOTHING
      field becomes null; everything else is kept. */
  function Canon(v: Value, s: Schema): (r: Value)
    requires Encodable(v, s)
    ensures s.Object? ==> r.ObjVal? && |r.entries| == |s.fields|
    ensures s.Array? ==> r.ArrVal? && |r.elems| == |v.elems|
    decreases s, 1
  {
    match s
    case Array(_, content) => ArrVal(CanonElems(v.elems, content))
    case Object(fields) => ObjVal(CanonFields(v.entries, fields))
    case Nothing => Null
    case _ => v
  }

  /** The elements of an array, each made canonical. */
  function CanonElems(vs: seq<Value>, c: Schema): (r: seq<Value>)
    requires forall i :: 0 <= i < |vs| ==> Encodable(vs[i], c)
    ensures |r| == |vs|
    decreases c, 2
  {
    seq(|vs|, i requires 0 <= i < |vs| => Canon(vs[i], c))
  }

  /** The schema's fields in schema order, each holding the canonical value found under its name. */
  function CanonFields(entries: seq<Entry>, fields: seq<Field>): (r: seq<Entry>)
    requires Encodable(ObjVal(entries), Object(fields))
    ensures |r| == |fields| && forall i :: 0 <= i < |fields| ==> r[i].key == fields[i].name
    decreases Object(fields), 0
  {
    seq(|fields|, i requires 0 <= i < |fields| =>
      Entry(fields[i].name, Canon(Lookup(entries, fields[i].name).value, fields[i].schema)))
  }

  /** With distinct keys, looking up the i-th key finds the i-th value. */
  lemma {:induction false} LookupAt(entries: seq<Entry>, fields: seq<Field>, i: nat)
    requires |entries| == |fields| && DistinctNames(fields) && i < |fields|
    requires forall j :: 0 <= j < |fields| ==> entries[j].key == fields[j].name
    ensures Lookup(entries, fields[i].name) == Some(entries[i].value)
  {
    if i > 0 {
      assert entries[0].key != fields[i].name;
      LookupAt(entries[1..], fields[1..], i - 1);
    }
  }

  /** Every value that survives a round trip is one the encoder accepts. */
  lemma {:induction false} ConformsEncodable(v: Value, s: Schema)
    requires WellFormed(s) && Conforms(v, s)
    ensures Encodable(v, s)
  {
    match s
    case Array(_, content) =>
      forall i | 0 <= i < |v.elems| ensures Encodable(v.elems[i], content) {
        ConformsEncodable(v.elems[i], content);
      }
    case Object(fields) =>
      forall i | 0 <= i < |fields|
        ensures Lookup(v.entries, fields[i].name) == Some(v.entries[i].value)
        ensures Encodable(v.entries[i].value, fields[i].schema)
      {
        LookupAt(v.entries, fields, i);
        ConformsEncodable(v.entries[i].value, fields[i].schema);
      }
    case _ =>
  }

  /** A value that already conforms is its own canonical form: only the order of an object's
      properties, and whatever a NOTHING field held, are ever changed. */
  lemma {:induction false} CanonOfConforming(v: Value, s: Schema)
    requires WellFormed(s) && Conforms(v, s)
    ensures Encodable(v, s) && Canon(v, s) == v
  {
    ConformsEncodable(v, s);
    match s
    case Array(_, content) =>
      forall i | 0 <= i < |v.elems| ensures Canon(v.elems[i], content) == v.elems[i] {
        CanonOfConforming(v.elems[i], content);
      }
      assert CanonElems(v.elems, content) == v.elems;
    case Object(fields) =>
      forall i | 0 <= i < |fields| ensures CanonFields(v.entries, fields)[i] == v.entries[i] {
        LookupAt(v.entries, fields, i);
        CanonOfConforming(v.entries[i].value, fields[i].schema);
      }
      assert CanonFields(v.entries, fields) == v.entries;
    case _ =>
  }

  /** The canonical object holds, under every field name of the schema, the canonical form of what
      the original object holds under that name, whatever order its properties were written in. */
  lemma CanonLookup(v: Value, fields: seq<Field>, i: nat)
    requires Encodable(v, Object(fields)) && DistinctNames(fields) && i < |fields|
    ensures Lookup(Canon(v, Object(fields)).entries, fields[i].name)
      == Some(Canon(Lookup(v.entries, fields[i].name).value, fields[i].schema))
  {
    LookupAt(CanonFields(v.entries, fields), fields, i);
  }

  /** The registry declares exactly eight kinds, under eight different tags. */
  lemma TagNamesDistinct(a: Kind, b: Kind)
    requires TagName(a) == TagName(b)
    ensures a == b
  {
  }
}
