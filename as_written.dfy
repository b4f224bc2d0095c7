/** `decodeType` as the decoder's source has it. Its NOTHING case label names an identifier the
    decoder never binds, so a schema node that gets past the six bound case labels (NOTHING, FLOAT
    or an unknown kind) makes `decodeType` fail with a ReferenceError for `NOTHING` before any
    branch runs. The rest of the model uses the corrected decoder `Wire.DecodeValue`, where NOTHING
    reads no bits and yields no value, and FLOAT reaches the `Unknown type` default. */
module AsWritten {
  import opened Bits
  import opened Schemas
  import opened Wire
  import Envelope

  /** The error evaluating the unbound case label raises. */
  const Unbound: Error := ReferenceError("NOTHING")

  /** The decoder as written: the bound kinds decode as in `Wire`, and arrays and objects recurse
      into this decoder; NOTHING and FLOAT fail on the unbound label. */
  function DecodeAsWritten(s: Schema, st: State): (r: Result<Decoded>)
    ensures r.Err? ==> r.error == Unbound
    decreases s, 1, 0
  {
    match s
    case Array(lengthSize, content) =>
      ElemsAsWritten(content, st.Skip(lengthSize), FromBits(st.Read(lengthSize)))
    case Object(fields) => FieldsAsWritten(fields, st, |fields|)
    case Nothing => Err(Unbound)
    case Float => Err(Unbound)
    case _ => DecodeValue(s, st)
  }

  function ElemsAsWritten(c: Schema, st: State, k: nat): (r: Result<Decoded>)
    ensures r.Err? ==> r.error == Unbound
    decreases c, 2, k
  {
    if k == 0 then Ok(Decoded(ArrVal([]), st))
    else
      match ElemsAsWritten(c, st, k - 1)
      case Err(e) => Err(e)
      case Ok(front) =>
        match DecodeAsWritten(c, front.state)
        case Err(e) => Err(e)
        case Ok(last) => Ok(Decoded(ArrVal(front.value.elems + [last.value]), last.state))
  }

  function FieldsAsWritten(fields: seq<Field>, st: State, k: nat): (r: Result<Decoded>)
    requires k <= |fields|
    ensures r.Err? ==> r.error == Unbound
    decreases Object(fields), 0, k
  {
    if k == 0 then Ok(Decoded(ObjVal([]), st))
    else
      match FieldsAsWritten(fields, st, k - 1)
      case Err(e) => Err(e)
      case Ok(front) =>
        match DecodeAsWritten(fields[k - 1].schema, front.state)
        case Err(e) => Err(e)
        case Ok(last) =>
          Ok(Decoded(ObjVal(front.value.entries + [Entry(fields[k - 1].name, last.value)]), last.state))
  }

  /** The schema never mentions NOTHING or FLOAT. */
  predicate BoundKindsOnly(s: Schema)
  {
    match s
    case Array(_, content) => BoundKindsOnly(content)
    case Object(fields) => forall i :: 0 <= i < |fields| ==> BoundKindsOnly(fields[i].schema)
    case Nothing => false
    case Float => false
    case _ => true
  }

  /** Away from NOTHING and FLOAT the decoder as written and the corrected one agree on every
      input. */
  lemma {:induction false} AsWrittenAgrees(s: Schema, st: State)
    requires BoundKindsOnly(s)
    ensures DecodeAsWritten(s, st) == DecodeValue(s, st)
    decreases s, 1, 0
  {
    match s
    case Array(lengthSize, content) =>
      ElemsAgree(content, st.Skip(lengthSize), FromBits(st.Read(lengthSize)));
    case Object(fields) =>
      FieldsAgree(fields, st, |fields|);
    case _ =>
  }

  lemma {:induction false} ElemsAgree(c: Schema, st: State, k: nat)
    requires BoundKindsOnly(c)
    ensures ElemsAsWritten(c, st, k) == DecodeElems(c, st, k)
    decreases c, 2, k
  {
    if k > 0 {
      ElemsAgree(c, st, k - 1);
      var front := DecodeElems(c, st, k - 1);
      if front.Ok? {
        AsWrittenAgrees(c, front.value.state);
      }
    }
  }

  lemma {:induction false} FieldsAgree(fields: seq<Field>, st: State, k: nat)
    requires k <= |fields|
    requires forall i :: 0 <= i < |fields| ==> BoundKindsOnly(fields[i].schema)
    ensures FieldsAsWritten(fields, st, k) == DecodeFields(fields, st, k)
    decreases Object(fields), 0, k
  {
    if k > 0 {
      FieldsAgree(fields, st, k - 1);
      var front := DecodeFields(fields, st, k - 1);
      if front.Ok? {
        AsWrittenAgrees(fields[k - 1].schema, front.value.state);
      }
    }
  }

  /** An object with a boolean field and a NOTHING field, and a value of it. */
  const FlagAndNothing: Schema := Object([Field("flag", Bool), Field("rest", Nothing)])
  const FlagSet: Value := ObjVal([Entry("flag", BoolVal(true)), Entry("rest", Null)])

  /** The value conforms to the schema. */
  lemma FlagSetConforms()
    ensures WellFormed(FlagAndNothing) && Conforms(FlagSet, FlagAndNothing)
  {
    var s, v := FlagAndNothing, FlagSet;
    assert s.fields[0].name == "flag" && s.fields[1].name == "rest";
    assert v.entries[0].key == "flag" && v.entries[1].key == "rest";
  }

  /** The encoder writes that value as the single bit of its boolean. */
  lemma FlagSetEncodes()
    ensures Encodable(FlagSet, FlagAndNothing) && EncodeValue(FlagSet, FlagAndNothing) == Ok([true])
  {
    FlagSetConforms();
    ConformsEncodable(FlagSet, FlagAndNothing);
    FlagSetBits();
  }

  lemma FlagSetBits()
    requires Encodable(FlagSet, FlagAndNothing)
    ensures EncodeValue(FlagSet, FlagAndNothing) == Ok([true])
  {
    var s, v := FlagAndNothing, FlagSet;
    assert Lookup(v.entries, "flag") == Some(BoolVal(true));
    assert Lookup(v.entries, "rest") == Some(Null);
    assert s.fields[0].name == "flag" && s.fields[1].name == "rest";
    assert EncodeFields(v.entries, s.fields, 0) == Ok([]);
    assert EncodeValue(BoolVal(true), Bool) == Ok([true]);
    assert [] + [true] == [true];
    assert EncodeFields(v.entries, s.fields, 1) == Ok([true]);
    assert EncodeValue(Null, Nothing) == Ok([]);
    assert [true] + [] == [true];
  }

  /** The decoder as written rejects that schema at every cursor: the boolean decodes, and the
      NOTHING field then fails on the unbound label. */
  lemma AsWrittenRejects(st: State)
    ensures DecodeAsWritten(FlagAndNothing, st) == Err(Unbound)
  {
    var fields := FlagAndNothing.fields;
    assert FieldsAsWritten(fields, st, 0).Ok?;
    assert DecodeAsWritten(Bool, st) == DecodeValue(Bool, st);
    var front := FieldsAsWritten(fields, st, 1);
    assert front.Ok?;
    assert DecodeAsWritten(Nothing, front.value.state) == Err(Unbound);
  }

  /** The encoder writes the single bit of the boolean, the decoder as written rejects that body,
      and the corrected decoder reads the object back. */
  lemma NothingCounterexample()
    ensures var st := State(PackBits([true]), 0, 0);
      Encodable(FlagSet, FlagAndNothing) && EncodeValue(FlagSet, FlagAndNothing) == Ok([true]) &&
      DecodeAsWritten(FlagAndNothing, st) == Err(Unbound) &&
      DecodeValue(FlagAndNothing, st).Ok? && DecodeValue(FlagAndNothing, st).value.value == FlagSet
  {
    FlagSetConforms();
    FlagSetEncodes();
    AsWrittenRejects(State(PackBits([true]), 0, 0));
    CanonOfConforming(FlagSet, FlagAndNothing);
    Envelope.PackedRoundTrip(FlagSet, FlagAndNothing);
  }
}
