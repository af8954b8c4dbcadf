/** Whole `drec` records: parsing, encoding, and how the two undo each other. */
module DrecRecords {
  import opened Sequences
  import opened Outcomes
  import opened Bytes
  import opened SortedMaps
  import opened Drec

  type Fields = seq<Entry<Field>>

  ghost predicate KeysFit(fields: Fields) {
    forall i :: 0 <= i < |fields| ==> 0 <= fields[i].key < 0x1_0000
  }

  /** The bytes of a run of fields. */
  ghost function Emitted(fields: Fields, order: ByteOrder): (b: seq<byte>)
    requires KeysFit(fields)
    ensures |b| == EmittedLen(fields)
  {
    if fields == [] then []
    else WriteU16(order, fields[0].key) + EncodedValue(fields[0].value.value, order) + Emitted(fields[1..], order)
  }

  ghost function EmittedLen(fields: Fields): nat {
    if fields == [] then 0 else 2 + ValueEncodedLen(fields[0].value.value) + EmittedLen(fields[1..])
  }

  /** The wire form of a record. */
  ghost function Wire(record: Record, order: ByteOrder): (b: seq<byte>)
    requires KeysFit(record.fields)
    ensures |b| == 3 + EmittedLen(record.fields)
  {
    [record.flag] + Emitted(record.fields, order) + WriteU16(order, TERMINATOR)
  }

  /** The schema describes the field, and its value fits. */
  predicate InSchema(e: Entry<Field>, schema: Schema) {
    0 <= e.key < |schema.fields| && Matches(schema.fields[e.key], e.value.value)
  }

  /** One field agrees with the schema and with its own key. */
  predicate Agrees(e: Entry<Field>, schema: Schema) {
    InSchema(e, schema) && e.value.ordinal == e.key
  }

  /** What the encoder accepts. */
  ghost predicate Encodable(record: Record, schema: Schema) {
    && (forall i :: 0 <= i < |record.fields| ==> Agrees(record.fields[i], schema))
    && 3 + EmittedLen(record.fields) <= DREC_MAX_LEN
  }

  // ---------------------------------------------------------------------
  // Parsing

  function ParseFields(bytes: seq<byte>, cursor: nat, previous: int, schema: Schema,
      order: ByteOrder): (r: Result<Fields, DrecError>)
    requires cursor <= |bytes|
    decreases |bytes| - cursor
  {
    match TakeSlice(bytes, cursor, 2)
    case Err(e) => Err(e)
    case Ok(taken) =>
      var ordinal := ReadU16(order, taken.value);
      if ordinal == TERMINATOR then
        if taken.cursor != |bytes| then Err(TrailingBytes) else Ok([])
      else if ordinal <= previous then Err(NonIncreasingOrdinal)
      else if ordinal >= |schema.fields| then Err(OrdinalOutOfRange)
      else
        match ParseValue(bytes, taken.cursor, schema.fields[ordinal], order)
        case Err(e) => Err(e)
        case Ok(v) =>
          ParsedValueIsEncoded(bytes, taken.cursor, schema.fields[ordinal], order);
          var field := Field(ordinal, v.value, cursor, v.cursor, taken.cursor, v.cursor);
          Prepended([Entry(ordinal, field)], ParseFields(bytes, v.cursor, ordinal, schema, order))
  }

  function Prepended(fields: Fields, rest: Result<Fields, DrecError>): Result<Fields, DrecError> {
    match rest
    case Err(e) => Err(e)
    case Ok(more) => Ok(fields + more)
  }

  function ParseRecord(bytes: seq<byte>, schema: Schema, order: ByteOrder): Result<Record, DrecError> {
    if |bytes| > DREC_MAX_LEN then Err(RecordTooLarge)
    else if bytes == [] then Err(Truncated)
    else
      match ParseFields(bytes, 1, -1, schema, order)
      case Err(e) => Err(e)
      case Ok(fields) => Ok(Record(bytes[0], fields))
  }

  lemma PrependedNothing(r: Result<Fields, DrecError>)
    ensures Prepended([], r) == r
  {
    if r.Ok? {
      assert [] + r.value == r.value;
    }
  }

  lemma PrependedTwice(a: Fields, b: Fields, r: Result<Fields, DrecError>)
    ensures Prepended(a, Prepended(b, r)) == Prepended(a + b, r)
  {
    if r.Ok? {
      assert a + (b + r.value) == a + b + r.value;
    }
  }

  method ParseDrec(bytes: seq<byte>, schema: Schema, order: ByteOrder) returns (r: Result<Record, DrecError>)
    ensures r == ParseRecord(bytes, schema, order)
  {
    if |bytes| > DREC_MAX_LEN {
      return Err(RecordTooLarge);
    }
    if bytes == [] {
      return Err(Truncated);
    }
    var flag := bytes[0];
    var cursor := 1;
    var fields: Fields := [];
    var previous := -1;
    PrependedNothing(ParseFields(bytes, 1, -1, schema, order));
    while true
      invariant cursor <= |bytes|
      invariant forall i :: 0 <= i < |fields| ==> fields[i].key <= previous
      invariant ParseFields(bytes, 1, -1, schema, order)
        == Prepended(fields, ParseFields(bytes, cursor, previous, schema, order))
      decreases |bytes| - cursor
    {
      var taken := TakeSlice(bytes, cursor, 2);
      if taken.Err? {
        return Err(taken.error);
      }
      var ordinal := ReadU16(order, taken.value.value);
      if ordinal == TERMINATOR {
        if taken.value.cursor != |bytes| {
          return Err(TrailingBytes);
        }
        assert fields + [] == fields;
        return Ok(Record(flag, fields));
      }
      if ordinal <= previous {
        return Err(NonIncreasingOrdinal);
      }
      if ordinal >= |schema.fields| {
        return Err(OrdinalOutOfRange);
      }
      if HasKey(fields, ordinal) {
        // The source reports a duplicate ordinal here; the order check leaves it nothing to report.
        assert false;
      }
      var parsed := ParseValue(bytes, taken.value.cursor, schema.fields[ordinal], order);
      if parsed.Err? {
        return Err(parsed.error);
      }
      ParsedValueIsEncoded(bytes, taken.value.cursor, schema.fields[ordinal], order);
      var field := Field(ordinal, parsed.value.value, cursor, parsed.value.cursor, taken.value.cursor,
        parsed.value.cursor);
      InsertLast(fields, ordinal, field);
      PrependedTwice(fields, [Entry(ordinal, field)], ParseFields(bytes, parsed.value.cursor, ordinal, schema, order));
      fields := Insert(fields, ordinal, field);
      cursor := parsed.value.cursor;
      previous := ordinal;
    }
  }

  // ---------------------------------------------------------------------
  // Encoding

  lemma {:induction false} EmittedPush(fields: Fields, e: Entry<Field>, order: ByteOrder)
    requires KeysFit(fields) && 0 <= e.key < 0x1_0000
    ensures KeysFit(fields + [e])
    ensures Emitted(fields + [e], order)
      == Emitted(fields, order) + (WriteU16(order, e.key) + EncodedValue(e.value.value, order))
  {
    var one := WriteU16(order, e.key) + EncodedValue(e.value.value, order);
    if fields == [] {
      assert fields + [e] == [e];
      assert Emitted([e], order) == one + [];
    } else {
      var head := WriteU16(order, fields[0].key) + EncodedValue(fields[0].value.value, order);
      assert (fields + [e])[1..] == fields[1..] + [e];
      EmittedPush(fields[1..], e, order);
      RegroupMiddle(head, Emitted(fields[1..], order), one, []);
    }
  }

  lemma EmittedStep(fields: Fields, i: nat, order: ByteOrder)
    requires KeysFit(fields) && i < |fields|
    ensures Emitted(fields[..i + 1], order)
      == Emitted(fields[..i], order) + (WriteU16(order, fields[i].key) + EncodedValue(fields[i].value.value, order))
  {
    assert fields[..i + 1] == fields[..i] + [fields[i]];
    EmittedPush(fields[..i], fields[i], order);
  }

  lemma {:induction false} EmittedLenPush(fields: Fields, e: Entry<Field>)
    ensures EmittedLen(fields + [e]) == EmittedLen(fields) + 2 + ValueEncodedLen(e.value.value)
  {
    if fields == [] {
      assert fields + [e] == [e];
    } else {
      assert (fields + [e])[1..] == fields[1..] + [e];
      EmittedLenPush(fields[1..], e);
    }
  }

  lemma {:induction false} EmittedLenMonotone(fields: Fields, n: nat)
    requires n <= |fields|
    ensures EmittedLen(fields[..n]) <= EmittedLen(fields)
  {
    if n > 0 {
      assert fields[..n][1..] == fields[1..][..n - 1];
      EmittedLenMonotone(fields[1..], n - 1);
    }
  }

  method EncodeDrec(record: Record, schema: Schema, order: ByteOrder) returns (r: Result<seq<byte>, DrecError>)
    requires record.Valid()
    ensures r.Ok? <==> Encodable(record, schema)
    ensures r.Ok? ==> r.value == Wire(record, order)
    ensures r.Err? ==> r.error == FieldOrdinalMismatch || exists i :: FieldRefused(record.fields, schema, i, r.error)
    ensures r == Err(FieldOrdinalMismatch) ==>
      exists i :: 0 <= i < |record.fields| && record.fields[i].value.ordinal != record.fields[i].key
  {
    var fields := record.fields;
    var measured := MeasureDrec(record, schema);
    if measured.Err? {
      return Err(measured.error);
    }
    var written := EmitFields(fields, order);
    if written.Err? {
      return Err(written.error);
    }
    var output := [record.flag] + written.value + WriteU16(order, TERMINATOR);
    // The length computed beforehand is the length written.
    assert |output| == measured.value;
    return Ok(output);
  }

  /** The second pass; the schema errors it could report were all caught by the first. */
  method EmitFields(fields: Fields, order: ByteOrder) returns (r: Result<seq<byte>, DrecError>)
    requires KeysFit(fields)
    ensures r.Ok? <==> forall k :: 0 <= k < |fields| ==> fields[k].value.ordinal == fields[k].key
    ensures r.Ok? ==> r.value == Emitted(fields, order)
    ensures r.Err? ==> r.error == FieldOrdinalMismatch
  {
    var output := [];
    for i := 0 to |fields|
      invariant forall k :: 0 <= k < i ==> fields[k].value.ordinal == fields[k].key
      invariant output == Emitted(fields[..i], order)
    {
      if fields[i].value.ordinal != fields[i].key {
        return Err(FieldOrdinalMismatch);
      }
      EmittedStep(fields, i, order);
      output := output + (WriteU16(order, fields[i].key) + EncodedValue(fields[i].value.value, order));
    }
    assert fields[..|fields|] == fields;
    return Ok(output);
  }

  lemma LengthsSoFar(fields: Fields, i: nat)
    requires i < |fields|
    ensures EmittedLen(fields[..i + 1]) == EmittedLen(fields[..i]) + 2 + ValueEncodedLen(fields[i].value.value)
    ensures EmittedLen(fields[..i + 1]) <= EmittedLen(fields)
  {
    EmittedLenPush(fields[..i], fields[i]);
    assert fields[..i + 1] == fields[..i] + [fields[i]];
    EmittedLenMonotone(fields, i + 1);
  }

  /** The first field that is not accepted, and the first reason there is. */
  ghost predicate FieldRefused(fields: Fields, schema: Schema, i: nat, error: DrecError) {
    && i < |fields| && (forall k :: 0 <= k < i ==> InSchema(fields[k], schema))
    && if fields[i].key >= |schema.fields| then error == OrdinalOutOfRange
       else if fields[i].key >= 0 && !Matches(schema.fields[fields[i].key], fields[i].value.value)
       then error == ValueDoesNotMatchDescriptor
       else 3 + EmittedLen(fields[..i + 1]) > DREC_MAX_LEN && error == RecordTooLarge
  }

  /** The first pass of the encoder: schema check and precomputed length. */
  method MeasureDrec(record: Record, schema: Schema) returns (r: Result<nat, DrecError>)
    requires record.Valid()
    ensures r.Ok? <==>
      && (forall k :: 0 <= k < |record.fields| ==> InSchema(record.fields[k], schema))
      && 3 + EmittedLen(record.fields) <= DREC_MAX_LEN
    ensures r.Ok? ==> r.value == 3 + EmittedLen(record.fields)
    ensures r.Err? ==> exists i :: FieldRefused(record.fields, schema, i, r.error)
  {
    var fields := record.fields;
    var encodedLen := 3;
    for i := 0 to |fields|
      invariant forall k :: 0 <= k < i ==> InSchema(fields[k], schema)
      invariant encodedLen == 3 + EmittedLen(fields[..i]) <= DREC_MAX_LEN
    {
      if fields[i].key >= |schema.fields| {
        assert FieldRefused(fields, schema, i, OrdinalOutOfRange);
        return Err(OrdinalOutOfRange);
      }
      if !Matches(schema.fields[fields[i].key], fields[i].value.value) {
        assert FieldRefused(fields, schema, i, ValueDoesNotMatchDescriptor);
        return Err(ValueDoesNotMatchDescriptor);
      }
      LengthsSoFar(fields, i);
      encodedLen := encodedLen + 2 + ValueEncodedLen(fields[i].value.value);
      if encodedLen > DREC_MAX_LEN {
        assert FieldRefused(fields, schema, i, RecordTooLarge);
        return Err(RecordTooLarge);
      }
    }
    assert fields[..|fields|] == fields;
    return Ok(encodedLen);
  }
}
