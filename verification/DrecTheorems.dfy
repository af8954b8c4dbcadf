/** The `drec` parser and encoder undo each other, and the grammar is unambiguous. */
module DrecTheorems {
  import opened Integers
  import opened Sequences
  import opened Outcomes
  import opened Bytes
  import opened Words
  import opened SortedMaps
  import opened Drec
  import opened DrecRecords

  /** The fields with the ranges they occupy when written from `cursor` on, one after the other. */
  ghost function Located(fields: Fields, cursor: nat): Fields
    requires KeysFit(fields)
  {
    if fields == [] then []
    else [LocatedFirst(fields[0], cursor)] + Located(fields[1..], LocatedFirst(fields[0], cursor).value.byteEnd)
  }

  ghost function LocatedFirst(e: Entry<Field>, cursor: nat): Entry<Field>
    requires 0 <= e.key < 0x1_0000
  {
    var end := cursor + 2 + ValueEncodedLen(e.value.value);
    Entry(e.key, Field(e.key, e.value.value, cursor, end, cursor + 2, end))
  }

  lemma {:induction false} LocatedSameMap(fields: Fields, cursor: nat)
    requires KeysFit(fields)
    ensures |Located(fields, cursor)| == |fields|
    ensures forall i :: 0 <= i < |fields| ==>
      Located(fields, cursor)[i].key == fields[i].key && Located(fields, cursor)[i].value.value == fields[i].value.value
  {
    if fields != [] {
      LocatedSameMap(fields[1..], LocatedFirst(fields[0], cursor).value.byteEnd);
    }
  }

  /** What the encoder emits for these fields, and the terminator. */
  ghost function Closed(fields: Fields, order: ByteOrder): (b: seq<byte>)
    requires KeysFit(fields)
    ensures |b| == EmittedLen(fields) + 2
  {
    Emitted(fields, order) + WriteU16(order, TERMINATOR)
  }

  lemma ClosedFirst(fields: Fields, order: ByteOrder)
    requires KeysFit(fields) && fields != []
    ensures Closed(fields, order) == WriteU16(order, fields[0].key)
      + (EncodedValue(fields[0].value.value, order) + Closed(fields[1..], order))
  {
    Regroup(WriteU16(order, fields[0].key), EncodedValue(fields[0].value.value, order),
      Emitted(fields[1..], order), WriteU16(order, TERMINATOR));
  }

  lemma ClosedNothing(order: ByteOrder)
    ensures Closed([], order) == WriteU16(order, TERMINATOR)
  {
  }

  /** The fields and then the terminator stand at `cursor`, and nothing follows. */
  ghost predicate WrittenAt(fields: Fields, bytes: seq<byte>, cursor: nat, order: ByteOrder) {
    KeysFit(fields) && cursor <= |bytes| && bytes == bytes[..cursor] + Closed(fields, order)
  }

  /** The first field's bytes, and the rest written after it. */
  lemma WrittenStep(fields: Fields, bytes: seq<byte>, cursor: nat, order: ByteOrder)
    requires WrittenAt(fields, bytes, cursor, order) && fields != []
    ensures var end := cursor + 2 + ValueEncodedLen(fields[0].value.value);
      && end <= |bytes| - 2
      && bytes[cursor..cursor + 2] == WriteU16(order, fields[0].key)
      && bytes[cursor + 2..end] == EncodedValue(fields[0].value.value, order)
      && WrittenAt(fields[1..], bytes, end, order)
  {
    var next := FirstBehind(bytes[..cursor], fields, bytes, order);
    assert bytes[..|next|] == next;
  }

  /** The first field's bytes stand there, and the other fields behind them. */
  lemma FirstBehind(before: seq<byte>, fields: Fields, bytes: seq<byte>, order: ByteOrder) returns (next: seq<byte>)
    requires KeysFit(fields) && fields != [] && bytes == before + Closed(fields, order)
    ensures |next| == |before| + 2 + ValueEncodedLen(fields[0].value.value) <= |bytes| - 2
    ensures bytes[|before|..|before| + 2] == WriteU16(order, fields[0].key)
    ensures bytes[|before| + 2..|next|] == EncodedValue(fields[0].value.value, order)
    ensures KeysFit(fields[1..]) && bytes == next + Closed(fields[1..], order)
  {
    var n := ValueEncodedLen(fields[0].value.value);
    var head, payload := WriteU16(order, fields[0].key), EncodedValue(fields[0].value.value, order);
    assert |payload| == n;
    ClosedFirst(fields, order);
    next := before + head + payload;
    Slices(before, head, payload, Closed(fields[1..], order), n);
  }

  lemma Slices(before: seq<byte>, head: seq<byte>, payload: seq<byte>, rest: seq<byte>, n: nat)
    requires |head| == 2 && |payload| == n
    ensures var bytes := before + (head + (payload + rest));
      && bytes == before + head + payload + rest
      && bytes[|before|..|before| + 2] == head
      && bytes[|before| + 2..|before| + 2 + n] == payload
  {
    var bytes := before + (head + (payload + rest));
    assert bytes == before + head + payload + rest;
    assert bytes[|before|..|before| + 2] == head;
    assert bytes[|before| + 2..|before| + 2 + n] == payload;
  }

  lemma WrittenPush(e: Entry<Field>, rest: Fields, bytes: seq<byte>, cursor: nat, next: nat, order: ByteOrder)
    requires cursor + 2 <= next <= |bytes| && 0 <= e.key < 0x1_0000
    requires bytes[cursor..cursor + 2] == WriteU16(order, e.key)
    requires bytes[cursor + 2..next] == EncodedValue(e.value.value, order)
    requires WrittenAt(rest, bytes, next, order)
    ensures WrittenAt([e] + rest, bytes, cursor, order)
  {
    assert ([e] + rest)[1..] == rest;
    ClosedFirst([e] + rest, order);
    JoinAt(bytes, cursor, cursor + 2, next, Closed(rest, order));
  }

  lemma JoinAt(bytes: seq<byte>, from: nat, middle: nat, next: nat, rest: seq<byte>)
    requires from <= middle <= next <= |bytes| && bytes == bytes[..next] + rest
    ensures bytes == bytes[..from] + (bytes[from..middle] + (bytes[middle..next] + rest))
  {
  }

  lemma WrittenNothing(bytes: seq<byte>, cursor: nat, order: ByteOrder)
    requires WrittenAt([], bytes, cursor, order)
    ensures cursor + 2 == |bytes| && bytes[cursor..cursor + 2] == WriteU16(order, TERMINATOR)
  {
    ClosedNothing(order);
    assert bytes[cursor..cursor + 2] == Closed([], order);
  }

  /** Everything the parser guarantees about the fields it returns. */
  ghost predicate SoundParse(fields: Fields, bytes: seq<byte>, cursor: nat, previous: int, schema: Schema,
      order: ByteOrder)
  {
    && KeysFit(fields)
    && Ascending(fields)
    && InSequence(fields, previous, schema)
    && fields == Located(fields, cursor)
    && WrittenAt(fields, bytes, cursor, order)
  }

  lemma LocatedPush(e: Entry<Field>, rest: Fields, cursor: nat)
    requires KeysFit(rest) && 0 <= e.key < 0x1_0000
    ensures KeysFit([e] + rest)
    ensures Located([e] + rest, cursor)
      == [LocatedFirst(e, cursor)] + Located(rest, LocatedFirst(e, cursor).value.byteEnd)
  {
    assert ([e] + rest)[1..] == rest;
  }

  lemma SoundStep(e: Entry<Field>, rest: Fields, bytes: seq<byte>, cursor: nat, next: nat, previous: int,
      schema: Schema, order: ByteOrder)
    requires cursor + 2 <= next <= |bytes|
    requires SoundParse(rest, bytes, next, e.key, schema, order)
    requires previous < e.key && 0 <= e.key < TERMINATOR && Agrees(e, schema)
    requires e.value == Field(e.key, e.value.value, cursor, next, cursor + 2, next)
    requires bytes[cursor..cursor + 2] == WriteU16(order, e.key)
    requires bytes[cursor + 2..next] == EncodedValue(e.value.value, order)
    ensures SoundParse([e] + rest, bytes, cursor, previous, schema, order)
  {
    PushFront(e, rest);
    AgreesPush(e, rest, previous, schema);
    LocatedPush(e, rest, cursor);
    assert e == LocatedFirst(e, cursor);
    WrittenPush(e, rest, bytes, cursor, next, order);
  }

  /** Every field is in the schema, and its ordinal is above the previous one and not the terminator. */
  ghost predicate InSequence(fields: Fields, previous: int, schema: Schema) {
    forall i :: 0 <= i < |fields| ==>
      fields[i].key > previous && Agrees(fields[i], schema) && fields[i].key != TERMINATOR
  }

  lemma AgreesPush(e: Entry<Field>, rest: Fields, previous: int, schema: Schema)
    requires InSequence(rest, e.key, schema) && previous < e.key < TERMINATOR && Agrees(e, schema)
    ensures InSequence([e] + rest, previous, schema)
  {
  }

  lemma {:induction false} ParseFieldsSound(bytes: seq<byte>, cursor: nat, previous: int, schema: Schema,
      order: ByteOrder)
    requires cursor <= |bytes|
    requires ParseFields(bytes, cursor, previous, schema, order).Ok?
    ensures SoundParse(ParseFields(bytes, cursor, previous, schema, order).value, bytes, cursor, previous, schema,
      order)
    decreases |bytes| - cursor
  {
    var taken := TakeSlice(bytes, cursor, 2).value;
    var ordinal := ReadU16(order, taken.value);
    U16RoundTrip(order, 0, taken.value);
    if ordinal == TERMINATOR {
      assert bytes[cursor..] == taken.value;
    } else {
      var d := schema.fields[ordinal];
      ParsedValueIsEncoded(bytes, taken.cursor, d, order);
      var v := ParseValue(bytes, taken.cursor, d, order).value;
      var field := Field(ordinal, v.value, cursor, v.cursor, taken.cursor, v.cursor);
      ParseFieldsSound(bytes, v.cursor, ordinal, schema, order);
      var rest := ParseFields(bytes, v.cursor, ordinal, schema, order).value;
      SoundStep(Entry(ordinal, field), rest, bytes, cursor, v.cursor, previous, schema, order);
    }
  }

  /** Every accepted byte string is a valid record, the encoder accepts it, and it encodes to exactly those bytes. */
  lemma ParseThenEncode(bytes: seq<byte>, schema: Schema, order: ByteOrder)
    requires ParseRecord(bytes, schema, order).Ok?
    ensures var record := ParseRecord(bytes, schema, order).value;
      && record.Valid()
      && Encodable(record, schema)
      && Wire(record, order) == bytes
  {
    ParseFieldsSound(bytes, 1, -1, schema, order);
    var record := ParseRecord(bytes, schema, order).value;
    WrittenIsWire(record, bytes, order);
  }

  lemma WrittenIsWire(record: Record, bytes: seq<byte>, order: ByteOrder)
    requires bytes != [] && record.flag == bytes[0]
    requires WrittenAt(record.fields, bytes, 1, order)
    ensures Wire(record, order) == bytes
  {
    assert bytes[..1] == [record.flag];
    RegroupMiddle([record.flag], Emitted(record.fields, order), WriteU16(order, TERMINATOR), []);
  }

  /** A field's ranges lie where its ordinal and payload stand, before the terminator. */
  ghost predicate Stands(f: Field, bytes: seq<byte>, order: ByteOrder) {
    && f.byteStart + 2 == f.payloadStart <= f.payloadEnd == f.byteEnd <= |bytes| - 2
    && bytes[f.byteStart..f.payloadStart] == WriteU16(order, f.ordinal)
    && bytes[f.payloadStart..f.payloadEnd] == EncodedValue(f.value, order)
  }

  /** Each field starts where the one before ends; the first starts at `cursor` and the last ends at the terminator. */
  ghost predicate Tiles(fields: Fields, bytes: seq<byte>, cursor: nat, order: ByteOrder) {
    && (forall i :: 0 <= i < |fields| ==> Stands(fields[i].value, bytes, order))
    && (fields != [] ==> fields[0].value.byteStart == cursor && fields[|fields| - 1].value.byteEnd == |bytes| - 2)
    && (fields == [] ==> cursor == |bytes| - 2)
    && (forall i :: 0 < i < |fields| ==> fields[i].value.byteStart == fields[i - 1].value.byteEnd)
  }

  lemma TilesPush(e: Entry<Field>, rest: Fields, bytes: seq<byte>, order: ByteOrder)
    requires Stands(e.value, bytes, order) && Tiles(rest, bytes, e.value.byteEnd, order)
    ensures Tiles([e] + rest, bytes, e.value.byteStart, order)
  {
    var fields := [e] + rest;
    assert forall i :: 0 < i < |fields| ==> fields[i] == rest[i - 1];
  }

  lemma FirstStands(fields: Fields, bytes: seq<byte>, cursor: nat, order: ByteOrder)
    requires WrittenAt(fields, bytes, cursor, order) && fields != []
    ensures var f := LocatedFirst(fields[0], cursor).value;
      Stands(f, bytes, order) && WrittenAt(fields[1..], bytes, f.byteEnd, order)
  {
    WrittenStep(fields, bytes, cursor, order);
  }

  lemma {:induction false} LocatedTiles(fields: Fields, bytes: seq<byte>, cursor: nat, order: ByteOrder)
    requires KeysFit(fields) && WrittenAt(fields, bytes, cursor, order)
    ensures Tiles(Located(fields, cursor), bytes, cursor, order)
  {
    if fields == [] {
      WrittenNothing(bytes, cursor, order);
    } else {
      var e := LocatedFirst(fields[0], cursor);
      FirstStands(fields, bytes, cursor, order);
      LocatedTiles(fields[1..], bytes, e.value.byteEnd, order);
      TilesPush(e, Located(fields[1..], e.value.byteEnd), bytes, order);
    }
  }

  /**
    The ranges of an accepted record tile it, from just after the flag to just before the terminator, in ordinal
    order.
  */
  lemma RangesTile(bytes: seq<byte>, schema: Schema, order: ByteOrder)
    requires ParseRecord(bytes, schema, order).Ok?
    ensures var fields := ParseRecord(bytes, schema, order).value.fields;
      && Tiles(fields, bytes, 1, order)
      && (forall i, j :: 0 <= i < j < |fields| ==> fields[i].value.ordinal < fields[j].value.ordinal)
      && (forall i :: 0 <= i < |fields| ==> fields[i].value.ordinal != TERMINATOR)
  {
    var fields := ParseRecord(bytes, schema, order).value.fields;
    ParseFieldsSound(bytes, 1, -1, schema, order);
    LocatedTiles(fields, bytes, 1, order);
    assert forall i :: 0 <= i < |fields| ==> Agrees(fields[i], schema);
  }

  // ---------------------------------------------------------------------
  // Encoding, then parsing

  ghost predicate AllAgree(fields: Fields, schema: Schema) {
    forall i :: 0 <= i < |fields| ==> Agrees(fields[i], schema)
  }

  /** Every string field's bound, counted from where its payload is written, stays within `usize`. */
  ghost predicate BoundsFit(fields: Fields, schema: Schema, cursor: nat)
    requires AllAgree(fields, schema)
  {
    if fields == [] then true
    else
      var e := fields[0];
      assert Agrees(e, schema);
      && BoundFits(schema.fields[e.key], cursor + 2)
      && BoundsFit(fields[1..], schema, cursor + 2 + ValueEncodedLen(e.value.value))
  }

  /** One turn of the parser stands at an ordinal that is in order and in the schema. */
  ghost predicate AtOrdinal(bytes: seq<byte>, cursor: nat, previous: int, schema: Schema, order: ByteOrder,
      ordinal: u16)
  {
    && previous < ordinal < TERMINATOR && ordinal < |schema.fields|
    && cursor + 2 <= |bytes| <= DREC_MAX_LEN && bytes[cursor..cursor + 2] == WriteU16(order, ordinal)
  }

  /** If its value is refused, so is the rest. */
  lemma ParseStepFails(bytes: seq<byte>, cursor: nat, previous: int, schema: Schema, order: ByteOrder, ordinal: u16,
      error: DrecError)
    requires AtOrdinal(bytes, cursor, previous, schema, order, ordinal)
    requires ParseValue(bytes, cursor + 2, schema.fields[ordinal], order) == Err(error)
    ensures ParseFields(bytes, cursor, previous, schema, order) == Err(error)
  {
    U16RoundTrip(order, ordinal, [0, 0]);
  }

  /** If its value is accepted, it comes in front of what is parsed behind it. */
  lemma ParseStep(bytes: seq<byte>, cursor: nat, previous: int, schema: Schema, order: ByteOrder, ordinal: u16,
      v: Taken<Value>)
    requires AtOrdinal(bytes, cursor, previous, schema, order, ordinal)
    requires ParseValue(bytes, cursor + 2, schema.fields[ordinal], order) == Ok(v)
    ensures v.cursor <= |bytes|
    ensures ParseFields(bytes, cursor, previous, schema, order) ==
      Prepended([Entry(ordinal, Field(ordinal, v.value, cursor, v.cursor, cursor + 2, v.cursor))],
                ParseFields(bytes, v.cursor, ordinal, schema, order))
  {
    U16RoundTrip(order, ordinal, [0, 0]);
    ParsedValueIsEncoded(bytes, cursor + 2, schema.fields[ordinal], order);
  }

  /** What the parser makes of fields written from `cursor` on. */
  ghost function ReadBack(fields: Fields, schema: Schema, cursor: nat): Result<Fields, DrecError>
    requires AllAgree(fields, schema) && KeysFit(fields)
  {
    if fields == [] then Ok([])
    else
      var e := LocatedFirst(fields[0], cursor);
      assert Agrees(fields[0], schema);
      if BoundFits(schema.fields[e.key], cursor + 2)
      then Prepended([e], ReadBack(fields[1..], schema, e.value.byteEnd))
      else Err(LengthOverflow)
  }

  lemma {:induction false} ReadBackIs(fields: Fields, schema: Schema, cursor: nat)
    requires AllAgree(fields, schema) && KeysFit(fields)
    ensures ReadBack(fields, schema, cursor) ==
      if BoundsFit(fields, schema, cursor) then Ok(Located(fields, cursor)) else Err(LengthOverflow)
  {
    if fields != [] {
      assert Agrees(fields[0], schema);
      ReadBackIs(fields[1..], schema, LocatedFirst(fields[0], cursor).value.byteEnd);
    }
  }

  lemma {:induction false} EmittedIsParsed(fields: Fields, bytes: seq<byte>, cursor: nat, previous: int,
      schema: Schema, order: ByteOrder)
    requires ValidSchema(schema) && Ascending(fields) && AllAgree(fields, schema)
    requires forall i :: 0 <= i < |fields| ==> fields[i].key > previous
    requires WrittenAt(fields, bytes, cursor, order) && |bytes| <= DREC_MAX_LEN
    ensures ParseFields(bytes, cursor, previous, schema, order) == ReadBack(fields, schema, cursor)
    decreases |fields|
  {
    if fields == [] {
      NothingIsParsed(bytes, cursor, previous, schema, order);
    } else {
      WrittenStep(fields, bytes, cursor, order);
      var e := LocatedFirst(fields[0], cursor);
      if BoundFits(schema.fields[e.key], cursor + 2) {
        FieldFits(bytes, cursor, previous, schema, order, fields[0]);
        OthersAgree(fields, schema);
        EmittedIsParsed(fields[1..], bytes, e.value.byteEnd, e.key, schema, order);
      } else {
        FieldOverflows(bytes, cursor, previous, schema, order, fields[0]);
      }
    }
  }

  lemma NothingIsParsed(bytes: seq<byte>, cursor: nat, previous: int, schema: Schema, order: ByteOrder)
    requires WrittenAt([], bytes, cursor, order) && |bytes| <= DREC_MAX_LEN
    ensures ParseFields(bytes, cursor, previous, schema, order) == Ok([])
  {
    U16RoundTrip(order, TERMINATOR, [0, 0]);
    WrittenNothing(bytes, cursor, order);
  }

  lemma OthersAgree(fields: Fields, schema: Schema)
    requires Ascending(fields) && AllAgree(fields, schema) && fields != []
    ensures Ascending(fields[1..]) && AllAgree(fields[1..], schema)
    ensures forall i :: 0 <= i < |fields[1..]| ==> fields[1..][i].key > fields[0].key
  {
  }

  /** The bytes of a field in order stand at the cursor. */
  ghost predicate FieldStands(bytes: seq<byte>, cursor: nat, previous: int, schema: Schema, order: ByteOrder,
      e: Entry<Field>)
  {
    && ValidSchema(schema) && Agrees(e, schema) && previous < e.key < TERMINATOR && |bytes| <= DREC_MAX_LEN
    && cursor + 2 + ValueEncodedLen(e.value.value) <= |bytes|
    && bytes[cursor..cursor + 2] == WriteU16(order, e.key)
    && bytes[cursor + 2..cursor + 2 + ValueEncodedLen(e.value.value)] == EncodedValue(e.value.value, order)
  }

  /** It is parsed in front of whatever follows. */
  lemma FieldFits(bytes: seq<byte>, cursor: nat, previous: int, schema: Schema, order: ByteOrder, e: Entry<Field>)
    requires FieldStands(bytes, cursor, previous, schema, order, e) && BoundFits(schema.fields[e.key], cursor + 2)
    ensures var placed := LocatedFirst(e, cursor);
      ParseFields(bytes, cursor, previous, schema, order)
        == Prepended([placed], ParseFields(bytes, placed.value.byteEnd, e.key, schema, order))
  {
    var end := cursor + 2 + ValueEncodedLen(e.value.value);
    StandsParsed(bytes, cursor + 2, schema.fields[e.key], Taken(e.value.value, end), order);
    ParseStep(bytes, cursor, previous, schema, order, e.key, Taken(e.value.value, end));
    assert LocatedFirst(e, cursor)
      == Entry(e.key, Field(e.key, e.value.value, cursor, end, cursor + 2, end));
  }

  /** Unless its bound leaves `usize`. */
  lemma FieldOverflows(bytes: seq<byte>, cursor: nat, previous: int, schema: Schema, order: ByteOrder, e: Entry<Field>)
    requires FieldStands(bytes, cursor, previous, schema, order, e) && !BoundFits(schema.fields[e.key], cursor + 2)
    ensures ParseFields(bytes, cursor, previous, schema, order) == Err(LengthOverflow)
  {
    EncodedValueIsParsed(bytes, cursor + 2, schema.fields[e.key], e.value.value, order);
    ParseStepFails(bytes, cursor, previous, schema, order, e.key, LengthOverflow);
  }

  /** The record as it comes back: same flag, same ordinals, same values, and now with ranges. */
  ghost function Relocated(record: Record): (r: Record)
    requires record.Valid()
    ensures r.flag == record.flag && |r.fields| == |record.fields|
    ensures forall i :: 0 <= i < |r.fields| ==>
      r.fields[i].key == record.fields[i].key && r.fields[i].value.value == record.fields[i].value.value
  {
    LocatedSameMap(record.fields, 1);
    Record(record.flag, Located(record.fields, 1))
  }

  lemma WireIsWritten(record: Record, order: ByteOrder)
    requires KeysFit(record.fields)
    ensures WrittenAt(record.fields, Wire(record, order), 1, order)
  {
    RegroupMiddle([record.flag], Emitted(record.fields, order), WriteU16(order, TERMINATOR), []);
    assert Wire(record, order)[..1] == [record.flag];
  }

  /**
  An encoded record parses back to the same flag and the same map, exactly when
  no string bound leaves `usize`; otherwise the parser refuses what the encoder wrote.
  */
  lemma EncodeThenParse(record: Record, schema: Schema, order: ByteOrder)
    requires ValidSchema(schema) && record.Valid() && Encodable(record, schema)
    ensures ParseRecord(Wire(record, order), schema, order) ==
      if BoundsFit(record.fields, schema, 1) then Ok(Relocated(record)) else Err(LengthOverflow)
  {
    var bytes := Wire(record, order);
    WireIsWritten(record, order);
    EmittedIsParsed(record.fields, bytes, 1, -1, schema, order);
    ReadBackIs(record.fields, schema, 1);
  }

  /** The condition always holds when string bounds leave room for a whole record. */
  lemma {:induction false} ModestBoundsFit(fields: Fields, schema: Schema, cursor: nat)
    requires AllAgree(fields, schema)
    requires forall d :: d in schema.fields && d.class_ == String ==> d.length <= USIZE_MAX - DREC_MAX_LEN
    requires cursor + EmittedLen(fields) <= DREC_MAX_LEN
    ensures BoundsFit(fields, schema, cursor)
  {
    if fields != [] {
      assert Agrees(fields[0], schema);
      assert schema.fields[fields[0].key] in schema.fields;
      ModestBoundsFit(fields[1..], schema, cursor + 2 + ValueEncodedLen(fields[0].value.value));
    }
  }

  /** A record the encoder writes and the parser refuses: one empty string under a bound of `usize::MAX`. */
  lemma HugeBoundIsNotParsed(order: ByteOrder)
    ensures var schema := Schema([Descriptor(String, USIZE_MAX, None)]);
      var record := Record(7, [Entry(0, Field(0, StringValue([]), 0, 0, 0, 0))]);
      && ValidSchema(schema) && record.Valid() && Encodable(record, schema)
      && ParseRecord(Wire(record, order), schema, order) == Err(LengthOverflow)
  {
    var schema := Schema([Descriptor(String, USIZE_MAX, None)]);
    var record := Record(7, [Entry(0, Field(0, StringValue([]), 0, 0, 0, 0))]);
    assert EmittedLen(record.fields) == 3 + EmittedLen(record.fields[1..]);
    assert Agrees(record.fields[0], schema);
    EncodeThenParse(record, schema, order);
  }

  // ---------------------------------------------------------------------
  // Unambiguity

  lemma SameSlice(a: seq<byte>, b: seq<byte>, from: nat, to: nat)
    requires from <= to <= |a| && a <= b
    ensures b[from..to] == a[from..to]
  {
  }

  lemma ParsedBoundFits(bytes: seq<byte>, cursor: nat, d: Descriptor, order: ByteOrder)
    requires cursor <= |bytes| && ParseValue(bytes, cursor, d, order).Ok?
    ensures BoundFits(d, cursor)
  {
  }

  lemma StandsParsed(bytes: seq<byte>, cursor: nat, d: Descriptor, t: Taken<Value>, order: ByteOrder)
    requires cursor <= t.cursor <= |bytes| <= DREC_MAX_LEN && Matches(d, t.value) && BoundFits(d, cursor)
    requires bytes[cursor..t.cursor] == EncodedValue(t.value, order)
    ensures ParseValue(bytes, cursor, d, order) == Ok(t)
  {
    EncodedValueIsParsed(bytes, cursor, d, t.value, order);
  }

  lemma ValueExtends(a: seq<byte>, b: seq<byte>, cursor: nat, d: Descriptor, order: ByteOrder)
    requires cursor <= |a| && a <= b && |b| <= DREC_MAX_LEN
    requires ParseValue(a, cursor, d, order).Ok?
    ensures ParseValue(b, cursor, d, order) == ParseValue(a, cursor, d, order)
  {
    ParsedValueIsEncoded(a, cursor, d, order);
    var t := ParseValue(a, cursor, d, order).value;
    SameSlice(a, b, cursor, t.cursor);
    ParsedBoundFits(a, cursor, d, order);
    StandsParsed(b, cursor, d, t, order);
  }

  lemma {:induction false} FieldsExtend(a: seq<byte>, b: seq<byte>, cursor: nat, previous: int, schema: Schema,
      order: ByteOrder)
    requires cursor <= |a| && a <= b && |b| <= DREC_MAX_LEN
    requires ParseFields(a, cursor, previous, schema, order).Ok?
    requires ParseFields(b, cursor, previous, schema, order).Ok?
    ensures |a| == |b|
    decreases |a| - cursor
  {
    var taken := TakeSlice(a, cursor, 2).value;
    assert b[cursor..cursor + 2] == a[cursor..cursor + 2];
    var ordinal := ReadU16(order, taken.value);
    if ordinal != TERMINATOR {
      ValueExtends(a, b, taken.cursor, schema.fields[ordinal], order);
      ParsedValueIsEncoded(a, taken.cursor, schema.fields[ordinal], order);
      var v := ParseValue(a, taken.cursor, schema.fields[ordinal], order).value;
      FieldsExtend(a, b, v.cursor, ordinal, schema, order);
    }
  }

  /** No accepted record is a proper prefix of another. */
  lemma PrefixFree(a: seq<byte>, b: seq<byte>, schema: Schema, order: ByteOrder)
    requires ParseRecord(a, schema, order).Ok? && ParseRecord(b, schema, order).Ok?
    requires a <= b
    ensures a == b
  {
    FieldsExtend(a, b, 1, -1, schema, order);
  }

  /** The descriptor with its string bound cut down to the longest record there is, and without a default. */
  function Modest(d: Descriptor): Descriptor {
    Descriptor(d.class_, if d.class_ == String then Min(d.length, DREC_MAX_LEN) else d.length, None)
  }

  function ModestSchema(schema: Schema): (modest: Schema)
    ensures |modest.fields| == |schema.fields|
    ensures forall k :: 0 <= k < |schema.fields| ==> modest.fields[k] == Modest(schema.fields[k])
  {
    Schema(seq(|schema.fields|, k requires 0 <= k < |schema.fields| => Modest(schema.fields[k])))
  }

  lemma {:induction false} FieldIsShort(fields: Fields, i: nat)
    requires i < |fields|
    ensures ValueEncodedLen(fields[i].value.value) <= EmittedLen(fields)
    decreases |fields|
  {
    if i > 0 {
      FieldIsShort(fields[1..], i - 1);
    }
  }

  /** A record that fits the length cap does not notice that its schema's bounds are cut down. */
  lemma ModestSchemaDescribes(record: Record, schema: Schema)
    requires ValidSchema(schema) && Encodable(record, schema)
    ensures ValidSchema(ModestSchema(schema)) && Encodable(record, ModestSchema(schema))
    ensures BoundsFit(record.fields, ModestSchema(schema), 1)
  {
    var modest := ModestSchema(schema);
    forall d | d in modest.fields
      ensures ValidDescriptor(d)
    {
      var k :| 0 <= k < |modest.fields| && modest.fields[k] == d;
      assert schema.fields[k] in schema.fields;
    }
    forall i | 0 <= i < |record.fields|
      ensures Agrees(record.fields[i], modest)
    {
      FieldIsShort(record.fields, i);
      assert Agrees(record.fields[i], schema);
    }
    ModestBoundsFit(record.fields, modest, 1);
  }

  /** Two records with the same bytes have the same flag and the same map, whatever the string bounds of the schema. */
  lemma WireInjective(r: Record, s: Record, schema: Schema, order: ByteOrder)
    requires ValidSchema(schema) && r.Valid() && s.Valid()
    requires Encodable(r, schema) && Encodable(s, schema)
    requires Wire(r, order) == Wire(s, order)
    ensures Relocated(r) == Relocated(s)
  {
    ModestSchemaDescribes(r, schema);
    ModestSchemaDescribes(s, schema);
    EncodeThenParse(r, ModestSchema(schema), order);
    EncodeThenParse(s, ModestSchema(schema), order);
  }

  /** Class bytes and classes correspond one to one. */
  lemma TagRoundTrip(c: Class, tag: byte)
    ensures FromTag(Tag(c)) == Ok(c)
    ensures FromTag(tag).Ok? ==> Tag(FromTag(tag).value) == tag
    ensures FromTag(tag).Err? ==> FromTag(tag) == Err(UnknownClass)
  {
  }
}
