/**
What the bytes of a `drec` record say, which lengths a schema may declare, and
what is made of cut and overlong records.
*/
module DrecMeaning {
  import opened Outcomes
  import opened Bytes
  import opened Words
  import opened SortedMaps
  import opened Drec
  import opened DrecRecords
  import opened DrecTheorems

  // ---------------------------------------------------------------------
  // Values

  /** What a payload of this class stands for. */
  ghost predicate Means(c: Class, payload: seq<byte>, order: ByteOrder, v: Value) {
    match c
    case String => payload != [] && v == StringValue(payload[..|payload| - 1]) && 0 !in v.text
      && payload[|payload| - 1] == 0
    case Bytes => v == BytesValue(payload)
    case F => MeansWord(payload, order, v)
    case I => MeansWord(payload, order, v)
    case L => MeansWord(payload, order, v)
    case H => MeansHalf(payload, order, v)
    case U => MeansHalf(payload, order, v)
    case LegacyBalance => |payload| == 6 && v.BalanceValue?
      && v.balance.fraction == payload[0] && v.balance.flags == payload[1] && v.balance.dollars == Numeral(payload[2..])
    case Z => |payload| == 9 && v == ZValue(payload)
    case End => false
    case PointerSizedD => false
  }

  ghost predicate MeansWord(payload: seq<byte>, order: ByteOrder, v: Value) {
    |payload| == 4 && v.U32Value? && v.word == Numeral(Oriented(order, payload))
  }

  ghost predicate MeansHalf(payload: seq<byte>, order: ByteOrder, v: Value) {
    |payload| == 2 && v.U16Value? && v.half == Numeral(Oriented(order, payload))
  }

  lemma EncodedMeans(d: Descriptor, v: Value, order: ByteOrder)
    requires Matches(d, v)
    ensures Means(d.class_, EncodedValue(v, order), order, v)
  {
    var payload := EncodedValue(v, order);
    match v
    case U32Value(word) =>
      U32RoundTrip(order, word, payload);
      ReadIsNumeral(order, [0, 0], payload);
    case U16Value(half) =>
      U16RoundTrip(order, half, payload);
      ReadIsNumeral(order, payload, [0, 0, 0, 0]);
    case BalanceValue(balance) =>
      LegacyBalance.DiskRoundTrip(balance);
      LegacyBalance.DiskLayout(payload);
    case StringValue(text) =>
      assert payload[..|payload| - 1] == text;
    case BytesValue(_) =>
    case ZValue(_) =>
  }

  /** Every field of an accepted record is what its own bytes say: its ordinal, and the value of its class. */
  lemma FieldMeaning(bytes: seq<byte>, schema: Schema, order: ByteOrder, i: nat)
    requires ParseRecord(bytes, schema, order).Ok?
    requires i < |ParseRecord(bytes, schema, order).value.fields|
    ensures var record := ParseRecord(bytes, schema, order).value;
      var f := record.fields[i].value;
      && record.flag == bytes[0]
      && f.byteStart + 2 == f.payloadStart <= f.payloadEnd <= |bytes|
      && record.fields[i].key == f.ordinal == Numeral(Oriented(order, bytes[f.byteStart..f.payloadStart]))
      && f.ordinal < |schema.fields|
      && Means(schema.fields[f.ordinal].class_, bytes[f.payloadStart..f.payloadEnd], order, f.value)
  {
    RangesTile(bytes, schema, order);
    ParseThenEncode(bytes, schema, order);
    var e := ParseRecord(bytes, schema, order).value.fields[i];
    var f := e.value;
    assert Stands(f, bytes, order) && Agrees(e, schema);
    U16RoundTrip(order, f.ordinal, [0, 0]);
    ReadIsNumeral(order, bytes[f.byteStart..f.payloadStart], [0, 0, 0, 0]);
    EncodedMeans(schema.fields[e.key], f.value, order);
  }

  /** Why a string is refused: its bound overflows, or its NUL is missing, inside the bound or inside the record. */
  lemma StringErrors(bytes: seq<byte>, start: nat, bound: nat)
    requires start <= |bytes|
    ensures ParseString(bytes, start, bound) == Err(LengthOverflow) <==> start + bound >= 0x1_0000_0000_0000_0000
    ensures start + bound < 0x1_0000_0000_0000_0000 ==>
      && (ParseString(bytes, start, bound) == Err(UnterminatedString) <==>
          start + bound <= |bytes| && 0 !in bytes[start..start + bound])
      && (ParseString(bytes, start, bound) == Err(Truncated) <==> start + bound > |bytes| && 0 !in bytes[start..])
  {
  }

  /** Why a field is refused by its ordinal: it does not climb, or the schema does not go so far. */
  lemma OrdinalErrors(bytes: seq<byte>, cursor: nat, previous: int, schema: Schema, order: ByteOrder)
    requires cursor + 2 <= |bytes| <= 0x7530
    ensures var ordinal := Numeral(Oriented(order, bytes[cursor..cursor + 2]));
      var r := ParseFields(bytes, cursor, previous, schema, order);
      && (ordinal == 0xFFFF ==> r == if cursor + 2 == |bytes| then Ok([]) else Err(TrailingBytes))
      && (ordinal != 0xFFFF && ordinal <= previous ==> r == Err(NonIncreasingOrdinal))
      && (ordinal != 0xFFFF && ordinal > previous && ordinal >= |schema.fields| ==> r == Err(OrdinalOutOfRange))
  {
    ReadIsNumeral(order, bytes[cursor..cursor + 2], [0, 0, 0, 0]);
  }

  lemma {:induction false} NeverTooLarge(bytes: seq<byte>, cursor: nat, previous: int, schema: Schema, order: ByteOrder)
    requires cursor <= |bytes| <= DREC_MAX_LEN
    ensures ParseFields(bytes, cursor, previous, schema, order) != Err(RecordTooLarge)
    decreases |bytes| - cursor
  {
    if cursor + 2 <= |bytes| {
      var ordinal := ReadU16(order, bytes[cursor..cursor + 2]);
      if ordinal != TERMINATOR && previous < ordinal < |schema.fields|
        && ParseValue(bytes, cursor + 2, schema.fields[ordinal], order).Ok? {
        var v := ParseValue(bytes, cursor + 2, schema.fields[ordinal], order).value;
        ParsedValueIsEncoded(bytes, cursor + 2, schema.fields[ordinal], order);
        FieldIsParsed(bytes, cursor, previous, schema, order, ordinal, v);
        NeverTooLarge(bytes, v.cursor, ordinal, schema, order);
      } else {
        NotTooLargeHere(bytes, cursor, previous, schema, order);
      }
    }
  }

  lemma NotTooLargeHere(bytes: seq<byte>, cursor: nat, previous: int, schema: Schema, order: ByteOrder)
    requires cursor + 2 <= |bytes|
    requires var ordinal := ReadU16(order, bytes[cursor..cursor + 2]);
      ordinal != TERMINATOR && previous < ordinal < |schema.fields| ==>
        ParseValue(bytes, cursor + 2, schema.fields[ordinal], order).Err?
    ensures ParseFields(bytes, cursor, previous, schema, order) != Err(RecordTooLarge)
  {
    var ordinal := ReadU16(order, bytes[cursor..cursor + 2]);
    if ordinal != TERMINATOR && previous < ordinal < |schema.fields| {
      ValueNotTooLarge(bytes, cursor + 2, schema.fields[ordinal], order);
      ValueRefused(bytes, cursor, previous, schema, order);
    } else {
      OrdinalRefused(bytes, cursor, previous, schema, order);
    }
  }

  lemma ValueRefused(bytes: seq<byte>, cursor: nat, previous: int, schema: Schema, order: ByteOrder)
    requires cursor + 2 <= |bytes|
    requires previous < ReadU16(order, bytes[cursor..cursor + 2]) < |schema.fields|
    requires var ordinal := ReadU16(order, bytes[cursor..cursor + 2]);
      ordinal != TERMINATOR && ParseValue(bytes, cursor + 2, schema.fields[ordinal], order).Err?
    ensures var ordinal := ReadU16(order, bytes[cursor..cursor + 2]);
      && ParseFields(bytes, cursor, previous, schema, order).Err?
      && ParseFields(bytes, cursor, previous, schema, order).error
        in {ParseValue(bytes, cursor + 2, schema.fields[ordinal], order).error, LengthOverflow}
  {
  }

  lemma OrdinalRefused(bytes: seq<byte>, cursor: nat, previous: int, schema: Schema, order: ByteOrder)
    requires cursor + 2 <= |bytes|
    requires var ordinal := ReadU16(order, bytes[cursor..cursor + 2]);
      ordinal == TERMINATOR || ordinal <= previous || ordinal >= |schema.fields|
    ensures var r := ParseFields(bytes, cursor, previous, schema, order);
      r.Err? ==> r.error in {TrailingBytes, NonIncreasingOrdinal, OrdinalOutOfRange, LengthOverflow}
  {
  }

  lemma ValueNotTooLarge(bytes: seq<byte>, cursor: nat, d: Descriptor, order: ByteOrder)
    requires cursor <= |bytes|
    ensures ParseValue(bytes, cursor, d, order) != Err(RecordTooLarge)
  {
  }

  /** Only records beyond the cap are too large. */
  lemma TooLargeExactly(bytes: seq<byte>, schema: Schema, order: ByteOrder)
    ensures ParseRecord(bytes, schema, order) == Err(RecordTooLarge) <==> |bytes| > 0x7530
  {
    if 0 < |bytes| <= DREC_MAX_LEN {
      NeverTooLarge(bytes, 1, -1, schema, order);
    }
  }

  const CLASSES := [End, String, Class.Bytes, F, I, L, H, U, Class.LegacyBalance, Z, PointerSizedD]

  /** The tags are letters. */
  lemma TagLetters(k: nat)
    requires k < 11
    ensures Tag(CLASSES[k]) as char == "ESBFILHUMZD"[k]
  {
  }

  // ---------------------------------------------------------------------
  // Declared lengths

  /** The declared length is what a value of the class takes up, or, for strings, what it may take up at most. */
  ghost predicate TakesUp(d: Descriptor, v: Value, order: ByteOrder) {
    var n := |EncodedValue(v, order)|;
    Matches(d, v) && if d.class_ == String then n <= d.length else n == d.length
  }

  /** Some value of the class, if there is one of this length. */
  function Sample(d: Descriptor): (v: Value) {
    match d.class_
    case String => StringValue([])
    case Bytes => BytesValue(seq(d.length, _ => 0))
    case F => U32Value(0)
    case I => U32Value(0)
    case L => U32Value(0)
    case H => U16Value(0)
    case U => U16Value(0)
    case LegacyBalance => BalanceValue(LegacyBalance.Envelope(0, 0, 0))
    case Z => ZValue([0, 0, 0, 0, 0, 0, 0, 0, 0])
    case End => StringValue([])
    case PointerSizedD => StringValue([])
  }

  /** A schema may declare exactly those lengths that some value of the class takes up, and a default that does. */
  lemma DeclaredLengths(d: Descriptor, order: ByteOrder)
    ensures ValidDescriptor(d) <==>
      && (exists v :: TakesUp(d, v, order))
      && (d.default.Some? ==> TakesUp(d, d.default.value, order))
  {
    if LengthFits(d) {
      SampleTakesUp(d, order);
    }
    if v :| TakesUp(d, v, order) {
      TakenFits(d, v, order);
    }
  }

  lemma SampleTakesUp(d: Descriptor, order: ByteOrder)
    requires LengthFits(d)
    ensures TakesUp(d, Sample(d), order)
  {
  }

  lemma TakenFits(d: Descriptor, v: Value, order: ByteOrder)
    requires TakesUp(d, v, order)
    ensures LengthFits(d)
  {
  }

  // ---------------------------------------------------------------------
  // Cut and overlong records

  lemma ValueShrinks(a: seq<byte>, b: seq<byte>, cursor: nat, d: Descriptor, order: ByteOrder)
    requires a <= b && |b| <= DREC_MAX_LEN && cursor <= |b| && ParseValue(b, cursor, d, order).Ok?
    requires ParseValue(b, cursor, d, order).value.cursor <= |a|
    ensures cursor <= |a| && ParseValue(a, cursor, d, order) == ParseValue(b, cursor, d, order)
  {
    ParsedValueIsEncoded(b, cursor, d, order);
    var t := ParseValue(b, cursor, d, order).value;
    SameSlice(a, b, cursor, t.cursor);
    ParsedBoundFits(b, cursor, d, order);
    StandsParsed(a, cursor, d, t, order);
  }

  /** A value that is cut off is reported as cut off. */
  lemma ValueTruncated(a: seq<byte>, b: seq<byte>, cursor: nat, d: Descriptor, order: ByteOrder)
    requires a <= b && |b| <= DREC_MAX_LEN && cursor <= |a| && ParseValue(b, cursor, d, order).Ok?
    requires ParseValue(b, cursor, d, order).value.cursor > |a|
    ensures ParseValue(a, cursor, d, order) == Err(Truncated)
  {
    if d.class_ == String {
      ParsedStringIsEncoded(b, cursor, d.length);
      var t := ParseValue(b, cursor, d, order).value;
      var slice := b[cursor..t.cursor];
      assert slice[..|slice| - 1] == t.value.text;
      forall i | cursor <= i < |a|
        ensures a[i] != 0
      {
        assert a[i] == b[i] == slice[i - cursor] == t.value.text[i - cursor];
      }
      assert cursor + d.length > |a|;
    }
  }

  /** Parsing a cut-off run of fields reports that it is cut off. */
  lemma {:induction false} FieldsTruncated(a: seq<byte>, b: seq<byte>, cursor: nat, previous: int, schema: Schema,
      order: ByteOrder)
    requires cursor <= |a| < |b| <= DREC_MAX_LEN && a <= b
    requires ParseFields(b, cursor, previous, schema, order).Ok?
    ensures ParseFields(a, cursor, previous, schema, order) == Err(Truncated)
    decreases |a| - cursor
  {
    if cursor + 2 <= |a| {
      assert a[cursor..cursor + 2] == b[cursor..cursor + 2];
      var ordinal := ReadU16(order, b[cursor..cursor + 2]);
      if ordinal != TERMINATOR {
        var d := schema.fields[ordinal];
        ParsedValueIsEncoded(b, cursor + 2, d, order);
        var v := ParseValue(b, cursor + 2, d, order).value;
        if v.cursor <= |a| {
          ValueShrinks(a, b, cursor + 2, d, order);
          FieldsTruncated(a, b, v.cursor, ordinal, schema, order);
        } else {
          ValueTruncated(a, b, cursor + 2, d, order);
        }
      }
    }
  }

  /** Whatever is cut off the end of an accepted record, the rest is refused as truncated. */
  lemma CutRecordIsTruncated(a: seq<byte>, b: seq<byte>, schema: Schema, order: ByteOrder)
    requires ParseRecord(b, schema, order).Ok? && a < b
    ensures ParseRecord(a, schema, order) == Err(Truncated)
  {
    if a != [] {
      FieldsTruncated(a, b, 1, -1, schema, order);
    }
  }

  /** Some proper prefix of the bytes ends the fields that begin at the cursor. */
  ghost predicate EndsEarly(b: seq<byte>, cursor: nat, previous: int, schema: Schema, order: ByteOrder) {
    exists n: nat :: cursor <= n < |b| && ParseFields(b[..n], cursor, previous, schema, order).Ok?
  }

  /** The fields end where the terminator stands, and not elsewhere. */
  lemma EndsAtTerminator(b: seq<byte>, cursor: nat, previous: int, schema: Schema, order: ByteOrder)
    requires cursor + 2 <= |b| && ReadU16(order, b[cursor..cursor + 2]) == TERMINATOR && |b| <= DREC_MAX_LEN
    ensures EndsEarly(b, cursor, previous, schema, order) <==> cursor + 2 < |b|
  {
    if cursor + 2 < |b| {
      var a := b[..cursor + 2];
      assert a[cursor..cursor + 2] == b[cursor..cursor + 2];
      assert ParseFields(a, cursor, previous, schema, order).Ok?;
    }
    if n: nat :| cursor <= n < |b| && ParseFields(b[..n], cursor, previous, schema, order).Ok? {
      assert n >= cursor + 2;
    }
  }

  /** The parser finds this ordinal and this value at the cursor. */
  ghost predicate FieldHere(b: seq<byte>, cursor: nat, previous: int, schema: Schema, order: ByteOrder, ordinal: u16,
      v: Taken<Value>)
  {
    && cursor + 2 <= |b| <= DREC_MAX_LEN && ReadU16(order, b[cursor..cursor + 2]) == ordinal
    && previous < ordinal < TERMINATOR && ordinal < |schema.fields|
    && ParseValue(b, cursor + 2, schema.fields[ordinal], order) == Ok(v) && v.cursor <= |b|
  }

  lemma FieldIsParsed(b: seq<byte>, cursor: nat, previous: int, schema: Schema, order: ByteOrder, ordinal: u16,
      v: Taken<Value>)
    requires FieldHere(b, cursor, previous, schema, order, ordinal, v)
    ensures ParseFields(b, cursor, previous, schema, order)
      == Prepended([Entry(ordinal, Field(ordinal, v.value, cursor, v.cursor, cursor + 2, v.cursor))],
                   ParseFields(b, v.cursor, ordinal, schema, order))
  {
    ParsedValueIsEncoded(b, cursor + 2, schema.fields[ordinal], order);
  }

  /** With a field in front, they end early exactly if the fields behind it do. */
  lemma EndsBehindField(b: seq<byte>, cursor: nat, previous: int, schema: Schema, order: ByteOrder, ordinal: u16,
      v: Taken<Value>)
    requires FieldHere(b, cursor, previous, schema, order, ordinal, v)
    ensures EndsEarly(b, cursor, previous, schema, order) <==> EndsEarly(b, v.cursor, ordinal, schema, order)
  {
    forall n: nat | cursor <= n < |b|
      ensures ParseFields(b[..n], cursor, previous, schema, order).Ok?
        <==> v.cursor <= n && ParseFields(b[..n], v.cursor, ordinal, schema, order).Ok?
    {
      CutField(b[..n], b, cursor, previous, schema, order, ordinal, v);
    }
  }

  lemma CutField(a: seq<byte>, b: seq<byte>, cursor: nat, previous: int, schema: Schema, order: ByteOrder,
      ordinal: u16, v: Taken<Value>)
    requires FieldHere(b, cursor, previous, schema, order, ordinal, v)
    requires a <= b && cursor <= |a|
    ensures ParseFields(a, cursor, previous, schema, order).Ok?
      <==> v.cursor <= |a| && ParseFields(a, v.cursor, ordinal, schema, order).Ok?
  {
    if v.cursor <= |a| {
      CutBehindField(a, b, cursor, previous, schema, order, ordinal, v);
    } else if cursor + 2 <= |a| {
      assert a[cursor..cursor + 2] == b[cursor..cursor + 2];
      ValueTruncated(a, b, cursor + 2, schema.fields[ordinal], order);
    }
  }

  lemma CutBehindField(a: seq<byte>, b: seq<byte>, cursor: nat, previous: int, schema: Schema, order: ByteOrder,
      ordinal: u16, v: Taken<Value>)
    requires FieldHere(b, cursor, previous, schema, order, ordinal, v)
    requires a <= b && cursor <= |a| && v.cursor <= |a|
    ensures ParseFields(a, cursor, previous, schema, order).Ok?
      <==> ParseFields(a, v.cursor, ordinal, schema, order).Ok?
  {
    ParsedValueIsEncoded(b, cursor + 2, schema.fields[ordinal], order);
    ValueShrinks(a, b, cursor + 2, schema.fields[ordinal], order);
    assert a[cursor..cursor + 2] == b[cursor..cursor + 2];
    FieldIsParsed(a, cursor, previous, schema, order, ordinal, v);
  }

  /** If what stands at the cursor is no field that may stand there, no prefix has fields that end. */
  lemma EndsNowhere(b: seq<byte>, cursor: nat, previous: int, schema: Schema, order: ByteOrder)
    requires cursor + 2 <= |b| <= DREC_MAX_LEN
    requires var ordinal := ReadU16(order, b[cursor..cursor + 2]);
      && ordinal != TERMINATOR
      && (previous < ordinal < |schema.fields| ==> ParseValue(b, cursor + 2, schema.fields[ordinal], order).Err?)
    ensures !EndsEarly(b, cursor, previous, schema, order)
  {
    var ordinal := ReadU16(order, b[cursor..cursor + 2]);
    forall n: nat | cursor <= n < |b|
      ensures ParseFields(b[..n], cursor, previous, schema, order).Err?
    {
      var a := b[..n];
      if cursor + 2 <= n {
        assert a[cursor..cursor + 2] == b[cursor..cursor + 2];
        if previous < ordinal < |schema.fields| && ParseValue(a, cursor + 2, schema.fields[ordinal], order).Ok? {
          ValueExtends(a, b, cursor + 2, schema.fields[ordinal], order);
        }
      }
    }
  }

  lemma TrailsNowhere(b: seq<byte>, cursor: nat, previous: int, schema: Schema, order: ByteOrder)
    requires cursor + 2 <= |b| <= DREC_MAX_LEN
    requires var ordinal := ReadU16(order, b[cursor..cursor + 2]);
      && ordinal != TERMINATOR
      && (previous < ordinal < |schema.fields| ==> ParseValue(b, cursor + 2, schema.fields[ordinal], order).Err?)
    ensures ParseFields(b, cursor, previous, schema, order) != Err(TrailingBytes)
  {
  }

  lemma TrailsBehindField(b: seq<byte>, cursor: nat, previous: int, schema: Schema, order: ByteOrder, ordinal: u16,
      v: Taken<Value>)
    requires FieldHere(b, cursor, previous, schema, order, ordinal, v)
    ensures ParseFields(b, cursor, previous, schema, order) == Err(TrailingBytes)
      <==> ParseFields(b, v.cursor, ordinal, schema, order) == Err(TrailingBytes)
  {
    FieldIsParsed(b, cursor, previous, schema, order, ordinal, v);
  }

  lemma {:induction false} TrailingFields(b: seq<byte>, cursor: nat, previous: int, schema: Schema, order: ByteOrder)
    requires cursor <= |b| <= DREC_MAX_LEN
    ensures ParseFields(b, cursor, previous, schema, order) == Err(TrailingBytes)
      <==> EndsEarly(b, cursor, previous, schema, order)
    decreases |b| - cursor
  {
    if cursor + 2 <= |b| {
      var ordinal := ReadU16(order, b[cursor..cursor + 2]);
      if ordinal == TERMINATOR {
        EndsAtTerminator(b, cursor, previous, schema, order);
      } else if previous < ordinal < |schema.fields|
        && ParseValue(b, cursor + 2, schema.fields[ordinal], order).Ok? {
        var v := ParseValue(b, cursor + 2, schema.fields[ordinal], order).value;
        ParsedValueIsEncoded(b, cursor + 2, schema.fields[ordinal], order);
        EndsBehindField(b, cursor, previous, schema, order, ordinal, v);
        TrailsBehindField(b, cursor, previous, schema, order, ordinal, v);
        TrailingFields(b, v.cursor, ordinal, schema, order);
      } else {
        EndsNowhere(b, cursor, previous, schema, order);
        TrailsNowhere(b, cursor, previous, schema, order);
      }
    }
  }

  /** Bytes are refused as trailing exactly if some proper prefix of them is a record. */
  lemma TrailingExactly(b: seq<byte>, schema: Schema, order: ByteOrder)
    requires |b| <= DREC_MAX_LEN
    ensures ParseRecord(b, schema, order) == Err(TrailingBytes)
      <==> exists a :: a < b && ParseRecord(a, schema, order).Ok?
  {
    if b != [] {
      TrailingFields(b, 1, -1, schema, order);
      if EndsEarly(b, 1, -1, schema, order) {
        var n: nat :| 1 <= n < |b| && ParseFields(b[..n], 1, -1, schema, order).Ok?;
        assert b[..n] < b && ParseRecord(b[..n], schema, order).Ok?;
      }
      if a :| a < b && ParseRecord(a, schema, order).Ok? {
        assert a == b[..|a|];
      }
    }
  }
}
