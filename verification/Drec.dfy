/**
The sparse `drec` record grammar `flag (ordinal payload)* FFFF`, its strict
parser and its deterministic encoder.
*/
module Drec {
  import opened Integers
  import opened Sequences
  import opened Outcomes
  import opened Bytes
  import opened Words
  import opened SortedMaps
  import opened LegacyBalance

  const DREC_MAX_LEN := 0x7530
  const TERMINATOR: u16 := 0xFFFF

  datatype ByteOrder = Little | Big

  datatype Class =
    | End | String | Bytes | F | I | L | H | U | LegacyBalance | Z | PointerSizedD

  /** Exactly nine opaque bytes. */
  type NineBytes = s: seq<byte> | |s| == 9 witness [0, 0, 0, 0, 0, 0, 0, 0, 0]

  datatype Value =
    | StringValue(text: seq<byte>)
    | BytesValue(bytes: seq<byte>)
    | U32Value(word: u32)
    | U16Value(half: u16)
    | BalanceValue(balance: Balance)
    | ZValue(opaqueBytes: NineBytes)

  datatype Descriptor = Descriptor(class_: Class, length: nat, default: Option<Value>)

  datatype Schema = Schema(fields: seq<Descriptor>)

  /** A decoded field; ranges are half-open positions in the record. */
  datatype Field = Field(ordinal: u16, value: Value, byteStart: nat, byteEnd: nat, payloadStart: nat, payloadEnd: nat)

  /** The fields are a map from ordinals, in ordinal order. */
  datatype Record = Record(flag: byte, fields: seq<Entry<Field>>) {
    ghost predicate Valid() {
      Ascending(fields) && forall i :: 0 <= i < |fields| ==> 0 <= fields[i].key < 0x1_0000
    }
  }

  datatype DrecError =
    | UnknownClass | MissingDescriptorTerminator | EarlyDescriptorTerminator | InvalidEndDescriptor
    | InvalidDescriptorLength | PointerSizedFieldUnsupported | Truncated | RecordTooLarge
    | OrdinalOutOfRange | SchemaTooLarge | DuplicateOrdinal | NonIncreasingOrdinal
    | FieldOrdinalMismatch | UnterminatedString | TrailingBytes | ValueDoesNotMatchDescriptor
    | UnexpectedEndDescriptor | LengthOverflow | BadBalance(balanceError: BalanceError)

  // ---------------------------------------------------------------------
  // Descriptors

  /** The ASCII tag of a class. */
  function Tag(c: Class): byte {
    match c
    case End => 69
    case String => 83
    case Bytes => 66
    case F => 70
    case I => 73
    case L => 76
    case H => 72
    case U => 85
    case LegacyBalance => 77
    case Z => 90
    case PointerSizedD => 68
  }

  function FromTag(tag: byte): Result<Class, DrecError> {
    if tag == 69 then Ok(End)
    else if tag == 83 then Ok(String)
    else if tag == 66 then Ok(Bytes)
    else if tag == 70 then Ok(F)
    else if tag == 73 then Ok(I)
    else if tag == 76 then Ok(L)
    else if tag == 72 then Ok(H)
    else if tag == 85 then Ok(U)
    else if tag == 77 then Ok(LegacyBalance)
    else if tag == 90 then Ok(Z)
    else if tag == 68 then Ok(PointerSizedD)
    else Err(UnknownClass)
  }

  /** The value is one the descriptor can hold. */
  predicate Matches(d: Descriptor, v: Value) {
    match v
    case StringValue(text) => d.class_ == String && |text| + 1 <= d.length && 0 !in text
    case BytesValue(bytes) => d.class_ == Bytes && |bytes| == d.length
    case U32Value(_) => d.class_ == F || d.class_ == I || d.class_ == L
    case U16Value(_) => d.class_ == H || d.class_ == U
    case BalanceValue(_) => d.class_ == LegacyBalance
    case ZValue(_) => d.class_ == Z
  }

  /** The declared length is one the class allows; two classes allow none. */
  predicate LengthFits(d: Descriptor) {
    match d.class_
    case String => d.length > 0
    case Bytes => true
    case F => d.length == 4
    case I => d.length == 4
    case L => d.length == 4
    case H => d.length == 2
    case U => d.length == 2
    case LegacyBalance => d.length == 6
    case Z => d.length == 9
    case End => false
    case PointerSizedD => false
  }

  predicate ValidDescriptor(d: Descriptor) {
    LengthFits(d) && (d.default.Some? ==> Matches(d, d.default.value))
  }

  predicate ValidSchema(s: Schema) {
    |s.fields| <= 0xFFFF && forall d :: d in s.fields ==> ValidDescriptor(d)
  }

  function ValidateDescriptor(d: Descriptor): (r: Result<(), DrecError>)
    ensures r.Ok? <==> ValidDescriptor(d)
    ensures r == Err(EarlyDescriptorTerminator) <==> d.class_.End?
    ensures r == Err(PointerSizedFieldUnsupported) <==> d.class_.PointerSizedD?
    ensures r == Err(InvalidDescriptorLength) <==> !LengthFits(d) && !d.class_.End? && !d.class_.PointerSizedD?
    ensures r == Err(ValueDoesNotMatchDescriptor) <==>
      LengthFits(d) && d.default.Some? && !Matches(d, d.default.value)
  {
    if d.class_ == End then Err(EarlyDescriptorTerminator)
    else if d.class_ == PointerSizedD then Err(PointerSizedFieldUnsupported)
    else if !LengthFits(d) then Err(InvalidDescriptorLength)
    else if d.default.Some? && !Matches(d, d.default.value) then Err(ValueDoesNotMatchDescriptor)
    else Ok(())
  }

  /** A schema is accepted exactly when one bare `E` closes at most 65535 valid descriptors. */
  method NewSchema(descriptors: seq<Descriptor>) returns (r: Result<Schema, DrecError>)
    ensures r.Ok? <==>
      && descriptors != []
      && descriptors[|descriptors| - 1] == Descriptor(End, 0, None)
      && ValidSchema(Schema(descriptors[..|descriptors| - 1]))
    ensures r.Ok? ==> r.value == Schema(descriptors[..|descriptors| - 1])
    ensures r == Err(MissingDescriptorTerminator) <==>
      descriptors == [] || descriptors[|descriptors| - 1].class_ != End
    ensures r == Err(InvalidEndDescriptor) <==>
      && descriptors != [] && descriptors[|descriptors| - 1].class_ == End
      && descriptors[|descriptors| - 1] != Descriptor(End, 0, None)
    ensures r == Err(SchemaTooLarge) <==>
      |descriptors| > 0x1_0000 && descriptors[|descriptors| - 1] == Descriptor(End, 0, None)
  {
    if descriptors == [] {
      return Err(MissingDescriptorTerminator);
    }
    var last := descriptors[|descriptors| - 1];
    var fields := descriptors[..|descriptors| - 1];
    if last.class_ != End {
      return Err(MissingDescriptorTerminator);
    }
    if last.length != 0 || last.default.Some? {
      return Err(InvalidEndDescriptor);
    }
    if |fields| > 0xFFFF {
      return Err(SchemaTooLarge);
    }
    for ordinal := 0 to |fields|
      invariant forall k :: 0 <= k < ordinal ==> ValidDescriptor(fields[k])
    {
      var checked := ValidateDescriptor(fields[ordinal]);
      if checked.Err? {
        assert fields[ordinal] in fields;
        return Err(checked.error);
      }
    }
    return Ok(Schema(fields));
  }

  // ---------------------------------------------------------------------
  // Fixed-width integers in either byte order

  function ReadU16(order: ByteOrder, b: seq<byte>): u16
    requires |b| == 2
  {
    if order == Little then Join16(b[1], b[0]) else Join16(b[0], b[1])
  }

  function WriteU16(order: ByteOrder, x: u16): (b: seq<byte>)
    ensures |b| == 2
  {
    var s := Split16(x);
    if order == Little then [s[1], s[0]] else s
  }

  function ReadU32(order: ByteOrder, b: seq<byte>): u32
    requires |b| == 4
  {
    if order == Little then JoinBig(b[3], b[2], b[1], b[0]) else JoinBig(b[0], b[1], b[2], b[3])
  }

  function WriteU32(order: ByteOrder, x: u32): (b: seq<byte>)
    ensures |b| == 4
  {
    var s := SplitBig(x);
    if order == Little then [s[3], s[2], s[1], s[0]] else s
  }

  /** The bytes of a word, the most significant first. */
  function Oriented(order: ByteOrder, b: seq<byte>): seq<byte> {
    match order
    case Big => b
    case Little => Reversed(b)
  }

  lemma ReadIsNumeral(order: ByteOrder, half: seq<byte>, word: seq<byte>)
    requires |half| == 2 && |word| == 4
    ensures ReadU16(order, half) == Numeral(Oriented(order, half))
    ensures ReadU32(order, word) == Numeral(Oriented(order, word))
  {
    match order {
      case Big =>
        JoinIsNumeral(word[0], word[1], half[0], half[1]);
        JoinIsNumeral(word[0], word[1], word[2], word[3]);
        assert half == [half[0], half[1]] && word == [word[0], word[1], word[2], word[3]];
      case Little =>
        JoinIsNumeral(word[3], word[2], half[1], half[0]);
        JoinIsNumeral(word[3], word[2], word[1], word[0]);
        assert Reversed(half) == [half[1], half[0]] && Reversed(word) == [word[3], word[2], word[1], word[0]];
    }
  }

  lemma U16RoundTrip(order: ByteOrder, x: u16, b: seq<byte>)
    requires |b| == 2
    ensures ReadU16(order, WriteU16(order, x)) == x
    ensures WriteU16(order, ReadU16(order, b)) == b
  {
    SplitOfJoin16(b[1], b[0]);
    SplitOfJoin16(b[0], b[1]);
  }

  lemma U32RoundTrip(order: ByteOrder, x: u32, b: seq<byte>)
    requires |b| == 4
    ensures ReadU32(order, WriteU32(order, x)) == x
    ensures WriteU32(order, ReadU32(order, b)) == b
  {
    if order == Little {
      SplitOfJoin(b[3], b[2], b[1], b[0]);
    } else {
      SplitOfJoin(b[0], b[1], b[2], b[3]);
    }
  }

  // ---------------------------------------------------------------------
  // Values

  /** A slice taken at a cursor, and the cursor after it. */
  datatype Taken<T> = Taken(value: T, cursor: nat)

  function TakeSlice(bytes: seq<byte>, cursor: nat, count: nat): (r: Result<Taken<seq<byte>>, DrecError>)
    ensures r.Ok? <==> cursor + count <= USIZE_MAX && cursor + count <= |bytes|
    ensures r.Ok? ==> r.value.cursor == cursor + count <= |bytes| && r.value.value == bytes[cursor..cursor + count]
  {
    if cursor + count > USIZE_MAX then Err(LengthOverflow)
    else if cursor + count > |bytes| then Err(Truncated)
    else Ok(Taken(bytes[cursor..cursor + count], cursor + count))
  }

  /** The position of the first NUL. */
  function FindNul(s: seq<byte>): (r: Option<nat>)
    ensures r.None? <==> 0 !in s
    ensures r.Some? ==> r.value < |s| && s[r.value] == 0 && 0 !in s[..r.value]
  {
    if s == [] then None
    else if s[0] == 0 then Some(0)
    else
      var r := FindNul(s[1..]);
      assert s == [s[0]] + s[1..];
      if r.None? then None
      else
        assert s[..r.value + 1] == [s[0]] + s[1..][..r.value];
        Some(r.value + 1)
  }

  function Min(a: nat, b: nat): nat {
    if a < b then a else b
  }

  function ParseString(bytes: seq<byte>, start: nat, bound: nat): Result<Taken<Value>, DrecError>
    requires start <= |bytes|
  {
    if start + bound > USIZE_MAX then Err(LengthOverflow)
    else
      var bounded := bytes[start..Min(start + bound, |bytes|)];
      match FindNul(bounded)
      case None => if start + bound > |bytes| then Err(Truncated) else Err(UnterminatedString)
      case Some(nul) => Ok(Taken(StringValue(bounded[..nul]), start + nul + 1))
  }

  function ParseValue(bytes: seq<byte>, cursor: nat, d: Descriptor, order: ByteOrder): Result<Taken<Value>, DrecError>
    requires cursor <= |bytes|
  {
    match d.class_
    case String => ParseString(bytes, cursor, d.length)
    case Bytes =>
      (match TakeSlice(bytes, cursor, d.length)
       case Err(e) => Err(e)
       case Ok(t) => Ok(Taken(BytesValue(t.value), t.cursor)))
    case F => ParseWord(bytes, cursor, order)
    case I => ParseWord(bytes, cursor, order)
    case L => ParseWord(bytes, cursor, order)
    case H => ParseHalf(bytes, cursor, order)
    case U => ParseHalf(bytes, cursor, order)
    case LegacyBalance =>
      (match TakeSlice(bytes, cursor, 6)
       case Err(e) => Err(e)
       case Ok(t) =>
         match FromDiskBytes(t.value)
         case Err(e) => Err(BadBalance(e))
         case Ok(balance) => Ok(Taken(BalanceValue(balance), t.cursor)))
    case Z =>
      (match TakeSlice(bytes, cursor, 9)
       case Err(e) => Err(e)
       case Ok(t) => Ok(Taken(ZValue(t.value), t.cursor)))
    case End => Err(UnexpectedEndDescriptor)
    case PointerSizedD => Err(PointerSizedFieldUnsupported)
  }

  function ParseWord(bytes: seq<byte>, cursor: nat, order: ByteOrder): Result<Taken<Value>, DrecError> {
    match TakeSlice(bytes, cursor, 4)
    case Err(e) => Err(e)
    case Ok(t) => Ok(Taken(U32Value(ReadU32(order, t.value)), t.cursor))
  }

  function ParseHalf(bytes: seq<byte>, cursor: nat, order: ByteOrder): Result<Taken<Value>, DrecError> {
    match TakeSlice(bytes, cursor, 2)
    case Err(e) => Err(e)
    case Ok(t) => Ok(Taken(U16Value(ReadU16(order, t.value)), t.cursor))
  }

  function EncodedValue(v: Value, order: ByteOrder): seq<byte> {
    match v
    case StringValue(text) => text + [0]
    case BytesValue(bytes) => bytes
    case U32Value(word) => WriteU32(order, word)
    case U16Value(half) => WriteU16(order, half)
    case BalanceValue(balance) => ToDiskBytes(balance)
    case ZValue(opaqueBytes) => opaqueBytes
  }

  /** The source's own length table; it must agree with what is written. */
  function ValueEncodedLen(v: Value): (n: nat)
    ensures forall order :: n == |EncodedValue(v, order)|
  {
    match v
    case StringValue(text) => |text| + 1
    case BytesValue(bytes) => |bytes|
    case U32Value(_) => 4
    case U16Value(_) => 2
    case BalanceValue(_) => 6
    case ZValue(_) => 9
  }

  lemma ParsedStringIsEncoded(bytes: seq<byte>, start: nat, bound: nat)
    requires start <= |bytes| && ParseString(bytes, start, bound).Ok?
    ensures var t := ParseString(bytes, start, bound).value;
      && start < t.cursor <= |bytes|
      && t.value.StringValue? && |t.value.text| + 1 <= bound && 0 !in t.value.text
      && bytes[start..t.cursor] == t.value.text + [0]
  {
    var bounded := bytes[start..Min(start + bound, |bytes|)];
    var nul := FindNul(bounded).value;
    assert bytes[start..start + nul + 1] == bounded[..nul] + [0];
  }

  /** A parsed value fits its descriptor, and the bytes it was read from are its encoding. */
  lemma ParsedValueIsEncoded(bytes: seq<byte>, cursor: nat, d: Descriptor, order: ByteOrder)
    requires cursor <= |bytes| && ParseValue(bytes, cursor, d, order).Ok?
    ensures var t := ParseValue(bytes, cursor, d, order).value;
      && cursor <= t.cursor <= |bytes|
      && Matches(d, t.value)
      && bytes[cursor..t.cursor] == EncodedValue(t.value, order)
  {
    match d.class_
    case String =>
      ParsedStringIsEncoded(bytes, cursor, d.length);
    case F => U32RoundTrip(order, 0, TakeSlice(bytes, cursor, 4).value.value);
    case I => U32RoundTrip(order, 0, TakeSlice(bytes, cursor, 4).value.value);
    case L => U32RoundTrip(order, 0, TakeSlice(bytes, cursor, 4).value.value);
    case H => U16RoundTrip(order, 0, TakeSlice(bytes, cursor, 2).value.value);
    case U => U16RoundTrip(order, 0, TakeSlice(bytes, cursor, 2).value.value);
    case LegacyBalance => DiskBytesPreserved(TakeSlice(bytes, cursor, 6).value.value);
    case _ =>
  }

  /**
    The guard of the one branch where reading back can fail: a string's bound, counted from its payload, leaves
    `usize`.
  */
  predicate BoundFits(d: Descriptor, payloadStart: nat) {
    d.class_ == String ==> payloadStart + d.length <= USIZE_MAX
  }

  lemma {:induction false} FindNulIs(s: seq<byte>, nul: nat)
    requires nul < |s| && s[nul] == 0 && 0 !in s[..nul]
    ensures FindNul(s) == Some(nul)
  {
    if nul > 0 {
      assert s[..nul][0] == s[0];
      assert s[1..][..nul - 1] == s[..nul][1..];
      FindNulIs(s[1..], nul - 1);
    }
  }

  lemma TextInFront(bytes: seq<byte>, cursor: nat, end: nat, text: seq<byte>)
    requires cursor + |text| + 1 <= end <= |bytes|
    requires bytes[cursor..cursor + |text| + 1] == text + [0]
    ensures bytes[cursor..end][..|text|] == text && bytes[cursor..end][|text|] == 0
  {
    var slice := bytes[cursor..cursor + |text| + 1];
    assert bytes[cursor..end][..|text| + 1] == slice;
    assert bytes[cursor..end][..|text|] == slice[..|text|];
    assert bytes[cursor..end][|text|] == slice[|text|];
  }

  lemma StringIsParsed(bytes: seq<byte>, cursor: nat, bound: nat, text: seq<byte>)
    requires |text| + 1 <= bound && 0 !in text
    requires cursor + |text| + 1 <= |bytes| && bytes[cursor..cursor + |text| + 1] == text + [0]
    requires cursor + bound <= USIZE_MAX
    ensures ParseString(bytes, cursor, bound) == Ok(Taken(StringValue(text), cursor + |text| + 1))
  {
    TextInFront(bytes, cursor, Min(cursor + bound, |bytes|), text);
    FindNulIs(bytes[cursor..Min(cursor + bound, |bytes|)], |text|);
  }

  lemma FixedIsParsed(bytes: seq<byte>, cursor: nat, d: Descriptor, v: Value, order: ByteOrder)
    requires Matches(d, v) && !v.StringValue? && |bytes| <= DREC_MAX_LEN
    requires cursor + ValueEncodedLen(v) <= |bytes|
    requires bytes[cursor..cursor + ValueEncodedLen(v)] == EncodedValue(v, order)
    ensures ParseValue(bytes, cursor, d, order) == Ok(Taken(v, cursor + ValueEncodedLen(v)))
  {
    var slice := bytes[cursor..cursor + ValueEncodedLen(v)];
    match v
    case U32Value(word) => U32RoundTrip(order, word, slice);
    case U16Value(half) => U16RoundTrip(order, half, slice);
    case BalanceValue(balance) => DiskRoundTrip(balance);
    case BytesValue(_) =>
    case ZValue(_) =>
  }

  /** An encoded value is read back from where it was written, unless its bound does not fit. */
  lemma EncodedValueIsParsed(bytes: seq<byte>, cursor: nat, d: Descriptor, v: Value, order: ByteOrder)
    requires Matches(d, v) && |bytes| <= DREC_MAX_LEN
    requires cursor + ValueEncodedLen(v) <= |bytes|
    requires bytes[cursor..cursor + ValueEncodedLen(v)] == EncodedValue(v, order)
    ensures ParseValue(bytes, cursor, d, order) ==
      if BoundFits(d, cursor) then Ok(Taken(v, cursor + ValueEncodedLen(v))) else Err(LengthOverflow)
  {
    if v.StringValue? {
      if BoundFits(d, cursor) {
        StringIsParsed(bytes, cursor, d.length, v.text);
      }
    } else {
      FixedIsParsed(bytes, cursor, d, v, order);
    }
  }
}
