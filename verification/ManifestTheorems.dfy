/** The manifest read back is the transitions that were written. */
module ManifestTheorems {
  import opened Integers
  import opened Sequences
  import opened ControlNoise
  import opened Manifest
  import opened Money
  import opened Outcomes

  // ---------------------------------------------------------------------
  // Searching by a mark

  lemma MarkBlocks(a: string, needle: string, rest: string, mark: nat)
    requires mark < |needle| && needle[mark] !in a && needle[mark] !in needle[..mark] && a != []
    ensures !OccursAt(a + needle + rest, needle, 0)
  {
    var s := a + needle + rest;
    if mark < |a| {
      assert s[mark] == a[mark] && a[mark] in a;
    } else {
      assert s[mark] == needle[..mark][mark - |a|];
    }
    assert s[..|needle|][mark] == s[mark];
  }

  /** A needle with a character that nothing before it has is found where it stands. */
  lemma {:induction false} FindByMark(a: string, needle: string, rest: string, mark: nat)
    requires mark < |needle| && needle[mark] !in a && needle[mark] !in needle[..mark]
    ensures Find(a + needle + rest, needle) == Some(|a|)
    decreases |a|
  {
    var s := a + needle + rest;
    if a == [] {
      assert s[..|needle|] == needle;
    } else {
      MarkBlocks(a, needle, rest, mark);
      assert s[1..] == a[1..] + needle + rest;
      FindByMark(a[1..], needle, rest, mark);
    }
  }

  lemma SplitAround(a: string, needle: string, rest: string, mark: nat)
    requires mark < |needle| && needle[mark] !in a && needle[mark] !in needle[..mark]
    ensures Before(a + needle + rest, needle) == Some(a)
    ensures After(a + needle + rest, needle) == Some(rest)
  {
    FindByMark(a, needle, rest, mark);
    var s := a + needle + rest;
    assert s[..|a|] == a;
    assert s[|a| + |needle|..] == rest;
  }

  // ---------------------------------------------------------------------
  // One transition

  predicate WellFormed(e: Entry) {
    IsSha256Hex(e.pair.before) && IsSha256Hex(e.pair.after) && 0 < e.count <= U64_MAX
  }

  /** None of the characters by which the reader tells keys, values and pieces apart. */
  predicate Tame(s: string) {
    '"' !in s && 't' !in s && 'u' !in s && '{' !in s && '}' !in s && ']' !in s && '_' !in s
  }

  predicate TameEntry(e: Entry) {
    Tame(e.pair.before) && Tame(e.pair.after)
  }

  lemma HexIsTame(s: string)
    requires IsSha256Hex(s)
    ensures Tame(s) && forall ch :: ch in s ==> IsHexDigit(ch)
  {
  }

  /** The value behind a key that is found by a mark. */
  lemma StringIsFound(a: string, key: string, value: string, tail: string, mark: nat)
    requires mark < |key| && key[mark] !in a && key[mark] !in key[..mark]
    requires '"' !in value
    ensures ObjectString(a + key + (value + "\"" + tail), key) == Ok(value)
  {
    SplitAround(a, key, value + "\"" + tail, mark);
    SplitAround(value, "\"", tail, 0);
  }

  lemma {:induction false} TakeAllDigits(s: string)
    requires AllDigits(s)
    ensures TakeDigits(s) == s
  {
    if s != [] {
      assert IsDigit(s[0]);
      TakeAllDigits(s[1..]);
    }
  }

  lemma AfterKeyIsMarked(before: string)
    requires Tame(before)
    ensures 't' !in BEFORE_KEY + before + "\"," && AFTER_KEY[3] == 't' && 't' !in AFTER_KEY[..3]
  {
    assert 't' !in BEFORE_KEY;
  }

  lemma CountKeyIsMarked(before: string, after: string)
    requires Tame(before) && Tame(after)
    ensures 'u' !in BEFORE_KEY + before + "\"," + AFTER_KEY + after + "\"," && COUNT_KEY[3] == 'u'
      && 'u' !in COUNT_KEY[..3]
  {
    assert 'u' !in BEFORE_KEY && 'u' !in AFTER_KEY;
  }

  lemma Regrouped(key: string, value: string, quote: string, comma: string, rest: string)
    ensures key + value + (quote + comma) + rest == [] + key + (value + quote + (comma + rest))
  {
  }

  lemma BehindFirst(lead: string, a: string, b: string, c: string, d: string, e: string)
    ensures lead + a + b + c + d + e == lead + (a + b + c + d + e)
  {
  }

  lemma BeforeIsFound(e: Entry)
    requires TameEntry(e)
    ensures ObjectString(ObjectText(e), BEFORE_KEY) == Ok(e.pair.before)
  {
    var rest := AFTER_KEY + e.pair.after + "\"," + COUNT_KEY + Decimal(e.count);
    StringIsFound([], BEFORE_KEY, e.pair.before, "," + rest, 1);
    BehindFirst(BEFORE_KEY + e.pair.before + "\",", AFTER_KEY, e.pair.after, "\",", COUNT_KEY, Decimal(e.count));
    assert "\"" + "," == "\",";
    Regrouped(BEFORE_KEY, e.pair.before, "\"", ",", rest);
  }

  lemma AfterIsFound(e: Entry)
    requires TameEntry(e)
    ensures ObjectString(ObjectText(e), AFTER_KEY) == Ok(e.pair.after)
  {
    var lead, tail := BEFORE_KEY + e.pair.before + "\",", "," + COUNT_KEY + Decimal(e.count);
    AfterKeyIsMarked(e.pair.before);
    StringIsFound(lead, AFTER_KEY, e.pair.after, tail, 3);
    assert ObjectText(e) == lead + AFTER_KEY + (e.pair.after + "\"" + tail);
  }

  lemma CountIsFound(e: Entry)
    requires TameEntry(e)
    ensures ObjectU64(ObjectText(e)) == if e.count > U64_MAX then Err(InvalidCount) else Ok(e.count)
  {
    var lead := BEFORE_KEY + e.pair.before + "\"," + AFTER_KEY + e.pair.after + "\",";
    CountKeyIsMarked(e.pair.before, e.pair.after);
    SplitAround(lead, COUNT_KEY, Decimal(e.count), 3);
    NumberOfDecimal(e.count);
    TakeAllDigits(Decimal(e.count));
  }

  // ---------------------------------------------------------------------
  // The pieces of the array

  predicate Plain(s: string) {
    '{' !in s && '}' !in s && ']' !in s
  }

  lemma PlainJoined(a: string, b: string, c: string, d: string)
    requires Plain(a) && Plain(b) && Plain(c) && Plain(d)
    ensures Plain(a + b + c + d)
  {
  }

  lemma DigitsArePlain(n: nat)
    ensures Plain(Decimal(n)) && Decimal(n) != []
  {
    NumberOfDecimal(n);
  }

  /** A transition has no braces and no brackets of its own. */
  lemma ObjectIsPlain(e: Entry)
    requires TameEntry(e)
    ensures Plain(ObjectText(e)) && ObjectText(e) != []
  {
    DigitsArePlain(e.count);
    PlainParts(e.pair.before, e.pair.after, Decimal(e.count));
  }

  lemma PlainParts(before: string, after: string, digits: string)
    requires Plain(before) && Plain(after) && Plain(digits)
    ensures Plain(BEFORE_KEY + before + "\"," + AFTER_KEY + after + "\"," + COUNT_KEY + digits)
  {
    KeysArePlain();
    PlainSeven(BEFORE_KEY, before, "\",", AFTER_KEY, after, COUNT_KEY, digits);
  }

  lemma KeysArePlain()
    ensures Plain(BEFORE_KEY) && Plain(AFTER_KEY) && Plain(COUNT_KEY) && Plain("\",")
  {
    BeforeKeyIsPlain();
    AfterKeyIsPlain();
  }

  lemma BeforeKeyIsPlain()
    ensures Plain(BEFORE_KEY)
  {
  }

  lemma AfterKeyIsPlain()
    ensures Plain(AFTER_KEY)
  {
  }

  lemma PlainSeven(a: string, b: string, c: string, d: string, e: string, f: string, g: string)
    requires Plain(a) && Plain(b) && Plain(c) && Plain(d) && Plain(e) && Plain(f) && Plain(g)
    ensures Plain(a + b + c + d + e + c + f + g)
  {
    PlainJoined(a, b, c, d);
    PlainJoined(a + b + c + d, e, c, f);
    PlainJoined(a + b + c + d + e + c + f, g, [], []);
  }

  /** What may stand before the first transition or behind the last. */
  predicate Edge(s: string, brace: char) {
    s == [] || s == [brace]
  }

  lemma BracesComeOff(lead: string, s: string, trail: string)
    requires Edge(lead, '{') && Edge(trail, '}') && s != [] && Plain(s)
    ensures TrimBraces(lead + s + trail) == s
  {
    assert s[0] in s && s[|s| - 1] in s;
    assert TrimBracesStart(s) == s;
    var whole := lead + s;
    assert TrimBracesStart(whole) == s by {
      if lead != [] {
        assert whole[1..] == s;
      } else {
        assert whole == s;
      }
    }
    assert whole[|whole| - 1] == s[|s| - 1];
    if trail != [] {
      assert (whole + trail)[..|whole|] == whole;
    } else {
      assert whole + trail == whole;
    }
  }

  /** A transition, or why it is refused. */
  function Checked(e: Entry): Result<Entry, ManifestError> {
    if e.count > U64_MAX then Err(InvalidCount)
    else if !IsSha256Hex(e.pair.before) || !IsSha256Hex(e.pair.after) || e.count == 0 then Err(InvalidTransition)
    else Ok(e)
  }

  lemma ObjectIsRead(lead: string, e: Entry, trail: string)
    requires TameEntry(e) && Edge(lead, '{') && Edge(trail, '}')
    ensures ReadObject(lead + ObjectText(e) + trail) == Checked(e)
  {
    ObjectIsPlain(e);
    BracesComeOff(lead, ObjectText(e), trail);
    BeforeIsFound(e);
    AfterIsFound(e);
    CountIsFound(e);
  }

  ghost predicate AllWellFormed(entries: seq<Entry>) {
    forall e :: e in entries ==> WellFormed(e)
  }

  ghost predicate AllTame(entries: seq<Entry>) {
    forall e :: e in entries ==> TameEntry(e)
  }

  lemma WellFormedAreTame(entries: seq<Entry>)
    requires AllWellFormed(entries)
    ensures AllTame(entries)
  {
    forall e | e in entries
      ensures TameEntry(e)
    {
      HexIsTame(e.pair.before);
      HexIsTame(e.pair.after);
    }
  }

  /** What adding one transition gives, if it is not refused. */
  function Counted(counts: multiset<HashPair>, e: Entry): Result<multiset<HashPair>, ManifestError> {
    var sum := counts[e.pair] + e.count;
    if Checked(e).Err? then Err(Checked(e).error)
    else if sum > U64_MAX then Err(CountOverflow)
    else Ok(counts[e.pair := sum])
  }

  /** What adding up the transitions gives, or why the first bad one is refused. */
  function Summed(counts: multiset<HashPair>, entries: seq<Entry>): Result<multiset<HashPair>, ManifestError>
    decreases |entries|
  {
    if entries == [] then Ok(counts)
    else
      var more := Counted(counts, entries[0]);
      if more.Err? then more else Summed(more.value, entries[1..])
  }

  /** Going on with further pieces, unless something was refused. */
  function WithPieces(sum: Result<multiset<HashPair>, ManifestError>, pieces: seq<string>)
    : Result<multiset<HashPair>, ManifestError>
  {
    if sum.Err? then sum else AddPieces(sum.value, pieces)
  }

  lemma LastPiece(lead: string, e: Entry, counts: multiset<HashPair>)
    requires TameEntry(e) && Edge(lead, '{')
    ensures AddPieces(counts, Split(lead + (ObjectText(e) + "}"))) == Counted(counts, e)
  {
    var own := lead + ObjectText(e);
    ObjectIsPlain(e);
    RegroupMiddle(lead, ObjectText(e), "}", []);
    SplitLast(own);
    ObjectIsRead(lead, e, "}");
    PieceIsAdded(counts, own + "}", e, []);
  }

  lemma NextPiece(lead: string, e: Entry, behind: string, counts: multiset<HashPair>)
    requires TameEntry(e) && Edge(lead, '{')
    ensures AddPieces(counts, Split(lead + (ObjectText(e) + (BETWEEN + behind))))
      == WithPieces(Counted(counts, e), Split(behind))
  {
    ObjectIsPlain(e);
    ObjectIsRead(lead, e, []);
    assert lead + ObjectText(e) + [] == lead + ObjectText(e);
    Regroup(lead, ObjectText(e), BETWEEN, behind);
    SplitOnce(lead + ObjectText(e), behind);
    PieceIsAdded(counts, lead + ObjectText(e), e, Split(behind));
  }

  /** The array splits into its transitions, whichever braces are left on the outer two, and adds up to them. */
  lemma {:induction false} PiecesAddUp(lead: string, entries: seq<Entry>, counts: multiset<HashPair>)
    requires entries != [] && AllTame(entries) && Edge(lead, '{')
    ensures AddPieces(counts, Split(lead + HistogramBody(entries))) == Summed(counts, entries)
    decreases |entries|
  {
    var e, rest := entries[0], entries[1..];
    if |entries| == 1 {
      LastPiece(lead, e, counts);
    } else {
      NextPiece(lead, e, HistogramBody(rest), counts);
      var sum := Counted(counts, e);
      if sum.Ok? {
        PiecesAddUp([], rest, sum.value);
        assert [] + HistogramBody(rest) == HistogramBody(rest);
      }
    }
  }

  lemma PieceIsAdded(counts: multiset<HashPair>, piece: string, e: Entry, pieces: seq<string>)
    requires ReadObject(piece) == Checked(e)
    ensures AddPieces(counts, [piece] + pieces)
      == WithPieces(Counted(counts, e), pieces)
  {
    assert ([piece] + pieces)[1..] == pieces;
  }

  lemma SplitLast(own: string)
    requires '}' !in own
    ensures Split(own + "}") == [own + "}"] + []
  {
    TooShort(own);
  }

  lemma SplitOnce(own: string, behind: string)
    requires '}' !in own
    ensures Split(own + BETWEEN + behind) == [own] + Split(behind)
  {
    FindByMark(own, BETWEEN, behind, 0);
    var s := own + BETWEEN + behind;
    assert s[..|own|] == own && s[|own| + |BETWEEN|..] == behind;
  }

  /** A closing brace at the very end separates nothing. */
  lemma {:induction false} TooShort(own: string)
    requires '}' !in own
    ensures Find(own + "}", BETWEEN) == None
    decreases |own|
  {
    var s := own + "}";
    if own != [] {
      assert s[0] == own[0] && own[0] in own;
      assert |s| >= 3 ==> s[..3][0] == s[0];
      assert s[1..] == own[1..] + "}";
      TooShort(own[1..]);
    } else {
      assert s[1..] == [];
    }
  }

  // ---------------------------------------------------------------------
  // The array is found

  /** No underscore has an h behind it. */
  ghost predicate Apart(s: string) {
    forall i :: 0 <= i < |s| - 1 && s[i] == '_' ==> s[i + 1] != 'h'
  }

  ghost predicate Clear(s: string) {
    Apart(s) && (s != [] ==> s[0] != 'h')
  }

  lemma ApartJoined(a: string, b: string)
    requires Apart(a) && Clear(b)
    ensures Apart(a + b)
  {
    var s := a + b;
    forall i | 0 <= i < |s| - 1 && s[i] == '_' ensures s[i + 1] != 'h' {
      if i + 1 == |a| {
        assert s[i + 1] == b[0];
      } else if i + 1 < |a| {
        assert a[i] == s[i] && a[i + 1] == s[i + 1];
      } else {
        assert b[i - |a|] == s[i] && b[i + 1 - |a|] == s[i + 1];
      }
    }
  }

  lemma ClearJoined(a: string, b: string)
    requires Clear(a) && Clear(b)
    ensures Clear(a + b)
  {
    ApartJoined(a, b);
  }

  lemma ClearThree(a: string, b: string, c: string)
    requires Clear(a) && Clear(b) && Clear(c)
    ensures Clear(a + b + c)
  {
    ClearJoined(a, b);
    ClearJoined(a + b, c);
  }

  lemma DigitsAreClear(n: nat)
    ensures Clear(Decimal(n))
  {
    NumberOfDecimal(n);
    var s := Decimal(n);
    forall i | 0 <= i < |s| ensures IsDigit(s[i]) {
      assert s[i] in s;
    }
  }

  /** Any word of a member name; none starts with an h. */
  predicate Word(w: string) {
    w != [] && w[0] != 'h' && '_' !in w
  }

  ghost predicate Words(words: seq<string>) {
    words != [] && forall i :: 0 <= i < |words| ==> Word(words[i])
  }

  lemma {:induction false} SnakeIsClear(words: seq<string>)
    requires Words(words)
    ensures Clear(Snake(words))
    decreases |words|
  {
    if |words| > 1 {
      SnakeIsClear(words[1..]);
      ClearThree(words[0], "_", Snake(words[1..]));
    }
  }

  lemma MemberIsClear(words: seq<string>)
    requires Words(words)
    ensures Clear(Member(words))
  {
    SnakeIsClear(words);
    ClearThree("\"", Snake(words), "\":");
  }

  lemma NumberedIsClear(words: seq<string>, n: nat)
    requires Words(words)
    ensures Clear(Numbered(words, n))
  {
    MemberIsClear(words);
    DigitsAreClear(n);
    ClearThree(",", Member(words), Decimal(n));
  }

  lemma IdentityIsClear(key: string, id: Identity<string>)
    requires Word(key) && IsSha256Hex(id.sha256)
    ensures Clear(IdentityText(key, id))
  {
    var lead, middle := "\"" + key + "\":{", ",\"sha256\":\"";
    ClearThree("\"", key, "\":{");
    MemberIsClear(["byte", "length"]);
    DigitsAreClear(id.byteLength);
    ClearThree(lead, Member(["byte", "length"]), Decimal(id.byteLength));
    assert Clear(middle) && Clear(id.sha256) && Clear("\"}");
    var all := lead + Member(["byte", "length"]) + Decimal(id.byteLength);
    ClearThree(all, middle, id.sha256);
    ClearJoined(all + middle + id.sha256, "\"}");
  }

  lemma TypeNamesAreClear(e: TypeEntry)
    ensures Clear(Member(["before", "page", "type", "raw"]))
    ensures Clear(Numbered(["after", "page", "type", "raw"], e.after)) && Clear(Numbered(["count"], e.count))
  {
    MemberIsClear(["before", "page", "type", "raw"]);
    NumberedIsClear(["after", "page", "type", "raw"], e.after);
    NumberedIsClear(["count"], e.count);
  }

  lemma TypeIsClear(e: TypeEntry)
    ensures Clear(TypeText(e))
  {
    var first := Member(["before", "page", "type", "raw"]);
    var second, third := Numbered(["after", "page", "type", "raw"], e.after), Numbered(["count"], e.count);
    TypeNamesAreClear(e);
    DigitsAreClear(e.before);
    BracedIsClear(first, Decimal(e.before), second, third);
  }

  lemma BracedIsClear(a: string, b: string, c: string, d: string)
    requires Clear(a) && Clear(b) && Clear(c) && Clear(d)
    ensures Clear("{" + a + b + c + d + "}")
  {
    ClearThree("{", a, b);
    ClearThree("{" + a + b, c, d);
    ClearJoined("{" + a + b + c + d, "}");
  }

  lemma {:induction false} TypesAreClear(types: seq<TypeEntry>)
    ensures Clear(TypesText(types))
    decreases |types|
  {
    if types != [] {
      TypeIsClear(types[0]);
      if |types| > 1 {
        TypesAreClear(types[1..]);
        assert Clear(",");
        ClearThree(TypeText(types[0]), ",", TypesText(types[1..]));
      }
    }
  }

  lemma SchemaIsClear()
    ensures Clear(SCHEMA_VERSION)
  {
    assert '_' !in SCHEMA_VERSION;
  }

  function Opening(): string {
    "{" + Member(["schema", "version"]) + SCHEMA_VERSION + Numbered(["page", "size"], PAGE_SIZE)
  }

  lemma OpeningIsClear()
    ensures Clear(Opening())
  {
    SchemaIsClear();
    MemberIsClear(["schema", "version"]);
    NumberedIsClear(["page", "size"], PAGE_SIZE);
    ClearThree("{", Member(["schema", "version"]), SCHEMA_VERSION);
    ClearJoined("{" + Member(["schema", "version"]) + SCHEMA_VERSION, Numbered(["page", "size"], PAGE_SIZE));
  }

  function Counters(h: Head): string {
    Numbered(["page", "count"], h.pageCount)
    + Numbered(["changed", "page", "count"], h.changedPages)
    + Numbered(["crc", "change", "count"], h.crcChanges)
  }

  lemma CountersAreClear(h: Head)
    ensures Clear(Counters(h))
  {
    NumberedIsClear(["page", "count"], h.pageCount);
    NumberedIsClear(["changed", "page", "count"], h.changedPages);
    NumberedIsClear(["crc", "change", "count"], h.crcChanges);
    ClearThree(Numbered(["page", "count"], h.pageCount), Numbered(["changed", "page", "count"], h.changedPages),
      Numbered(["crc", "change", "count"], h.crcChanges));
  }

  function RawTypes(h: Head): string {
    "," + Member(["raw", "page", "type", "transitions"]) + "[" + TypesText(h.types) + "]"
  }

  lemma RawTypesAreClear(h: Head)
    ensures Clear(RawTypes(h))
  {
    var name := Member(["raw", "page", "type", "transitions"]);
    MemberIsClear(["raw", "page", "type", "transitions"]);
    TypesAreClear(h.types);
    ClearThree(",", name, "[");
    ClearThree("," + name + "[", TypesText(h.types), "]");
  }

  lemma HeadIsClear(h: Head)
    requires IsSha256Hex(h.before.sha256) && IsSha256Hex(h.after.sha256)
    ensures Clear(HeadText(h))
  {
    var before, after := IdentityText("before", h.before), IdentityText("after", h.after);
    OpeningIsClear();
    IdentityIsClear("before", h.before);
    IdentityIsClear("after", h.after);
    CountersAreClear(h);
    RawTypesAreClear(h);
    ClearThree(Opening(), ",", before);
    ClearThree(Opening() + "," + before, ",", after);
    ClearThree(Opening() + "," + before + "," + after, Counters(h), RawTypes(h));
    HeadIsInParts(h);
  }

  lemma HeadIsInParts(h: Head)
    ensures HeadText(h) == Opening() + "," + IdentityText("before", h.before) + "," + IdentityText("after", h.after)
      + Counters(h) + RawTypes(h)
  {
    var lead := Opening() + "," + IdentityText("before", h.before) + "," + IdentityText("after", h.after);
    RegroupMiddle(lead, Numbered(["page", "count"], h.pageCount),
      Numbered(["changed", "page", "count"], h.changedPages), []);
    RegroupMiddle(lead,
      Numbered(["page", "count"], h.pageCount) + Numbered(["changed", "page", "count"], h.changedPages),
      Numbered(["crc", "change", "count"], h.crcChanges), []);
    RegroupTail(lead + Counters(h), ",", Member(["raw", "page", "type", "transitions"]), "[", TypesText(h.types));
    RegroupMiddle(lead + Counters(h), "," + Member(["raw", "page", "type", "transitions"]) + "[" + TypesText(h.types),
      "]", []);
  }

  lemma NeedleHasMark()
    ensures NEEDLE[9] == '_' && NEEDLE[10] == 'h' && Clear(NEEDLE[..10]) && |NEEDLE| > 10
  {
    assert NEEDLE[..10] == "\"raw_page_";
  }

  lemma NoEarlierNeedle(a: string, rest: string)
    requires Apart(a) && a != []
    ensures !OccursAt(a + NEEDLE + rest, NEEDLE, 0)
  {
    var s, lead := a + NEEDLE + rest, a + NEEDLE[..10];
    NeedleHasMark();
    ApartJoined(a, NEEDLE[..10]);
    assert s[..|lead|] == lead;
    assert s[9] == lead[9] && s[10] == lead[10];
    assert s[..|NEEDLE|][9] == s[9] && s[..|NEEDLE|][10] == s[10];
  }

  /** Behind a text where no underscore has an h behind it, the needle is found where it stands. */
  lemma {:induction false} NeedleIsFound(a: string, rest: string)
    requires Apart(a)
    ensures Find(a + NEEDLE + rest, NEEDLE) == Some(|a|)
    decreases |a|
  {
    var s := a + NEEDLE + rest;
    if a == [] {
      assert s[..|NEEDLE|] == NEEDLE;
    } else {
      NoEarlierNeedle(a, rest);
      assert s[1..] == a[1..] + NEEDLE + rest;
      NeedleIsFound(a[1..], rest);
    }
  }

  lemma {:induction false} BodyIsPlain(entries: seq<Entry>)
    requires entries != [] && AllTame(entries)
    ensures ']' !in HistogramBody(entries)
    decreases |entries|
  {
    ObjectIsPlain(entries[0]);
    if |entries| > 1 {
      BodyIsPlain(entries[1..]);
    }
  }

  lemma HistogramIsPlain(entries: seq<Entry>)
    requires AllTame(entries)
    ensures ']' !in HistogramText(entries)
  {
    if entries != [] {
      BodyIsPlain(entries);
    }
  }

  lemma ContentIsFound(h: Head, entries: seq<Entry>, tail: string)
    requires IsSha256Hex(h.before.sha256) && IsSha256Hex(h.after.sha256) && AllTame(entries)
    ensures ArrayContent(ComparisonText(h, entries, tail)) == Ok(HistogramText(entries))
  {
    var lead, list := HeadText(h) + ",", HistogramText(entries);
    LeadIsClear(h);
    HistogramIsPlain(entries);
    RegroupTail(lead + NEEDLE, "[", list, "]", tail);
    BehindNeedle(lead, "[" + list + "]" + tail);
    BetweenBrackets(ComparisonText(h, entries, tail), list, tail);
  }

  lemma LeadIsClear(h: Head)
    requires IsSha256Hex(h.before.sha256) && IsSha256Hex(h.after.sha256)
    ensures Clear(HeadText(h) + ",")
  {
    HeadIsClear(h);
    assert Clear(",");
    ClearJoined(HeadText(h), ",");
  }

  lemma BetweenBrackets(text: string, list: string, tail: string)
    requires After(text, NEEDLE) == Some("[" + list + "]" + tail) && ']' !in list
    ensures ArrayContent(text) == Ok(list)
  {
    var bracketed := "[" + list + "]" + tail;
    assert bracketed[1..] == list + "]" + tail;
    SplitAround(list, "]", tail, 0);
  }

  lemma BehindNeedle(lead: string, rest: string)
    requires Apart(lead)
    ensures After(lead + NEEDLE + rest, NEEDLE) == Some(rest)
  {
    NeedleIsFound(lead, rest);
    assert (lead + NEEDLE + rest)[|lead| + |NEEDLE|..] == rest;
  }

  // ---------------------------------------------------------------------
  // The round trip

  /**
    The manifest of a comparison reads back as the sum of the transitions written into it; a manifest with bad ones
    is refused for the first of them.
   */
  lemma ManifestRoundTrip(h: Head, entries: seq<Entry>, tail: string)
    requires IsSha256Hex(h.before.sha256) && IsSha256Hex(h.after.sha256) && AllTame(entries)
    ensures ReadManifest(ComparisonText(h, entries, tail)) == Summed(multiset{}, entries)
  {
    ContentIsFound(h, entries, tail);
    if entries != [] {
      PiecesAddUp("{", entries, multiset{});
    }
  }

  /** The entries of a counter map: every pair once, with its count. */
  ghost predicate Lists(entries: seq<Entry>, counts: multiset<HashPair>) {
    && (forall i, j :: 0 <= i < j < |entries| ==> entries[i].pair != entries[j].pair)
    && (forall e :: e in entries ==> e.count == counts[e.pair])
    && (forall pair :: pair in counts ==> exists i :: 0 <= i < |entries| && entries[i].pair == pair)
  }

  /** Every pair that is not counted yet is still to come, once and with its count. */
  ghost predicate Addable(entries: seq<Entry>, sum: multiset<HashPair>, counts: multiset<HashPair>) {
    && AllWellFormed(entries)
    && (forall i, j :: 0 <= i < j < |entries| ==> entries[i].pair != entries[j].pair)
    && (forall e :: e in entries ==> e.count == counts[e.pair] && e.pair !in sum)
    && (forall pair :: sum[pair] == counts[pair]
          || (sum[pair] == 0 && exists i :: 0 <= i < |entries| && entries[i].pair == pair))
  }

  lemma AddableRest(entries: seq<Entry>, sum: multiset<HashPair>, counts: multiset<HashPair>)
    requires Addable(entries, sum, counts) && entries != []
    ensures Addable(entries[1..], sum[entries[0].pair := entries[0].count], counts)
  {
    var e, rest := entries[0], entries[1..];
    var more := sum[e.pair := e.count];
    assert e in entries;
    forall r | r in rest
      ensures WellFormed(r) && r.count == counts[r.pair] && r.pair !in more
    {
      var j :| 0 <= j < |rest| && rest[j] == r;
      assert entries[j + 1] == r;
    }
    forall pair
      ensures more[pair] == counts[pair] || (more[pair] == 0 && exists i :: 0 <= i < |rest| && rest[i].pair == pair)
    {
      if more[pair] != counts[pair] {
        var i :| 0 <= i < |entries| && entries[i].pair == pair;
        assert rest[i - 1].pair == pair;
      }
    }
  }

  lemma {:induction false} SumOfEntries(entries: seq<Entry>, sum: multiset<HashPair>, counts: multiset<HashPair>)
    requires Addable(entries, sum, counts)
    ensures Summed(sum, entries) == Ok(counts)
    decreases |entries|
  {
    if entries == [] {
      assert sum == counts;
    } else {
      var e := entries[0];
      assert e in entries && sum[e.pair] == 0;
      AddableRest(entries, sum, counts);
      SumOfEntries(entries[1..], sum[e.pair := e.count], counts);
    }
  }

  /** The raw transitions of a comparison read back from its JSON exactly as they were counted. */
  lemma RawTransitionsReadBack(h: Head, entries: seq<Entry>, tail: string, counts: multiset<HashPair>)
    requires IsSha256Hex(h.before.sha256) && IsSha256Hex(h.after.sha256)
    requires Lists(entries, counts) && AllWellFormed(entries)
    ensures ReadManifest(ComparisonText(h, entries, tail)) == Ok(counts)
  {
    WellFormedAreTame(entries);
    ManifestRoundTrip(h, entries, tail);
    SumOfEntries(entries, multiset{}, counts);
  }

  /** Used as the control of the same two snapshots, a comparison leaves no page over. */
  lemma OwnControlLeavesNothing(pages: seq<PagePair>, hash: Page -> string, h: Head, entries: seq<Entry>, tail: string)
    requires IsSha256Hex(h.before.sha256) && IsSha256Hex(h.after.sha256)
    requires Lists(entries, Observed(pages, hash)) && AllWellFormed(entries)
    ensures var control := ReadManifest(ComparisonText(h, entries, tail));
      control.Ok? && Kept(Changed(pages), control.value, hash) == []
  {
    RawTransitionsReadBack(h, entries, tail, Observed(pages, hash));
    StreamingRefinesBatch(pages, pages, Observed(pages, hash), hash);
  }
}
