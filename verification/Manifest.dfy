/** The control manifest: writing the digest transitions into a comparison's JSON, and finding them again. */
module Manifest {
  import opened Integers
  import opened Sequences
  import opened Bytes
  import opened ControlNoise
  import opened Money
  import opened Outcomes

  datatype Entry = Entry(pair: HashPair, count: nat)

  datatype ManifestError =
    | LacksTransitions
    | InvalidArray
    | UnterminatedArray
    | LacksHash
    | InvalidHash
    | LacksCount
    | InvalidCount
    | InvalidTransition
    | CountOverflow

  const NEEDLE := "\"raw_page_hash_transitions\":"
  const BEFORE_KEY := "\"before_sha256\":\""
  const AFTER_KEY := "\"after_sha256\":\""
  const COUNT_KEY := "\"count\":"
  const BETWEEN := "},{"
  const SCHEMA_VERSION := "\"openqbw.compare-snapshots.v1\""

  predicate IsHexDigit(ch: char) {
    IsDigit(ch) || 'a' <= ch <= 'f' || 'A' <= ch <= 'F'
  }

  predicate IsSha256Hex(s: string) {
    |s| == 64 && forall i :: 0 <= i < 64 ==> IsHexDigit(s[i])
  }

  // ---------------------------------------------------------------------
  // Writing

  /** One transition between its braces. */
  function ObjectText(e: Entry): string {
    BEFORE_KEY + e.pair.before + "\"," + AFTER_KEY + e.pair.after + "\"," + COUNT_KEY + Decimal(e.count)
  }

  /** The transitions behind the first opening brace. */
  function HistogramBody(entries: seq<Entry>): string
    requires entries != []
  {
    ObjectText(entries[0]) + (if |entries| == 1 then "}" else BETWEEN + HistogramBody(entries[1..]))
  }

  function HistogramText(entries: seq<Entry>): string {
    if entries == [] then [] else "{" + HistogramBody(entries)
  }

  lemma OneBehind(first: string, last: string)
    ensures first + (BETWEEN + (last + "}")) == first + "}" + "," + ("{" + last + "}")
  {
    assert BETWEEN == "}" + "," + "{";
  }

  lemma {:induction false} HistogramPush(entries: seq<Entry>, e: Entry)
    requires entries != []
    ensures HistogramBody(entries + [e]) == HistogramBody(entries) + "," + ("{" + ObjectText(e) + "}")
  {
    assert (entries + [e])[1..] == entries[1..] + [e];
    var first, last := ObjectText(entries[0]), ObjectText(e);
    if |entries| == 1 {
      OneBehind(first, last);
    } else {
      HistogramPush(entries[1..], e);
      RegroupDeep(first, BETWEEN, HistogramBody(entries[1..]), ",", "{" + last + "}");
    }
  }

  /** The list so far with one more transition behind it. */
  lemma HistogramStep(entries: seq<Entry>, i: nat)
    requires i < |entries|
    ensures HistogramText(entries[..i + 1])
      == HistogramText(entries[..i]) + (if i == 0 then [] else ",") + ("{" + ObjectText(entries[i]) + "}")
  {
    assert entries[..i + 1] == entries[..i] + [entries[i]];
    if i != 0 {
      HistogramPush(entries[..i], entries[i]);
      Regroup("{", HistogramBody(entries[..i]), ",", "{" + ObjectText(entries[i]) + "}");
    } else {
      assert entries[..1][0] == entries[0];
    }
  }

  method WriteHashHistogram(before: string, key: string, entries: seq<Entry>) returns (out: string)
    ensures out == before + (",\"" + key + "\":[") + HistogramText(entries) + "]"
  {
    out := before + (",\"" + key + "\":[");
    ghost var opening := out;
    for i := 0 to |entries|
      invariant out == opening + HistogramText(entries[..i])
    {
      HistogramStep(entries, i);
      var entry := "{" + ObjectText(entries[i]) + "}";
      Regroup(opening, HistogramText(entries[..i]), if i == 0 then [] else ",", entry);
      if i != 0 {
        out := out + ",";
      }
      out := out + entry;
    }
    assert entries[..|entries|] == entries;
    out := out + "]";
  }

  datatype TypeEntry = TypeEntry(before: byte, after: byte, count: nat)

  /** What a comparison's JSON holds before its digest transitions. */
  datatype Head = Head(
    before: Identity<string>,
    after: Identity<string>,
    pageCount: nat,
    changedPages: nat,
    crcChanges: nat,
    types: seq<TypeEntry>)

  /** A member name of several words, as the JSON spells them. */
  function Snake(words: seq<string>): string
    requires words != []
  {
    if |words| == 1 then words[0] else words[0] + "_" + Snake(words[1..])
  }

  function Member(words: seq<string>): string
    requires words != []
  {
    "\"" + Snake(words) + "\":"
  }

  /** A further member with a number. */
  function Numbered(words: seq<string>, n: nat): string
    requires words != []
  {
    "," + Member(words) + Decimal(n)
  }

  function IdentityText(key: string, id: Identity<string>): string {
    "\"" + key + "\":{" + Member(["byte", "length"]) + Decimal(id.byteLength)
    + ",\"sha256\":\"" + id.sha256 + "\"}"
  }

  function TypeText(e: TypeEntry): string {
    "{" + Member(["before", "page", "type", "raw"]) + Decimal(e.before)
    + Numbered(["after", "page", "type", "raw"], e.after) + Numbered(["count"], e.count) + "}"
  }

  function TypesText(types: seq<TypeEntry>): string {
    if types == [] then []
    else if |types| == 1 then TypeText(types[0])
    else TypeText(types[0]) + "," + TypesText(types[1..])
  }

  function HeadText(h: Head): string {
    "{" + Member(["schema", "version"]) + SCHEMA_VERSION + Numbered(["page", "size"], PAGE_SIZE)
    + "," + IdentityText("before", h.before) + "," + IdentityText("after", h.after)
    + Numbered(["page", "count"], h.pageCount)
    + Numbered(["changed", "page", "count"], h.changedPages)
    + Numbered(["crc", "change", "count"], h.crcChanges)
    + "," + Member(["raw", "page", "type", "transitions"]) + "[" + TypesText(h.types) + "]"
  }

  /** A comparison's JSON up to and including its raw digest transitions, and whatever follows them. */
  function ComparisonText(h: Head, entries: seq<Entry>, tail: string): string {
    HeadText(h) + "," + NEEDLE + "[" + HistogramText(entries) + "]" + tail
  }

  // ---------------------------------------------------------------------
  // Reading

  /** The first place of the needle. */
  function Find(s: string, needle: string): Option<nat> {
    if OccursAt(s, needle, 0) then Some(0)
    else if s == [] then None
    else
      match Find(s[1..], needle)
      case None => None
      case Some(k) => Some(k + 1)
  }

  lemma {:induction false} FindInside(s: string, needle: string)
    ensures match Find(s, needle) case None => true case Some(k) => k + |needle| <= |s|
  {
    if s != [] && !OccursAt(s, needle, 0) {
      FindInside(s[1..], needle);
    }
  }

  function After(s: string, needle: string): Option<string> {
    FindInside(s, needle);
    match Find(s, needle)
    case None => None
    case Some(k) => Some(s[k + |needle|..])
  }

  function Before(s: string, needle: string): Option<string> {
    FindInside(s, needle);
    match Find(s, needle)
    case None => None
    case Some(k) => Some(s[..k])
  }

  /** The pieces between the separators. */
  function Split(s: string): seq<string>
    decreases |s|
  {
    FindInside(s, BETWEEN);
    match Find(s, BETWEEN)
    case None => [s]
    case Some(k) => [s[..k]] + Split(s[k + |BETWEEN|..])
  }

  predicate IsBrace(ch: char) {
    ch == '{' || ch == '}'
  }

  function TrimBracesStart(s: string): string {
    if s != [] && IsBrace(s[0]) then TrimBracesStart(s[1..]) else s
  }

  function TrimBraces(s: string): string {
    if s != [] && IsBrace(s[|s| - 1]) then TrimBraces(s[..|s| - 1]) else TrimBracesStart(s)
  }

  function ObjectString(body: string, key: string): Result<string, ManifestError> {
    match After(body, key)
    case None => Err(LacksHash)
    case Some(rest) =>
      match Before(rest, "\"")
      case None => Err(InvalidHash)
      case Some(value) => Ok(value)
  }

  function TakeDigits(s: string): string {
    if s != [] && IsDigit(s[0]) then [s[0]] + TakeDigits(s[1..]) else []
  }

  lemma {:induction false} TakenAreDigits(s: string)
    ensures AllDigits(TakeDigits(s))
  {
    if s != [] && IsDigit(s[0]) {
      TakenAreDigits(s[1..]);
    }
  }

  function ObjectU64(body: string): Result<nat, ManifestError> {
    match After(body, COUNT_KEY)
    case None => Err(LacksCount)
    case Some(rest) =>
      TakenAreDigits(rest);
      var digits := TakeDigits(rest);
      if digits == [] || Number(digits) > U64_MAX then Err(InvalidCount) else Ok(Number(digits))
  }

  function ReadObject(piece: string): Result<Entry, ManifestError> {
    var body := TrimBraces(piece);
    match ObjectString(body, BEFORE_KEY)
    case Err(e) => Err(e)
    case Ok(before) =>
      match ObjectString(body, AFTER_KEY)
      case Err(e) => Err(e)
      case Ok(after) =>
        match ObjectU64(body)
        case Err(e) => Err(e)
        case Ok(count) =>
          if !IsSha256Hex(before) || !IsSha256Hex(after) || count == 0 then Err(InvalidTransition)
          else Ok(Entry(HashPair(before, after), count))
  }

  /** The transitions counted so far with one more piece read. */
  function AddPiece(counts: multiset<HashPair>, piece: string): Result<multiset<HashPair>, ManifestError> {
    match ReadObject(piece)
    case Err(e) => Err(e)
    case Ok(entry) =>
      if counts[entry.pair] + entry.count > U64_MAX then Err(CountOverflow)
      else Ok(counts[entry.pair := counts[entry.pair] + entry.count])
  }

  function AddPieces(counts: multiset<HashPair>, pieces: seq<string>): Result<multiset<HashPair>, ManifestError>
    decreases |pieces|
  {
    if pieces == [] then Ok(counts)
    else
      match AddPiece(counts, pieces[0])
      case Err(e) => Err(e)
      case Ok(more) => AddPieces(more, pieces[1..])
  }

  /** The text between the brackets of the transition array. */
  function ArrayContent(text: string): Result<string, ManifestError> {
    match After(text, NEEDLE)
    case None => Err(LacksTransitions)
    case Some(rest) =>
      var list := TrimStart(rest);
      if !Begins(list, '[') then Err(InvalidArray)
      else
        match Before(list[1..], "]")
        case None => Err(UnterminatedArray)
        case Some(content) => Ok(content)
  }

  function ReadManifest(text: string): Result<multiset<HashPair>, ManifestError> {
    match ArrayContent(text)
    case Err(e) => Err(e)
    case Ok(content) => if content == [] then Ok(multiset{}) else AddPieces(multiset{}, Split(content))
  }

  method ParseControlNoiseManifest(text: string) returns (r: Result<multiset<HashPair>, ManifestError>)
    ensures r == ReadManifest(text)
  {
    var content := ArrayContent(text);
    if content.Err? {
      return Err(content.error);
    }
    if content.value == [] {
      return Ok(multiset{});
    }
    var pieces := Split(content.value);
    var counts: multiset<HashPair> := multiset{};
    assert pieces[0..] == pieces;
    for i := 0 to |pieces|
      invariant ReadManifest(text) == AddPieces(counts, pieces[i..])
    {
      assert pieces[i..][1..] == pieces[i + 1..];
      var body := ReadObject(pieces[i]);
      if body.Err? {
        return Err(body.error);
      }
      var pair, count := body.value.pair, body.value.count;
      if counts[pair] + count > U64_MAX {
        return Err(CountOverflow);
      }
      counts := counts[pair := counts[pair] + count];
    }
    return Ok(counts);
  }
}
