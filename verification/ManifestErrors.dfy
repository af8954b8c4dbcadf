/** Which control manifests are refused, and why: the searches of the reader in terms of the text alone. */
module ManifestErrors {
  import opened Integers
  import opened Sequences
  import opened Manifest
  import opened Money
  import opened Outcomes

  lemma HexDigits(ch: char)
    ensures IsHexDigit(ch) <==> ch in "0123456789abcdefABCDEF"
  {
  }

  // ---------------------------------------------------------------------
  // Searching

  ghost predicate IsFirst(s: string, needle: string, at: nat) {
    OccursAt(s, needle, at) && forall k: nat :: k < at ==> !OccursAt(s, needle, k)
  }

  ghost predicate Absent(s: string, needle: string) {
    forall at: nat :: !OccursAt(s, needle, at)
  }

  lemma OccursInTail(s: string, needle: string, at: nat)
    requires s != []
    ensures OccursAt(s, needle, at + 1) <==> OccursAt(s[1..], needle, at)
  {
    if at + 1 + |needle| <= |s| {
      assert s[1..][at..at + |needle|] == s[at + 1..at + 1 + |needle|];
    }
  }

  /** The search finds the first place, and nothing only if there is none. */
  lemma {:induction false} FindsFirst(s: string, needle: string, at: nat)
    requires needle != []
    ensures Find(s, needle) == None <==> Absent(s, needle)
    ensures Find(s, needle) == Some(at) <==> IsFirst(s, needle, at)
    decreases |s|
  {
    if s != [] && !OccursAt(s, needle, 0) {
      forall k: nat
        ensures OccursAt(s, needle, k + 1) <==> OccursAt(s[1..], needle, k)
      {
        OccursInTail(s, needle, k);
      }
      FindsFirst(s[1..], needle, if at == 0 then 0 else at - 1);
      FoundInTail(s, needle, at);
    }
  }

  lemma FoundInTail(s: string, needle: string, at: nat)
    requires s != [] && !OccursAt(s, needle, 0)
    requires forall k: nat :: OccursAt(s, needle, k + 1) <==> OccursAt(s[1..], needle, k)
    ensures Absent(s, needle) <==> Absent(s[1..], needle)
    ensures at > 0 ==> (IsFirst(s, needle, at) <==> IsFirst(s[1..], needle, at - 1))
  {
    forall k: nat
      ensures OccursAt(s, needle, k) <==> k > 0 && OccursAt(s[1..], needle, k - 1)
    {
      assert k > 0 ==> (OccursAt(s, needle, (k - 1) + 1) <==> OccursAt(s[1..], needle, k - 1));
    }
    if Absent(s, needle) {
      forall k: nat
        ensures !OccursAt(s[1..], needle, k)
      {
        assert !OccursAt(s, needle, k + 1);
      }
    }
    if at > 0 && IsFirst(s, needle, at) {
      forall k: nat | k < at - 1
        ensures !OccursAt(s[1..], needle, k)
      {
        assert !OccursAt(s, needle, k + 1);
      }
    }
  }

  lemma OneCharacter(s: string, ch: char)
    ensures Absent(s, [ch]) <==> ch !in s
  {
    if ch in s {
      var i :| 0 <= i < |s| && s[i] == ch;
      assert s[i..i + 1] == [ch] && OccursAt(s, [ch], i);
    }
    forall at: nat | OccursAt(s, [ch], at)
      ensures ch in s
    {
      assert s[at..at + 1][0] == s[at];
    }
  }

  // ---------------------------------------------------------------------
  // The array

  /** The text begins with some white space, and its other part not. */
  ghost predicate Spaced(s: string, rest: string) {
    (exists gap :: Spaces(gap) && s == gap + rest) && (rest != [] ==> !IsSpace(rest[0]))
  }

  lemma StartIsTrimmed(s: string, rest: string)
    requires Spaced(s, rest)
    ensures TrimStart(s) == rest
  {
    var gap :| Spaces(gap) && s == gap + rest;
    if rest != [] {
      TrimStartOff(gap, rest);
    } else {
      assert s == gap;
      OnlySpaces(gap);
    }
  }

  lemma {:induction false} OnlySpaces(s: string)
    requires Spaces(s)
    ensures TrimStart(s) == []
  {
    if s != [] {
      assert s[0] in s;
      OnlySpaces(s[1..]);
    }
  }

  /** The manifest is refused for want of its key. */
  lemma KeyErrors(text: string)
    ensures ReadManifest(text) == Err(LacksTransitions) <==> Absent(text, "\"raw_page_hash_transitions\":")
  {
    FindsFirst(text, NEEDLE, 0);
    NoOtherErrors(text);
  }

  /** Or for want of an opening bracket, but for white space, right behind the key, or of a closing one. */
  lemma BracketErrors(text: string, at: nat, rest: string)
    requires IsFirst(text, NEEDLE, at) && Spaced(text[at + |NEEDLE|..], rest)
    ensures ReadManifest(text) == Err(InvalidArray) <==> !Begins(rest, '[')
    ensures ReadManifest(text) == Err(UnterminatedArray) <==> Begins(rest, '[') && ']' !in rest
  {
    FindsFirst(text, NEEDLE, at);
    NoOtherErrors(text);
    StartIsTrimmed(text[at + |NEEDLE|..], rest);
    if Begins(rest, '[') {
      FindsFirst(rest[1..], "]", 0);
      OneCharacter(rest[1..], ']');
      assert rest == ['['] + rest[1..];
    }
  }

  /** Adding up pieces gives none of the errors of the array. */
  lemma {:induction false} PieceErrorsOnly(counts: multiset<ControlNoise.HashPair>, pieces: seq<string>)
    ensures var sum := AddPieces(counts, pieces);
      sum.Err? ==> sum.error !in {LacksTransitions, InvalidArray, UnterminatedArray}
    decreases |pieces|
  {
    if pieces != [] && AddPiece(counts, pieces[0]).Ok? {
      PieceErrorsOnly(AddPiece(counts, pieces[0]).value, pieces[1..]);
    }
  }

  lemma NoOtherErrors(text: string)
    ensures ArrayContent(text).Err? ==> ReadManifest(text) == Err(ArrayContent(text).error)
    ensures ArrayContent(text).Ok? && ReadManifest(text).Err? ==>
      ReadManifest(text).error !in {LacksTransitions, InvalidArray, UnterminatedArray}
  {
    if ArrayContent(text).Ok? {
      PieceErrorsOnly(multiset{}, Split(ArrayContent(text).value));
    }
  }

  // ---------------------------------------------------------------------
  // One piece

  /** A member is refused for want of its key, or of a quote behind the key. */
  lemma StringErrors(body: string, key: string, at: nat)
    requires key != []
    ensures ObjectString(body, key) == Err(LacksHash) <==> Absent(body, key)
    ensures IsFirst(body, key, at) ==> (ObjectString(body, key) == Err(InvalidHash) <==> '"' !in body[at + |key|..])
  {
    FindsFirst(body, key, at);
    if IsFirst(body, key, at) {
      FindsFirst(body[at + |key|..], "\"", 0);
      OneCharacter(body[at + |key|..], '"');
    }
  }

  /** Its text is what stands between its key and the next quote. */
  lemma StringIsRead(body: string, key: string, at: nat, value: string, tail: string)
    requires key != [] && IsFirst(body, key, at)
    requires body[at + |key|..] == value + ['"'] + tail && '"' !in value
    ensures ObjectString(body, key) == Ok(value)
  {
    FindsFirst(body, key, at);
    FindsFirst(body[at + |key|..], "\"", |value|);
    BeforeQuote(value, tail);
    assert body[at + |key|..][..|value|] == value;
  }

  lemma BeforeQuote(value: string, tail: string)
    requires '"' !in value
    ensures IsFirst(value + ['"'] + tail, "\"", |value|)
  {
    var s := value + ['"'] + tail;
    assert s[|value|..|value| + 1] == ['"'];
    forall k: nat | k < |value|
      ensures !OccursAt(s, "\"", k)
    {
      assert s[k..k + 1][0] == value[k] && value[k] in value;
    }
  }

  lemma {:induction false} DigitsInFront(digits: string, tail: string)
    requires AllDigits(digits) && (tail != [] ==> !IsDigit(tail[0]))
    ensures TakeDigits(digits + tail) == digits
  {
    if digits == [] {
      assert digits + tail == tail;
    } else {
      assert digits[0] in digits && (digits + tail)[1..] == digits[1..] + tail;
      DigitsInFront(digits[1..], tail);
    }
  }

  lemma CountErrors(body: string, at: nat)
    ensures ObjectU64(body) == Err(LacksCount) <==> Absent(body, COUNT_KEY)
  {
    FindsFirst(body, COUNT_KEY, at);
  }

  /** A count is the run of digits behind its key, if there is one and its number fits 64 bits. */
  lemma CountIsRead(body: string, at: nat, digits: string, tail: string)
    requires IsFirst(body, COUNT_KEY, at) && body[at + |COUNT_KEY|..] == digits + tail
    requires AllDigits(digits) && (tail != [] ==> !IsDigit(tail[0]))
    ensures ObjectU64(body)
      == if digits == [] || Number(digits) > U64_MAX then Err(InvalidCount) else Ok(Number(digits))
  {
    FindsFirst(body, COUNT_KEY, at);
    DigitsInFront(digits, tail);
  }

  /** What a piece is read as is well formed. */
  lemma PiecesAreChecked(piece: string, i: nat)
    requires ReadObject(piece).Ok? && i < 64
    ensures var e := ReadObject(piece).value;
      && 0 < e.count <= U64_MAX && |e.pair.before| == |e.pair.after| == 64
      && e.pair.before[i] in "0123456789abcdefABCDEF" && e.pair.after[i] in "0123456789abcdefABCDEF"
  {
    var e := ReadObject(piece).value;
    HexDigits(e.pair.before[i]);
    HexDigits(e.pair.after[i]);
  }

  predicate Braces(s: string) {
    forall ch :: ch in s ==> ch == '{' || ch == '}'
  }

  lemma {:induction false} LeadingBraces(s: string) returns (lead: string)
    ensures Braces(lead) && s == lead + TrimBracesStart(s)
    ensures TrimBracesStart(s) != [] ==> TrimBracesStart(s)[0] !in ['{', '}']
  {
    lead := [];
    if s != [] && IsBrace(s[0]) {
      lead := LeadingBraces(s[1..]);
      lead := [s[0]] + lead;
    }
  }

  /** Braces come off both ends of a piece, and nothing else. */
  lemma {:induction false} BracesAreTrimmed(s: string) returns (lead: string, trail: string)
    ensures Braces(lead) && Braces(trail) && s == lead + TrimBraces(s) + trail
    ensures var t := TrimBraces(s); t != [] ==> t[0] !in ['{', '}'] && t[|t| - 1] !in ['{', '}']
  {
    if s != [] && IsBrace(s[|s| - 1]) {
      var n := |s| - 1;
      lead, trail := BracesAreTrimmed(s[..n]);
      trail := trail + [s[n]];
    } else {
      lead := LeadingBraces(s);
      trail := [];
    }
  }

  // ---------------------------------------------------------------------
  // What a comparison's JSON spells

  lemma TwoWords(a: string, b: string)
    ensures Snake([a, b]) == a + "_" + b
  {
    assert [a, b][1..] == [b];
  }

  lemma FourWords(a: string, b: string, c: string, d: string)
    ensures Snake([a, b, c, d]) == a + "_" + (b + "_" + (c + "_" + d))
  {
    assert [a, b, c, d][1..] == [b, c, d] && [b, c, d][1..] == [c, d];
    TwoWords(c, d);
  }

  /** A member's name in quotes, and its colon. */
  function Named(name: string): string {
    "\"" + name + "\":"
  }

  lemma IdentitySpelled(key: string, id: ControlNoise.Identity<string>)
    ensures IdentityText(key, id) == "\"" + key + "\":{" + Named("byte_length") + Decimal(id.byteLength)
      + ",\"sha256\":\"" + id.sha256 + "\"}"
  {
    TwoWords("byte", "length");
  }

  lemma TypesSpelled(e: TypeEntry)
    ensures TypeText(e) == "{" + Named("before_page_type_raw") + Decimal(e.before)
      + ("," + Named("after_page_type_raw") + Decimal(e.after)) + ("," + Named("count") + Decimal(e.count)) + "}"
  {
    BeforeTypeSpelled();
    AfterTypeSpelled();
  }

  lemma BeforeTypeSpelled()
    ensures Snake(["before", "page", "type", "raw"]) == "before_page_type_raw"
  {
    FourWords("before", "page", "type", "raw");
  }

  lemma AfterTypeSpelled()
    ensures Snake(["after", "page", "type", "raw"]) == "after_page_type_raw"
  {
    FourWords("after", "page", "type", "raw");
  }

  lemma {:induction false} WordsJoined(words: seq<string>, last: string)
    ensures Snake([last]) == last
    ensures words != [] ==> Snake(words + [last]) == Snake(words) + "_" + last
    decreases |words|
  {
    if |words| == 1 {
      assert (words + [last])[1..] == [last];
    } else if words != [] {
      assert (words + [last])[1..] == words[1..] + [last];
      WordsJoined(words[1..], last);
      Regroup(words[0] + "_", Snake(words[1..]), "_", last);
    }
  }

  lemma TypesJoined(types: seq<TypeEntry>, e: TypeEntry)
    ensures TypesText([e]) == TypeText(e)
    ensures types != [] ==> TypesText(types + [e]) == TypesText(types) + "," + TypeText(e)
  {
    if types != [] {
      TypesPush(types, e);
    }
  }

  lemma {:induction false} TypesPush(types: seq<TypeEntry>, e: TypeEntry)
    requires types != []
    ensures TypesText(types + [e]) == TypesText(types) + "," + TypeText(e)
    decreases |types|
  {
    assert (types + [e])[1..] == types[1..] + [e];
    if |types| == 1 {
      assert types[1..] + [e] == [e];
    } else {
      TypesPush(types[1..], e);
      var first, rest, last := TypeText(types[0]), TypesText(types[1..]), TypeText(e);
      Regroup(first + ",", rest, ",", last);
    }
  }
}
