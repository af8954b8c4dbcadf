/** Which postings have equal keys, and which types count as the same. */
module PostingTypes {
  import opened Outcomes
  import opened Money
  import opened MoneyShapes
  import opened Matching

  // ---------------------------------------------------------------------
  // Spelling

  predicate Unspaced(s: string) {
    forall ch :: ch in s ==> !IsSpace(ch)
  }

  lemma {:induction false} CollapsedGap(gap: string, rest: string)
    requires Spaces(gap) && gap != [] && rest != [] && !IsSpace(rest[0])
    ensures Collapsed(gap + rest) == [' '] + Collapsed(rest)
  {
    var s := gap + rest;
    assert gap[0] in gap;
    assert s[1..] == gap[1..] + rest;
    if |gap| == 1 {
      assert s[1..] == rest && s[1] == rest[0];
    } else {
      assert gap[1] in gap && s[1] == gap[1];
      assert forall ch :: ch in gap[1..] ==> ch in gap;
      CollapsedGap(gap[1..], rest);
    }
  }

  lemma LetterIsKept(ch: char, rest: string)
    requires !IsSpace(ch)
    ensures Collapsed([ch] + rest) == [ch] + Collapsed(rest)
  {
    assert ([ch] + rest)[1..] == rest;
  }

  /** Words are kept, and one blank is kept of the white space between two of them. */
  lemma {:induction false} WordsAreKept(word: string, gap: string, rest: string)
    requires Unspaced(word) && Spaces(gap) && (gap == [] <==> rest == [])
    requires rest != [] ==> !IsSpace(rest[0])
    ensures Collapsed(word + gap + rest) == if rest == [] then word else word + [' '] + Collapsed(rest)
    decreases |word|
  {
    var s := word + gap + rest;
    if word != [] {
      var tail := word[1..] + gap + rest;
      assert word == [word[0]] + word[1..] && word[0] in word && s == [word[0]] + tail;
      LetterIsKept(word[0], tail);
      WordsAreKept(word[1..], gap, rest);
    } else if rest != [] {
      assert s == gap + rest;
      CollapsedGap(gap, rest);
    }
  }

  const CAPITALS := "ABCDEFGHIJKLMNOPQRSTUVWXYZ"
  const SMALL := "abcdefghijklmnopqrstuvwxyz"

  lemma {:induction false} LowerAt(s: string, i: nat)
    requires i <= |s|
    ensures |Lower(s)| == |s|
    ensures i < |s| ==> Lower(s)[i] == if 'A' <= s[i] <= 'Z' then s[i] - 'A' + 'a' else s[i]
    decreases |s|
  {
    if s != [] {
      LowerAt(s[1..], if i == 0 then 0 else i - 1);
    }
  }

  /** Capitals become small letters, and all other characters stay. */
  lemma SmallLetters(s: string, i: nat, k: nat)
    requires i < |s| && k < 26
    ensures |Lower(s)| == |s|
    ensures s[i] == CAPITALS[k] ==> Lower(s)[i] == SMALL[k]
    ensures s[i] !in CAPITALS ==> Lower(s)[i] == s[i]
  {
    LowerAt(s, i);
    IsCapital(s[i]);
    LetterAt(k);
  }

  lemma IsCapital(ch: char)
    ensures 'A' <= ch <= 'Z' ==> ch in CAPITALS
  {
    if 'A' <= ch <= 'Z' {
      assert CAPITALS[ch as int - 'A' as int] == ch;
    }
  }

  lemma LetterAt(k: nat)
    requires k < 26
    ensures 'A' <= CAPITALS[k] <= 'Z' && SMALL[k] == CAPITALS[k] - 'A' + 'a'
  {
  }

  /** A type as it is compared: single blanks between its words, and small letters. */
  function Spelling(kind: string): string {
    Lower(Collapsed(Trim(kind)))
  }

  const SYNONYMS := [
    ["journal", "general journal"],
    ["vendor credit", "credit"],
    ["bill payment check", "bill pmt-check", "bill pmt -check"]]

  ghost predicate Synonymous(a: string, b: string) {
    exists i :: 0 <= i < |SYNONYMS| && a in SYNONYMS[i] && b in SYNONYMS[i]
  }

  /** What a spelling is normalized to. */
  lemma NormalSpelling(kind: string)
    ensures var n := Spelling(kind);
      && (n in SYNONYMS[0] ==> NormalizedType(kind) == "general journal")
      && (n in SYNONYMS[1] ==> NormalizedType(kind) == "credit")
      && (n in SYNONYMS[2] ==> NormalizedType(kind) == "bill pmt-check")
      && (n !in SYNONYMS[0] && n !in SYNONYMS[1] && n !in SYNONYMS[2] ==> NormalizedType(kind) == n)
  {
  }

  lemma GroupsAreApart(n: string)
    ensures "general journal" in SYNONYMS[0] && "credit" in SYNONYMS[1] && "bill pmt-check" in SYNONYMS[2]
    ensures !(n in SYNONYMS[0] && n in SYNONYMS[1]) && !(n in SYNONYMS[0] && n in SYNONYMS[2])
      && !(n in SYNONYMS[1] && n in SYNONYMS[2])
  {
  }

  /** Two types are the same exactly if they are spelled alike or stand for the same kind of document. */
  lemma SameTypes(a: string, b: string)
    ensures NormalizedType(a) == NormalizedType(b)
      <==> Spelling(a) == Spelling(b) || Synonymous(Spelling(a), Spelling(b))
  {
    NormalSpelling(a);
    NormalSpelling(b);
    GroupsAreApart(Spelling(a));
    GroupsAreApart(Spelling(b));
    GroupsAreApart(NormalizedType(a));
    SynonymousIn(Spelling(a), Spelling(b));
  }

  lemma SynonymousIn(a: string, b: string)
    ensures Synonymous(a, b) <==>
      || (a in SYNONYMS[0] && b in SYNONYMS[0])
      || (a in SYNONYMS[1] && b in SYNONYMS[1])
      || (a in SYNONYMS[2] && b in SYNONYMS[2])
  {
  }

  // ---------------------------------------------------------------------
  // Keys

  ghost predicate SameKind(p: Posting, q: Posting) {
    match (p.kind, q.kind)
    case (None, None) => true
    case (Some(a), Some(b)) => Spelling(a) == Spelling(b) || Synonymous(Spelling(a), Spelling(b))
    case _ => false
  }

  /** Two postings match exactly if date, account and amount are the same, and the types where these take part. */
  lemma SameKeys(p: Posting, q: Posting, typed: bool)
    ensures KeyFor(typed)(p) == KeyFor(typed)(q) <==>
      && p.identity.date == q.identity.date && p.identity.account == q.identity.account
      && p.identity.cents == q.identity.cents && (typed ==> SameKind(p, q))
    ensures DateAmountOf(p) == DateAmountOf(q) <==>
      p.identity.date == q.identity.date && p.identity.cents == q.identity.cents
  {
    if p.kind.Some? && q.kind.Some? {
      SameTypes(p.kind.value, q.kind.value);
    }
  }

  lemma TrimmedToNothing(s: string)
    ensures Trim(s) == [] <==> Spaces(s)
  {
    var before, after := TrimParts(s);
    if Trim(s) == [] {
      assert s == before + after;
    } else {
      var t := Trim(s);
      assert t[0] in t && t[0] in before + t + after;
    }
  }

  /** Types take part exactly if neither side is empty and every posting of both has a type that is not blank. */
  lemma TypesTakePart(native: seq<Posting>, generated: seq<Posting>)
    ensures CompareTypes(native, generated) <==>
      && native != [] && generated != []
      && forall p :: p in native || p in generated ==> p.kind.Some? && !Spaces(p.kind.value)
  {
    forall p: Posting
      ensures HasType(p) <==> p.kind.Some? && !Spaces(p.kind.value)
    {
      if p.kind.Some? {
        TrimmedToNothing(p.kind.value);
      }
    }
    assert AllTyped(native) <==> forall p :: p in native ==> HasType(p);
    assert AllTyped(generated) <==> forall p :: p in generated ==> HasType(p);
  }
}
