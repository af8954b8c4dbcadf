/** Which fields both CSV readers refuse, and how quoted fields may end a line. */
module CsvErrors {
  import opened Sequences
  import opened Outcomes
  import opened CsvText
  import opened CsvTheorems

  // ---------------------------------------------------------------------
  // The manifest reader, as far as it reads like the native one

  lemma ManifestTurns(rest: string, ch: char, m: Machine)
    ensures ManifestFrom([ch] + rest, m) ==
      match ManifestTurn(rest, ch, m) case Err(e) => Err(e) case Ok(turn) => ManifestFrom(turn.0, turn.1)
  {
    assert ([ch] + rest)[1..] == rest;
  }

  lemma {:induction false} ManifestReadsPlain(s: string, rest: string, m: Machine)
    requires !NeedsQuotes(s) && !m.quoted && !m.afterQuote
    ensures ManifestFrom(s + rest, m) == ManifestFrom(rest, m.(field := m.field + s))
    decreases |s|
  {
    if s == [] {
      assert s + rest == rest && m.field + s == m.field;
    } else {
      assert s == [s[0]] + s[1..] && s[0] in s;
      assert s + rest == [s[0]] + (s[1..] + rest);
      ManifestTurns(s[1..] + rest, s[0], m);
      ManifestReadsPlain(s[1..], rest, Pushed(m, s[0]));
      assert m.field + [s[0]] + s[1..] == m.field + s;
    }
  }

  lemma ManifestReadsOneQuoted(s: string, rest: string, m: Machine)
    requires m.quoted && !m.afterQuote && s != []
    ensures ManifestFrom(Doubled(s) + rest, m) == ManifestFrom(Doubled(s[1..]) + rest, Pushed(m, s[0]))
  {
    var tail := Doubled(s[1..]) + rest;
    if s[0] == '"' {
      assert Doubled(s) + rest == ['"'] + (['"'] + tail);
      assert (['"'] + tail)[1..] == tail;
      ManifestTurns(['"'] + tail, '"', m);
    } else {
      assert Doubled(s) + rest == [s[0]] + tail;
      ManifestTurns(tail, s[0], m);
    }
  }

  lemma {:induction false} ManifestReadsQuoted(s: string, rest: string, m: Machine)
    requires m.quoted && !m.afterQuote
    ensures ManifestFrom(Doubled(s) + rest, m) == ManifestFrom(rest, m.(field := m.field + s))
    decreases |s|
  {
    if s == [] {
      assert Doubled(s) + rest == rest && m.field + s == m.field;
    } else {
      assert m.field + [s[0]] + s[1..] == m.field + s;
      ManifestReadsOneQuoted(s, rest, m);
      ManifestReadsQuoted(s[1..], rest, Pushed(m, s[0]));
    }
  }

  /** A field is written as it is exactly if it has no comma, quote or line end in it. */
  lemma PlainFieldsAreBare(s: string)
    ensures FieldText(s) == s <==> forall ch :: ch in s ==> ch !in [',', '"', '\r', '\n']
  {
    if NeedsQuotes(s) {
      DoubledIsLonger(s);
    }
  }

  lemma {:induction false} DoubledIsLonger(s: string)
    ensures |Doubled(s)| >= |s|
  {
    if s != [] {
      DoubledIsLonger(s[1..]);
    }
  }

  // ---------------------------------------------------------------------
  // Quoted fields

  /** Both readers take in a quoted field; without its closing quote they stand inside, with it behind. */
  lemma QuotedFieldIsRead(s: string, rest: string, rows: Rows, row: Fields)
    ensures var inside, m := Machine(rows, row, s, true, false), Between(rows, row);
      && RecordsFrom(['"'] + Doubled(s) + rest, m) == RecordsFrom(rest, inside)
      && ManifestFrom(['"'] + Doubled(s) + rest, m) == ManifestFrom(rest, inside)
  {
    var m := Between(rows, row);
    assert ['"'] + Doubled(s) + rest == ['"'] + (Doubled(s) + rest);
    Turn(Doubled(s) + rest, '"', m);
    ManifestTurns(Doubled(s) + rest, '"', m);
    assert [] + s == s;
    ReadQuoted(s, rest, m.(quoted := true));
    ManifestReadsQuoted(s, rest, m.(quoted := true));
  }

  lemma ClosingQuote(s: string, rest: string, rows: Rows, row: Fields)
    requires !Begins(rest, '"')
    ensures var m, behind := Between(rows, row), Machine(rows, row, s, false, true);
      && RecordsFrom(['"'] + Doubled(s) + (['"'] + rest), m) == RecordsFrom(rest, behind)
      && ManifestFrom(['"'] + Doubled(s) + (['"'] + rest), m) == ManifestFrom(rest, behind)
  {
    QuotedFieldIsRead(s, ['"'] + rest, rows, row);
    Turn(rest, '"', Machine(rows, row, s, true, false));
    ManifestTurns(rest, '"', Machine(rows, row, s, true, false));
  }

  /** A quoted field is refused if the text ends before its closing quote. */
  lemma UnclosedFieldIsRefused(s: string, rows: Rows, row: Fields)
    ensures RecordsFrom(['"'] + Doubled(s), Between(rows, row)) == Err(UnclosedQuote)
    ensures ManifestFrom(['"'] + Doubled(s), Between(rows, row)) == Err(UnclosedQuote)
  {
    QuotedFieldIsRead(s, [], rows, row);
    assert ['"'] + Doubled(s) + [] == ['"'] + Doubled(s);
  }

  /** It is refused if anything but a comma or a line end stands behind its closing quote. */
  lemma TextBehindQuoteIsRefused(s: string, ch: char, rest: string, rows: Rows, row: Fields)
    requires ch !in ['"', ',', '\r', '\n']
    ensures var text := ['"'] + Doubled(s) + (['"'] + ([ch] + rest));
      && RecordsFrom(text, Between(rows, row)) == Err(CharactersAfterClosingQuote)
      && ManifestFrom(text, Between(rows, row)) == Err(CharactersAfterClosingQuote)
  {
    ClosingQuote(s, [ch] + rest, rows, row);
    Turn(rest, ch, Machine(rows, row, s, false, true));
    ManifestTurns(rest, ch, Machine(rows, row, s, false, true));
  }

  /** An LF, a CR and an LF, or a CR alone behind a closing quote end the line alike. */
  lemma LineEndsBehindQuote(s: string, end: string, rest: string, rows: Rows, row: Fields)
    requires end == ['\n'] || end == ['\r', '\n'] || (end == ['\r'] && !Begins(rest, '\n'))
    ensures var text, next := ['"'] + Doubled(s) + (['"'] + (end + rest)), Between(rows + [row + [s]], []);
      && RecordsFrom(text, Between(rows, row)) == RecordsFrom(rest, next)
      && ManifestFrom(text, Between(rows, row)) == ManifestFrom(rest, next)
  {
    ClosingQuote(s, end + rest, rows, row);
    LineEnds(end, rest, Machine(rows, row, s, false, true));
  }

  lemma LineEnds(end: string, rest: string, m: Machine)
    requires m.afterQuote
    requires end == ['\n'] || end == ['\r', '\n'] || (end == ['\r'] && !Begins(rest, '\n'))
    ensures RecordsFrom(end + rest, m) == RecordsFrom(rest, EndRow(m))
    ensures ManifestFrom(end + rest, m) == ManifestFrom(rest, EndRow(m))
  {
    var tail := end[1..] + rest;
    assert end + rest == [end[0]] + tail;
    Turn(tail, end[0], m);
    ManifestTurns(tail, end[0], m);
    assert tail == if |end| == 1 then rest else ['\n'] + rest;
    assert (['\n'] + rest)[1..] == rest;
  }

  /** A quote inside an unquoted field is refused. */
  lemma BareQuoteIsRefused(s: string, rest: string, rows: Rows, row: Fields)
    requires s != [] && !NeedsQuotes(s)
    ensures var text := s + (['"'] + rest);
      RecordsFrom(text, Between(rows, row)) == ManifestFrom(text, Between(rows, row)) == Err(BareQuote)
  {
    var m := Between(rows, row);
    ReadPlain(s, ['"'] + rest, m);
    ManifestReadsPlain(s, ['"'] + rest, m);
    assert [] + s == s;
    Turn(rest, '"', m.(field := s));
    ManifestTurns(rest, '"', m.(field := s));
  }
}
