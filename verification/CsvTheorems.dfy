/** Reading undoes writing, and exactly when the two readers agree. */
module CsvTheorems {
  import opened Sequences
  import opened Outcomes
  import opened CsvText

  // ---------------------------------------------------------------------
  // Reading back what was written

  /** A machine between fields. */
  function Between(rows: Rows, row: Fields): Machine {
    Machine(rows, row, [], false, false)
  }

  /**
    Reading on from here, every CR outside quotes is followed by an LF or by the end of the text,
    and the text does not end right behind a quoted field whose last character is a CR.
   */
  ghost predicate HarmlessCrs(text: string, m: Machine)
    decreases |text|
  {
    if text == [] then !(m.afterQuote && EndsWithCr(m.field))
    else
    (match RecordsTurn(text[1..], text[0], m)
     case Err(_) => true
     case Ok(turn) =>
       && (!m.quoted && !m.afterQuote && text[0] == '\r' ==> text[1..] == [] || text[1] == '\n')
       && HarmlessCrs(turn.0, turn.1))
  }

  lemma Turn(rest: string, ch: char, m: Machine)
    ensures RecordsFrom([ch] + rest, m) ==
      match RecordsTurn(rest, ch, m) case Err(e) => Err(e) case Ok(turn) => RecordsFrom(turn.0, turn.1)
    ensures RecordsTurn(rest, ch, m).Ok? && (m.quoted || m.afterQuote || ch != '\r') ==>
      (HarmlessCrs([ch] + rest, m) <==> HarmlessCrs(RecordsTurn(rest, ch, m).value.0, RecordsTurn(rest, ch, m).value.1))
  {
    assert ([ch] + rest)[1..] == rest;
  }

  lemma {:induction false} ReadPlain(s: string, rest: string, m: Machine)
    requires !NeedsQuotes(s) && !m.quoted && !m.afterQuote
    ensures RecordsFrom(s + rest, m) == RecordsFrom(rest, m.(field := m.field + s))
    ensures HarmlessCrs(s + rest, m) <==> HarmlessCrs(rest, m.(field := m.field + s))
    decreases |s|
  {
    if s == [] {
      assert s + rest == rest && m.field + s == m.field;
    } else {
      var tail := s[1..];
      assert s == [s[0]] + tail;
      assert forall ch :: ch in tail ==> ch in s;
      assert s + rest == [s[0]] + (tail + rest);
      assert s[0] in s;
      Turn(tail + rest, s[0], m);
      ReadPlain(tail, rest, Pushed(m, s[0]));
      assert m.field + [s[0]] + tail == m.field + s;
    }
  }

  lemma ReadOneQuoted(s: string, rest: string, m: Machine)
    requires m.quoted && !m.afterQuote && s != []
    ensures RecordsFrom(Doubled(s) + rest, m) == RecordsFrom(Doubled(s[1..]) + rest, Pushed(m, s[0]))
    ensures HarmlessCrs(Doubled(s) + rest, m) <==> HarmlessCrs(Doubled(s[1..]) + rest, Pushed(m, s[0]))
  {
    var tail := Doubled(s[1..]) + rest;
    if s[0] == '"' {
      assert Doubled(s) + rest == ['"'] + (['"'] + tail);
      assert (['"'] + tail)[1..] == tail;
      Turn(['"'] + tail, '"', m);
    } else {
      assert Doubled(s) + rest == [s[0]] + tail;
      Turn(tail, s[0], m);
    }
  }

  lemma {:induction false} ReadQuoted(s: string, rest: string, m: Machine)
    requires m.quoted && !m.afterQuote
    ensures RecordsFrom(Doubled(s) + rest, m) == RecordsFrom(rest, m.(field := m.field + s))
    ensures HarmlessCrs(Doubled(s) + rest, m) <==> HarmlessCrs(rest, m.(field := m.field + s))
    decreases |s|
  {
    if s == [] {
      assert Doubled(s) + rest == rest && m.field + s == m.field;
    } else {
      assert m.field + [s[0]] + s[1..] == m.field + s;
      ReadOneQuoted(s, rest, m);
      ReadQuoted(s[1..], rest, Pushed(m, s[0]));
    }
  }

  /** What a separator does once a field has been read. */
  function AfterSeparator(rows: Rows, row: Fields, field: string, sep: char): Machine {
    if sep == ',' then Between(rows, row + [field]) else Between(rows + [row + [field]], [])
  }

  /** A written field and the separator behind it read back as that field. */
  lemma ReadField(s: string, sep: char, rest: string, rows: Rows, row: Fields)
    requires sep == ',' || sep == '\n'
    ensures RecordsFrom(FieldText(s) + ([sep] + rest), Between(rows, row))
      == RecordsFrom(rest, AfterSeparator(rows, row, s, sep))
    ensures HarmlessCrs(FieldText(s) + ([sep] + rest), Between(rows, row)) <==>
      HarmlessCrs(rest, AfterSeparator(rows, row, s, sep))
  {
    var m := Between(rows, row);
    var behind := [sep] + rest;
    if NeedsQuotes(s) {
      var inside := m.(quoted := true);
      assert FieldText(s) + behind == ['"'] + (Doubled(s) + (['"'] + behind));
      Turn(Doubled(s) + (['"'] + behind), '"', m);
      ReadQuoted(s, ['"'] + behind, inside);
      assert [] + s == s;
      Turn(behind, '"', inside.(field := s));
      Turn(rest, sep, m.(field := s, afterQuote := true));
    } else {
      ReadPlain(s, behind, m);
      assert [] + s == s;
      assert s != [] ==> s[|s| - 1] in s;
      Turn(rest, sep, m.(field := s));
    }
  }

  function Texts(cells: seq<Option<string>>): Fields {
    if cells == [] then [] else [CellText(cells[0])] + Texts(cells[1..])
  }

  /** The first cell of a longer row, taken off its text. */
  lemma FirstCellOff(cells: seq<Option<string>>, behind: string)
    requires |cells| > 1
    ensures FieldsText(cells) + behind == FieldText(CellText(cells[0])) + ([','] + (FieldsText(cells[1..]) + behind))
  {
    Regroup(FieldText(CellText(cells[0])), [','], FieldsText(cells[1..]), behind);
  }

  lemma FirstTextOff(cells: seq<Option<string>>, row: Fields)
    requires cells != []
    ensures row + Texts(cells) == row + [CellText(cells[0])] + Texts(cells[1..])
  {
  }

  lemma {:induction false} ReadFields(cells: seq<Option<string>>, rest: string, rows: Rows, row: Fields)
    requires cells != []
    ensures RecordsFrom(FieldsText(cells) + (['\n'] + rest), Between(rows, row))
      == RecordsFrom(rest, Between(rows + [row + Texts(cells)], []))
    ensures HarmlessCrs(FieldsText(cells) + (['\n'] + rest), Between(rows, row)) <==>
      HarmlessCrs(rest, Between(rows + [row + Texts(cells)], []))
    decreases |cells|
  {
    var first := CellText(cells[0]);
    FirstTextOff(cells, row);
    if |cells| == 1 {
      ReadField(first, '\n', rest, rows, row);
      assert row + [first] + [] == row + [first];
    } else {
      var tail := FieldsText(cells[1..]) + (['\n'] + rest);
      FirstCellOff(cells, ['\n'] + rest);
      ReadField(first, ',', tail, rows, row);
      ReadFields(cells[1..], rest, rows, row + [first]);
    }
  }

  /** The fields a row comes back as: its own, or one empty field if it has none. */
  function ReadBack(cells: seq<Option<string>>): Fields {
    if cells == [] then [[]] else Texts(cells)
  }

  function AllReadBack(rows: seq<seq<Option<string>>>): Rows {
    if rows == [] then [] else [ReadBack(rows[0])] + AllReadBack(rows[1..])
  }

  /** A written row reads back as one row. */
  lemma ReadRow(cells: seq<Option<string>>, rest: string, before: Rows)
    ensures RecordsFrom(RowText(cells) + rest, Between(before, []))
      == RecordsFrom(rest, Between(before + [ReadBack(cells)], []))
    ensures HarmlessCrs(RowText(cells) + rest, Between(before, [])) <==>
      HarmlessCrs(rest, Between(before + [ReadBack(cells)], []))
  {
    if cells == [] {
      assert RowText(cells) == ['\n'];
      Turn(rest, '\n', Between(before, []));
      assert [] + [[]] == ReadBack(cells);
    } else {
      RegroupMiddle(FieldsText(cells), ['\n'], rest, []);
      ReadFields(cells, rest, before, []);
      assert [] + Texts(cells) == ReadBack(cells);
    }
  }

  lemma {:induction false} ReadRows(rows: seq<seq<Option<string>>>, before: Rows)
    ensures RecordsFrom(RowsText(rows), Between(before, [])) == Ok(before + AllReadBack(rows))
    ensures HarmlessCrs(RowsText(rows), Between(before, []))
    decreases |rows|
  {
    if rows == [] {
      assert before + [] == before;
    } else {
      ReadRow(rows[0], RowsText(rows[1..]), before);
      ReadRows(rows[1..], before + [ReadBack(rows[0])]);
      MoveRow(before, ReadBack(rows[0]), AllReadBack(rows[1..]));
    }
  }

  lemma MoveRow(before: Rows, row: Fields, behind: Rows)
    ensures before + [row] + behind == before + ([row] + behind)
  {
  }

  function AllTexts(rows: seq<seq<Option<string>>>): Rows {
    if rows == [] then [] else [Texts(rows[0])] + AllTexts(rows[1..])
  }

  lemma {:induction false} SameWithoutEmptyRows(rows: seq<seq<Option<string>>>)
    ensures AllReadBack(rows) == AllTexts(rows) <==> [] !in rows
    ensures |AllReadBack(rows)| == |AllTexts(rows)|
  {
    if rows != [] {
      SameWithoutEmptyRows(rows[1..]);
      assert rows == [rows[0]] + rows[1..];
      assert AllReadBack(rows)[0] == ReadBack(rows[0]) && AllTexts(rows)[0] == Texts(rows[0]);
      assert AllReadBack(rows)[1..] == AllReadBack(rows[1..]) && AllTexts(rows)[1..] == AllTexts(rows[1..]);
    }
  }

  /** Written rows read back as the same fields, exactly when every row has at least one. */
  lemma WrittenRowsReadBack(rows: seq<seq<Option<string>>>)
    ensures RecordsFrom(RowsText(rows), START) == Ok(AllTexts(rows)) <==> [] !in rows
    ensures RecordsFrom(RowsText(rows), START) == Ok(AllReadBack(rows))
  {
    ReadRows(rows, []);
    assert [] + AllReadBack(rows) == AllReadBack(rows);
    SameWithoutEmptyRows(rows);
  }

  // ---------------------------------------------------------------------
  // The two readers

  predicate Clean(m: Machine) {
    !m.quoted && !m.afterQuote ==> '\r' !in m.field
  }

  /** With harmless CRs only, the readers give the same rows or the same rejection. */
  lemma {:induction false} ReadersAgree(text: string, m: Machine)
    requires HarmlessCrs(text, m) && Clean(m) && !(m.quoted && m.afterQuote)
    ensures RecordsFrom(text, m) == ManifestFrom(text, m)
    decreases |text|
  {
    if text == [] {
      LastIsMember(m.field);
    } else {
      var ch, rest := text[0], text[1..];
      if m.quoted || m.afterQuote || ch != '\r' {
        LastIsMember(m.field);
        assert RecordsTurn(rest, ch, m) == ManifestTurn(rest, ch, m);
        if RecordsTurn(rest, ch, m).Ok? {
          var turn := RecordsTurn(rest, ch, m).value;
          ReadersAgree(turn.0, turn.1);
        }
      } else {
        CrEndsLine(rest, m);
        if rest != [] {
          var after := rest[1..];
          assert RecordsTurn(rest, ch, m) == Ok((rest, Pushed(m, ch)));
          assert RecordsTurn(after, '\n', Pushed(m, '\r')) == Ok((after, EndRow(m)));
          assert HarmlessCrs(after, EndRow(m));
          ReadersAgree(after, EndRow(m));
        }
      }
    }
  }

  /** Dropping a trailing CR from the last field of the last row changes the rows. */
  lemma StrippedDiffers(rows: Rows, row: Fields, field: string)
    requires EndsWithCr(field)
    ensures rows + [row + [WithoutCr(field)]] != rows + [row + [field]]
  {
    var kept, dropped := rows + [row + [field]], rows + [row + [WithoutCr(field)]];
    assert kept[|rows|][|row|] == field && dropped[|rows|][|row|] == WithoutCr(field);
  }

  lemma LastIsMember(s: string)
    ensures '\r' !in s ==> WithoutCr(s) == s
  {
    assert s != [] ==> s[|s| - 1] in s;
  }

  /** A CR before an LF or the end of the text leaves no trace in the native reader either. */
  lemma CrEndsLine(rest: string, m: Machine)
    requires !m.quoted && !m.afterQuote && (rest == [] || rest[0] == '\n')
    ensures WithoutCr(m.field + ['\r']) == m.field
    ensures rest == [] ==> RecordsFrom(['\r'], m) == ManifestFrom(['\r'], m)
    ensures rest != [] ==> RecordsTurn(rest[1..], '\n', Pushed(m, '\r')) == Ok((rest[1..], EndRow(m)))
    ensures rest != [] ==> RecordsFrom(rest, Pushed(m, '\r')) == RecordsFrom(rest[1..], EndRow(m))
  {
    var field := m.field + ['\r'];
    assert field[|field| - 1] == '\r' && field[..|field| - 1] == m.field;
    assert ['\r'][1..] == [];
  }

  // ---------------------------------------------------------------------
  // A lone CR always shows

  predicate Pending(m: Machine) {
    m.row != [] || m.field != []
  }

  /** The rows read so far, a pending one included. */
  function Count(m: Machine): nat {
    |m.rows| + (if Pending(m) then 1 else 0)
  }

  /**
    The manifest reader, run beside the native one, stands at the same quotes and has nothing pending that the other
    has not.
  */
  ghost predicate Beside(m: Machine, other: Machine) {
    && m.quoted == other.quoted && m.afterQuote == other.afterQuote && !(m.quoted && m.afterQuote)
    && (m.field == [] ==> other.field == [])
    && (!Pending(m) ==> !Pending(other))
  }

  /** A turn that is not at an unquoted CR moves both readers alike. */
  lemma LeadStep(rest: string, ch: char, m: Machine, other: Machine)
    requires Beside(m, other) && Count(other) > Count(m)
    requires m.quoted || m.afterQuote || ch != '\r'
    requires RecordsTurn(rest, ch, m).Ok? && ManifestTurn(rest, ch, other).Ok?
    ensures RecordsTurn(rest, ch, m).value.0 == ManifestTurn(rest, ch, other).value.0
    ensures Beside(RecordsTurn(rest, ch, m).value.1, ManifestTurn(rest, ch, other).value.1)
    ensures Count(ManifestTurn(rest, ch, other).value.1) > Count(RecordsTurn(rest, ch, m).value.1)
  {
  }

  /** From there on the manifest reader never loses its lead in rows. */
  lemma {:induction false} LeadIsKept(text: string, m: Machine, other: Machine)
    requires Beside(m, other) && Count(other) > Count(m)
    requires RecordsFrom(text, m).Ok? && ManifestFrom(text, other).Ok?
    ensures |ManifestFrom(text, other).value| > |RecordsFrom(text, m).value|
    decreases |text|
  {
    if text != [] {
      var ch, rest := text[0], text[1..];
      if ch == '\r' && !m.quoted && !m.afterQuote {
        if Begins(rest, '\n') {
          CrEndsLine(rest, m);
          LeadIsKept(rest[1..], EndRow(m), EndRow(other));
        } else {
          LeadIsKept(rest, Pushed(m, '\r'), EndRow(other));
        }
      } else {
        var turn := RecordsTurn(rest, ch, m).value;
        var otherTurn := ManifestTurn(rest, ch, other).value;
        LeadStep(rest, ch, m, other);
        LeadIsKept(turn.0, turn.1, otherTurn.1);
      }
    }
  }

  /** The first turn after a lone CR gives the manifest reader its lead. */
  lemma LeadIsTaken(rest: string, m: Machine)
    requires !m.quoted && !m.afterQuote && rest != [] && rest[0] != '\n'
    requires RecordsFrom(rest, Pushed(m, '\r')).Ok? && ManifestFrom(rest, EndRow(m)).Ok?
    ensures |ManifestFrom(rest, EndRow(m)).value| > |RecordsFrom(rest, Pushed(m, '\r')).value|
  {
    var ch, after := rest[0], rest[1..];
    var here, there := Pushed(m, '\r'), EndRow(m);
    if ch == '\r' {
      if Begins(after, '\n') {
        CrEndsLine(after, here);
        LeadIsKept(after[1..], EndRow(here), EndRow(there));
      } else {
        LeadIsKept(after, Pushed(here, '\r'), EndRow(there));
      }
    } else {
      var turn := RecordsTurn(after, ch, here).value;
      var otherTurn := ManifestTurn(after, ch, there).value;
      LeadIsKept(turn.0, turn.1, otherTurn.1);
    }
  }

  lemma {:induction false} HarmfulCrShows(text: string, m: Machine)
    requires !HarmlessCrs(text, m) && Clean(m) && !(m.quoted && m.afterQuote)
    requires RecordsFrom(text, m).Ok?
    ensures ManifestFrom(text, m) != RecordsFrom(text, m)
    decreases |text|
  {
    if text == [] {
      StrippedDiffers(m.rows, m.row, m.field);
      return;
    }
    var ch, rest := text[0], text[1..];
    if m.quoted || m.afterQuote || ch != '\r' {
      LastIsMember(m.field);
      assert RecordsTurn(rest, ch, m) == ManifestTurn(rest, ch, m);
      var turn := RecordsTurn(rest, ch, m).value;
      HarmfulCrShows(turn.0, turn.1);
    } else if rest == [] || rest[0] == '\n' {
      CrEndsLine(rest, m);
      assert rest != [] by {
        assert HarmlessCrs([], Pushed(m, '\r'));
      }
      var after := rest[1..];
      assert RecordsTurn(after, '\n', Pushed(m, '\r')) == Ok((after, EndRow(m)));
      assert !HarmlessCrs(after, EndRow(m));
      HarmfulCrShows(after, EndRow(m));
    } else if ManifestFrom(text, m).Ok? {
      LeadIsTaken(rest, m);
    }
  }

  // ---------------------------------------------------------------------
  // Texts the native reader rejects

  /** Reading on from here, some CR outside quotes has a quote directly behind it. */
  ghost predicate QuoteBehindCr(text: string, m: Machine)
    decreases |text|
  {
    text != [] &&
    match RecordsTurn(text[1..], text[0], m)
    case Err(_) => false
    case Ok(turn) =>
      || (!m.quoted && !m.afterQuote && text[0] == '\r' && Begins(text[1..], '"'))
      || QuoteBehindCr(turn.0, turn.1)
  }

  /** The native reader has the CR in its field and takes the quote for a bare one. */
  lemma {:induction false} QuoteBehindCrIsBare(text: string, m: Machine)
    requires QuoteBehindCr(text, m)
    ensures RecordsFrom(text, m) == Err(BareQuote)
    decreases |text|
  {
    var ch, rest := text[0], text[1..];
    var turn := RecordsTurn(rest, ch, m).value;
    if !m.quoted && !m.afterQuote && ch == '\r' && Begins(rest, '"') {
      assert turn == (rest, Pushed(m, ch));
      assert RecordsTurn(rest[1..], rest[0], turn.1) == Err(BareQuote);
    } else {
      QuoteBehindCrIsBare(turn.0, turn.1);
    }
  }

  /**
    Both readers stand at the same quotes and are as near to an error; only behind a CR one has a field begun and the
    other not.
  */
  ghost predicate Alike(text: string, m: Machine, other: Machine) {
    && m.quoted == other.quoted && m.afterQuote == other.afterQuote && !(m.quoted && m.afterQuote)
    && (other.field == [] <== m.field == [])
    && (other.field == [] && m.field != [] ==> !m.quoted && !m.afterQuote && !Begins(text, '"'))
  }

  /** A turn that is not at an unquoted CR fails for both readers alike or keeps them alike. */
  lemma AlikeStep(rest: string, ch: char, m: Machine, other: Machine)
    requires Alike([ch] + rest, m, other)
    requires m.quoted || m.afterQuote || ch != '\r'
    ensures var turn, otherTurn := RecordsTurn(rest, ch, m), ManifestTurn(rest, ch, other);
      && (turn.Err? ==> otherTurn == turn)
      && (turn.Ok? ==> otherTurn.Ok? && otherTurn.value.0 == turn.value.0
                       && Alike(turn.value.0, turn.value.1, otherTurn.value.1))
  {
  }

  /** Where no quote stands directly behind an unquoted CR, both readers accept or both reject with the same error. */
  lemma {:induction false} RejectAlike(text: string, m: Machine, other: Machine)
    requires Alike(text, m, other) && !QuoteBehindCr(text, m)
    ensures RecordsFrom(text, m).Err? <==> ManifestFrom(text, other).Err?
    ensures RecordsFrom(text, m).Err? ==> RecordsFrom(text, m) == ManifestFrom(text, other)
    decreases |text|
  {
    if text != [] {
      var ch, rest := text[0], text[1..];
      if m.quoted || m.afterQuote || ch != '\r' {
        assert text == [ch] + rest;
        AlikeStep(rest, ch, m, other);
        if RecordsTurn(rest, ch, m).Ok? {
          var turn := RecordsTurn(rest, ch, m).value;
          RejectAlike(turn.0, turn.1, ManifestTurn(rest, ch, other).value.1);
        }
      } else if Begins(rest, '\n') {
        CrEndsLine(rest, m);
        assert !QuoteBehindCr(rest, Pushed(m, ch));
        RejectAlike(rest[1..], EndRow(m), EndRow(other));
      } else {
        RejectAlike(rest, Pushed(m, ch), EndRow(other));
      }
    }
  }

  /** The text from the first quote directly behind an unquoted CR. */
  ghost function FromThatQuote(text: string, m: Machine): (tail: string)
    requires QuoteBehindCr(text, m)
    ensures Begins(tail, '"') && |tail| < |text|
    decreases |text|
  {
    var rest := text[1..];
    if !m.quoted && !m.afterQuote && text[0] == '\r' && Begins(rest, '"') then rest
    else
      var turn := RecordsTurn(rest, text[0], m).value;
      FromThatQuote(turn.0, turn.1)
  }

  /** The same place in the text, with other rows behind it. */
  ghost predicate SamePlace(m: Machine, other: Machine) {
    m.field == other.field && m.quoted == other.quoted && m.afterQuote == other.afterQuote
  }

  /** Whether and why the manifest reader rejects a text does not depend on what it has read before. */
  lemma {:induction false} RejectionForgetsRows(text: string, m: Machine, other: Machine)
    requires SamePlace(m, other)
    ensures ManifestFrom(text, m).Err? <==> ManifestFrom(text, other).Err?
    ensures ManifestFrom(text, m).Err? ==> ManifestFrom(text, m) == ManifestFrom(text, other)
    decreases |text|
  {
    if text != [] {
      var turn, otherTurn := ManifestTurn(text[1..], text[0], m), ManifestTurn(text[1..], text[0], other);
      if turn.Ok? {
        RejectionForgetsRows(turn.value.0, turn.value.1, otherTurn.value.1);
      }
    }
  }

  /** At a quote directly behind a CR, the manifest reader begins the text behind the CR as it would begin any text. */
  lemma {:induction false} ManifestStartsAfresh(text: string, m: Machine, other: Machine)
    requires Alike(text, m, other) && QuoteBehindCr(text, m)
    ensures ManifestFrom(text, other) == Err(BareQuote) <==>
      ManifestFrom(FromThatQuote(text, m), START) == Err(BareQuote)
    decreases |text|
  {
    var ch, rest := text[0], text[1..];
    if m.quoted || m.afterQuote || ch != '\r' {
      assert text == [ch] + rest;
      AlikeStep(rest, ch, m, other);
      var turn := RecordsTurn(rest, ch, m).value;
      ManifestStartsAfresh(turn.0, turn.1, ManifestTurn(rest, ch, other).value.1);
    } else if Begins(rest, '"') {
      RejectionForgetsRows(rest, EndRow(other), START);
    } else if Begins(rest, '\n') {
      CrEndsLine(rest, m);
      LineFeedIsPassed(rest, m);
      ManifestStartsAfresh(rest[1..], EndRow(m), EndRow(other));
    } else {
      ManifestStartsAfresh(rest, Pushed(m, ch), EndRow(other));
    }
  }

  lemma LineFeedIsPassed(rest: string, m: Machine)
    requires Begins(rest, '\n') && !m.quoted && !m.afterQuote && QuoteBehindCr(rest, Pushed(m, '\r'))
    ensures QuoteBehindCr(rest[1..], EndRow(m))
    ensures FromThatQuote(rest, Pushed(m, '\r')) == FromThatQuote(rest[1..], EndRow(m))
  {
    CrEndsLine(rest, m);
  }

  /**
    When the readers agree. Unless a quote stands directly behind an unquoted CR: exactly if the native reader rejects
    the text or its CRs are harmless. Otherwise the native reader finds a bare quote, and they agree exactly if the
    manifest reader finds one in the text from that quote on.
   */
  lemma ReadersAgreeExactly(text: string)
    ensures !QuoteBehindCr(text, START) ==>
      (ManifestFrom(text, START) == RecordsFrom(text, START) <==>
       RecordsFrom(text, START).Err? || HarmlessCrs(text, START))
    ensures QuoteBehindCr(text, START) ==>
      && RecordsFrom(text, START) == Err(BareQuote)
      && (ManifestFrom(text, START) == RecordsFrom(text, START) <==>
          ManifestFrom(FromThatQuote(text, START), START) == Err(BareQuote))
  {
    if QuoteBehindCr(text, START) {
      QuoteBehindCrIsBare(text, START);
      ManifestStartsAfresh(text, START, START);
    } else {
      RejectAlike(text, START, START);
      if HarmlessCrs(text, START) {
        ReadersAgree(text, START);
      } else if RecordsFrom(text, START).Ok? {
        HarmfulCrShows(text, START);
      }
    }
  }

  /** A text of a CR and a quoted field: the native reader rejects it, the manifest reader takes it. */
  lemma CrThenQuoteAccepted()
    ensures RecordsFrom(['\r', '"', 'a', '"'], START) == Err(BareQuote)
    ensures ManifestFrom(['\r', '"', 'a', '"'], START) == Ok([[[]], ["a"]])
  {
    var text: string := ['\r', '"', 'a', '"'];
    var line := EndRow(START);
    assert text[1..] == ['"', 'a', '"'] && ['"', 'a', '"'][1..] == ['a', '"'] && ['a', '"'][1..] == ['"'];
    assert RecordsFrom(text, START) == RecordsFrom(['"', 'a', '"'], Pushed(START, '\r'));
    assert ManifestFrom(text, START) == ManifestFrom(['"', 'a', '"'], line);
    assert ManifestFrom(['"', 'a', '"'], line) == ManifestFrom(['a', '"'], line.(quoted := true));
    QuotedA(line);
    LoneRow([]);
    assert ManifestFrom([], line.(field := ['a'], afterQuote := true)) == Ok(line.rows + [line.row + [['a']]]);
    assert line.row + [['a']] == [['a']] && START.row + [[]] == [[]];
    assert line.rows == [[[]]] && line.rows + [[['a']]] == [[[]], ["a"]];
  }

  /** With a bare quote later on, both reject it for the same reason. */
  lemma CrThenQuoteRejected()
    ensures RecordsFrom(['\r', '"', 'a', '"', ',', 'b', '"'], START) == Err(BareQuote)
    ensures ManifestFrom(['\r', '"', 'a', '"', ',', 'b', '"'], START) == Err(BareQuote)
  {
    var text: string := ['\r', '"', 'a', '"', ',', 'b', '"'];
    var line := EndRow(START);
    assert text[1..] == ['"', 'a', '"', ',', 'b', '"'];
    assert RecordsFrom(text, START) == RecordsFrom(['"', 'a', '"', ',', 'b', '"'], Pushed(START, '\r'));
    assert ManifestFrom(text, START) == ManifestFrom(['"', 'a', '"', ',', 'b', '"'], line);
    BareQuoteLater(line);
  }

  lemma QuotedA(m: Machine)
    requires m.field == [] && !m.quoted && !m.afterQuote
    ensures ManifestFrom(['a', '"'], m.(quoted := true)) == ManifestFrom([], m.(field := ['a'], afterQuote := true))
  {
    var inside := m.(quoted := true);
    assert ['a', '"'][1..] == ['"'] && ['"'][1..] == [] && m.field + ['a'] == ['a'];
    assert ManifestFrom(['a', '"'], inside) == ManifestFrom(['"'], Pushed(inside, 'a'));
  }

  lemma BareQuoteLater(m: Machine)
    requires m.field == [] && !m.quoted && !m.afterQuote
    ensures ManifestFrom(['"', 'a', '"', ',', 'b', '"'], m) == Err(BareQuote)
  {
    var inside := m.(quoted := true);
    var closed := Pushed(inside, 'a').(quoted := false, afterQuote := true);
    assert ['"', 'a', '"', ',', 'b', '"'][1..] == ['a', '"', ',', 'b', '"'];
    assert ['a', '"', ',', 'b', '"'][1..] == ['"', ',', 'b', '"'];
    assert ['"', ',', 'b', '"'][1..] == [',', 'b', '"'] && [',', 'b', '"'][1..] == ['b', '"'];
    assert ['b', '"'][1..] == ['"'];
    assert ManifestFrom(['"', 'a', '"', ',', 'b', '"'], m) == ManifestFrom(['a', '"', ',', 'b', '"'], inside);
    assert ManifestFrom(['a', '"', ',', 'b', '"'], inside) == ManifestFrom(['"', ',', 'b', '"'], Pushed(inside, 'a'));
    assert ManifestFrom(['"', ',', 'b', '"'], Pushed(inside, 'a')) == ManifestFrom([',', 'b', '"'], closed);
    assert ManifestFrom([',', 'b', '"'], closed) == ManifestFrom(['b', '"'], EndField(closed));
    assert ManifestFrom(['b', '"'], EndField(closed)) == ManifestFrom(['"'], Pushed(EndField(closed), 'b'));
  }

  /**
    What the CSV writer wrote, both readers read alike: the CRs of a field stand between quotes, and every row ends
    with an LF.
  */
  lemma WrittenRowsReadAlike(rows: seq<seq<Option<string>>>)
    ensures ManifestFrom(RowsText(rows), START) == Ok(AllReadBack(rows))
  {
    ReadRows(rows, []);
    WrittenRowsReadBack(rows);
    ReadersAgree(RowsText(rows), START);
  }

  /** A quoted CR at the very end of the text is lost by the native reader and kept by the other. */
  lemma QuotedCrAtEndIsLost()
    ensures RecordsFrom(['"', '\r', '"'], START) == Ok([[[]]])
    ensures ManifestFrom(['"', '\r', '"'], START) == Ok([[['\r']]])
  {
    var text: string := ['"', '\r', '"'];
    var inside, closed := START.(quoted := true), START.(field := ['\r'], afterQuote := true);
    assert text[1..] == ['\r', '"'] && text[1..][1..] == ['"'] && ['"'][1..] == [];
    assert [] + ['\r'] == ['\r'];
    assert RecordsFrom(text, START) == RecordsFrom(['\r', '"'], inside) == RecordsFrom(['"'], Pushed(inside, '\r'));
    assert ManifestFrom(text, START) == ManifestFrom(['\r', '"'], inside) == ManifestFrom(['"'], Pushed(inside, '\r'));
    assert RecordsFrom(['"'], Pushed(inside, '\r')) == RecordsFrom([], closed);
    assert ManifestFrom(['"'], Pushed(inside, '\r')) == ManifestFrom([], closed);
    LoneRow([]);
    LoneRow(['\r']);
    assert EndsWithCr(['\r']) && ['\r'][..0] == [];
    assert RecordsFrom([], closed) == Ok(closed.rows + [closed.row + [WithoutCr(['\r'])]]);
    assert ManifestFrom([], closed) == Ok(closed.rows + [closed.row + [['\r']]]);
  }

  lemma LoneRow(field: string)
    ensures START.rows + [START.row + [field]] == [[field]]
  {
    assert START.row + [field] == [field];
    assert START.rows + [[field]] == [[field]];
  }
}
