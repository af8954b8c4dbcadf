/** Writing CSV rows, and the two state machines that read them back. */
module CsvText {
  import opened Sequences
  import opened Outcomes

  datatype CsvError = UnclosedQuote | BareQuote | CharactersAfterClosingQuote

  type Fields = seq<string>
  type Rows = seq<Fields>

  // ---------------------------------------------------------------------
  // Writing

  /** Every quote doubled. */
  function Doubled(s: string): string {
    if s == [] then [] else (if s[0] == '"' then ['"', '"'] else [s[0]]) + Doubled(s[1..])
  }

  predicate NeedsQuotes(s: string) {
    ',' in s || '"' in s || '\r' in s || '\n' in s
  }

  function FieldText(s: string): string {
    if NeedsQuotes(s) then ['"'] + Doubled(s) + ['"'] else s
  }

  /** The value of a cell; a missing one is empty. */
  function CellText(cell: Option<string>): string {
    match cell case None => [] case Some(s) => s
  }

  function FieldsText(cells: seq<Option<string>>): string {
    if cells == [] then []
    else if |cells| == 1 then FieldText(CellText(cells[0]))
    else FieldText(CellText(cells[0])) + [','] + FieldsText(cells[1..])
  }

  function RowText(cells: seq<Option<string>>): string {
    FieldsText(cells) + ['\n']
  }

  function RowsText(rows: seq<seq<Option<string>>>): string {
    if rows == [] then [] else RowText(rows[0]) + RowsText(rows[1..])
  }

  lemma {:induction false} FieldsTextPush(cells: seq<Option<string>>, cell: Option<string>)
    requires cells != []
    ensures FieldsText(cells + [cell]) == FieldsText(cells) + [','] + FieldText(CellText(cell))
  {
    assert (cells + [cell])[1..] == cells[1..] + [cell];
    if |cells| > 1 {
      FieldsTextPush(cells[1..], cell);
      var first, rest := FieldText(CellText(cells[0])) + [','], FieldsText(cells[1..]);
      Regroup(first, rest, [','], FieldText(CellText(cell)));
    } else {
      assert cells[1..] + [cell] == [cell];
    }
  }

  /** The cells written so far, then one more with its comma. */
  lemma NextCell(cells: seq<Option<string>>, index: nat)
    requires index < |cells|
    ensures FieldsText(cells[..index + 1]) ==
      FieldsText(cells[..index]) + (if index == 0 then [] else [',']) + FieldText(CellText(cells[index]))
  {
    assert cells[..index + 1] == cells[..index] + [cells[index]];
    if index != 0 {
      FieldsTextPush(cells[..index], cells[index]);
    } else {
      assert cells[..1][0] == cells[0];
    }
  }

  method CsvRow(before: string, cells: seq<Option<string>>) returns (out: string)
    ensures out == before + RowText(cells)
  {
    out := before;
    for index := 0 to |cells|
      invariant out == before + FieldsText(cells[..index])
    {
      NextCell(cells, index);
      ghost var written := FieldsText(cells[..index]);
      ghost var cell := FieldText(CellText(cells[index]));
      if index != 0 {
        out := out + [','];
      }
      assert out == before + (written + (if index == 0 then [] else [',']));
      if cells[index].Some? {
        out := out + FieldText(cells[index].value);
      }
      assert out == before + (written + (if index == 0 then [] else [',']) + cell);
    }
    assert cells[..|cells|] == cells;
    out := out + ['\n'];
  }

  // ---------------------------------------------------------------------
  // Reading: what both machines share

  datatype Machine = Machine(rows: Rows, row: Fields, field: string, quoted: bool, afterQuote: bool)

  const START := Machine([], [], [], false, false)

  function EndField(m: Machine): Machine {
    Machine(m.rows, m.row + [m.field], [], false, false)
  }

  function EndRow(m: Machine): Machine {
    Machine(m.rows + [m.row + [m.field]], [], [], false, false)
  }

  function Pushed(m: Machine, ch: char): Machine {
    m.(field := m.field + [ch])
  }

  function SkipLf(s: string): string {
    if Begins(s, '\n') then s[1..] else s
  }

  predicate EndsWithCr(s: string) {
    s != [] && s[|s| - 1] == '\r'
  }

  function WithoutCr(s: string): string {
    if EndsWithCr(s) then s[..|s| - 1] else s
  }

  /** The rows at the end of the text: a pending row counts, unless it has neither fields nor characters. */
  function FinishedRows(m: Machine): Rows {
    if m.field != [] || m.row != [] then m.rows + [m.row + [m.field]] else m.rows
  }

  /** One turn right after a closing quote. */
  function AfterQuoteTurn(rest: string, ch: char, m: Machine): Result<(string, Machine), CsvError> {
    if ch == ',' then Ok((rest, EndField(m)))
    else if ch == '\n' then Ok((rest, EndRow(m)))
    else if ch == '\r' then Ok((SkipLf(rest), EndRow(m)))
    else Err(CharactersAfterClosingQuote)
  }

  /** One turn inside quotes. */
  function QuotedTurn(rest: string, ch: char, m: Machine): (string, Machine) {
    if ch == '"' then
      if Begins(rest, '"') then (rest[1..], Pushed(m, '"')) else (rest, m.(quoted := false, afterQuote := true))
    else (rest, Pushed(m, ch))
  }

  // ---------------------------------------------------------------------
  // The reader of native reports: an unquoted CR is kept, and dropped at a line or text end

  function RecordsTurn(rest: string, ch: char, m: Machine): Result<(string, Machine), CsvError> {
    if m.afterQuote then AfterQuoteTurn(rest, ch, m)
    else if m.quoted then Ok(QuotedTurn(rest, ch, m))
    else if ch == '"' then if m.field == [] then Ok((rest, m.(quoted := true))) else Err(BareQuote)
    else if ch == ',' then Ok((rest, EndField(m)))
    else if ch == '\n' then Ok((rest, EndRow(m.(field := WithoutCr(m.field)))))
    else Ok((rest, Pushed(m, ch)))
  }

  function RecordsFrom(text: string, m: Machine): Result<Rows, CsvError>
    decreases |text|
  {
    if text == [] then
      if m.quoted then Err(UnclosedQuote)
      else Ok(if m.field != [] || m.row != [] then m.rows + [m.row + [WithoutCr(m.field)]] else m.rows)
    else
      match RecordsTurn(text[1..], text[0], m)
      case Err(e) => Err(e)
      case Ok(turn) => RecordsFrom(turn.0, turn.1)
  }

  method ParseCsvRecords(text: string) returns (r: Result<Rows, CsvError>)
    ensures r == RecordsFrom(text, START)
  {
    var rows: Rows := [];
    var row: Fields := [];
    var field: string := [];
    var quoted, afterQuote := false, false;
    var i := 0;
    assert text[0..] == text;
    while i < |text|
      invariant i <= |text|
      invariant RecordsFrom(text, START) == RecordsFrom(text[i..], Machine(rows, row, field, quoted, afterQuote))
    {
      var ch := text[i];
      assert text[i..][1..] == text[i + 1..];
      assert i + 1 < |text| ==> text[i + 1..][0] == text[i + 1] && text[i + 1..][1..] == text[i + 2..];
      i := i + 1;
      if afterQuote {
        if ch == ',' {
          row := row + [field];
          field := [];
        } else if ch == '\n' || ch == '\r' {
          if ch == '\r' && i < |text| && text[i] == '\n' {
            i := i + 1;
          }
          rows := rows + [row + [field]];
          row, field := [], [];
        } else {
          return Err(CharactersAfterClosingQuote);
        }
        quoted, afterQuote := false, false;
      } else if quoted {
        if ch == '"' && i < |text| && text[i] == '"' {
          field := field + ['"'];
          i := i + 1;
        } else if ch == '"' {
          quoted := false;
          afterQuote := true;
        } else {
          field := field + [ch];
        }
      } else if ch == '"' {
        if field != [] {
          return Err(BareQuote);
        }
        quoted := true;
      } else if ch == ',' {
        row := row + [field];
        field := [];
      } else if ch == '\n' {
        if field != [] && field[|field| - 1] == '\r' {
          field := field[..|field| - 1];
        }
        rows := rows + [row + [field]];
        row, field := [], [];
      } else {
        field := field + [ch];
      }
    }
    if quoted {
      return Err(UnclosedQuote);
    }
    if field != [] || row != [] {
      if field != [] && field[|field| - 1] == '\r' {
        field := field[..|field| - 1];
      }
      row := row + [field];
      rows := rows + [row];
    }
    return Ok(rows);
  }

  // ---------------------------------------------------------------------
  // The reader of batch manifests: an unquoted CR ends the line, with or without an LF

  function ManifestTurn(rest: string, ch: char, m: Machine): Result<(string, Machine), CsvError> {
    if m.afterQuote then AfterQuoteTurn(rest, ch, m)
    else if m.quoted then Ok(QuotedTurn(rest, ch, m))
    else if ch == '"' then if m.field == [] then Ok((rest, m.(quoted := true))) else Err(BareQuote)
    else if ch == ',' then Ok((rest, EndField(m)))
    else if ch == '\n' then Ok((rest, EndRow(m)))
    else if ch == '\r' then Ok((SkipLf(rest), EndRow(m)))
    else Ok((rest, Pushed(m, ch)))
  }

  function ManifestFrom(text: string, m: Machine): Result<Rows, CsvError>
    decreases |text|
  {
    if text == [] then
      if m.quoted then Err(UnclosedQuote) else Ok(FinishedRows(m))
    else
      match ManifestTurn(text[1..], text[0], m)
      case Err(e) => Err(e)
      case Ok(turn) => ManifestFrom(turn.0, turn.1)
  }

  method ParseCsv(text: string) returns (r: Result<Rows, CsvError>)
    ensures r == ManifestFrom(text, START)
  {
    var rows: Rows := [];
    var row: Fields := [];
    var field: string := [];
    var quoted, afterQuote := false, false;
    var i := 0;
    assert text[0..] == text;
    while i < |text|
      invariant i <= |text|
      invariant ManifestFrom(text, START) == ManifestFrom(text[i..], Machine(rows, row, field, quoted, afterQuote))
    {
      var ch := text[i];
      assert text[i..][1..] == text[i + 1..];
      assert i + 1 < |text| ==> text[i + 1..][0] == text[i + 1] && text[i + 1..][1..] == text[i + 2..];
      i := i + 1;
      if afterQuote {
        if ch == ',' {
          row := row + [field];
          field := [];
        } else if ch == '\n' || ch == '\r' {
          if ch == '\r' && i < |text| && text[i] == '\n' {
            i := i + 1;
          }
          rows := rows + [row + [field]];
          row, field := [], [];
        } else {
          return Err(CharactersAfterClosingQuote);
        }
        quoted, afterQuote := false, false;
      } else if ch == '"' && quoted {
        if i < |text| && text[i] == '"' {
          i := i + 1;
          field := field + ['"'];
        } else {
          quoted := false;
          afterQuote := true;
        }
      } else if ch == '"' {
        if field != [] {
          return Err(BareQuote);
        }
        quoted := true;
      } else if ch == ',' && !quoted {
        row := row + [field];
        field := [];
      } else if (ch == '\n' || ch == '\r') && !quoted {
        if ch == '\r' && i < |text| && text[i] == '\n' {
          i := i + 1;
        }
        rows := rows + [row + [field]];
        row, field := [], [];
      } else {
        field := field + [ch];
      }
    }
    if quoted {
      return Err(UnclosedQuote);
    }
    if field != [] || row != [] {
      row := row + [field];
      rows := rows + [row];
    }
    return Ok(rows);
  }
}
