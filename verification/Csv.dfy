/** CSV serialisation (src/lib/csv.ts), read back by the grammar of section 2 of RFC 4180. */
module Csv {
  import opened Wrappers
  import opened Text

  /** A value to export: null or undefined, or the text `String` or `JSON.stringify` makes of it. */
  datatype Cell = Missing | Value(text: string)

  const CRLF := "\r\n"

  // ---------------------------------------------------------------- the printer

  predicate StartsFormula(text: string) {
    text != "" && text[0] in {'=', '+', '-', '@', '\t', '\r'}
  }

  predicate Special(c: char) { c in {'"', ',', '\r', '\n'} }

  function DoubleQuotes(text: string): string {
    if text == "" then ""
    else (if text[0] == '"' then "\"\"" else [text[0]]) + DoubleQuotes(text[1..])
  }

  function Quoted(text: string): string {
    if exists i | 0 <= i < |text| :: Special(text[i]) then "\"" + DoubleQuotes(text) + "\"" else text
  }

  function ToCsvField(value: Cell): string {
    match value
    case Missing => ""
    case Value(text) => Quoted(if StartsFormula(text) then "'" + text else text)
  }

  function Map<A, B>(f: A -> B, s: seq<A>): (r: seq<B>)
    ensures |r| == |s| && forall i | 0 <= i < |s| :: r[i] == f(s[i])
  {
    seq(|s|, i requires 0 <= i < |s| => f(s[i]))
  }

  lemma {:induction false} MapLast<A, B>(f: A -> B, s: seq<A>)
    requires s != []
    ensures Map(f, s) == Map(f, s[..|s| - 1]) + [f(s[|s| - 1])]
  {
  }

  function Line(cells: seq<Cell>): string {
    Join(Map(ToCsvField, cells), ",")
  }

  /** `toCsvRows`: positional rows, each line ended. */
  function ToCsvRows(headers: seq<Cell>, rows: seq<seq<Cell>>): string {
    Join([Line(headers)] + Map(Line, rows), CRLF) + CRLF
  }

  type Row = map<string, Cell>

  function CellOf(row: Row, column: string): Cell {
    if column in row then row[column] else Missing
  }

  function Cells(columns: seq<string>, row: Row): seq<Cell> {
    Map(column => CellOf(row, column), columns)
  }

  function HeaderCells(columns: seq<string>): seq<Cell> {
    Map(column => Value(column), columns)
  }

  /** Everything `toCsv` prints, header first. */
  function Table(columns: seq<string>, rows: seq<Row>): (t: seq<seq<Cell>>)
    ensures |t| == 1 + |rows|
  {
    [HeaderCells(columns)] + Map(row => Cells(columns, row), rows)
  }

  /** `toCsv`: rows by column name, lines joined but the last one not ended. */
  method ToCsv(columns: seq<string>, rows: seq<Row>) returns (csv: string)
    ensures csv == Join(Map(Line, Table(columns, rows)), CRLF)
  {
    var lines := [Line(HeaderCells(columns))];
    for i := 0 to |rows|
      invariant |lines| == i + 1
      invariant forall j | 0 <= j <= i :: lines[j] == Line(Table(columns, rows)[j])
    {
      lines := lines + [Line(Cells(columns, rows[i]))];
    }
    assert lines == Map(Line, Table(columns, rows));
    csv := Join(lines, CRLF);
  }

  // ---------------------------------------------------------------- section 2 of RFC 4180

  /** The rest of a quoted field after its opening quote, and what follows the closing one. */
  function ParseQuoted(s: string): (r: Option<(string, string)>)
    ensures r.Some? ==> |r.value.1| < |s|
  {
    if s == "" then None
    else if s[0] != '"' then
      match ParseQuoted(s[1..])
      case None => None
      case Some((text, rest)) => Some(([s[0]] + text, rest))
    else if |s| > 1 && s[1] == '"' then
      match ParseQuoted(s[2..])
      case None => None
      case Some((text, rest)) => Some((['"'] + text, rest))
    else Some(("", s[1..]))
  }

  /** A field without quotes: everything before the next quote, comma, CR or LF. */
  function ParsePlain(s: string): (r: (string, string))
    ensures |r.1| <= |s|
  {
    if s == "" || Special(s[0]) then ("", s)
    else
      var (text, rest) := ParsePlain(s[1..]);
      ([s[0]] + text, rest)
  }

  function ParseField(s: string): (r: Option<(string, string)>)
    ensures r.Some? ==> |r.value.1| <= |s|
  {
    if s != "" && s[0] == '"' then ParseQuoted(s[1..]) else Some(ParsePlain(s))
  }

  function ParseRecord(s: string): (r: Option<(seq<string>, string)>)
    ensures r.Some? ==> |r.value.1| <= |s|
    decreases |s|
  {
    match ParseField(s)
    case None => None
    case Some((field, rest)) =>
      if rest == "" || rest[0] != ',' then Some(([field], rest))
      else
        match ParseRecord(rest[1..])
        case None => None
        case Some((fields, end)) => Some(([field] + fields, end))
  }

  /** Records ended by CRLF; the last one may lack it. `None` for text the grammar does not describe. */
  function Decode(s: string): Option<seq<seq<string>>>
    decreases |s|
  {
    if s == "" then Some([])
    else
      match ParseRecord(s)
      case None => None
      case Some((record, rest)) =>
        if rest == "" then Some([record])
        else if |rest| >= 2 && rest[..2] == CRLF then
          match Decode(rest[2..])
          case None => None
          case Some(records) => Some([record] + records)
        else None
  }

  // ---------------------------------------------------------------- round trip

  /** What a reader sees in a cell: its text, behind an apostrophe if it would start a formula. */
  function Shown(value: Cell): string {
    match value
    case Missing => ""
    case Value(text) => if StartsFormula(text) then "'" + text else text
  }

  function ShownCells(cells: seq<Cell>): (r: seq<string>)
    ensures |r| == |cells|
  {
    Map(Shown, cells)
  }

  /** The record a line is read back as; a line of no cells reads as one empty field. */
  function Record(cells: seq<Cell>): seq<string> {
    if cells == [] then [""] else ShownCells(cells)
  }

  lemma {:induction false} QuotedReadsBack(text: string, rest: string)
    requires rest == "" || rest[0] != '"'
    ensures ParseQuoted(DoubleQuotes(text) + "\"" + rest) == Some((text, rest))
  {
    var s := DoubleQuotes(text) + "\"" + rest;
    if text == "" {
      assert s[1..] == rest;
    } else {
      var tail := DoubleQuotes(text[1..]) + "\"" + rest;
      QuotedReadsBack(text[1..], rest);
      assert text == [text[0]] + text[1..];
      if text[0] == '"' {
        assert s[2..] == tail;
      } else {
        assert s[1..] == tail;
      }
    }
  }

  lemma {:induction false} PlainReadsBack(text: string, rest: string)
    requires forall i | 0 <= i < |text| :: !Special(text[i])
    requires rest == "" || Special(rest[0])
    ensures ParsePlain(text + rest) == (text, rest)
  {
    if text == "" {
      assert text + rest == rest;
    } else {
      assert (text + rest)[1..] == text[1..] + rest;
      PlainReadsBack(text[1..], rest);
      assert text == [text[0]] + text[1..];
    }
  }

  lemma FieldReadsBack(value: Cell, rest: string)
    requires rest == "" || rest[0] == ',' || rest[0] == '\r'
    ensures ParseField(ToCsvField(value) + rest) == Some((Shown(value), rest))
  {
    var text := Shown(value);
    assert ToCsvField(value) == Quoted(text);
    if exists i | 0 <= i < |text| :: Special(text[i]) {
      QuotedReadsBack(text, rest);
      assert (Quoted(text) + rest)[1..] == DoubleQuotes(text) + "\"" + rest;
    } else {
      PlainReadsBack(text, rest);
    }
  }

  lemma {:induction false} LineReadsBack(cells: seq<Cell>, rest: string)
    requires rest == "" || rest[0] == '\r'
    ensures ParseRecord(Line(cells) + rest) == Some((Record(cells), rest))
  {
    hide ToCsvField, ParseField, Shown;
    if cells == [] {
      FieldReadsBack(Missing, rest);
      assert ToCsvField(Missing) == "" && Shown(Missing) == "" by { EmptyCell(); }
    } else if |cells| == 1 {
      FieldReadsBack(cells[0], rest);
      assert Record(cells) == [Shown(cells[0])];
    } else {
      var tail := Line(cells[1..]) + rest;
      assert Line(cells) + rest == ToCsvField(cells[0]) + ("," + tail) by {
        assert Map(ToCsvField, cells)[1..] == Map(ToCsvField, cells[1..]);
      }
      FieldReadsBack(cells[0], "," + tail);
      assert ("," + tail)[1..] == tail;
      LineReadsBack(cells[1..], rest);
      assert Record(cells) == [Shown(cells[0])] + Record(cells[1..]);
    }
  }

  lemma EmptyCell()
    ensures ToCsvField(Missing) == "" && Shown(Missing) == ""
  {
  }

  /** Lines each ended by CRLF. */
  function Ended(table: seq<seq<Cell>>): string {
    if table == [] then "" else Line(table[0]) + CRLF + Ended(table[1..])
  }

  lemma {:induction false} EndedReadsBack(table: seq<seq<Cell>>, last: string, records: seq<seq<string>>)
    requires Decode(last) == Some(records)
    ensures Decode(Ended(table) + last) == Some(Map(Record, table) + records)
  {
    hide Line, Record, ParseRecord;
    if table == [] {
      assert Ended(table) + last == last;
      assert Map(Record, table) + records == records;
    } else {
      var rest := CRLF + (Ended(table[1..]) + last);
      assert Ended(table) + last == Line(table[0]) + rest;
      LineReadsBack(table[0], rest);
      assert rest[2..] == Ended(table[1..]) + last;
      assert rest[..2] == CRLF;
      EndedReadsBack(table[1..], last, records);
      assert Map(Record, table) + records == [Record(table[0])] + (Map(Record, table[1..]) + records);
    }
  }

  lemma {:induction false} JoinedIsEnded(table: seq<seq<Cell>>)
    requires table != []
    ensures Join(Map(Line, table), CRLF) == Ended(table[..|table| - 1]) + Line(table[|table| - 1])
    ensures Join(Map(Line, table), CRLF) + CRLF == Ended(table)
  {
    hide Line;
    if |table| > 1 {
      assert Map(Line, table)[1..] == Map(Line, table[1..]);
      JoinedIsEnded(table[1..]);
      assert table[1..][..|table[1..]| - 1] == table[..|table| - 1][1..];
    }
  }

  /** What `toCsvRows` prints reads back as the same rows, whatever the text in them: commas, quotes, CR
      and LF included. Only a row without columns reads back as something else. */
  lemma RowsReadBack(headers: seq<Cell>, rows: seq<seq<Cell>>)
    ensures Decode(ToCsvRows(headers, rows)) == Some(Map(Record, [headers] + rows))
  {
    hide Line, Record, Decode;
    var table := [headers] + rows;
    assert [Line(headers)] + Map(Line, rows) == Map(Line, table);
    JoinedIsEnded(table);
    assert Decode("") == Some([]) by { EmptyFile(); }
    EndedReadsBack(table, "", []);
    assert Ended(table) + "" == Ended(table);
    assert Map(Record, table) + [] == Map(Record, table);
  }

  lemma EmptyFile()
    ensures Decode("") == Some([])
  {
  }

  lemma RecordShowsCells(cells: seq<Cell>)
    ensures Record(cells) == ShownCells(cells) <==> cells != []
  {
    assert |ShownCells(cells)| == |cells|;
  }

  lemma {:induction false} RecordsShowRows(table: seq<seq<Cell>>)
    ensures Map(Record, table) == Map(ShownCells, table) <==> forall i | 0 <= i < |table| :: table[i] != []
  {
    forall i | 0 <= i < |table| ensures Map(Record, table)[i] == Map(ShownCells, table)[i] <==> table[i] != [] {
      RecordShowsCells(table[i]);
    }
    hide Map, Record, ShownCells;
  }

  /** The rows come back cell by cell if and only if every one has a column. */
  lemma RowsReadBackExactly(headers: seq<Cell>, rows: seq<seq<Cell>>)
    ensures Decode(ToCsvRows(headers, rows)) == Some(Map(ShownCells, [headers] + rows)) <==>
            headers != [] && forall i | 0 <= i < |rows| :: rows[i] != []
  {
    hide *;
    RowsReadBack(headers, rows);
    RecordsShowRows([headers] + rows);
    FirstAndRest(headers, rows);
  }

  lemma FirstAndRest(first: seq<Cell>, rest: seq<seq<Cell>>)
    ensures (forall i | 0 <= i < |[first] + rest| :: ([first] + rest)[i] != []) <==>
            first != [] && forall i | 0 <= i < |rest| :: rest[i] != []
  {
    var all := [first] + rest;
    assert all[0] == first;
    assert forall i | 0 <= i < |rest| :: all[i + 1] == rest[i];
  }

  /** `toCsv` does not end its last line, so what it prints reads back as the same rows if and only if
      the last of them is not a single empty field. */
  lemma TableReadsBack(columns: seq<string>, rows: seq<Row>)
    ensures var table := Table(columns, rows);
            Decode(Join(Map(Line, table), CRLF)) == Some(Map(Record, table)) <==>
            Record(table[|table| - 1]) != [""]
  {
    hide *;
    TableHasLast(Table(columns, rows));
  }

  lemma TableHasLast(table: seq<seq<Cell>>)
    requires table != []
    ensures Decode(Join(Map(Line, table), CRLF)) == Some(Map(Record, table)) <==> Record(table[|table| - 1]) != [""]
  {
    hide Line, Record, Decode, Join, Ended, Map;
    MapLast(Record, table);
    var init, last := table[..|table| - 1], table[|table| - 1];
    JoinedIsEnded(table);
    EmptyLine(last);
    if Line(last) == "" {
      EmptyFile();
      EndedReadsBack(init, Line(last), []);
      assert |Map(Record, init) + []| < |Map(Record, table)|;
    } else {
      LastLine(last);
      EndedReadsBack(init, Line(last), [Record(last)]);
    }
  }

  lemma LastLine(cells: seq<Cell>)
    requires Line(cells) != ""
    ensures Decode(Line(cells)) == Some([Record(cells)])
  {
    hide Line, Record, ParseRecord;
    LineReadsBack(cells, "");
    assert Line(cells) + "" == Line(cells);
  }

  lemma EmptyLine(cells: seq<Cell>)
    ensures Line(cells) == "" <==> Record(cells) == [""]
  {
    LineReadsBack(cells, "");
    assert Line(cells) + "" == Line(cells);
    if Record(cells) == [""] && cells != [] {
      assert |cells| == 1;
      assert Shown(cells[0]) == "" by { assert Map(Shown, cells)[0] == ""; }
    }
  }

  /** Read back, field `j` of the header is the name of column `j`, and field `j` of row `i` shows the row's value
      of that column, or nothing where it has none. */
  lemma FieldsAreByColumn(columns: seq<string>, rows: seq<Row>, records: seq<seq<string>>, j: nat)
    requires j < |columns| && Record(Table(columns, rows)[|rows|]) != [""]
    requires Decode(Join(Map(Line, Table(columns, rows)), CRLF)) == Some(records)
    ensures |records| == 1 + |rows| && forall i | 0 <= i <= |rows| :: |records[i]| == |columns|
    ensures records[0][j] == Shown(Value(columns[j]))
    ensures forall i | 0 <= i < |rows| ::
              records[i + 1][j] == if columns[j] in rows[i] then Shown(rows[i][columns[j]]) else ""
  {
    hide Decode, Join, Line, Shown;
    TableReadsBack(columns, rows);
    EmptyCell();
  }

  /** A field is printed in quotes exactly when it carries a comma, a quote, a CR or an LF. */
  lemma QuotedWhenNeeded(value: Cell)
    ensures ToCsvField(value) == Shown(value) <==> forall c | c in Shown(value) :: c !in {'"', ',', '\r', '\n'}
    ensures ToCsvField(value) != Shown(value) ==> ToCsvField(value)[0] == '"'
  {
    var text := Shown(value);
    if i :| 0 <= i < |text| && Special(text[i]) {
      DoublingGrows(text);
      assert text[i] in text;
      assert |ToCsvField(value)| > |text|;
    }
  }

  lemma {:induction false} DoublingGrows(text: string)
    ensures |DoubleQuotes(text)| >= |text|
  {
    if text != "" { DoublingGrows(text[1..]); }
  }

  // ---------------------------------------------------------------- formulas

  /** What a spreadsheet reads as the beginning of a formula. */
  const FORMULA_STARTS := {'=', '+', '-', '@', '\t', '\r'}

  /** No field a reader sees begins with a character that starts a formula, and it is the cell's own
      text but for the apostrophe added in that case. */
  lemma FieldsAreInert(value: Cell)
    ensures Shown(value) == "" || Shown(value)[0] !in FORMULA_STARTS
    ensures value.Value? ==>
              Shown(value) == if value.text != "" && value.text[0] in FORMULA_STARTS then "'" + value.text else value.text
    ensures value.Missing? ==> Shown(value) == ""
  {
  }

  /** Whatever was exported, no field of the file as it is read back begins with a formula character. */
  lemma NoDecodedFieldStartsAFormula(headers: seq<Cell>, rows: seq<seq<Cell>>)
    ensures Decode(ToCsvRows(headers, rows)).Some?
    ensures forall record, field | record in Decode(ToCsvRows(headers, rows)).value && field in record :: field == "" || field[0] !in FORMULA_STARTS
  {
    RowsReadBack(headers, rows);
    var table := [headers] + rows;
    hide Decode, ToCsvRows, Shown, StartsFormula;
    forall record, field | record in Map(Record, table) && field in record
      ensures field == "" || field[0] !in FORMULA_STARTS
    {
      var i :| 0 <= i < |table| && Record(table[i]) == record;
      if table[i] == [] {
        FieldsAreInert(Missing);
        EmptyCell();
      } else {
        var k :| 0 <= k < |table[i]| && Shown(table[i][k]) == field;
        FieldsAreInert(table[i][k]);
      }
    }
  }

  /** Two texts look the same to a reader exactly if they are the same, or one is the other behind the
      apostrophe. */
  lemma ShownTellsTextsApart(a: string, b: string)
    ensures Shown(Value(a)) == Shown(Value(b)) <==>
            a == b || (StartsFormula(b) && a == "'" + b) || (StartsFormula(a) && b == "'" + a)
  {
    if StartsFormula(a) && StartsFormula(b) {
      assert ("'" + a)[1..] == a && ("'" + b)[1..] == b;
    }
  }
}
