/** The CSV printer of lib/csv.ts against a reader for section 2 of RFC 4180 with LF line ends. */
module Csv {
  import opened Results

  /** A cell after conversion to text; null and undefined are absent. */
  type Cell = Option<string>

  /** A record object: its own keys in order, and its values. */
  datatype Row = Row(keys: seq<string>, cells: map<string, Cell>)

  // ----- printing -----

  predicate NeedsQuotes(text: string) {
    '"' in text || ',' in text || '\n' in text || '\r' in text
  }

  function DoubleQuotes(text: string): string {
    if text == "" then "" else (if text[0] == '"' then "\"\"" else [text[0]]) + DoubleQuotes(text[1..])
  }

  function Escape(text: string): string {
    if NeedsQuotes(text) then "\"" + DoubleQuotes(text) + "\"" else text
  }

  function CellText(c: Cell): string {
    if c.None? then "" else c.value
  }

  /** The value under a header; a missing one is undefined. */
  function ValueAt(row: Row, header: string): Cell {
    if header in row.cells then row.cells[header] else None
  }

  function JoinFields(fields: seq<string>): string {
    if fields == [] then ""
    else if |fields| == 1 then Escape(fields[0])
    else Escape(fields[0]) + "," + JoinFields(fields[1..])
  }

  function Fields(row: Row, headers: seq<string>): (fields: seq<string>)
    ensures |fields| == |headers|
  {
    seq(|headers|, i requires 0 <= i < |headers| => CellText(ValueAt(row, headers[i])))
  }

  /** The header and one record per row. */
  function Table(rows: seq<Row>): (records: seq<seq<string>>)
    ensures |records| == if rows == [] then 0 else |rows| + 1
  {
    if rows == [] then []
    else [rows[0].keys] + seq(|rows|, i requires 0 <= i < |rows| => Fields(rows[i], rows[0].keys))
  }

  /** Every line ends in a line feed. */
  function PrintRecords(records: seq<seq<string>>): string {
    if records == [] then "" else JoinFields(records[0]) + "\n" + PrintRecords(records[1..])
  }

  function JoinLines(lines: seq<string>): string {
    if lines == [] then "" else JoinLines(lines[..|lines| - 1]) + lines[|lines| - 1] + "\n"
  }

  /** What a reader has to find at row i and column j: the cell under that header, as text; nothing if the row
      has no such cell or an absent one. */
  ghost predicate IsCell(field: string, row: Row, header: string) {
    field == if header in row.cells && row.cells[header].Some? then row.cells[header].value else ""
  }

  /** The records hold the first row's keys and then, row by row, the cells under these keys. */
  ghost predicate HoldRows(records: seq<seq<string>>, rows: seq<Row>)
    requires rows != []
  {
    && |records| == |rows| + 1 && records[0] == rows[0].keys
    && forall i :: 0 <= i < |rows| ==> HoldRow(records[i + 1], rows[i], rows[0].keys)
  }

  ghost predicate HoldRow(record: seq<string>, row: Row, headers: seq<string>) {
    |record| == |headers| && forall j :: 0 <= j < |headers| ==> IsCell(record[j], row, headers[j])
  }

  lemma TableHoldsRows(rows: seq<Row>)
    requires rows != []
    ensures HoldRows(Table(rows), rows)
  {
    var records := Table(rows);
    forall i | 0 <= i < |rows|
      ensures HoldRow(records[i + 1], rows[i], rows[0].keys)
    {
      assert records[i + 1] == Fields(rows[i], rows[0].keys);
    }
  }

  /** Nothing is printed for no rows. Otherwise the text ends in a line feed and, if there is a column, a reader
      finds the header and every cell of every row in it. */
  ghost predicate ReadsBack(rows: seq<Row>, text: string) {
    if rows == [] then text == ""
    else
      && text != "" && text[|text| - 1] == '\n'
      && (rows[0].keys != [] ==> ReadAll(text).Some? && HoldRows(ReadAll(text).value, rows))
  }

  lemma TableReadsBack(rows: seq<Row>)
    ensures ReadsBack(rows, PrintRecords(Table(rows)))
  {
    RoundTrip(rows);
    if rows != [] {
      TableHoldsRows(rows);
      EndsInLineFeed(Table(rows));
    }
  }

  method ToCsv(rows: seq<Row>) returns (text: string)
    ensures text == PrintRecords(Table(rows))
    ensures ReadsBack(rows, text)
  {
    TableReadsBack(rows);
    if |rows| == 0 {
      return "";
    }
    var headers := rows[0].keys;
    var lines := [JoinFields(headers)];
    HeaderLine(rows);
    for i := 0 to |rows|
      invariant JoinLines(lines) == PrintRecords(Table(rows)[..i + 1])
    {
      MoreLines(rows, lines, i);
      lines := lines + [JoinFields(Fields(rows[i], headers))];
    }
    assert Table(rows)[..|rows| + 1] == Table(rows);
    text := JoinLines(lines);
  }

  lemma HeaderLine(rows: seq<Row>)
    requires rows != []
    ensures JoinLines([JoinFields(rows[0].keys)]) == PrintRecords(Table(rows)[..1])
  {
    var headers := rows[0].keys;
    assert Table(rows)[..1] == [headers] == [] + [headers];
    LinesOfRecords([], headers);
    assert [JoinFields(headers)][..0] == [];
  }

  lemma MoreLines(rows: seq<Row>, lines: seq<string>, i: nat)
    requires i < |rows| && JoinLines(lines) == PrintRecords(Table(rows)[..i + 1])
    ensures JoinLines(lines + [JoinFields(Fields(rows[i], rows[0].keys))]) == PrintRecords(Table(rows)[..i + 2])
  {
    var records, fields := Table(rows), Fields(rows[i], rows[0].keys);
    assert records[..i + 2] == records[..i + 1] + [fields];
    LinesOfRecords(records[..i + 1], fields);
    var longer := lines + [JoinFields(fields)];
    assert longer[..|longer| - 1] == lines;
  }

  lemma {:induction false} EndsInLineFeed(records: seq<seq<string>>)
    requires records != []
    ensures var text := PrintRecords(records); text != "" && text[|text| - 1] == '\n'
  {
    if |records| > 1 {
      EndsInLineFeed(records[1..]);
    } else {
      assert PrintRecords(records[1..]) == "";
    }
  }

  /** Text is printed as it is, unless it holds a quote, a comma or a line break: then it stands in quotes and
      its own quotes are doubled. */
  lemma EscapeMeans(text: string)
    ensures if exists c :: c in text && (c == '"' || c == ',' || c == '\n' || c == '\r')
            then exists body :: Escape(text) == "\"" + body + "\"" && Doubled(text, body)
            else Escape(text) == text
  {
    if NeedsQuotes(text) {
      DoubleQuotesMeans(text);
      assert Escape(text) == "\"" + DoubleQuotes(text) + "\"" && Doubled(text, DoubleQuotes(text));
    }
  }

  /** `body` is `text` with a second quote behind every quote. */
  ghost predicate Doubled(text: string, body: string) {
    if text == "" then body == ""
    else if text[0] == '"' then |body| >= 2 && body[0] == '"' && body[1] == '"' && Doubled(text[1..], body[2..])
    else |body| >= 1 && body[0] == text[0] && Doubled(text[1..], body[1..])
  }

  lemma {:induction false} DoubleQuotesMeans(text: string)
    ensures Doubled(text, DoubleQuotes(text))
  {
    if text != "" {
      var rest, body := DoubleQuotes(text[1..]), DoubleQuotes(text);
      DoubleQuotesMeans(text[1..]);
      if text[0] == '"' {
        assert body == "\"\"" + rest && body[2..] == rest;
      } else {
        assert body == [text[0]] + rest && body[1..] == rest;
      }
    }
  }

  lemma {:induction false} LinesOfRecords(records: seq<seq<string>>, fields: seq<string>)
    ensures PrintRecords(records + [fields]) == PrintRecords(records) + JoinFields(fields) + "\n"
  {
    if records == [] {
      assert [] + [fields] == [fields];
      assert [fields][1..] == [];
    } else {
      LinesOfRecords(records[1..], fields);
      assert (records + [fields])[1..] == records[1..] + [fields] && (records + [fields])[0] == records[0];
      var head := JoinFields(records[0]) + "\n";
      var tail := PrintRecords(records[1..]);
      assert PrintRecords(records + [fields]) == head + (tail + JoinFields(fields) + "\n");
      assert head + (tail + JoinFields(fields) + "\n") == head + tail + JoinFields(fields) + "\n";
    }
  }

  // ----- the reader -----

  /** A parsed piece and the text after it. */
  datatype Parsed<+T> = Parsed(value: T, rest: string)

  /** Inside quotes: a doubled quote is a quote, a single one ends the field. */
  function ReadQuoted(text: string): (p: Option<Parsed<string>>)
    ensures p.Some? ==> |p.value.rest| < |text|
    decreases |text|
  {
    if text == "" then None
    else if text[0] == '"' then
      if |text| > 1 && text[1] == '"' then Prepend('"', ReadQuoted(text[2..])) else Some(Parsed("", text[1..]))
    else Prepend(text[0], ReadQuoted(text[1..]))
  }

  function Prepend(c: char, p: Option<Parsed<string>>): Option<Parsed<string>> {
    match p
    case None => None
    case Some(Parsed(value, rest)) => Some(Parsed([c] + value, rest))
  }

  /** An unquoted field runs to the next comma or line end and holds no quote. */
  function ReadPlain(text: string): (p: Option<Parsed<string>>)
    ensures p.Some? ==> |p.value.rest| <= |text|
  {
    if text == "" || text[0] == ',' || text[0] == '\n' then Some(Parsed("", text))
    else if text[0] == '"' || text[0] == '\r' then None
    else Prepend(text[0], ReadPlain(text[1..]))
  }

  function ReadField(text: string): (p: Option<Parsed<string>>)
    ensures p.Some? ==> |p.value.rest| <= |text|
  {
    if text != "" && text[0] == '"' then ReadQuoted(text[1..]) else ReadPlain(text)
  }

  /** Fields separated by commas up to a line end or the end of the text. */
  function ReadRecord(text: string): (p: Option<Parsed<seq<string>>>)
    ensures p.Some? ==> |p.value.rest| < |text| || text == ""
    decreases |text|
  {
    match ReadField(text)
    case None => None
    case Some(Parsed(field, rest)) =>
      if rest == "" then Some(Parsed([field], ""))
      else if rest[0] == '\n' then Some(Parsed([field], rest[1..]))
      else if rest[0] == ',' then
        match ReadRecord(rest[1..])
        case None => None
        case Some(Parsed(fields, after)) => Some(Parsed([field] + fields, after))
      else None
  }

  function ReadAll(text: string): Option<seq<seq<string>>>
    decreases |text|
  {
    if text == "" then Some([])
    else
      match ReadRecord(text)
      case None => None
      case Some(Parsed(record, rest)) =>
        match ReadAll(rest)
        case None => None
        case Some(records) => Some([record] + records)
  }

  // ----- reading what was printed -----

  lemma {:induction false} ReadQuotedBack(text: string, rest: string)
    requires rest == "" || rest[0] != '"'
    ensures ReadQuoted(DoubleQuotes(text) + "\"" + rest) == Some(Parsed(text, rest))
  {
    var printed := DoubleQuotes(text) + "\"" + rest;
    if text == "" {
      assert printed == "\"" + rest;
      assert printed[1..] == rest;
    } else {
      var tail := DoubleQuotes(text[1..]) + "\"" + rest;
      ReadQuotedBack(text[1..], rest);
      if text[0] == '"' {
        assert printed == "\"\"" + tail;
        assert printed[2..] == tail;
      } else {
        assert printed == [text[0]] + tail;
        assert printed[1..] == tail;
      }
      assert text == [text[0]] + text[1..];
    }
  }

  predicate EndsField(rest: string) {
    rest == "" || rest[0] == ',' || rest[0] == '\n'
  }

  lemma {:induction false} ReadPlainBack(text: string, rest: string)
    requires !NeedsQuotes(text) && EndsField(rest)
    ensures ReadPlain(text + rest) == Some(Parsed(text, rest))
  {
    if text == "" {
      assert text + rest == rest;
    } else {
      assert text[0] in text;
      assert !NeedsQuotes(text[1..]);
      ReadPlainBack(text[1..], rest);
      assert (text + rest)[1..] == text[1..] + rest;
      assert text == [text[0]] + text[1..];
    }
  }

  lemma PlainStart(text: string, rest: string)
    requires '"' !in text && EndsField(rest)
    ensures text + rest == "" || (text + rest)[0] != '"'
  {
    assert text != "" ==> text[0] in text;
  }

  lemma ReadFieldQuoted(text: string, rest: string)
    requires EndsField(rest)
    ensures ReadField("\"" + DoubleQuotes(text) + "\"" + rest) == Some(Parsed(text, rest))
  {
    ReadQuotedBack(text, rest);
    OpeningQuote(DoubleQuotes(text), rest);
  }

  lemma OpeningQuote(body: string, rest: string)
    ensures ReadField("\"" + body + "\"" + rest) == ReadQuoted(body + "\"" + rest)
  {
    var printed := "\"" + body + "\"" + rest;
    assert printed[0] == '"' && printed[1..] == body + "\"" + rest;
  }

  lemma ReadFieldPlain(text: string, rest: string)
    requires !NeedsQuotes(text) && EndsField(rest)
    ensures ReadField(text + rest) == Some(Parsed(text, rest))
  {
    PlainStart(text, rest);
    ReadPlainBack(text, rest);
  }

  lemma ReadFieldBack(text: string, rest: string)
    requires EndsField(rest)
    ensures ReadField(Escape(text) + rest) == Some(Parsed(text, rest))
  {
    if NeedsQuotes(text) {
      ReadFieldQuoted(text, rest);
    } else {
      ReadFieldPlain(text, rest);
    }
  }

  lemma ReadLastField(field: string, rest: string)
    ensures ReadRecord(Escape(field) + ("\n" + rest)) == Some(Parsed([field], rest))
  {
    ReadFieldBack(field, "\n" + rest);
    assert ("\n" + rest)[1..] == rest;
  }

  lemma ReadNextField(field: string, tail: string, fields: seq<string>, rest: string)
    requires ReadRecord(tail) == Some(Parsed(fields, rest))
    ensures ReadRecord(Escape(field) + ("," + tail)) == Some(Parsed([field] + fields, rest))
  {
    ReadFieldBack(field, "," + tail);
    assert ("," + tail)[1..] == tail;
  }

  lemma {:induction false} ReadRecordBack(fields: seq<string>, rest: string)
    requires fields != []
    ensures ReadRecord(JoinFields(fields) + "\n" + rest) == Some(Parsed(fields, rest))
    decreases |fields|
  {
    var text := JoinFields(fields) + "\n" + rest;
    if |fields| == 1 {
      assert text == Escape(fields[0]) + ("\n" + rest);
      ReadLastField(fields[0], rest);
      assert fields == [fields[0]];
    } else {
      var tail := JoinFields(fields[1..]) + "\n" + rest;
      assert text == Escape(fields[0]) + ("," + tail);
      ReadRecordBack(fields[1..], rest);
      ReadNextField(fields[0], tail, fields[1..], rest);
      assert fields == [fields[0]] + fields[1..];
    }
  }

  lemma ReadAllStep(text: string)
    requires text != "" && ReadRecord(text).Some? && ReadAll(ReadRecord(text).value.rest).Some?
    ensures ReadAll(text) == Some([ReadRecord(text).value.value] + ReadAll(ReadRecord(text).value.rest).value)
  {
  }

  lemma {:induction false} ReadRecordsBack(records: seq<seq<string>>)
    requires forall i :: 0 <= i < |records| ==> records[i] != []
    ensures ReadAll(PrintRecords(records)) == Some(records)
  {
    if records != [] {
      ReadRecordBack(records[0], PrintRecords(records[1..]));
      ReadRecordsBack(records[1..]);
      ReadAllStep(JoinFields(records[0]) + "\n" + PrintRecords(records[1..]));
      assert records == [records[0]] + records[1..];
    }
  }

  /** A reader gets back the header and every field, whatever they contain, exactly when there is no row at
      all or the first row has a column. */
  lemma RoundTrip(rows: seq<Row>)
    ensures ReadAll(PrintRecords(Table(rows))) == Some(Table(rows)) <==> rows == [] || rows[0].keys != []
  {
    var records := Table(rows);
    if rows == [] || rows[0].keys != [] {
      assert forall i :: 0 <= i < |records| ==> records[i] != [];
      ReadRecordsBack(records);
    } else {
      var text := PrintRecords(records);
      assert text[0] == '\n';
      assert records[0] == [];
      assert ReadRecord(text) == Some(Parsed([""], text[1..]));
    }
  }

  /** A table without columns is one empty line per record. */
  lemma NoColumns(rows: seq<Row>)
    requires rows != [] && rows[0].keys == []
    ensures |PrintRecords(Table(rows))| == |rows| + 1
    ensures forall c :: c in PrintRecords(Table(rows)) ==> c == '\n'
  {
    EmptyLines(Table(rows));
  }

  lemma {:induction false} EmptyLines(records: seq<seq<string>>)
    requires forall i :: 0 <= i < |records| ==> records[i] == []
    ensures |PrintRecords(records)| == |records| && forall c :: c in PrintRecords(records) ==> c == '\n'
  {
    if records != [] {
      EmptyLines(records[1..]);
      assert JoinFields(records[0]) == "";
    }
  }

  /** The output is unambiguous: tables with columns that print alike are alike. */
  lemma PrintInjective(rows: seq<Row>, others: seq<Row>)
    requires rows != [] && rows[0].keys != [] && others != [] && others[0].keys != []
    ensures PrintRecords(Table(rows)) == PrintRecords(Table(others)) <==> Table(rows) == Table(others)
  {
    RoundTrip(rows);
    RoundTrip(others);
  }
}
