/**
 The analytics CSV export and a strict reader for it.

 The reader follows the quoting rules of section 2 of RFC 4180 with LF between records: a quote
 may open a field or be doubled inside a quoted one, and is an error anywhere else.
 */
module CsvExport {
  import opened Strings
  import opened Wrappers

  /** A cell: null or undefined, a scalar with its text, or a structure with its JSON text. */
  datatype Cell = Missing | Scalar(text: string) | Structure(json: string)

  datatype Attribute = Attribute(key: string, cell: Cell)

  type Record = seq<Attribute>

  datatype Item = RecordItem(record: Record) | OtherItem

  datatype ReportValue = Many(items: seq<Item>) | Single(cell: Cell)

  datatype Metric = Metric(key: string, value: ReportValue)

  type Group = seq<Metric>

  const MAX_ROWS: nat := 10000

  // ----- The writer

  function Records(items: seq<Item>): seq<Record> {
    if items == [] then []
    else (if items[0].RecordItem? then [items[0].record] else []) + Records(items[1..])
  }

  function FlattenGroup(group: Group): seq<Record> {
    if group == [] then []
    else
      (match group[0].value
       case Many(items) => Records(items)
       case Single(cell) => [[Attribute("metric", Scalar(group[0].key)), Attribute("value", cell)]])
      + FlattenGroup(group[1..])
  }

  function FlattenReport(data: seq<Group>): seq<Record> {
    if data == [] then [] else FlattenGroup(data[0]) + FlattenReport(data[1..])
  }

  /** Adds the keys of one row that are not columns yet. */
  function AddKeys(columns: seq<string>, row: Record): seq<string>
    decreases row
  {
    if row == [] then columns
    else AddKeys(if row[0].key in columns then columns else columns + [row[0].key], row[1..])
  }

  function Columns(rows: seq<Record>): seq<string> {
    if rows == [] then [] else AddKeys(Columns(rows[..|rows| - 1]), rows[|rows| - 1])
  }

  function CellOf(row: Record, key: string): Cell {
    if row == [] then Missing else if row[0].key == key then row[0].cell else CellOf(row[1..], key)
  }

  function CellText(cell: Cell): string {
    match cell
    case Missing => ""
    case Scalar(text) => text
    case Structure(json) => json
  }

  predicate Special(c: char) {
    c == '\"' || c == ',' || c == '\n'
  }

  predicate Plain(text: string) {
    forall c :: c in text ==> !Special(c)
  }

  function DoubleQuotes(text: string): string {
    if text == [] then "" else (if text[0] == '\"' then "\"\"" else [text[0]]) + DoubleQuotes(text[1..])
  }

  function Encode(text: string): string {
    if Plain(text) then text else "\"" + DoubleQuotes(text) + "\""
  }

  function Join(parts: seq<string>, separator: char): string {
    if parts == [] then ""
    else if |parts| == 1 then parts[0]
    else parts[0] + [separator] + Join(parts[1..], separator)
  }

  function EncodeAll(cells: seq<string>): seq<string> {
    if cells == [] then [] else [Encode(cells[0])] + EncodeAll(cells[1..])
  }

  function Texts(keys: seq<string>, row: Record): (cells: seq<string>)
    ensures |cells| == |keys|
    ensures forall i :: 0 <= i < |keys| ==> cells[i] == CellText(CellOf(row, keys[i]))
  {
    if keys == [] then [] else [CellText(CellOf(row, keys[0]))] + Texts(keys[1..], row)
  }

  function BodyTexts(keys: seq<string>, rows: seq<Record>): (cells: seq<seq<string>>)
    ensures |cells| == |rows| && forall i :: 0 <= i < |rows| ==> cells[i] == Texts(keys, rows[i])
  {
    if rows == [] then [] else [Texts(keys, rows[0])] + BodyTexts(keys, rows[1..])
  }

  function BodyLines(body: seq<seq<string>>): seq<string> {
    if body == [] then [] else [Join(EncodeAll(body[0]), ',')] + BodyLines(body[1..])
  }

  /** The header as it stands, then every row with its cells encoded. */
  function CsvText(keys: seq<string>, body: seq<seq<string>>): string {
    Join([Join(keys, ',')] + BodyLines(body), '\n')
  }

  /** The rows an export holds: the flattened report, cut at the limit. */
  function ExportedRows(data: seq<Group>): seq<Record> {
    var all := FlattenReport(data); if |all| <= MAX_ROWS then all else all[..MAX_ROWS]
  }

  function ExportContent(data: seq<Group>): string {
    var rows := ExportedRows(data);
    if rows == [] then "" else CsvText(Columns(rows), BodyTexts(Columns(rows), rows))
  }

  // ----- Columns

  ghost predicate Distinct(names: seq<string>) {
    forall i, j :: 0 <= i < j < |names| ==> names[i] != names[j]
  }

  ghost predicate HasKey(row: Record, key: string) {
    exists i :: 0 <= i < |row| && row[i].key == key
  }

  lemma {:induction false} AddKeysMeaning(columns: seq<string>, row: Record, key: string)
    requires Distinct(columns)
    ensures Distinct(AddKeys(columns, row))
    ensures key in AddKeys(columns, row) <==> key in columns || HasKey(row, key)
    decreases row
  {
    if row != [] {
      AddKeysMeaning(if row[0].key in columns then columns else columns + [row[0].key], row[1..], key);
      if i :| 0 <= i < |row[1..]| && row[1..][i].key == key {
        assert row[i + 1].key == key;
      }
      if i :| 0 <= i < |row| && row[i].key == key {
        assert i > 0 ==> row[1..][i - 1].key == key;
      }
    }
  }

  /** Every key of every row is a column, exactly once, and there is no other column. */
  lemma {:induction false} ColumnsMeaning(rows: seq<Record>, key: string)
    ensures Distinct(Columns(rows))
    ensures key in Columns(rows) <==> exists r :: 0 <= r < |rows| && HasKey(rows[r], key)
  {
    if rows != [] {
      var front, last := rows[..|rows| - 1], rows[|rows| - 1];
      ColumnsMeaning(front, key);
      AddKeysMeaning(Columns(front), last, key);
      if r :| 0 <= r < |rows| && HasKey(rows[r], key) {
        assert r < |front| ==> HasKey(front[r], key);
      }
      if r :| 0 <= r < |front| && HasKey(front[r], key) {
        assert HasKey(rows[r], key);
      }
    }
  }

  // ----- The reader

  datatype Mode = FieldStart | Unquoted | Quoted | QuoteSeen

  function EndField(rest: string, field: string, record: seq<string>, table: seq<seq<string>>): Option<seq<seq<string>>>
    requires rest == [] || rest[0] == ',' || rest[0] == '\n'
    decreases |rest|, 0
  {
    if rest == [] then Some(table + [record + [field]])
    else if rest[0] == ',' then Scan(rest[1..], FieldStart, "", record + [field], table)
    else Scan(rest[1..], FieldStart, "", [], table + [record + [field]])
  }

  function Scan(text: string, mode: Mode, field: string, record: seq<string>,
                table: seq<seq<string>>): Option<seq<seq<string>>>
    decreases |text|, 1
  {
    if mode.Quoted? then
      if text == [] then None
      else if text[0] == '\"' then Scan(text[1..], QuoteSeen, field, record, table)
      else Scan(text[1..], Quoted, field + [text[0]], record, table)
    else if text == [] || text[0] == ',' || text[0] == '\n' then EndField(text, field, record, table)
    else if mode.FieldStart? then
      if text[0] == '\"' then Scan(text[1..], Quoted, "", record, table)
      else Scan(text[1..], Unquoted, [text[0]], record, table)
    else if mode.Unquoted? then
      if text[0] == '\"' then None else Scan(text[1..], Unquoted, field + [text[0]], record, table)
    else
      if text[0] == '\"' then Scan(text[1..], Quoted, field + ['\"'], record, table) else None
  }

  function Read(text: string): Option<seq<seq<string>>> {
    Scan(text, FieldStart, "", [], [])
  }

  // ----- Reading back what was written

  lemma {:induction false} PlainReads(text: string, rest: string, mode: Mode, field: string, record: seq<string>,
                                      table: seq<seq<string>>)
    requires Plain(text) && (rest == [] || rest[0] == ',' || rest[0] == '\n')
    requires mode.Unquoted? || (mode.FieldStart? && field == "")
    ensures Scan(text + rest, mode, field, record, table) == EndField(rest, field + text, record, table)
    decreases text
  {
    if text == [] {
      assert text + rest == rest && field + text == field;
    } else {
      assert text[0] in text;
      assert (text + rest)[0] == text[0] && (text + rest)[1..] == text[1..] + rest;
      assert mode.FieldStart? ==> [text[0]] == field + [text[0]];
      PlainReads(text[1..], rest, Unquoted, field + [text[0]], record, table);
      assert field + [text[0]] + text[1..] == field + text;
    }
  }

  lemma DoubledStep(text: string, rest: string)
    requires text != []
    ensures var more := DoubleQuotes(text[1..]) + "\"" + rest;
            DoubleQuotes(text) + "\"" + rest == if text[0] == '\"' then ['\"'] + (['\"'] + more) else [text[0]] + more
  {
    var first := if text[0] == '\"' then "\"\"" else [text[0]];
    Assoc(first, DoubleQuotes(text[1..]), "\"");
    Assoc(first, DoubleQuotes(text[1..]) + "\"", rest);
    Assoc("\"", "\"", DoubleQuotes(text[1..]) + "\"" + rest);
  }

  lemma {:induction false} QuotedReads(text: string, rest: string, field: string, record: seq<string>,
                                       table: seq<seq<string>>)
    requires rest == [] || rest[0] == ',' || rest[0] == '\n'
    ensures Scan(DoubleQuotes(text) + "\"" + rest, Quoted, field, record, table) ==
            EndField(rest, field + text, record, table)
    decreases text
  {
    if text == [] {
      assert DoubleQuotes(text) + "\"" == "\"" && field + text == field;
      Uncons('\"', rest);
    } else {
      var more := DoubleQuotes(text[1..]) + "\"" + rest;
      QuotedReads(text[1..], rest, field + [text[0]], record, table);
      assert field + [text[0]] + text[1..] == field + text;
      DoubledStep(text, rest);
      Uncons(text[0], more);
      Uncons('\"', ['\"'] + more);
    }
  }

  lemma CellReads(text: string, rest: string, record: seq<string>, table: seq<seq<string>>)
    requires rest == [] || rest[0] == ',' || rest[0] == '\n'
    ensures Scan(Encode(text) + rest, FieldStart, "", record, table) == EndField(rest, text, record, table)
  {
    assert "" + text == text;
    if Plain(text) {
      PlainReads(text, rest, FieldStart, "", record, table);
    } else {
      Assoc("\"", DoubleQuotes(text), "\"");
      Assoc("\"", DoubleQuotes(text) + "\"", rest);
      Uncons('\"', DoubleQuotes(text) + "\"" + rest);
      QuotedReads(text, rest, "", record, table);
    }
  }

  lemma JoinStep(parts: seq<string>, separator: char, rest: string)
    requires |parts| > 1
    ensures Join(parts, separator) + rest == parts[0] + ([separator] + (Join(parts[1..], separator) + rest))
  {
    Assoc(parts[0] + [separator], Join(parts[1..], separator), rest);
    Assoc(parts[0], [separator], Join(parts[1..], separator) + rest);
  }

  lemma {:induction false} RowReads(cells: seq<string>, rest: string, record: seq<string>, table: seq<seq<string>>)
    requires cells != [] && (rest == [] || rest[0] == '\n')
    ensures Scan(Join(EncodeAll(cells), ',') + rest, FieldStart, "", record, table) ==
            if rest == [] then Some(table + [record + cells])
            else Scan(rest[1..], FieldStart, "", [], table + [record + cells])
    decreases cells
  {
    if |cells| == 1 {
      assert EncodeAll(cells) == [Encode(cells[0])];
      CellReads(cells[0], rest, record, table);
      assert [cells[0]] == cells;
    } else {
      var more := Join(EncodeAll(cells[1..]), ',');
      assert EncodeAll(cells)[1..] == EncodeAll(cells[1..]);
      JoinStep(EncodeAll(cells), ',', rest);
      CellReads(cells[0], [','] + (more + rest), record, table);
      Uncons(',', more + rest);
      RowReads(cells[1..], rest, record + [cells[0]], table);
      assert record + [cells[0]] + cells[1..] == record + cells;
    }
  }

  lemma {:induction false} LinesRead(lines: seq<seq<string>>, table: seq<seq<string>>)
    requires lines != [] && forall i :: 0 <= i < |lines| ==> lines[i] != []
    ensures Scan(Join(BodyLines(lines), '\n'), FieldStart, "", [], table) == Some(table + lines)
    decreases lines
  {
    var line := Join(EncodeAll(lines[0]), ',');
    assert [] + lines[0] == lines[0];
    if |lines| == 1 {
      assert BodyLines(lines) == [line];
      RowReads(lines[0], "", [], table);
      assert Join([line], '\n') == line + "";
      assert lines == [lines[0]];
    } else {
      var more := Join(BodyLines(lines[1..]), '\n');
      assert BodyLines(lines)[1..] == BodyLines(lines[1..]);
      Assoc(line, ['\n'], more);
      RowReads(lines[0], ['\n'] + more, [], table);
      Uncons('\n', more);
      LinesRead(lines[1..], table + [lines[0]]);
      Regroup(table, lines);
    }
  }

  lemma Regroup(table: seq<seq<string>>, lines: seq<seq<string>>)
    requires lines != []
    ensures table + [lines[0]] + lines[1..] == table + lines
  {
    assert lines == [lines[0]] + lines[1..];
  }

  lemma {:induction false} PlainHeader(keys: seq<string>)
    requires forall k :: k in keys ==> Plain(k)
    ensures EncodeAll(keys) == keys
  {
    if keys != [] {
      PlainHeader(keys[1..]);
    }
  }

  ghost predicate Rectangular(keys: seq<string>, body: seq<seq<string>>) {
    forall i :: 0 <= i < |body| ==> |body[i]| == |keys|
  }

  lemma PlainHeaderReadsBack(keys: seq<string>, body: seq<seq<string>>)
    requires Rectangular(keys, body) && keys != [] && forall k :: k in keys ==> Plain(k)
    ensures Read(CsvText(keys, body)) == Some([keys] + body)
  {
    PlainHeader(keys);
    var lines := [keys] + body;
    assert lines[1..] == body;
    assert BodyLines(lines) == [Join(keys, ',')] + BodyLines(body);
    LinesRead(lines, []);
    assert [] + lines == lines;
  }

  // ----- Why no other header is read back: a reader cannot get more text than there was

  function Quotes(text: string): nat {
    if text == [] then 0 else Quotes(text[..|text| - 1]) + if text[|text| - 1] == '\"' then 1 else 0
  }

  /** The least number of characters a field can take in a text that is read as it. */
  function Size(text: string): nat {
    if Plain(text) then |text| else |text| + Quotes(text) + 2
  }

  function Sizes(cells: seq<string>): nat {
    if cells == [] then 0 else Sizes(cells[..|cells| - 1]) + Size(cells[|cells| - 1]) + 1
  }

  /** Every field and every record counted with the separator after it. */
  function TableSize(table: seq<seq<string>>): nat {
    if table == [] then 0 else TableSize(table[..|table| - 1]) + Sizes(table[|table| - 1])
  }

  function Taken(mode: Mode, field: string): nat {
    match mode
    case FieldStart => 0
    case Unquoted => |field|
    case Quoted => 1 + |field| + Quotes(field)
    case QuoteSeen => 2 + |field| + Quotes(field)
  }

  lemma SizesAppend(cells: seq<string>, cell: string)
    ensures Sizes(cells + [cell]) == Sizes(cells) + Size(cell) + 1
  {
    assert (cells + [cell])[..|cells|] == cells;
  }

  lemma TableSizeAppend(table: seq<seq<string>>, record: seq<string>)
    ensures TableSize(table + [record]) == TableSize(table) + Sizes(record)
  {
    assert (table + [record])[..|table|] == table;
  }

  lemma EndBound(rest: string, size: nat, field: string, record: seq<string>, table: seq<seq<string>>)
    requires rest == [] || rest[0] == ',' || rest[0] == '\n'
    requires EndField(rest, field, record, table).Some? && Size(field) <= size
    ensures TableSize(EndField(rest, field, record,
                               table).value) <= TableSize(table) + Sizes(record) + size + |rest| + 1
    decreases |rest|, 0
  {
    SizesAppend(record, field);
    TableSizeAppend(table, record + [field]);
    if rest != [] {
      if rest[0] == ',' {
        ScanBound(rest[1..], FieldStart, "", record + [field], table);
      } else {
        ScanBound(rest[1..], FieldStart, "", [], table + [record + [field]]);
      }
    }
  }

  lemma QuotesAppend(field: string, c: char)
    ensures Quotes(field + [c]) == Quotes(field) + if c == '\"' then 1 else 0
  {
    assert (field + [c])[..|field|] == field;
  }

  /** What is read takes no more than what was taken already and the text still to come. */
  lemma {:induction false} ScanBound(text: string, mode: Mode, field: string, record: seq<string>,
                                     table: seq<seq<string>>)
    requires Scan(text, mode, field, record, table).Some?
    requires mode.FieldStart? ==> field == ""
    requires mode.Unquoted? ==> Plain(field)
    ensures TableSize(Scan(text, mode, field, record, table).value) <=
            TableSize(table) + Sizes(record) + Taken(mode, field) + |text| + 1
    decreases |text|, 1
  {
    if mode.Quoted? {
      if text[0] == '\"' {
        ScanBound(text[1..], QuoteSeen, field, record, table);
      } else {
        QuotesAppend(field, text[0]);
        ScanBound(text[1..], Quoted, field + [text[0]], record, table);
      }
    } else if text == [] || text[0] == ',' || text[0] == '\n' {
      EndBound(text, Taken(mode, field), field, record, table);
    } else if mode.FieldStart? {
      if text[0] == '\"' {
        ScanBound(text[1..], Quoted, "", record, table);
      } else {
        ScanBound(text[1..], Unquoted, [text[0]], record, table);
      }
    } else if mode.Unquoted? {
      ScanBound(text[1..], Unquoted, field + [text[0]], record, table);
    } else {
      QuotesAppend(field, '\"');
      ScanBound(text[1..], Quoted, field + ['\"'], record, table);
    }
  }

  // ----- How much text the writer produces

  lemma {:induction false} QuotesFront(text: string)
    requires text != []
    ensures Quotes(text) == Quotes(text[1..]) + if text[0] == '\"' then 1 else 0
  {
    if |text| > 1 {
      QuotesFront(text[..|text| - 1]);
      assert text[..|text| - 1][1..] == text[1..][..|text[1..]| - 1];
    }
  }

  lemma {:induction false} DoubledSize(text: string)
    ensures |DoubleQuotes(text)| == |text| + Quotes(text)
  {
    if text != [] {
      QuotesFront(text);
      DoubledSize(text[1..]);
    }
  }

  lemma {:induction false} SizesFront(cells: seq<string>)
    requires cells != []
    ensures Sizes(cells) == Size(cells[0]) + 1 + Sizes(cells[1..])
  {
    if |cells| > 1 {
      SizesFront(cells[..|cells| - 1]);
      assert cells[..|cells| - 1][1..] == cells[1..][..|cells[1..]| - 1];
    }
  }

  lemma {:induction false} TableSizeFront(table: seq<seq<string>>)
    requires table != []
    ensures TableSize(table) == Sizes(table[0]) + TableSize(table[1..])
  {
    if |table| > 1 {
      TableSizeFront(table[..|table| - 1]);
      assert table[..|table| - 1][1..] == table[1..][..|table[1..]| - 1];
    }
  }

  lemma {:induction false} RowSize(cells: seq<string>)
    requires cells != []
    ensures |Join(EncodeAll(cells), ',')| + 1 == Sizes(cells)
  {
    SizesFront(cells);
    DoubledSize(cells[0]);
    if |cells| > 1 {
      RowSize(cells[1..]);
      assert EncodeAll(cells)[1..] == EncodeAll(cells[1..]);
    }
  }

  /** The header as written is never longer than encoded, and shorter if a name is not plain. */
  lemma {:induction false} HeaderSize(keys: seq<string>)
    requires keys != []
    ensures |Join(keys, ',')| + 1 <= Sizes(keys)
    ensures |Join(keys, ',')| + 1 == Sizes(keys) ==> forall k :: k in keys ==> Plain(k)
  {
    SizesFront(keys);
    if |keys| > 1 {
      HeaderSize(keys[1..]);
    }
    assert keys == [keys[0]] + keys[1..];
  }

  lemma {:induction false} BodySize(first: string, body: seq<seq<string>>)
    requires forall i :: 0 <= i < |body| ==> body[i] != []
    ensures |Join([first] + BodyLines(body), '\n')| == |first| + TableSize(body)
    decreases body
  {
    if body != [] {
      TableSizeFront(body);
      RowSize(body[0]);
      BodySize(Join(EncodeAll(body[0]), ','), body[1..]);
      assert ([first] + BodyLines(body))[1..] == [Join(EncodeAll(body[0]), ',')] + BodyLines(body[1..]);
    }
  }

  lemma HeaderMustBePlain(keys: seq<string>, body: seq<seq<string>>)
    requires Rectangular(keys, body) && keys != [] && Read(CsvText(keys, body)) == Some([keys] + body)
    ensures forall k :: k in keys ==> Plain(k)
  {
    ScanBound(CsvText(keys, body), FieldStart, "", [], []);
    BodySize(Join(keys, ','), body);
    TableSizeFront([keys] + body);
    assert ([keys] + body)[1..] == body;
    HeaderSize(keys);
  }

  lemma {:induction false} RecordsHaveFields(text: string, mode: Mode, field: string, record: seq<string>,
                                             table: seq<seq<string>>)
    requires Scan(text, mode, field, record, table).Some?
    ensures var t := Scan(text, mode, field, record, table).value;
            |t| > |table| && t[..|table|] == table && t[|table|] != []
    decreases |text|
  {
    if text == [] {
    } else if mode.Quoted? {
      if text[0] == '\"' {
        RecordsHaveFields(text[1..], QuoteSeen, field, record, table);
      } else {
        RecordsHaveFields(text[1..], Quoted, field + [text[0]], record, table);
      }
    } else if text[0] == ',' {
      RecordsHaveFields(text[1..], FieldStart, "", record + [field], table);
    } else if text[0] == '\n' {
      var longer := table + [record + [field]];
      RecordsHaveFields(text[1..], FieldStart, "", [], longer);
      var t := Scan(text, mode, field, record, table).value;
      assert t[..|table|] == longer[..|table|] == table;
      assert t[|table|] == longer[|table|];
    } else if mode.FieldStart? {
      if text[0] == '\"' {
        RecordsHaveFields(text[1..], Quoted, "", record, table);
      } else {
        RecordsHaveFields(text[1..], Unquoted, [text[0]], record, table);
      }
    } else if mode.Unquoted? {
      RecordsHaveFields(text[1..], Unquoted, field + [text[0]], record, table);
    } else {
      RecordsHaveFields(text[1..], Quoted, field + ['\"'], record, table);
    }
  }

  // ----- Main results

  ghost predicate ReadsAs(text: string, table: seq<seq<string>>) {
    Read(text) == Some(table)
  }

  /**
   The header is written as it stands.  So reading the text back gives the header and every cell
   if and only if there is a column and no column name holds a quote, a comma or a line feed.
   */
  lemma ReadsBackIffPlainHeader(keys: seq<string>, body: seq<seq<string>>)
    requires Rectangular(keys, body)
    ensures ReadsAs(CsvText(keys, body), [keys] + body) <==> keys != [] && forall k :: k in keys ==> Plain(k)
  {
    if keys == [] {
      if Read(CsvText(keys, body)).Some? {
        RecordsHaveFields(CsvText(keys, body), FieldStart, "", [], []);
      }
    } else if forall k :: k in keys ==> Plain(k) {
      PlainHeaderReadsBack(keys, body);
    } else if Read(CsvText(keys, body)) == Some([keys] + body) {
      HeaderMustBePlain(keys, body);
    }
  }

  /** The export of any report that has rows is the text of that table. */
  lemma ExportReadsBack(data: seq<Group>)
    requires ExportedRows(data) != []
    ensures var rows, keys := ExportedRows(data), Columns(ExportedRows(data));
            ReadsAs(ExportContent(data), [keys] + BodyTexts(keys, rows)) <==> keys != [] && forall k :: k in keys ==>
                Plain(k)
  {
    var rows, keys := ExportedRows(data), Columns(ExportedRows(data));
    assert ExportContent(data) == CsvText(keys, BodyTexts(keys, rows));
    ReadsBackIffPlainHeader(keys, BodyTexts(keys, rows));
  }

  // ----- Which rows and columns a report has

  lemma {:induction false} RecordsJoin(a: seq<Item>, b: seq<Item>)
    ensures Records(a + b) == Records(a) + Records(b)
  {
    if a == [] {
      assert a + b == b;
    } else {
      assert (a + b)[0] == a[0] && (a + b)[1..] == a[1..] + b;
      RecordsJoin(a[1..], b);
    }
  }

  lemma {:induction false} GroupsJoin(a: Group, b: Group)
    ensures FlattenGroup(a + b) == FlattenGroup(a) + FlattenGroup(b)
  {
    if a == [] {
      assert a + b == b;
    } else {
      assert (a + b)[0] == a[0] && (a + b)[1..] == a[1..] + b;
      GroupsJoin(a[1..], b);
    }
  }

  lemma {:induction false} ReportsJoin(a: seq<Group>, b: seq<Group>)
    ensures FlattenReport(a + b) == FlattenReport(a) + FlattenReport(b)
  {
    if a == [] {
      assert a + b == b;
    } else {
      assert (a + b)[0] == a[0] && (a + b)[1..] == a[1..] + b;
      ReportsJoin(a[1..], b);
    }
  }

  /**
   Reports, groups and lists give their rows one part after the other.  One record of a list is
   one row, any other item none, and a single value is a row of its name and the value.
   */
  lemma RowsOfReport(data: seq<Group>, more: seq<Group>, group: Group, metrics: Group, key: string, items: seq<Item>,
                     others: seq<Item>, record: Record, cell: Cell)
    ensures FlattenReport([]) == [] && FlattenReport(data + more) == FlattenReport(data) + FlattenReport(more)
    ensures FlattenReport([[]]) == [] && FlattenReport([group + metrics]) == FlattenReport([group] + [metrics])
    ensures FlattenReport([[Metric(key, Many([]))]]) == []
    ensures FlattenReport([[Metric(key, Many(items + others))]])
         == FlattenReport([[Metric(key, Many(items)), Metric(key, Many(others))]])
    ensures FlattenReport([[Metric(key, Many([RecordItem(record)]))]]) == [record]
    ensures FlattenReport([[Metric(key, Many([OtherItem]))]]) == []
    ensures FlattenReport([[Metric(key, Single(cell))]])
         == [[Attribute("metric", Scalar(key)), Attribute("value", cell)]]
  {
    ReportsJoin(data, more);
    ReportsJoin([group], [metrics]);
    OneGroup(group);
    OneGroup(metrics);
    OneGroup(group + metrics);
    GroupsJoin(group, metrics);
    OneGroup([]);
    RecordsJoin(items, others);
    OneMetric(key, Many(items + others));
    OneMetric(key, Many(items));
    OneMetric(key, Many(others));
    var two := [Metric(key, Many(items)), Metric(key, Many(others))];
    assert two == [Metric(key, Many(items))] + [Metric(key, Many(others))];
    GroupsJoin([Metric(key, Many(items))], [Metric(key, Many(others))]);
    OneGroup(two);
    OneMetric(key, Many([]));
    OneMetric(key, Single(cell));
    OneItem(key, RecordItem(record));
    OneItem(key, OtherItem);
  }

  /** The export holds the first 10000 rows. */
  lemma ExportIsCut(data: seq<Group>)
    ensures ExportedRows(data) <= FlattenReport(data)
    ensures |ExportedRows(data)| == if |FlattenReport(data)| <= 10000 then |FlattenReport(data)| else 10000
  {
  }

  lemma OneGroup(group: Group)
    ensures FlattenReport([group]) == FlattenGroup(group)
  {
    assert [group][1..] == [] && FlattenGroup(group) + [] == FlattenGroup(group);
  }

  lemma OneMetric(key: string, value: ReportValue)
    ensures FlattenReport([[Metric(key, value)]]) == FlattenGroup([Metric(key, value)])
    ensures FlattenGroup([Metric(key, value)]) ==
            if value.Many? then Records(value.items)
            else [[Attribute("metric", Scalar(key)), Attribute("value", value.cell)]]
  {
    OneGroup([Metric(key, value)]);
    assert [Metric(key, value)][1..] == [];
  }

  lemma OneItem(key: string, item: Item)
    ensures FlattenReport([[Metric(key, Many([item]))]]) == if item.RecordItem? then [item.record] else []
  {
    OneMetric(key, Many([item]));
    assert [item][1..] == [];
  }

  /** The first attribute with the key is the cell; null and absent are empty, a structure is its JSON text. */
  lemma {:induction false} TextOfCell(row: Record, key: string, i: nat)
    requires i <= |row| && forall k :: 0 <= k < i ==> row[k].key != key
    requires i < |row| ==> row[i].key == key
    ensures CellText(CellOf(row, key)) ==
            if i == |row| || row[i].cell == Missing then ""
            else if row[i].cell.Scalar? then row[i].cell.text
            else row[i].cell.json
    decreases row
  {
    if i > 0 {
      assert row[0].key != key;
      TextOfCell(row[1..], key, i - 1);
    }
  }

  lemma {:induction false} AddKeysGrows(columns: seq<string>, row: Record)
    ensures columns <= AddKeys(columns, row)
    decreases row
  {
    if row != [] {
      AddKeysGrows(if row[0].key in columns then columns else columns + [row[0].key], row[1..]);
    }
  }

  /** Columns stand in the order in which rows bring them: more rows only add columns behind. */
  lemma {:induction false} ColumnsInOrder(rows: seq<Record>, more: seq<Record>)
    ensures Columns(rows) <= Columns(rows + more)
  {
    if more == [] {
      assert rows + more == rows;
    } else {
      var all := rows + more;
      assert all[..|all| - 1] == rows + more[..|more| - 1];
      ColumnsInOrder(rows, more[..|more| - 1]);
      AddKeysGrows(Columns(all[..|all| - 1]), all[|all| - 1]);
    }
  }

  /** The columns of one row, after those there are: its new keys in its own order. */
  lemma {:induction false} KeysInOrder(columns: seq<string>, row: Record, i: nat, j: nat) returns (p: nat, q: nat)
    requires i < j < |row| && row[i].key !in columns && row[j].key !in columns
    requires forall k :: 0 <= k < j ==> row[k].key != row[j].key
    ensures p < q < |AddKeys(columns, row)|
    ensures AddKeys(columns, row)[p] == row[i].key && AddKeys(columns, row)[q] == row[j].key
    decreases row
  {
    var next := if row[0].key in columns then columns else columns + [row[0].key];
    assert AddKeys(columns, row) == AddKeys(next, row[1..]);
    if row[i].key in next {
      q := AddedBehind(next, row[1..], j - 1);
      p :| 0 <= p < |next| && next[p] == row[i].key;
      AddKeysGrows(next, row[1..]);
    } else {
      p, q := KeysInOrder(next, row[1..], i - 1, j - 1);
    }
  }

  lemma {:induction false} AddedBehind(columns: seq<string>, row: Record, j: nat) returns (q: nat)
    requires j < |row| && row[j].key !in columns
    ensures |columns| <= q < |AddKeys(columns, row)| && AddKeys(columns, row)[q] == row[j].key
    decreases row
  {
    var next := if row[0].key in columns then columns else columns + [row[0].key];
    assert AddKeys(columns, row) == AddKeys(next, row[1..]);
    if row[j].key in next {
      assert next == columns + [row[j].key];
      AddKeysGrows(next, row[1..]);
      q := |columns|;
    } else {
      q := AddedBehind(next, row[1..], j - 1);
    }
  }
}
