/** The table exports of internal/server/web/result-export.js, and the readers that get the table back: CSV as in
    section 2 of RFC 4180 with LF between records, and ClickHouse's TabSeparated. */
module ResultExport {
  import opened SqlText

  const NUL := '\0'

  /** A JavaScript value; `Object` and `Scalar` carry what JSON.stringify and String make of it. */
  datatype Value = Null | Undefined | Object(json: string) | Scalar(text: string)

  /** A query result: the column names, and rows as objects keyed by column name. */
  datatype Table = Table(meta: seq<string>, data: seq<map<string, Value>>)

  /** A cell as text, or NULL. */
  type Cell = Option<string>

  function CellValue(input: Value): Cell {
    match input
    case Null => None
    case Undefined => None
    case Object(json) => Some(json)
    case Scalar(text) => Some(text)
  }

  function Field(row: map<string, Value>, name: string): Value {
    if name in row then row[name] else Undefined
  }

  function CsvCell(input: Value): string {
    match CellValue(input)
    case None => ""
    case Some(text) => "\"" + ReplaceAll(text, '\"', "\"\"") + "\""
  }

  function Escaped(text: string): string {
    ReplaceAll(ReplaceAll(ReplaceAll(ReplaceAll(ReplaceAll(ReplaceAll(text,
      '\\', "\\\\"), NUL, "\\0"), '\t', "\\t"), '\n', "\\n"), '\r', "\\r"), FF, "\\f")
  }

  function TsvCell(input: Value): string {
    match CellValue(input)
    case None => "\\N"
    case Some(text) => Escaped(text)
  }

  function Map<T, U>(s: seq<T>, f: T -> U): (r: seq<U>)
    ensures |r| == |s| && forall k :: 0 <= k < |s| ==> r[k] == f(s[k])
  {
    seq(|s|, k requires 0 <= k < |s| => f(s[k]))
  }

  function Header(name: string): Value { Scalar(name) }

  function RowOf(row: map<string, Value>, meta: seq<string>): (r: seq<Value>)
    ensures |r| == |meta|
  {
    seq(|meta|, k requires 0 <= k < |meta| => Field(row, meta[k]))
  }

  /** The rows of an export as values: the names, then each row in the order of the columns. */
  function Rows(t: Table): (r: seq<seq<Value>>)
    ensures |r| == 1 + |t.data| && forall k :: 0 <= k < |r| ==> |r[k]| == |t.meta|
  {
    [Map(t.meta, Header)] + seq(|t.data|, k requires 0 <= k < |t.data| => RowOf(t.data[k], t.meta))
  }

  function CellsOf(row: seq<Value>): seq<Cell> { Map(row, CellValue) }

  /** The table that a reader should get. */
  function Cells(t: Table): seq<seq<Cell>> { Map(Rows(t), CellsOf) }

  /** The text of a value in a row, or nothing for a value that is missing, null or undefined. */
  ghost predicate Shows(cell: Cell, row: map<string, Value>, name: string) {
    if name !in row || row[name] == Null || row[name] == Undefined then cell == None
    else cell == Some(match row[name] case Object(json) => json case Scalar(text) => text)
  }

  /** The table as read, position by position: the names, and below each name what the row has under it. */
  ghost predicate ReadsTable(read: seq<seq<Cell>>, t: Table) {
    && |read| == 1 + |t.data|
    && (forall i :: 0 <= i < |read| ==> |read[i]| == |t.meta|)
    && (forall j :: 0 <= j < |t.meta| ==> read[0][j] == Some(t.meta[j]))
    && (forall i, j :: 0 <= i < |t.data| && 0 <= j < |t.meta| ==> Shows(read[i + 1][j], t.data[i], t.meta[j]))
  }

  lemma RowShows(row: map<string, Value>, meta: seq<string>, j: nat)
    requires j < |meta|
    ensures Shows(CellValue(RowOf(row, meta)[j]), row, meta[j])
  {}

  lemma CellAt(t: Table, i: nat, j: nat)
    requires i < |t.data| && j < |t.meta|
    ensures Cells(t)[i + 1] == CellsOf(RowOf(t.data[i], t.meta))
    ensures Cells(t)[i + 1][j] == CellValue(RowOf(t.data[i], t.meta)[j])
  {
    assert Rows(t)[i + 1] == RowOf(t.data[i], t.meta);
  }

  lemma HeaderCells(t: Table)
    ensures |Cells(t)| == 1 + |t.data| && |Cells(t)[0]| == |t.meta|
    ensures forall j :: 0 <= j < |t.meta| ==> Cells(t)[0][j] == Some(t.meta[j])
  {}

  lemma CellsByPosition(t: Table)
    ensures ReadsTable(Cells(t), t)
  {
    var cells := Cells(t);
    HeaderCells(t);
    forall i, j | 0 <= i < |t.data| && 0 <= j < |t.meta|
      ensures Shows(cells[i + 1][j], t.data[i], t.meta[j])
    {
      CellAt(t, i, j);
      RowShows(t.data[i], t.meta, j);
    }
    assert forall i :: 0 <= i < |cells| ==> |cells[i]| == |Rows(t)[i]|;
  }

  lemma SameShown(a: Cell, b: Cell, t: Table, i: nat, j: nat, read: seq<seq<Cell>>, other: seq<seq<Cell>>)
    requires ReadsTable(read, t) && ReadsTable(other, t) && i < |t.data| && j < |t.meta|
    requires a == read[i + 1][j] && b == other[i + 1][j]
    ensures a == b
  {
    assert Shows(read[i + 1][j], t.data[i], t.meta[j]) && Shows(other[i + 1][j], t.data[i], t.meta[j]);
  }

  lemma OneTableRead(read: seq<seq<Cell>>, other: seq<seq<Cell>>, t: Table)
    requires ReadsTable(read, t) && ReadsTable(other, t)
    ensures read == other
  {
    forall i | 0 <= i < |read|
      ensures read[i] == other[i]
    {
      forall j | 0 <= j < |t.meta|
        ensures read[i][j] == other[i][j]
      {
        if i > 0 { SameShown(read[i][j], other[i][j], t, i - 1, j, read, other); }
      }
    }
  }

  function CsvLine(row: seq<Value>): string { Join(Map(row, CsvCell), ",") }

  function TsvLine(row: seq<Value>): string { Join(Map(row, TsvCell), "\t") }

  function Csv(t: Table): string { Join(Map(Rows(t), CsvLine), "\n") + "\n" }

  function Tsv(t: Table): string { Join(Map(Rows(t), TsvLine), "\n") + "\n" }

  // ---------------------------------------------------------------- reading tab-separated values

  /** The pieces between the occurrences of a character. */
  function SplitOn(s: string, c: char): (r: seq<string>)
    ensures r != []
  {
    if s == "" then [""]
    else if s[0] == c then [""] + SplitOn(s[1..], c)
    else
      var rest := SplitOn(s[1..], c);
      [[s[0]] + rest[0]] + rest[1..]
  }

  function Unescape(s: string): string {
    if s == "" then ""
    else if s[0] == '\\' && |s| >= 2 then [Meaning(s[1])] + Unescape(s[2..])
    else [s[0]] + Unescape(s[1..])
  }

  /** The character that a letter stands for behind a backslash. */
  function Meaning(c: char): char {
    match c
    case '0' => '\0'
    case 't' => '\t'
    case 'n' => '\n'
    case 'r' => '\r'
    case 'f' => '\U{C}'
    case _ => c
  }

  function TsvField(s: string): Cell { if s == "\\N" then None else Some(Unescape(s)) }

  function TsvRow(line: string): seq<Cell> { Map(SplitOn(line, '\t'), TsvField) }

  /** Lines end in LF; what follows the last LF is not a line. */
  function ReadTsv(s: string): seq<seq<Cell>> {
    var lines := SplitOn(s, '\n');
    Map(lines[..|lines| - 1], TsvRow)
  }

  lemma {:induction false} ReplaceAppend(a: string, b: string, c: char, w: string)
    ensures ReplaceAll(a + b, c, w) == ReplaceAll(a, c, w) + ReplaceAll(b, c, w)
  {
    if a == "" {
      assert a + b == b;
    } else {
      ReplaceAppend(a[1..], b, c, w);
      assert (a + b)[0] == a[0] && (a + b)[1..] == a[1..] + b;
      TextBehind(if a[0] == c then w else [a[0]], ReplaceAll(a[1..], c, w), ReplaceAll(b, c, w));
    }
  }

  lemma EscapedAppend(a: string, b: string)
    ensures Escaped(a + b) == Escaped(a) + Escaped(b)
  {
    var a1, b1 := ReplaceAll(a, '\\', "\\\\"), ReplaceAll(b, '\\', "\\\\");
    var a2, b2 := ReplaceAll(a1, NUL, "\\0"), ReplaceAll(b1, NUL, "\\0");
    var a3, b3 := ReplaceAll(a2, '\t', "\\t"), ReplaceAll(b2, '\t', "\\t");
    var a4, b4 := ReplaceAll(a3, '\n', "\\n"), ReplaceAll(b3, '\n', "\\n");
    var a5, b5 := ReplaceAll(a4, '\r', "\\r"), ReplaceAll(b4, '\r', "\\r");
    ReplaceAppend(a, b, '\\', "\\\\");
    ReplaceAppend(a1, b1, NUL, "\\0");
    ReplaceAppend(a2, b2, '\t', "\\t");
    ReplaceAppend(a3, b3, '\n', "\\n");
    ReplaceAppend(a4, b4, '\r', "\\r");
    ReplaceAppend(a5, b5, FF, "\\f");
  }

  /** What one pass would make of one character. */
  function EscapeChar(c: char): string {
    if c == '\\' then "\\\\" else if c == NUL then "\\0" else if c == '\t' then "\\t"
    else if c == '\n' then "\\n" else if c == '\r' then "\\r" else if c == FF then "\\f" else [c]
  }

  function EscapeOnce(s: string): string { if s == "" then "" else EscapeChar(s[0]) + EscapeOnce(s[1..]) }

  lemma ReplaceOne(x: char, c: char, w: string)
    ensures ReplaceAll([x], c, w) == if x == c then w else [x]
  {
    assert [x][1..] == "";
  }

  /** A pair that one replacement has put in survives the replacements that follow. */
  lemma PairStays(x: char, c: char, w: string)
    requires c != '\\' && c != x
    ensures ReplaceAll(['\\', x], c, w) == ['\\', x]
  {
    assert ['\\', x][1..] == [x];
    ReplaceOne(x, c, w);
  }

  lemma EscapedChar(c: char)
    ensures Escaped([c]) == EscapeChar(c)
  {
    ReplaceOne(c, '\\', "\\\\");
    ReplaceOne(c, NUL, "\\0");
    ReplaceOne(c, '\t', "\\t");
    ReplaceOne(c, '\n', "\\n");
    ReplaceOne(c, '\r', "\\r");
    ReplaceOne(c, FF, "\\f");
    if EscapeChar(c) != [c] {
      var x := EscapeChar(c)[1];
      assert EscapeChar(c) == ['\\', x];
      PairStays(x, NUL, "\\0");
      PairStays(x, '\t', "\\t");
      PairStays(x, '\n', "\\n");
      PairStays(x, '\r', "\\r");
      PairStays(x, FF, "\\f");
    }
  }

  /** The chain of six replacements is one pass: no replacement touches what an earlier one has put in. */
  lemma {:induction false} EscapedIsOnePass(s: string)
    ensures Escaped(s) == EscapeOnce(s)
  {
    if s != "" {
      EscapedAppend([s[0]], s[1..]);
      EscapedChar(s[0]);
      EscapedIsOnePass(s[1..]);
      assert [s[0]] + s[1..] == s;
    }
  }

  lemma UnescapePlain(c: char, rest: string)
    requires c != '\\'
    ensures Unescape([c] + rest) == [c] + Unescape(rest)
  {
    assert ([c] + rest)[1..] == rest;
  }

  lemma UnescapePair(c: char, rest: string)
    ensures Unescape(['\\', c] + rest) == [Meaning(c)] + Unescape(rest)
  {
    assert (['\\', c] + rest)[2..] == rest;
  }

  lemma {:induction false} UnescapeInverts(s: string)
    ensures Unescape(EscapeOnce(s)) == s
  {
    if s != "" {
      var rest := EscapeOnce(s[1..]);
      UnescapeInverts(s[1..]);
      if EscapeChar(s[0]) == [s[0]] {
        UnescapePlain(s[0], rest);
      } else {
        assert EscapeChar(s[0]) == ['\\', EscapeChar(s[0])[1]];
        UnescapePair(EscapeChar(s[0])[1], rest);
      }
    }
  }

  lemma {:induction false} EscapeAvoids(s: string)
    ensures '\t' !in EscapeOnce(s) && '\n' !in EscapeOnce(s)
  {
    if s != "" { EscapeAvoids(s[1..]); }
  }

  lemma EscapeIsNotNull(s: string)
    ensures EscapeOnce(s) != "\\N"
  {
    if s != "" {
      assert EscapeOnce(s)[0] == EscapeChar(s[0])[0];
      if EscapeChar(s[0]) != [s[0]] { assert EscapeOnce(s)[1] == EscapeChar(s[0])[1] != 'N'; }
    }
  }

  /** A cell reads back: NULL, the empty text and a text that looks like the NULL mark stay apart. */
  lemma TsvCellReadsBack(v: Value)
    ensures TsvField(TsvCell(v)) == CellValue(v)
    ensures '\t' !in TsvCell(v) && '\n' !in TsvCell(v)
  {
    if CellValue(v).Some? {
      var text := CellValue(v).value;
      EscapedIsOnePass(text);
      UnescapeInverts(text);
      EscapeAvoids(text);
      EscapeIsNotNull(text);
    }
  }

  lemma {:induction false} SplitBehind(p: string, c: char, rest: string)
    requires c !in p
    ensures SplitOn(p + [c] + rest, c) == [p] + SplitOn(rest, c)
  {
    if p == "" {
      assert (p + [c] + rest)[1..] == rest;
    } else {
      SplitBehind(p[1..], c, rest);
      assert (p + [c] + rest)[1..] == p[1..] + [c] + rest;
      assert [p[0]] + p[1..] == p;
    }
  }

  /** Splitting undoes joining with a final separator. */
  lemma {:induction false} SplitUndoesLines(parts: seq<string>, c: char)
    requires parts != [] && forall p :: p in parts ==> c !in p
    ensures SplitOn(Join(parts, [c]) + [c], c) == parts + [""]
  {
    assert parts[0] in parts;
    if |parts| == 1 {
      SplitBehind(parts[0], c, "");
      assert parts[0] + [c] + "" == parts[0] + [c];
    } else {
      var rest := Join(parts[1..], [c]) + [c];
      SplitUndoesLines(parts[1..], c);
      SplitBehind(parts[0], c, rest);
      assert parts[0] + [c] + Join(parts[1..], [c]) + [c] == parts[0] + [c] + rest;
      assert [parts[0]] + (parts[1..] + [""]) == parts + [""];
    }
  }

  lemma {:induction false} SplitPlain(p: string, c: char)
    requires c !in p
    ensures SplitOn(p, c) == [p]
  {
    if p != "" {
      SplitPlain(p[1..], c);
      assert [p[0]] + p[1..] == p;
    }
  }

  /** Splitting undoes joining. */
  lemma {:induction false} SplitUndoesJoin(parts: seq<string>, c: char)
    requires parts != [] && forall p :: p in parts ==> c !in p
    ensures SplitOn(Join(parts, [c]), c) == parts
  {
    assert parts[0] in parts;
    if |parts| == 1 {
      SplitPlain(parts[0], c);
    } else {
      SplitUndoesJoin(parts[1..], c);
      SplitBehind(parts[0], c, Join(parts[1..], [c]));
    }
  }

  lemma {:induction false} JoinAvoids(parts: seq<string>, sep: string, c: char)
    requires c !in sep && forall p :: p in parts ==> c !in p
    ensures c !in Join(parts, sep)
  {
    if parts != [] {
      assert parts[0] in parts;
      JoinAvoids(parts[1..], sep, c);
    }
  }

  lemma TsvLineReadsBack(row: seq<Value>)
    ensures '\n' !in TsvLine(row)
    ensures row != [] ==> TsvRow(TsvLine(row)) == CellsOf(row)
  {
    var cells := Map(row, TsvCell);
    forall k | 0 <= k < |row|
      ensures TsvField(cells[k]) == CellValue(row[k]) && '\t' !in cells[k] && '\n' !in cells[k]
    {
      TsvCellReadsBack(row[k]);
    }
    JoinAvoids(cells, "\t", '\n');
    if row != [] { SplitUndoesJoin(cells, '\t'); }
  }

  lemma SameRows<T>(a: seq<T>, b: seq<T>)
    requires |a| == |b| && forall k :: 0 <= k < |a| ==> a[k] == b[k]
    ensures a == b
  {}

  /** A reader of tab-separated values gets every header and every cell back in its place, exactly when there is a
      column. */
  lemma TsvReadsBack(t: Table)
    ensures ReadsTable(ReadTsv(Tsv(t)), t) <==> t.meta != []
  {
    CellsByPosition(t);
    TsvReadsCells(t);
    if ReadsTable(ReadTsv(Tsv(t)), t) { OneTableRead(ReadTsv(Tsv(t)), Cells(t), t); }
  }

  lemma TsvReadsCells(t: Table)
    ensures ReadTsv(Tsv(t)) == Cells(t) <==> t.meta != []
  {
    var rows := Rows(t);
    var lines := Map(rows, TsvLine);
    forall k | 0 <= k < |rows|
      ensures '\n' !in lines[k] && (t.meta != [] ==> TsvRow(lines[k]) == CellsOf(rows[k]))
    {
      TsvLineReadsBack(rows[k]);
    }
    SplitUndoesLines(lines, '\n');
    assert (lines + [""])[..|lines|] == lines;
    var read := ReadTsv(Tsv(t));
    assert |read| == |lines| && forall k :: 0 <= k < |read| ==> read[k] == TsvRow(lines[k]);
    if t.meta != [] {
      SameRows(read, Cells(t));
    } else {
      assert |read[0]| >= 1 && |Cells(t)[0]| == 0;
    }
  }

  // ---------------------------------------------------------------- reading comma-separated values

  /** A field of RFC 4180, section 2: with or without quotes around it. */
  datatype CsvField = Plain(text: string) | Quoted(text: string)

  /** What a parser has read, and what is left; None when the text is not CSV. */
  datatype Read<+T> = Read(value: T, rest: string)

  /** A quoted field behind its opening quote: two quotes stand for one, a single quote ends the field. */
  function QuotedText(s: string): (r: Option<Read<string>>)
    ensures r.Some? ==> |r.value.rest| < |s|
  {
    if s == "" then None
    else if s[0] != '\"' then
      var r := QuotedText(s[1..]);
      if r.None? then None else Some(Read([s[0]] + r.value.value, r.value.rest))
    else if |s| >= 2 && s[1] == '\"' then
      var r := QuotedText(s[2..]);
      if r.None? then None else Some(Read(['\"'] + r.value.value, r.value.rest))
    else Some(Read("", s[1..]))
  }

  /** A field without quotes reaches up to the next comma or the end of the line, and holds no quote. */
  function PlainText(s: string): (r: Option<Read<string>>)
    ensures r.Some? ==> |r.value.rest| <= |s|
  {
    if s == "" || s[0] == ',' || s[0] == '\n' then Some(Read("", s))
    else if s[0] == '\"' then None
    else
      var r := PlainText(s[1..]);
      if r.None? then None else Some(Read([s[0]] + r.value.value, r.value.rest))
  }

  function ReadField(s: string): (r: Option<Read<CsvField>>)
    ensures r.Some? ==> |r.value.rest| <= |s|
  {
    if s != "" && s[0] == '\"' then
      var r := QuotedText(s[1..]);
      if r.None? then None else Some(Read(Quoted(r.value.value), r.value.rest))
    else
      var r := PlainText(s);
      if r.None? then None else Some(Read(Plain(r.value.value), r.value.rest))
  }

  /** A record: fields with commas between them, ended by LF. */
  function ReadRecord(s: string): (r: Option<Read<seq<CsvField>>>)
    ensures r.Some? ==> |r.value.rest| < |s|
    decreases |s|
  {
    var f := ReadField(s);
    if f.None? || f.value.rest == "" then None
    else if f.value.rest[0] == '\n' then Some(Read([f.value.value], f.value.rest[1..]))
    else if f.value.rest[0] == ',' then
      var r := ReadRecord(f.value.rest[1..]);
      if r.None? then None else Some(Read([f.value.value] + r.value.value, r.value.rest))
    else None
  }

  function ReadRecords(s: string): Option<seq<seq<CsvField>>>
    decreases |s|
  {
    if s == "" then Some([])
    else
      var r := ReadRecord(s);
      if r.None? then None
      else
        var more := ReadRecords(r.value.rest);
        if more.None? then None else Some([r.value.value] + more.value)
  }

  /** An empty field without quotes is NULL. */
  function CsvMeaning(f: CsvField): Cell { if f == Plain("") then None else Some(f.text) }

  function ReadCsv(s: string): Option<seq<seq<Cell>>> {
    var records := ReadRecords(s);
    if records.None? then None
    else Some(Map(records.value, CsvRow))
  }

  function CsvRow(record: seq<CsvField>): seq<Cell> { Map(record, CsvMeaning) }

  /** The field that a cell is printed as. */
  function FieldOf(v: Value): CsvField {
    match CellValue(v)
    case None => Plain("")
    case Some(text) => Quoted(text)
  }

  function FieldsOf(row: seq<Value>): (r: seq<CsvField>)
    ensures |r| == |row| && forall k :: 0 <= k < |r| ==> r[k] == FieldOf(row[k])
  {
    Map(row, FieldOf)
  }

  predicate EndsField(rest: string) { rest != "" && (rest[0] == ',' || rest[0] == '\n') }

  /** The quoted text, with everything behind it, reads back. */
  ghost predicate QuotedReads(printed: string, text: string, rest: string) {
    QuotedText(printed + ("\"" + rest)) == Some(Read(text, rest))
  }

  lemma QuotedNothing(rest: string)
    requires EndsField(rest)
    ensures QuotedReads("", "", rest)
  {
    assert "" + ("\"" + rest) == "\"" + rest && ("\"" + rest)[1..] == rest;
  }

  lemma QuotedStep(c: char, first: string, printed: string, text: string, rest: string)
    requires QuotedReads(printed, text, rest) && first == if c == '\"' then "\"\"" else [c]
    ensures QuotedReads(first + printed, [c] + text, rest)
  {
    var more := printed + ("\"" + rest);
    TextBehind(first, printed, "\"" + rest);
    assert (first + more)[|first|..] == more;
  }

  lemma {:induction false} QuotedReadsBack(text: string, rest: string)
    requires EndsField(rest)
    ensures QuotedReads(ReplaceAll(text, '\"', "\"\""), text, rest)
  {
    if text == "" {
      QuotedNothing(rest);
    } else {
      QuotedReadsBack(text[1..], rest);
      QuotedStep(text[0], if text[0] == '\"' then "\"\"" else [text[0]], ReplaceAll(text[1..], '\"', "\"\""),
                 text[1..], rest);
      assert [text[0]] + text[1..] == text;
    }
  }

  lemma ReadQuoted(body: string)
    ensures ReadField("\"" + body) ==
      if QuotedText(body).None? then None
      else Some(Read(Quoted(QuotedText(body).value.value), QuotedText(body).value.rest))
  {
    assert ("\"" + body)[1..] == body;
  }

  lemma ReadNothing(rest: string)
    requires EndsField(rest)
    ensures ReadField(rest) == Some(Read(Plain(""), rest))
  {}

  lemma CsvCellReadsBack(v: Value, rest: string)
    requires EndsField(rest)
    ensures ReadField(CsvCell(v) + rest) == Some(Read(FieldOf(v), rest))
  {
    if CellValue(v).Some? {
      var doubled := ReplaceAll(CellValue(v).value, '\"', "\"\"");
      QuotedReadsBack(CellValue(v).value, rest);
      ReadQuoted(doubled + ("\"" + rest));
      FourParts("\"", doubled, "\"", rest);
    } else {
      ReadNothing(rest);
      assert CsvCell(v) + rest == rest;
    }
  }

  lemma LastField(s: string, f: CsvField, rest: string)
    requires ReadField(s) == Some(Read(f, "\n" + rest))
    ensures ReadRecord(s) == Some(Read([f], rest))
  {
    assert ("\n" + rest)[1..] == rest;
  }

  lemma NextField(s: string, f: CsvField, more: string, record: seq<CsvField>, rest: string)
    requires ReadField(s) == Some(Read(f, "," + more)) && ReadRecord(more) == Some(Read(record, rest))
    ensures ReadRecord(s) == Some(Read([f] + record, rest))
  {
    assert ("," + more)[1..] == more;
  }

  /** The line of a row with one cell, and of a row with more. */
  lemma LineParts(row: seq<Value>, rest: string)
    requires row != []
    ensures |row| == 1 ==> CsvLine(row) + "\n" + rest == CsvCell(row[0]) + ("\n" + rest)
    ensures |row| > 1 ==> CsvLine(row) + "\n" + rest == CsvCell(row[0]) + ("," + (CsvLine(row[1..]) + "\n" + rest))
    ensures FieldsOf(row) == [FieldOf(row[0])] + FieldsOf(row[1..])
  {
    assert Map(row, CsvCell)[1..] == Map(row[1..], CsvCell);
  }

  lemma {:induction false} RecordReadsBack(row: seq<Value>, rest: string)
    requires row != []
    ensures ReadRecord(CsvLine(row) + "\n" + rest) == Some(Read(FieldsOf(row), rest))
  {
    LineParts(row, rest);
    if |row| == 1 {
      CsvCellReadsBack(row[0], "\n" + rest);
      LastField(CsvLine(row) + "\n" + rest, FieldOf(row[0]), rest);
      assert FieldsOf(row) == [FieldOf(row[0])];
    } else {
      var more := CsvLine(row[1..]) + "\n" + rest;
      RecordReadsBack(row[1..], rest);
      CsvCellReadsBack(row[0], "," + more);
      NextField(CsvLine(row) + "\n" + rest, FieldOf(row[0]), more, FieldsOf(row[1..]), rest);
    }
  }

  function CsvLines(rows: seq<seq<Value>>): string { Join(Map(rows, CsvLine), "\n") + "\n" }

  lemma MapParts<T, U>(items: seq<T>, f: T -> U)
    requires items != []
    ensures Map(items, f) == [f(items[0])] + Map(items[1..], f)
  {}

  lemma LinesParts(rows: seq<seq<Value>>)
    requires rows != []
    ensures CsvLines(rows) == CsvLine(rows[0]) + "\n" + (if |rows| == 1 then "" else CsvLines(rows[1..]))
    ensures Map(rows, FieldsOf) == [FieldsOf(rows[0])] + Map(rows[1..], FieldsOf)
  {
    MapParts(rows, CsvLine);
    MapParts(rows, FieldsOf);
  }

  lemma NextRecord(s: string, record: seq<CsvField>, rest: string, more: seq<seq<CsvField>>)
    requires ReadRecord(s) == Some(Read(record, rest)) && ReadRecords(rest) == Some(more)
    ensures ReadRecords(s) == Some([record] + more)
  {}

  lemma {:induction false} RecordsReadBack(rows: seq<seq<Value>>)
    requires rows != [] && forall k :: 0 <= k < |rows| ==> rows[k] != []
    ensures ReadRecords(CsvLines(rows)) == Some(Map(rows, FieldsOf))
  {
    var rest := if |rows| == 1 then "" else CsvLines(rows[1..]);
    LinesParts(rows);
    RecordReadsBack(rows[0], rest);
    if |rows| > 1 { RecordsReadBack(rows[1..]); }
    NextRecord(CsvLines(rows), FieldsOf(rows[0]), rest, Map(rows[1..], FieldsOf));
  }

  lemma {:induction false} EmptyLines(lines: seq<string>)
    requires lines != [] && forall k :: 0 <= k < |lines| ==> lines[k] == ""
    ensures Join(lines, "\n") == "" || Join(lines, "\n")[0] == '\n'
  {}

  /** Without columns every line is empty, and the first one reads as a record with one field. */
  lemma NoColumns(t: Table)
    requires t.meta == []
    ensures ReadRecord(Csv(t)).Some? && |ReadRecord(Csv(t)).value.value| == 1
  {
    var lines := Map(Rows(t), CsvLine);
    assert forall k :: 0 <= k < |lines| ==> lines[k] == "";
    EmptyLines(lines);
    ReadNothing(Csv(t));
  }

  /** A CSV reader gets every header and every cell back in its place, exactly when there is a column. */
  lemma CsvReadsBack(t: Table)
    ensures ReadCsv(Csv(t)).Some? && ReadsTable(ReadCsv(Csv(t)).value, t) <==> t.meta != []
  {
    CellsByPosition(t);
    CsvReadsCells(t);
    if ReadCsv(Csv(t)).Some? && ReadsTable(ReadCsv(Csv(t)).value, t) {
      OneTableRead(ReadCsv(Csv(t)).value, Cells(t), t);
    }
  }

  lemma CsvReadsCells(t: Table)
    ensures ReadCsv(Csv(t)) == Some(Cells(t)) <==> t.meta != []
  {
    var rows := Rows(t);
    if t.meta != [] {
      RecordsReadBack(rows);
      forall k | 0 <= k < |rows|
        ensures CsvRow(FieldsOf(rows[k])) == CellsOf(rows[k])
      {
        assert forall j :: 0 <= j < |rows[k]| ==> CsvMeaning(FieldOf(rows[k][j])) == CellValue(rows[k][j]);
      }
      SameRows(ReadCsv(Csv(t)).value, Cells(t));
    } else {
      NoColumns(t);
      assert |Cells(t)[0]| == 0;
    }
  }

  // ---------------------------------------------------------------- file names

  predicate NameChar(c: char) {
    'A' <= c <= 'Z' || 'a' <= c <= 'z' || '0' <= c <= '9' || c == '.' || c == '_' || c == '-'
  }

  /** replace(/[^A-Za-z0-9._-]+/g, '_'): one underscore for every run of other characters. */
  function Collapse(s: string): string {
    if s == "" then ""
    else if NameChar(s[0]) then [s[0]] + Collapse(s[1..])
    else if |s| > 1 && !NameChar(s[1]) then Collapse(s[1..])
    else "_" + Collapse(s[1..])
  }

  /** replace(/^_+|_+$/g, '') */
  function StripLeft(s: string): string { if s != "" && s[0] == '_' then StripLeft(s[1..]) else s }

  function StripRight(s: string): string { if s != "" && s[|s| - 1] == '_' then StripRight(s[..|s| - 1]) else s }

  function SafeName(input: string): string {
    var name := StripRight(StripLeft(Collapse(if input == "" then "cluster" else input)));
    if name == "" then "cluster" else name
  }

  /** A letter, a digit, a dot, an underscore or a hyphen. */
  ghost predicate SafeByte(c: char) {
    c == '.' || c == '_' || c == '-' || '0' <= c <= '9' || 'A' <= c <= 'Z' || 'a' <= c <= 'z'
  }

  ghost predicate Safe(s: string) {
    s != "" && (forall k :: 0 <= k < |s| ==> SafeByte(s[k])) && s[0] != '_' && s[|s| - 1] != '_'
  }

  lemma {:induction false} CollapseIsSafe(s: string)
    ensures forall k :: 0 <= k < |Collapse(s)| ==> NameChar(Collapse(s)[k])
    ensures (forall k :: 0 <= k < |s| ==> NameChar(s[k])) ==> Collapse(s) == s
  {
    if s != "" { CollapseIsSafe(s[1..]); }
  }

  lemma {:induction false} StripLeftIsSuffix(s: string)
    ensures var r := StripLeft(s); |r| <= |s| && r == s[|s| - |r|..] && (r != "" ==> r[0] != '_')
  {
    if s != "" { StripLeftIsSuffix(s[1..]); }
  }

  lemma {:induction false} StripRightIsPrefix(s: string)
    ensures var r := StripRight(s); |r| <= |s| && r == s[..|r|] && (r != "" ==> r[|r| - 1] != '_')
  {
    if s != "" { StripRightIsPrefix(s[..|s| - 1]); }
  }

  lemma StripIsSafe(name: string)
    requires forall k :: 0 <= k < |name| ==> NameChar(name[k])
    ensures var r := StripRight(StripLeft(name)); r == "" || Safe(r)
  {
    StripLeftIsSuffix(name);
    StripRightIsPrefix(StripLeft(name));
  }

  lemma StripSafe(name: string)
    requires Safe(name)
    ensures StripRight(StripLeft(name)) == name
  {}

  lemma ClusterIsSafe()
    ensures Safe("cluster")
  {}

  /** A file name is never empty, holds only safe characters, has no underscore at its ends, and a name that is
      already like that, and no other, is left as it is. */
  lemma SafeNameIsSafe(input: string)
    ensures Safe(SafeName(input))
    ensures SafeName(input) == input <==> Safe(input)
  {
    CollapseIsSafe(if input == "" then "cluster" else input);
    StripIsSafe(Collapse(if input == "" then "cluster" else input));
    if Safe(input) { StripSafe(Collapse(input)); }
    ClusterIsSafe();
  }

  lemma SafeNameTwice(input: string)
    ensures SafeName(SafeName(input)) == SafeName(input)
  {
    SafeNameIsSafe(input);
    SafeNameIsSafe(SafeName(input));
  }

  // ---------------------------------------------------------------- what a file name becomes

  /** Unsafe characters and underscores, of which nothing is left at the ends of a name. */
  ghost predicate Padding(s: string) { forall k :: 0 <= k < |s| ==> !SafeByte(s[k]) || s[k] == '_' }

  ghost predicate Unsafe(s: string) { s != "" && forall k :: 0 <= k < |s| ==> !SafeByte(s[k]) }

  ghost predicate Underscores(s: string) { forall k :: 0 <= k < |s| ==> s[k] == '_' }

  lemma {:induction false} CollapsePadding(s: string)
    requires Padding(s)
    ensures Underscores(Collapse(s))
  {
    if s != "" { CollapsePadding(s[1..]); }
  }

  /** A run ends where a safe character follows. */
  lemma {:induction false} CollapseBefore(s: string, t: string)
    requires t == "" || SafeByte(t[0])
    ensures Collapse(s + t) == Collapse(s) + Collapse(t)
  {
    if s == "" {
      assert s + t == t;
    } else {
      CollapseBefore(s[1..], t);
      assert (s + t)[1..] == s[1..] + t && (s + t)[0] == s[0];
      assert |s + t| > 1 ==> (s + t)[1] == if |s| > 1 then s[1] else t[0];
    }
  }

  lemma {:induction false} CollapseBehind(s: string, t: string)
    requires s != "" && SafeByte(s[|s| - 1])
    ensures Collapse(s + t) == Collapse(s) + Collapse(t)
  {
    assert (s + t)[1..] == s[1..] + t && (s + t)[0] == s[0];
    if |s| == 1 {
      assert s[1..] + t == t;
    } else {
      CollapseBehind(s[1..], t);
      assert (s + t)[1] == s[1] && s[1..][|s| - 2] == s[|s| - 1];
    }
  }

  lemma {:induction false} StripUnderscores(u: string, s: string)
    requires Underscores(u) && (s == "" || s[0] != '_')
    ensures StripLeft(u + s) == s
  {
    if u == "" {
      assert u + s == s;
    } else {
      assert (u + s)[1..] == u[1..] + s;
      StripUnderscores(u[1..], s);
    }
  }

  lemma {:induction false} StripBehind(s: string, u: string)
    requires Underscores(u) && (s == "" || s[|s| - 1] != '_')
    ensures StripRight(s + u) == s
  {
    if u == "" {
      assert s + u == s;
    } else {
      var n := |u| - 1;
      assert (s + u)[..|s| + n] == s + u[..n] && (s + u)[|s| + n] == u[n];
      StripBehind(s, u[..n]);
    }
  }

  lemma StripAround(u: string, s: string, v: string)
    requires Underscores(u) && Underscores(v) && (s == "" || (s[0] != '_' && s[|s| - 1] != '_'))
    ensures StripRight(StripLeft(u + s + v)) == s
  {
    if s == "" {
      assert Underscores(u + v) && u + s + v == (u + v) + "";
      StripUnderscores(u + v, "");
    } else {
      assert u + s + v == u + (s + v);
      StripUnderscores(u, s + v);
      StripBehind(s, v);
    }
  }

  lemma NoNameIsCluster()
    ensures SafeName("") == "cluster"
  {
    SafeNameIsSafe("cluster");
  }

  /** A name of unsafe characters and underscores alone, or no name, becomes the word cluster. */
  lemma PaddingIsCluster(s: string)
    requires Padding(s)
    ensures SafeName(s) == "cluster"
  {
    if s == "" {
      NoNameIsCluster();
    } else {
      CollapsePadding(s);
      assert Collapse(s) + "" + "" == Collapse(s);
      StripAround(Collapse(s), "", "");
    }
  }

  /** Padding around a safe name goes away. */
  lemma PaddingGoes(p: string, a: string, q: string)
    requires Padding(p) && Safe(a) && Padding(q)
    ensures SafeName(p + a + q) == a
  {
    CollapsePadding(p);
    CollapsePadding(q);
    assert p + a + q == p + (a + q) && (a + q)[0] == a[0];
    CollapseBefore(p, a + q);
    CollapseBehind(a, q);
    CollapseIsSafe(a);
    assert Collapse(p) + (a + Collapse(q)) == Collapse(p) + a + Collapse(q);
    StripAround(Collapse(p), a, Collapse(q));
  }

  lemma {:induction false} CollapseRun(u: string)
    requires Unsafe(u)
    ensures Collapse(u) == "_"
  {
    if |u| > 1 { CollapseRun(u[1..]); }
  }

  lemma RunCollapses(a: string, u: string, b: string)
    requires Safe(a) && Unsafe(u) && Safe(b)
    ensures Collapse(a + u + b) == a + "_" + b
  {
    assert a + u + b == a + (u + b) && a + ("_" + b) == a + "_" + b;
    CollapseBehind(a, u + b);
    CollapseBefore(u, b);
    CollapseRun(u);
    CollapseIsSafe(a);
    CollapseIsSafe(b);
  }

  /** A run of unsafe characters between safe names becomes one underscore. */
  lemma RunIsUnderscore(a: string, u: string, b: string)
    requires Safe(a) && Unsafe(u) && Safe(b)
    ensures SafeName(a + u + b) == a + "_" + b
  {
    var r := a + "_" + b;
    RunCollapses(a, u, b);
    assert r[0] == a[0] && r[|r| - 1] == b[|b| - 1];
    StripAround("", r, "");
    assert "" + r + "" == r;
  }
}
