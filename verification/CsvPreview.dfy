/**
 * parseCsv of attachment-preview.ts, against printing as section 2 of RFC 4180 lays it out.
 */
module CsvPreview {
  import opened Options

  type Row = seq<string>

  /** The byte order mark a file may begin with. */
  const MARK: char := '\U{FEFF}'

  // ---- Parsing ----

  /** The rows from `s` on, with what was read before it: whole rows, fields of the current row, the current field. */
  function Scan(s: string, delimiter: char, limit: Option<nat>, rows: seq<Row>, row: Row, field: string, quoted: bool)
    : seq<Row>
    decreases |s|
  {
    if s == "" then
      if field != "" || row != [] then rows + [row + [field]] else rows
    else if quoted then
      if s[0] == '"' then
        if |s| > 1 && s[1] == '"' then Scan(s[2..], delimiter, limit, rows, row, field + ['"'], true)
        else Scan(s[1..], delimiter, limit, rows, row, field, false)
      else Scan(s[1..], delimiter, limit, rows, row, field + [s[0]], true)
    else if s[0] == '"' && field == "" then Scan(s[1..], delimiter, limit, rows, row, field, true)
    else if s[0] == delimiter then Scan(s[1..], delimiter, limit, rows, row + [field], "", false)
    else if s[0] == '\n' || s[0] == '\r' then
      var rest := if s[0] == '\r' && |s| > 1 && s[1] == '\n' then s[2..] else s[1..];
      var more := rows + [row + [field]];
      if limit.Some? && |more| >= limit.value then more
      else Scan(rest, delimiter, limit, more, [], "", false)
    else Scan(s[1..], delimiter, limit, rows, row, field + [s[0]], false)
  }

  function WithoutMark(text: string): string {
    if text != "" && text[0] == MARK then text[1..] else text
  }

  function Parsed(text: string, delimiter: char, limit: Option<nat>): seq<Row> {
    Scan(WithoutMark(text), delimiter, limit, [], [], "", false)
  }

  method ParseCsv(text: string, delimiter: char, limit: Option<nat>) returns (rows: seq<Row>)
    ensures rows == Parsed(text, delimiter, limit)
  {
    rows := [];
    var row: Row, field, quoted, i := [], "", false, 0;
    var src := WithoutMark(text);
    while i < |src|
      invariant 0 <= i <= |src|
      invariant Parsed(text, delimiter, limit) == Scan(src[i..], delimiter, limit, rows, row, field, quoted)
    {
      var c := src[i];
      assert src[i..][1..] == src[i + 1..];
      assert i + 1 < |src| ==> src[i..][2..] == src[i + 2..];
      if quoted {
        if c == '"' {
          if i + 1 < |src| && src[i + 1] == '"' {
            field, i := field + ['"'], i + 2;
            continue;
          }
          quoted := false;
        } else {
          field := field + [c];
        }
        i := i + 1;
        continue;
      }
      if c == '"' && field == "" {
        quoted := true;
      } else if c == delimiter {
        row, field := row + [field], "";
      } else if c == '\n' || c == '\r' {
        if c == '\r' && i + 1 < |src| && src[i + 1] == '\n' { i := i + 1; }
        rows, row, field := rows + [row + [field]], [], "";
        if limit.Some? && |rows| >= limit.value { return; }
      } else {
        field := field + [c];
      }
      i := i + 1;
    }
    if field != "" || row != [] {
      rows := rows + [row + [field]];
    }
  }

  // ---- A limit ----

  function FirstRows(rows: seq<Row>, n: nat): seq<Row> { if |rows| <= n then rows else rows[..n] }

  lemma {:induction false} ScanKeeps(s: string, delimiter: char, rows: seq<Row>, row: Row, field: string, quoted: bool)
    ensures rows <= Scan(s, delimiter, None, rows, row, field, quoted)
    decreases |s|
  {
    if s == "" {
    } else if quoted {
      if s[0] == '"' {
        if |s| > 1 && s[1] == '"' { ScanKeeps(s[2..], delimiter, rows, row, field + ['"'], true); }
        else { ScanKeeps(s[1..], delimiter, rows, row, field, false); }
      } else { ScanKeeps(s[1..], delimiter, rows, row, field + [s[0]], true); }
    } else if s[0] == '"' && field == "" { ScanKeeps(s[1..], delimiter, rows, row, field, true);
    } else if s[0] == delimiter { ScanKeeps(s[1..], delimiter, rows, row + [field], "", false);
    } else if s[0] == '\n' || s[0] == '\r' {
      var rest := if s[0] == '\r' && |s| > 1 && s[1] == '\n' then s[2..] else s[1..];
      ScanKeeps(rest, delimiter, rows + [row + [field]], [], "", false);
    } else { ScanKeeps(s[1..], delimiter, rows, row, field + [s[0]], false); }
  }

  lemma {:induction false} ScanLimited(
    s: string, delimiter: char, n: nat, rows: seq<Row>, row: Row, field: string, quoted: bool)
    requires |rows| < n || |rows| == 0
    ensures Scan(s, delimiter, Some(n), rows, row, field, quoted) ==
      FirstRows(Scan(s, delimiter, None, rows, row, field, quoted), if n == 0 then 1 else n)
    decreases |s|
  {
    if s == "" {
    } else if quoted {
      if s[0] == '"' {
        if |s| > 1 && s[1] == '"' { ScanLimited(s[2..], delimiter, n, rows, row, field + ['"'], true); }
        else { ScanLimited(s[1..], delimiter, n, rows, row, field, false); }
      } else { ScanLimited(s[1..], delimiter, n, rows, row, field + [s[0]], true); }
    } else if s[0] == '"' && field == "" { ScanLimited(s[1..], delimiter, n, rows, row, field, true);
    } else if s[0] == delimiter { ScanLimited(s[1..], delimiter, n, rows, row + [field], "", false);
    } else if s[0] == '\n' || s[0] == '\r' {
      var rest := if s[0] == '\r' && |s| > 1 && s[1] == '\n' then s[2..] else s[1..];
      var more := rows + [row + [field]];
      if |more| >= n {
        ScanKeeps(rest, delimiter, more, [], "", false);
      } else {
        ScanLimited(rest, delimiter, n, more, [], "", false);
      }
    } else { ScanLimited(s[1..], delimiter, n, rows, row, field + [s[0]], false); }
  }

  /** A limit gives the first rows of the whole parse; a limit of 0 is taken as 1. */
  lemma LimitedIsPrefix(text: string, delimiter: char, n: nat)
    ensures Parsed(text, delimiter, Some(n)) == FirstRows(Parsed(text, delimiter, None), if n == 0 then 1 else n)
  {
    ScanLimited(WithoutMark(text), delimiter, n, [], [], "", false);
  }

  // ---- Printing ----

  datatype Cell = Bare(text: string) | Quoted(text: string)

  datatype Break = Lf | CrLf | Cr

  datatype Line = Line(cells: seq<Cell>, end: Break)

  /** A field that may go without quotes. */
  predicate Plain(text: string, delimiter: char) {
    && (text != "" ==> text[0] != '"' && text[0] != MARK)
    && forall c | c in text :: c != delimiter && c != '\n' && c != '\r'
  }

  predicate Printable(line: Line, delimiter: char) {
    line.cells != [] && forall cell | cell in line.cells && cell.Bare? :: Plain(cell.text, delimiter)
  }

  /** Quotes doubled. */
  function Doubled(text: string): string {
    if text == "" then "" else (if text[0] == '"' then "\"\"" else [text[0]]) + Doubled(text[1..])
  }

  function PrintCell(cell: Cell): string {
    if cell.Bare? then cell.text else "\"" + Doubled(cell.text) + "\""
  }

  function PrintCells(cells: seq<Cell>, delimiter: char): string
    requires cells != []
  {
    if |cells| == 1 then PrintCell(cells[0]) else PrintCell(cells[0]) + [delimiter] + PrintCells(cells[1..], delimiter)
  }

  function PrintBreak(end: Break): string {
    match end
    case Lf => "\n"
    case CrLf => "\r\n"
    case Cr => "\r"
  }

  /** Every line but the last ends in a break; the last does when `ended`. */
  function Print(lines: seq<Line>, delimiter: char, ended: bool): string
    requires forall line | line in lines :: Printable(line, delimiter)
  {
    if lines == [] then ""
    else
      assert Printable(lines[0], delimiter);
      PrintCells(lines[0].cells, delimiter)
        + (if |lines| > 1 || ended then PrintBreak(lines[0].end) else "")
        + Print(lines[1..], delimiter, ended)
  }

  /** No line that ends in a lone CR stands before an empty line that ends in LF: the two would read as one CR LF. */
  ghost predicate NoBreaksMeet(lines: seq<Line>, ended: bool) {
    forall i | 0 < i < |lines| && lines[i - 1].end.Cr? && lines[i].cells == [Bare("")] ::
      lines[i].end != Lf || (i == |lines| - 1 && !ended)
  }

  function Texts(cells: seq<Cell>): (row: Row)
    ensures |row| == |cells|
  {
    if cells == [] then [] else [cells[0].text] + Texts(cells[1..])
  }

  function RowsOf(lines: seq<Line>): seq<Row> {
    if lines == [] then [] else [Texts(lines[0].cells)] + RowsOf(lines[1..])
  }

  // ---- Parsing undoes printing ----

  predicate Separator(delimiter: char) { delimiter != '"' && delimiter != '\n' && delimiter != '\r' }

  /** What may follow a field: nothing, a delimiter or a break. */
  predicate EndsField(rest: string, delimiter: char) {
    rest == "" || rest[0] == delimiter || rest[0] == '\n' || rest[0] == '\r'
  }

  lemma {:induction false} ScanDoubled(
    text: string, rest: string, delimiter: char, rows: seq<Row>, row: Row, field: string)
    requires Separator(delimiter) && EndsField(rest, delimiter)
    ensures Scan(Doubled(text) + "\"" + rest, delimiter, None, rows, row, field, true) ==
      Scan(rest, delimiter, None, rows, row, field + text, false)
    decreases |text|
  {
    var s := Doubled(text) + "\"" + rest;
    if text == "" {
      assert s == "\"" + rest && s[1..] == rest && field + text == field;
    } else {
      var tail := Doubled(text[1..]) + "\"" + rest;
      ScanDoubled(text[1..], rest, delimiter, rows, row, field + [text[0]]);
      assert field + [text[0]] + text[1..] == field + text;
      if text[0] == '"' { assert s[2..] == tail; } else { assert s[1..] == tail; }
    }
  }

  lemma {:induction false} ScanBare(
    text: string, rest: string, delimiter: char, rows: seq<Row>, row: Row, field: string)
    requires forall c | c in text :: c != delimiter && c != '\n' && c != '\r'
    requires field != "" || text == "" || text[0] != '"'
    ensures Scan(text + rest, delimiter, None, rows, row, field, false) ==
      Scan(rest, delimiter, None, rows, row, field + text, false)
    decreases |text|
  {
    if text == "" {
      assert text + rest == rest && field + text == field;
    } else {
      assert (text + rest)[1..] == text[1..] + rest;
      assert text[0] in text && forall c | c in text[1..] :: c in text;
      ScanBare(text[1..], rest, delimiter, rows, row, field + [text[0]]);
      assert field + [text[0]] + text[1..] == field + text;
    }
  }

  lemma ScanCell(cell: Cell, rest: string, delimiter: char, rows: seq<Row>, row: Row)
    requires Separator(delimiter) && EndsField(rest, delimiter) && (cell.Bare? ==> Plain(cell.text, delimiter))
    ensures Scan(PrintCell(cell) + rest, delimiter, None, rows, row, "", false) ==
      Scan(rest, delimiter, None, rows, row, cell.text, false)
  {
    if cell.Bare? {
      ScanBare(cell.text, rest, delimiter, rows, row, "");
    } else {
      Opening(Doubled(cell.text) + "\"" + rest, delimiter, rows, row);
      ScanDoubled(cell.text, rest, delimiter, rows, row, "");
      assert PrintCell(cell) + rest == "\"" + (Doubled(cell.text) + "\"" + rest);
    }
    assert "" + cell.text == cell.text;
  }

  lemma Opening(s: string, delimiter: char, rows: seq<Row>, row: Row)
    ensures Scan("\"" + s, delimiter, None, rows, row, "", false) == Scan(s, delimiter, None, rows, row, "", true)
  {
    assert ("\"" + s)[1..] == s;
  }

  lemma Separating(s: string, delimiter: char, rows: seq<Row>, row: Row, field: string)
    requires Separator(delimiter)
    ensures Scan([delimiter] + s, delimiter, None, rows, row, field, false) ==
      Scan(s, delimiter, None, rows, row + [field], "", false)
  {
    assert ([delimiter] + s)[1..] == s;
  }

  ghost function Init(row: Row): Row
    requires row != []
  {
    row[..|row| - 1]
  }

  ghost function Last(row: Row): string
    requires row != []
  {
    row[|row| - 1]
  }

  lemma InitLast(row: Row)
    requires row != []
    ensures [] + Init(row) == Init(row) && Init(row) + [Last(row)] == row
  {
  }

  lemma SplitCells(cells: seq<Cell>, rest: string, delimiter: char)
    requires |cells| > 1
    ensures PrintCells(cells, delimiter) + rest ==
      PrintCell(cells[0]) + ([delimiter] + (PrintCells(cells[1..], delimiter) + rest))
  {
  }

  lemma SplitTexts(cells: seq<Cell>, row: Row)
    requires |cells| > 1
    ensures row + Init(Texts(cells)) == row + [cells[0].text] + Init(Texts(cells[1..]))
    ensures Last(Texts(cells)) == Last(Texts(cells[1..]))
  {
    var more := Texts(cells[1..]);
    assert Texts(cells) == [cells[0].text] + more && more != [];
    assert Init([cells[0].text] + more) == [cells[0].text] + Init(more);
    Regroup(row, [cells[0].text], Init(more));
  }

  lemma OneText(cell: Cell, row: Row)
    ensures row + Init(Texts([cell])) == row && Last(Texts([cell])) == cell.text
  {
  }

  /** A printed row leaves its last field pending, whatever break or end of text follows. */
  lemma {:induction false} ScanCells(cells: seq<Cell>, rest: string, delimiter: char, rows: seq<Row>, row: Row)
    requires Separator(delimiter) && cells != []
    requires forall cell | cell in cells && cell.Bare? :: Plain(cell.text, delimiter)
    requires rest == "" || rest[0] == '\n' || rest[0] == '\r'
    ensures Scan(PrintCells(cells, delimiter) + rest, delimiter, None, rows, row, "", false) ==
      Scan(rest, delimiter, None, rows, row + Init(Texts(cells)), Last(Texts(cells)), false)
    decreases |cells|
  {
    if |cells| == 1 {
      assert cells == [cells[0]];
      ScanCell(cells[0], rest, delimiter, rows, row);
      OneText(cells[0], row);
    } else {
      var others := PrintCells(cells[1..], delimiter) + rest;
      SplitCells(cells, rest, delimiter);
      ScanCell(cells[0], [delimiter] + others, delimiter, rows, row);
      Separating(others, delimiter, rows, row, cells[0].text);
      ScanCells(cells[1..], rest, delimiter, rows, row + [cells[0].text]);
      SplitTexts(cells, row);
    }
  }

  lemma ScanBreak(end: Break, rest: string, delimiter: char, rows: seq<Row>, row: Row, field: string)
    requires Separator(delimiter) && (end.Cr? && rest != "" ==> rest[0] != '\n')
    ensures Scan(PrintBreak(end) + rest, delimiter, None, rows, row, field, false) ==
      Scan(rest, delimiter, None, rows + [row + [field]], [], "", false)
  {
    var s := PrintBreak(end) + rest;
    if end.CrLf? { assert s[0] == '\r' && s[1] == '\n' && s[2..] == rest; } else { assert s[1..] == rest; }
  }

  /** One whole line. */
  lemma ScanLine(line: Line, rest: string, delimiter: char, rows: seq<Row>)
    requires Separator(delimiter) && Printable(line, delimiter)
    requires line.end.Cr? && rest != "" ==> rest[0] != '\n'
    ensures Scan(PrintCells(line.cells, delimiter) + (PrintBreak(line.end) + rest), delimiter, None, rows, [], "", false) ==
      Scan(rest, delimiter, None, rows + [Texts(line.cells)], [], "", false)
  {
    var texts := Texts(line.cells);
    ScanCells(line.cells, PrintBreak(line.end) + rest, delimiter, rows, []);
    InitLast(texts);
    ScanBreak(line.end, rest, delimiter, rows, Init(texts), Last(texts));
  }

  /** A last line that is not ended: read, unless it is one empty field. */
  lemma ScanLastLine(line: Line, delimiter: char, rows: seq<Row>)
    requires Separator(delimiter) && Printable(line, delimiter)
    ensures Scan(PrintCells(line.cells, delimiter), delimiter, None, rows, [], "", false) ==
      rows + if Texts(line.cells) != [""] then [Texts(line.cells)] else []
  {
    var texts := Texts(line.cells);
    assert PrintCells(line.cells, delimiter) + "" == PrintCells(line.cells, delimiter);
    ScanCells(line.cells, "", delimiter, rows, []);
    InitLast(texts);
  }

  function ReadLines(lines: seq<Line>, ended: bool): seq<Line> {
    if ended || lines == [] || Texts(lines[|lines| - 1].cells) != [""] then lines else lines[..|lines| - 1]
  }

  /** Breaks end rows; a last row with no break is read unless it is one empty field. */
  lemma {:induction false} ScanLines(lines: seq<Line>, delimiter: char, ended: bool, rows: seq<Row>)
    requires Separator(delimiter) && forall line | line in lines :: Printable(line, delimiter)
    requires NoBreaksMeet(lines, ended)
    ensures Scan(Print(lines, delimiter, ended), delimiter, None, rows, [], "", false) ==
      rows + RowsOf(ReadLines(lines, ended))
    decreases |lines|
  {
    if lines == [] {
      assert rows + [] == rows;
    } else {
      assert Printable(lines[0], delimiter);
      PrintSplit(lines, delimiter, ended);
      var x := Texts(lines[0].cells);
      if |lines| > 1 || ended {
        LoneBreak(lines, delimiter, ended);
        ScanLine(lines[0], Print(lines[1..], delimiter, ended), delimiter, rows);
        ScanLines(lines[1..], delimiter, ended, rows + [x]);
        FirstIsRead(lines, ended);
        Regroup(rows, [x], RowsOf(ReadLines(lines[1..], ended)));
      } else {
        ScanLastLine(lines[0], delimiter, rows);
        LastIsRead(lines);
      }
    }
  }

  lemma Regroup<T>(a: seq<T>, b: seq<T>, c: seq<T>)
    ensures a + (b + c) == a + b + c
  {
  }

  lemma PrintSplit(lines: seq<Line>, delimiter: char, ended: bool)
    requires lines != [] && forall line | line in lines :: Printable(line, delimiter)
    requires Printable(lines[0], delimiter)
    ensures Print(lines, delimiter, ended) ==
      if |lines| > 1 || ended
      then PrintCells(lines[0].cells, delimiter) + (PrintBreak(lines[0].end) + Print(lines[1..], delimiter, ended))
      else PrintCells(lines[0].cells, delimiter)
  {
  }

  /** What a printed row begins with. */
  lemma PrintBegins(cells: seq<Cell>, delimiter: char)
    requires cells != []
    ensures var s := PrintCells(cells, delimiter);
      (s == "" <==> cells == [Bare("")])
      && (s != "" ==> s[0] == if cells[0] == Bare("") then delimiter else PrintCell(cells[0])[0])
  {
    assert PrintCell(cells[0]) == "" <==> cells[0] == Bare("");
    if |cells| == 1 { assert cells == [cells[0]]; }
  }

  /** No LF follows a lone CR. */
  lemma LoneBreak(lines: seq<Line>, delimiter: char, ended: bool)
    requires Separator(delimiter) && forall line | line in lines :: Printable(line, delimiter)
    requires lines != [] && NoBreaksMeet(lines, ended)
    ensures NoBreaksMeet(lines[1..], ended)
    ensures var rest := Print(lines[1..], delimiter, ended); lines[0].end.Cr? && rest != "" ==> rest[0] != '\n'
  {
    var more := lines[1..];
    forall i | 0 < i < |more| && more[i - 1].end.Cr? && more[i].cells == [Bare("")]
      ensures more[i].end != Lf || (i == |more| - 1 && !ended)
    {
      assert lines[i].end.Cr? && lines[i + 1].cells == [Bare("")];
    }
    if lines[0].end.Cr? && more != [] {
      var cells := more[0].cells;
      assert more[0] in lines && cells[0] in cells;
      PrintSplit(more, delimiter, ended);
      PrintBegins(cells, delimiter);
      assert lines[1] == more[0];
      if cells[0].text != "" { assert cells[0].text[0] in cells[0].text; }
      assert PrintCell(cells[0]) != "" ==> PrintCell(cells[0])[0] != '\n';
    }
  }

  lemma LastIsRead(lines: seq<Line>)
    requires |lines| == 1
    ensures var x := Texts(lines[0].cells); RowsOf(ReadLines(lines, false)) == if x != [""] then [x] else []
  {
    assert lines[..0] == [] && RowsOf(lines[1..]) == [];
  }

  lemma FirstIsRead(lines: seq<Line>, ended: bool)
    requires |lines| > 1 || (ended && lines != [])
    ensures RowsOf(ReadLines(lines, ended)) == [Texts(lines[0].cells)] + RowsOf(ReadLines(lines[1..], ended))
  {
    var read := ReadLines(lines, ended);
    assert read[1..] == ReadLines(lines[1..], ended);
  }

  lemma {:induction false} MarkNotPrinted(lines: seq<Line>, delimiter: char, ended: bool)
    requires delimiter != MARK && forall line | line in lines :: Printable(line, delimiter)
    ensures WithoutMark(Print(lines, delimiter, ended)) == Print(lines, delimiter, ended)
  {
    if lines != [] {
      assert lines[0] in lines;
      var cell := lines[0].cells[0];
      assert cell in lines[0].cells;
      var s := PrintCells(lines[0].cells, delimiter);
      assert s != "" ==> s[0] == if PrintCell(cell) != "" then PrintCell(cell)[0] else delimiter;
    }
  }

  lemma {:induction false} RowsCount(lines: seq<Line>)
    ensures |RowsOf(lines)| == |lines|
  {
    if lines != [] { RowsCount(lines[1..]); }
  }

  /**
   * Parsing undoes printing, whichever fields are quoted, whichever lines end in LF, CR LF or CR, and with or
   * without a byte order mark, exactly when the last line is ended or is more than one empty field.
   */
  lemma ParsingUndoesPrinting(lines: seq<Line>, delimiter: char, ended: bool, marked: bool)
    requires Separator(delimiter) && delimiter != MARK && forall line | line in lines :: Printable(line, delimiter)
    requires NoBreaksMeet(lines, ended)
    ensures
      Parsed((if marked then [MARK] else "") + Print(lines, delimiter, ended), delimiter, None) == RowsOf(lines)
      <==> ended || lines == [] || Texts(lines[|lines| - 1].cells) != [""]
  {
    var text := Print(lines, delimiter, ended);
    MarkNotPrinted(lines, delimiter, ended);
    assert marked ==> WithoutMark([MARK] + text) == text;
    assert "" + text == text;
    ScanLines(lines, delimiter, ended, []);
    RowsCount(lines);
    if lines != [] { RowsCount(lines[..|lines| - 1]); }
  }
}
