/**
 * Lines as text, for files with one kind of line ending throughout: splitLines and decidedText of
 * inline-review.ts, and the ranges and inserts review-controller.ts edits a document with.
 */
module DocumentText {
  import opened ReviewPlans
  import opened ReviewDecisions
  import opened ReviewSessions

  // ---- Documents ----

  /** A line that holds no line break, whole or half. */
  predicate Plain(line: string) {
    '\n' !in line && '\r' !in line
  }

  /** A file with a uniform line ending; `trailing` says whether the last line ends with one too. */
  datatype Document = Document(lines: seq<string>, crlf: bool, trailing: bool) {
    function Eol(): string { if crlf then "\r\n" else "\n" }

    ghost predicate Uniform() {
      forall k | 0 <= k < |lines| :: Plain(lines[k])
    }

    /** The lines can be read back from the text: an empty last line shows only behind a final line break. */
    ghost predicate Canonical() {
      Uniform() && (lines == [] ==> !trailing) && (lines != [] && lines[|lines| - 1] == "" ==> trailing)
    }

    ghost function Text(): string {
      if lines == [] then "" else Join(lines, Eol()) + if trailing then Eol() else ""
    }
  }

  function Join(lines: seq<string>, eol: string): string {
    if lines == [] then "" else if |lines| == 1 then lines[0] else lines[0] + eol + Join(lines[1..], eol)
  }

  /** Every line followed by a line break. */
  ghost function Flat(lines: seq<string>, eol: string): string {
    if lines == [] then "" else lines[0] + eol + Flat(lines[1..], eol)
  }

  lemma {:induction false} JoinThenBreak(lines: seq<string>, eol: string)
    requires lines != []
    ensures Join(lines, eol) + eol == Flat(lines, eol)
  {
    if |lines| == 1 {
      assert Flat(lines[1..], eol) == "";
      assert lines[0] + eol + "" == lines[0] + eol;
    } else {
      JoinThenBreak(lines[1..], eol);
      assert lines[0] + eol + Join(lines[1..], eol) + eol == lines[0] + eol + (Join(lines[1..], eol) + eol);
    }
  }

  lemma {:induction false} FlatConcat(x: seq<string>, y: seq<string>, eol: string)
    ensures Flat(x + y, eol) == Flat(x, eol) + Flat(y, eol)
  {
    if x == [] {
      assert x + y == y;
    } else {
      assert (x + y)[1..] == x[1..] + y;
      FlatConcat(x[1..], y, eol);
    }
  }

  /** A document's text is its lines with their breaks, but for the last break when there is no final one. */
  lemma TextIsFlat(d: Document)
    ensures d.lines == [] ==> d.Text() == "" == Flat(d.lines, d.Eol())
    ensures d.lines != [] && d.trailing ==> d.Text() == Flat(d.lines, d.Eol())
    ensures d.lines != [] && !d.trailing ==> d.Text() + d.Eol() == Flat(d.lines, d.Eol())
  {
    if d.lines != [] {
      JoinThenBreak(d.lines, d.Eol());
      assert Join(d.lines, d.Eol()) + "" == Join(d.lines, d.Eol());
    }
  }

  // ---- splitLines ----

  function EndsWithBreak(text: string): bool { text != "" && text[|text| - 1] == '\n' }

  /** The text without its final line break, if it has one. */
  function Body(text: string): string {
    if !EndsWithBreak(text) then text
    else if |text| >= 2 && text[|text| - 2] == '\r' then text[..|text| - 2]
    else text[..|text| - 1]
  }

  /** Splitting at every line feed, with or without a carriage return before it; `cur` is the line so far. */
  function SplitFrom(text: string, cur: string): seq<string> {
    if text == "" then [cur]
    else if text[0] == '\n' then [cur] + SplitFrom(text[1..], "")
    else if |text| >= 2 && text[0] == '\r' && text[1] == '\n' then [cur] + SplitFrom(text[2..], "")
    else SplitFrom(text[1..], cur + [text[0]])
  }

  predicate HasCrlf(text: string) {
    exists k | 0 <= k < |text| - 1 :: text[k] == '\r' && text[k + 1] == '\n'
  }

  /** splitLines: the lines, and whether they end in CRLF. */
  function SplitLines(text: string): (seq<string>, bool) {
    (if text == "" then [] else SplitFrom(Body(text), ""), HasCrlf(text))
  }

  /** Each line followed mark its own break. */
  ghost function Weave(lines: seq<string>, breaks: seq<string>): string
    requires |lines| == |breaks|
  {
    if lines == [] then "" else lines[0] + breaks[0] + Weave(lines[1..], breaks[1..])
  }

  /** A line that stops at the first break: it holds no line feed, nor a carriage return just before one. */
  ghost predicate Cut(line: string, mark: string) {
    '\n' !in line && (mark == "\r\n" || (mark == "\n" && (line == "" || line[|line| - 1] != '\r')))
  }

  /** The lines and their breaks are those of the text; only the last line, when it is not empty, may go without. */
  ghost predicate CutsUp(lines: seq<string>, breaks: seq<string>, text: string) {
    && |lines| == |breaks| && Weave(lines, breaks) == text
    && forall k | 0 <= k < |lines| ::
        Cut(lines[k], breaks[k])
        || (k == |lines| - 1 && '\n' !in lines[k] && lines[k] != "" && breaks[k] == "")
  }

  lemma CutsUpMore(line: string, mark: string, lines: seq<string>, breaks: seq<string>, text: string)
    requires CutsUp(lines, breaks, text) && Cut(line, mark)
    ensures CutsUp([line] + lines, [mark] + breaks, line + (mark + text))
  {
    var ls, bs := [line] + lines, [mark] + breaks;
    assert ls[1..] == lines && bs[1..] == breaks;
    forall k | 0 <= k < |ls|
      ensures Cut(ls[k], bs[k]) || (k == |ls| - 1 && '\n' !in ls[k] && ls[k] != "" && bs[k] == "")
    {
      if k > 0 { assert ls[k] == lines[k - 1] && bs[k] == breaks[k - 1]; }
    }
  }

  lemma CutsUpLast(line: string, mark: string)
    requires '\n' !in line && (Cut(line, mark) || (line != "" && mark == ""))
    ensures CutsUp([line], [mark], line + ("" + mark))
  {
    assert [line][1..] == [] && [mark][1..] == [];
  }

  /** Whether a text may end before `last`, the break it has been stripped of. */
  ghost predicate StopsAt(text: string, last: string) {
    || last == "\r\n"
    || (last == "\n" && (text == "" || text[|text| - 1] != '\r'))
    || (last == "" && text != "" && text[|text| - 1] != '\n')
  }

  lemma StopsAfter(text: string, mark: string, rest: string, last: string)
    requires StopsAt(text + (mark + rest), last) && (mark == "\n" || mark == "\r\n")
    ensures StopsAt(rest, last)
  {
    var s := text + (mark + rest);
    assert rest != "" ==> s[|s| - 1] == rest[|rest| - 1];
    assert rest == "" ==> s[|s| - 1] == '\n';
  }

  lemma MarkThenRest(text: string, mark: string, last: string)
    requires mark <= text
    ensures text == mark + text[|mark|..] && mark + (text[|mark|..] + last) == text + last
  {
  }

  lemma NextCharacter(cur: string, text: string, last: string)
    requires text != ""
    ensures cur + [text[0]] + text[1..] == cur + text
    ensures cur + [text[0]] + (text[1..] + last) == cur + (text + last)
  {
  }

  /** Splitting from the middle of a line; `last` is the break that the text has been stripped of. */
  lemma {:induction false} SplitCutsUp(text: string, cur: string, last: string) returns (breaks: seq<string>)
    requires '\n' !in cur && (text != "" && text[0] == '\n' ==> cur == "" || cur[|cur| - 1] != '\r')
    requires StopsAt(cur + text, last)
    ensures CutsUp(SplitFrom(text, cur), breaks, cur + (text + last))
    decreases |text|
  {
    if text == "" {
      breaks := [last];
      assert cur + "" == cur;
      CutsUpLast(cur, last);
    } else if text[0] == '\n' || (|text| >= 2 && text[0] == '\r' && text[1] == '\n') {
      var mark := if text[0] == '\n' then "\n" else "\r\n";
      var rest := text[|mark|..];
      MarkThenRest(text, mark, last);
      StopsAfter(cur, mark, rest, last);
      Prefixed(rest);
      Prefixed(rest + last);
      var more := SplitCutsUp(rest, "", last);
      breaks := [mark] + more;
      CutsUpMore(cur, mark, SplitFrom(rest, ""), more, rest + last);
    } else {
      var next := cur + [text[0]];
      NextCharacter(cur, text, last);
      breaks := SplitCutsUp(text[1..], next, last);
    }
  }

  /** What splitting strips off the end. */
  lemma BodyThenBreak(text: string) returns (last: string)
    requires text != ""
    ensures Body(text) + last == text
    ensures StopsAt(Body(text), last)
  {
    if !EndsWithBreak(text) {
      last := "";
    } else if |text| >= 2 && text[|text| - 2] == '\r' {
      last := "\r\n";
      assert text == text[..|text| - 2] + [text[|text| - 2], text[|text| - 1]];
    } else {
      last := "\n";
      assert text == text[..|text| - 1] + [text[|text| - 1]];
    }
  }

  /** Of any text, however its lines end, the lines are cut off at exactly its breaks, and nothing of it is lost. */
  lemma SplitIsExact(text: string) returns (breaks: seq<string>)
    ensures CutsUp(SplitLines(text).0, breaks, text)
  {
    if text == "" {
      breaks := [];
    } else {
      var body := Body(text);
      var last := BodyThenBreak(text);
      Prefixed(body);
      breaks := SplitCutsUp(body, "", last);
      Prefixed(body + last);
    }
  }

  lemma Prefixed(s: string)
    ensures "" + s == s
  {
  }

  lemma {:induction false} SplitPlain(line: string, rest: string, cur: string)
    requires Plain(line)
    ensures SplitFrom(line + rest, cur) == SplitFrom(rest, cur + line)
  {
    if line == "" {
      assert line + rest == rest && cur + line == cur;
    } else {
      var text := line + rest;
      assert text[0] == line[0] && text[1..] == line[1..] + rest;
      assert line[0] in line;
      assert forall c | c in line[1..] :: c in line;
      SplitPlain(line[1..], rest, cur + [line[0]]);
      assert cur + [line[0]] + line[1..] == cur + line;
    }
  }

  lemma {:induction false} SplitBreak(crlf: bool, rest: string, cur: string)
    ensures SplitFrom((if crlf then "\r\n" else "\n") + rest, cur) == [cur] + SplitFrom(rest, "")
  {
    var eol := if crlf then "\r\n" else "\n";
    assert (eol + rest)[|eol|..] == rest;
  }

  lemma {:induction false} SplitJoin(lines: seq<string>, crlf: bool)
    requires lines != [] && forall k | 0 <= k < |lines| :: Plain(lines[k])
    ensures SplitFrom(Join(lines, if crlf then "\r\n" else "\n"), "") == lines
  {
    var eol := if crlf then "\r\n" else "\n";
    if |lines| == 1 {
      SplitPlain(lines[0], "", "");
      assert lines[0] + "" == lines[0] && "" + lines[0] == lines[0];
    } else {
      var rest := Join(lines[1..], eol);
      SplitPlain(lines[0], eol + rest, "");
      assert lines[0] + eol + rest == lines[0] + (eol + rest) && "" + lines[0] == lines[0];
      SplitBreak(crlf, rest, lines[0]);
      SplitJoin(lines[1..], crlf);
    }
  }

  lemma BodyOfBroken(s: string, crlf: bool)
    requires crlf || s == "" || s[|s| - 1] != '\r'
    ensures EndsWithBreak(s + if crlf then "\r\n" else "\n")
    ensures Body(s + if crlf then "\r\n" else "\n") == s
  {
  }

  lemma {:induction false} JoinEnd(lines: seq<string>, eol: string)
    requires lines != [] && eol != ""
    ensures var last := lines[|lines| - 1];
      && (last != "" ==> Join(lines, eol) != "" && Join(lines, eol)[|Join(lines, eol)| - 1] == last[|last| - 1])
      && (last == "" && |lines| > 1 ==> Join(lines, eol) == Join(lines[..|lines| - 1], eol) + eol)
      && (last == "" && |lines| == 1 ==> Join(lines, eol) == "")
  {
    if |lines| > 1 {
      JoinEnd(lines[1..], eol);
      assert lines[1..][|lines[1..]| - 1] == lines[|lines| - 1];
      if |lines| > 2 {
        assert lines[..|lines| - 1][1..] == lines[1..][..|lines[1..]| - 1];
        var m := Join(lines[1..][..|lines[1..]| - 1], eol);
        assert lines[0] + eol + (m + eol) == lines[0] + eol + m + eol;
      } else {
        assert lines[..|lines| - 1] == [lines[0]];
        assert lines[0] + eol + "" == lines[0] + eol;
      }
    }
  }

  /** The last character of uniform text is no half break. */
  lemma {:induction false} JoinEndsPlain(lines: seq<string>)
    requires lines != [] && forall k | 0 <= k < |lines| :: Plain(lines[k])
    ensures var s := Join(lines, "\n"); s == "" || s[|s| - 1] != '\r'
  {
    JoinEnd(lines, "\n");
    var last := lines[|lines| - 1];
    if last != "" { assert last[|last| - 1] in last; }
  }

  lemma CanonicalSplits(d: Document)
    requires d.Canonical()
    ensures SplitLines(d.Text()).0 == d.lines
    ensures EndsWithBreak(d.Text()) == d.trailing
  {
    if d.lines != [] {
      SplitJoin(d.lines, d.crlf);
      var s := Join(d.lines, d.Eol());
      JoinEnd(d.lines, d.Eol());
      if d.trailing {
        if !d.crlf { JoinEndsPlain(d.lines); }
        BodyOfBroken(s, d.crlf);
        assert s + d.Eol() != "";
      } else {
        var last := d.lines[|d.lines| - 1];
        assert last[|last| - 1] in last;
        assert s + "" == s;
      }
    }
  }

  /**
   * Reading a document's text back gives its lines exactly when the document is canonical: without a final
   * line break an empty last line is taken for that break and lost.
   */
  lemma SplitRoundTrip(d: Document)
    requires d.Uniform() && (d.lines == [] ==> !d.trailing)
    ensures SplitLines(d.Text()).0 == d.lines <==> d.Canonical()
  {
    if d.Canonical() {
      CanonicalSplits(d);
    } else {
      var n := |d.lines| - 1;
      JoinEnd(d.lines, d.Eol());
      assert Join(d.lines, d.Eol()) + "" == Join(d.lines, d.Eol());
      if n > 0 {
        var shorter := Document(d.lines[..n], d.crlf, true);
        assert shorter.Text() == d.Text();
        assert shorter.Uniform();
        CanonicalSplits(shorter);
      }
    }
  }

  // ---- Line endings ----

  lemma {:induction false} PlainHasNoBreak(lines: seq<string>)
    requires forall k | 0 <= k < |lines| :: Plain(lines[k])
    ensures '\r' !in Flat(lines, "\n")
  {
    if lines != [] { PlainHasNoBreak(lines[1..]); }
  }

  /** Uniform text shows its line ending as soon as it holds one. */
  lemma EndingShows(d: Document)
    requires d.Uniform() && (|d.lines| > 1 || (d.trailing && d.lines != []))
    ensures SplitLines(d.Text()).1 == d.crlf
  {
    TextIsFlat(d);
    if d.crlf {
      var k := |d.lines[0]|;
      var text := d.Text();
      assert text[k] == '\r' && text[k + 1] == '\n' by {
        assert Flat(d.lines, d.Eol())[..k + 2] == d.lines[0] + "\r\n";
        if !d.trailing { assert |Flat(d.lines[1..], d.Eol())| >= 2; }
        assert text[..k + 2] == Flat(d.lines, d.Eol())[..k + 2];
      }
    } else {
      PlainHasNoBreak(d.lines);
      assert forall k | 0 <= k < |d.Text()| :: d.Text()[k] in Flat(d.lines, "\n");
    }
  }

  // ---- decidedText ----

  function EolOf(crlf: bool): string { if crlf then "\r\n" else "\n" }

  /** decidedText: the buffer's text without the green lines of every open block. */
  function DecidedText(text: string, blocks: seq<Block>): string {
    var (lines, crlf) := SplitLines(text);
    var kept := Kept(lines, GreenLines(blocks), 0);
    if kept == [] then "" else Join(kept, EolOf(crlf)) + if EndsWithBreak(text) then EolOf(crlf) else ""
  }

  lemma {:induction false} KeptShorter<T>(lines: seq<T>, drop: set<int>, at: int)
    ensures |Kept(lines, drop, at)| <= |lines|
  {
    if lines != [] { KeptShorter(lines[1..], drop, at + 1); }
  }

  /** For a canonical buffer, deciding on the text is deciding on the lines. */
  lemma DecidedTextIsDecidedLines(d: Document, blocks: seq<Block>)
    requires d.Canonical()
    ensures DecidedText(d.Text(), blocks) == d.(lines := DecidedLines(d.lines, blocks)).Text()
  {
    CanonicalSplits(d);
    KeptShorter(d.lines, GreenLines(blocks), 0);
    if |d.lines| > 1 || (d.trailing && d.lines != []) {
      EndingShows(d);
    }
  }

  // ---- Deleting a range of lines ----

  datatype Position = Position(line: nat, character: nat)

  datatype Range = Range(start: Position, end: Position)

  /** A document's lines as the editor counts them: a final line break is followed by one more, empty line. */
  ghost function EditorLines(d: Document): seq<string> {
    d.lines + if d.lines == [] || d.trailing then [""] else []
  }

  ghost function Offset(d: Document, p: Position): nat
    requires p.line < |EditorLines(d)|
  {
    |Flat(EditorLines(d)[..p.line], d.Eol())| + p.character
  }

  /** lineRange: the range whose deletion takes out `count` lines from line `start` on. */
  ghost function LineRange(d: Document, start: nat, count: nat): Range
    requires d.Canonical() && start < |EditorLines(d)|
  {
    var lineTotal, lineCount := |SplitLines(d.Text()).0|, |EditorLines(d)|;
    var end := Position(lineCount - 1, |EditorLines(d)[lineCount - 1]|);
    CanonicalSplits(d);
    if start + count < lineTotal then Range(Position(start, 0), Position(start + count, 0))
    else if EndsWithBreak(d.Text()) then Range(Position(start, 0), Position(lineTotal, 0))
    else if start == 0 then Range(Position(0, 0), end)
    else Range(Position(start - 1, |EditorLines(d)[start - 1]|), end)
  }

  ghost predicate InText(d: Document, r: Range) {
    && r.start.line < |EditorLines(d)| && r.end.line < |EditorLines(d)|
    && Offset(d, r.start) <= Offset(d, r.end) <= |d.Text()|
  }

  ghost function DeleteRange(d: Document, r: Range): string
    requires InText(d, r)
  {
    d.Text()[..Offset(d, r.start)] + d.Text()[Offset(d, r.end)..]
  }

  lemma FlatThree(lines: seq<string>, i: nat, j: nat, eol: string)
    requires i <= j <= |lines|
    ensures Flat(lines, eol) == Flat(lines[..i], eol) + Flat(lines[i..j], eol) + Flat(lines[j..], eol)
    ensures Flat(lines[..j], eol) == Flat(lines[..i], eol) + Flat(lines[i..j], eol)
  {
    assert lines[..j] == lines[..i] + lines[i..j];
    assert lines == lines[..j] + lines[j..];
    FlatConcat(lines[..i], lines[i..j], eol);
    FlatConcat(lines[..j], lines[j..], eol);
  }

  lemma {:induction false} FlatEndsWithEol(lines: seq<string>, eol: string)
    requires lines != []
    ensures var n := |lines| - 1; Flat(lines, eol) == Flat(lines[..n], eol) + lines[n] + eol
  {
    var n := |lines| - 1;
    assert lines == lines[..n] + [lines[n]];
    FlatConcat(lines[..n], [lines[n]], eol);
    assert Flat([lines[n]], eol) == lines[n] + eol + "";
    assert Flat(lines[..n], eol) + (lines[n] + eol) == Flat(lines[..n], eol) + lines[n] + eol;
  }

  /** Cutting a middle out of a text that may lack its last `e`. */
  lemma CutMiddle(text: string, e: string, a: string, b: string, c: string)
    requires text + e == a + b + c && |c| >= |e|
    ensures |a| + |b| <= |text| && text[..|a|] + text[|a| + |b|..] + e == a + c
  {
    assert text == (a + b + c)[..|text|];
    assert text[|a| + |b|..] + e == (text + e)[|a| + |b|..] == c;
    assert text[..|a|] == a;
  }

  lemma CutTail(text: string, e: string, a: string, b: string)
    requires text + e == a + b + e
    ensures text == a + b
  {
    assert (text + e)[..|text|] == text && (a + b + e)[..|a + b|] == a + b;
  }

  /** Text with its last break, whether it has one or not, determines it. */
  lemma SameWithBreak(x: string, y: string, e: string)
    requires x + e == y + e
    ensures x == y
  {
    assert (x + e)[..|x|] == x && (y + e)[..|y|] == y;
  }

  lemma CutGives(text: string, e: string, a: string, b: string, c: string, after: string)
    requires text + e == a + b + c && |c| >= |e| && after + e == a + c
    ensures |a| + |b| <= |text| && text[..|a|] + text[|a| + |b|..] == after
  {
    CutMiddle(text, e, a, b, c);
    SameWithBreak(text[..|a|] + text[|a| + |b|..], after, e);
  }

  lemma OffsetOfLine(d: Document, line: nat, character: nat)
    requires line <= |d.lines| && line < |EditorLines(d)|
    ensures Offset(d, Position(line, character)) == |Flat(d.lines[..line], d.Eol())| + character
  {
    assert EditorLines(d)[..line] == d.lines[..line];
  }

  /** The text before, in and behind deleted inner lines; `e` is the last line's break where the text lacks it. */
  lemma InnerParts(d: Document, start: nat, end: nat) returns (e: string, a: string, b: string, c: string)
    requires d.Canonical() && start <= end < |d.lines|
    ensures d.Text() + e == a + b + c && |c| >= |e|
    ensures d.(lines := d.lines[..start] + d.lines[end..]).Text() + e == a + c
    ensures Offset(d, Position(start, 0)) == |a| && Offset(d, Position(end, 0)) == |a| + |b|
  {
    var eol := d.Eol();
    a, b, c := Flat(d.lines[..start], eol), Flat(d.lines[start..end], eol), Flat(d.lines[end..], eol);
    e := if d.trailing then "" else eol;
    FlatThree(d.lines, start, end, eol);
    FlatConcat(d.lines[..start], d.lines[end..], eol);
    TextIsFlat(d);
    TextIsFlat(d.(lines := d.lines[..start] + d.lines[end..]));
    FlatEndsWithEol(d.lines[end..], eol);
    OffsetOfLine(d, start, 0);
    OffsetOfLine(d, end, 0);
    if d.trailing { assert forall t: string :: t + "" == t; }
  }

  lemma DeleteInner(d: Document, start: nat, end: nat)
    requires d.Canonical() && start <= end < |d.lines|
    ensures var r := Range(Position(start, 0), Position(end, 0));
      InText(d, r) && DeleteRange(d, r) == d.(lines := d.lines[..start] + d.lines[end..]).Text()
  {
    var e, a, b, c := InnerParts(d, start, end);
    var after := d.(lines := d.lines[..start] + d.lines[end..]).Text();
    assert start < |EditorLines(d)| && end < |EditorLines(d)|;
    DeleteParts(d, Range(Position(start, 0), Position(end, 0)), e, a, b, c, after);
  }

  lemma DeleteParts(d: Document, r: Range, e: string, a: string, b: string, c: string, after: string)
    requires d.Text() + e == a + b + c && |c| >= |e| && after + e == a + c
    requires r.start.line < |EditorLines(d)| && r.end.line < |EditorLines(d)|
    requires Offset(d, r.start) == |a| && Offset(d, r.end) == |a| + |b|
    ensures InText(d, r) && DeleteRange(d, r) == after
  {
    CutGives(d.Text(), e, a, b, c, after);
    DeleteAt(d, r, |a|, |a| + |b|);
  }

  lemma DeleteAt(d: Document, r: Range, i: nat, j: nat)
    requires r.start.line < |EditorLines(d)| && r.end.line < |EditorLines(d)|
    requires Offset(d, r.start) == i && Offset(d, r.end) == j && i <= j <= |d.Text()|
    ensures InText(d, r) && DeleteRange(d, r) == d.Text()[..i] + d.Text()[j..]
  {
  }

  lemma DeleteToEnd(d: Document, start: nat)
    requires d.Canonical() && start < |d.lines|
    ensures var r := LineRange(d, start, |d.lines| - start);
      InText(d, r) && DeleteRange(d, r) == d.(lines := d.lines[..start]).Text()
  {
    RangeToEnd(d, start);
    if d.trailing {
      DeleteToFinalBreak(d, start);
    } else {
      DeleteToBareEnd(d, start);
    }
  }

  lemma RangeToEnd(d: Document, start: nat)
    requires d.Canonical() && start < |d.lines|
    ensures var n := |d.lines|;
      LineRange(d, start, n - start) ==
        if d.trailing then Range(Position(start, 0), Position(n, 0))
        else Range(if start == 0 then Position(0, 0) else Position(start - 1, |d.lines[start - 1]|),
                   Position(n - 1, |d.lines[n - 1]|))
  {
    CanonicalSplits(d);
    if !d.trailing { EndOffset(d); }
  }

  lemma DeleteToBareEnd(d: Document, start: nat)
    requires d.Canonical() && !d.trailing && start < |d.lines|
    ensures var n := |d.lines| - 1;
      var from := if start == 0 then Position(0, 0) else Position(start - 1, |d.lines[start - 1]|);
      var r := Range(from, Position(n, |d.lines[n]|));
      InText(d, r) && DeleteRange(d, r) == d.(lines := d.lines[..start]).Text()
  {
    EndOffset(d);
    assert d.Text()[|d.Text()|..] == "";
    if start > 0 {
      OffsetOfLine(d, start - 1, |d.lines[start - 1]|);
      KeepHead(d, start);
    } else {
      OffsetOfLine(d, 0, 0);
      assert d.lines[..0] == [];
    }
  }

  lemma DeleteToFinalBreak(d: Document, start: nat)
    requires d.Canonical() && d.trailing && start < |d.lines|
    ensures var r := Range(Position(start, 0), Position(|d.lines|, 0));
      InText(d, r) && DeleteRange(d, r) == d.(lines := d.lines[..start]).Text()
  {
    var eol, n := d.Eol(), |d.lines|;
    TextIsFlat(d);
    TextIsFlat(d.(lines := d.lines[..start]));
    FlatThree(d.lines, start, n, eol);
    assert d.lines[..n] == d.lines;
    OffsetOfLine(d, start, 0);
    OffsetOfLine(d, n, 0);
  }

  /** Without a final break, the end of the last line is the end of the text. */
  lemma EndOffset(d: Document)
    requires d.Canonical() && !d.trailing && d.lines != []
    ensures EditorLines(d) == d.lines
    ensures var n := |d.lines| - 1; Offset(d, Position(n, |d.lines[n]|)) == |d.Text()|
  {
    var n := |d.lines| - 1;
    TextIsFlat(d);
    FlatEndsWithEol(d.lines, d.Eol());
    CutTail(d.Text(), d.Eol(), Flat(d.lines[..n], d.Eol()), d.lines[n]);
    OffsetOfLine(d, n, |d.lines[n]|);
  }

  /** Without a final break, what is kept ends where its last line does. */
  lemma KeepHead(d: Document, start: nat)
    requires d.Canonical() && !d.trailing && 0 < start < |d.lines|
    ensures var o := |Flat(d.lines[..start - 1], d.Eol())| + |d.lines[start - 1]|;
      o <= |d.Text()| && d.Text()[..o] == d.(lines := d.lines[..start]).Text()
  {
    var eol, a := d.Eol(), d.lines[..start];
    var d' := d.(lines := a);
    TextIsFlat(d);
    TextIsFlat(d');
    FlatThree(d.lines, start, |d.lines|, eol);
    assert d.lines[..|d.lines|] == d.lines;
    FlatEndsWithEol(a, eol);
    FlatEndsWithEol(d.lines[start..], eol);
    assert a[..start - 1] == d.lines[..start - 1];
    var head := Flat(d.lines[..start - 1], eol) + d.lines[start - 1];
    CutTail(d'.Text(), eol, Flat(a[..start - 1], eol), a[start - 1]);
    assert d'.Text() == head;
    assert (d.Text() + eol)[..|head|] == head;
  }

  /** Deleting the range lineRange gives is deleting the lines: nothing else goes, and no empty line stays behind. */
  lemma LineRangeDeletesLines(d: Document, start: nat, count: nat)
    requires d.Canonical() && count > 0 && start + count <= |d.lines|
    ensures var r := LineRange(d, start, count);
      InText(d, r) && DeleteRange(d, r) == d.(lines := DeleteLines(d.lines, start, count)).Text()
  {
    if start + count < |d.lines| {
      RangeInside(d, start, count);
      DeleteInner(d, start, start + count);
    } else {
      DeleteToEnd(d, start);
      assert DeleteLines(d.lines, start, count) == d.lines[..start];
    }
  }

  lemma RangeInside(d: Document, start: nat, count: nat)
    requires d.Canonical() && start + count < |d.lines|
    ensures LineRange(d, start, count) == Range(Position(start, 0), Position(start + count, 0))
    ensures DeleteLines(d.lines, start, count) == d.lines[..start] + d.lines[start + count..]
  {
    CanonicalSplits(d);
  }

  // ---- Inserting a plan's lines ----

  /** A piece of text to insert at an offset of the text as it is. */
  datatype TextEdit = TextEdit(at: nat, text: string)

  /** How `start` of the controller inserts lines: before a line, or behind the end of a file without a final break. */
  ghost function EditOf(d: Document, ins: Insert<string>): TextEdit
    requires ins.line <= |d.lines|
  {
    var body := Join(ins.lines, EolOf(SplitLines(d.Text()).1));
    var eol := EolOf(SplitLines(d.Text()).1);
    if d.Text() == "" || ins.line < |d.lines| || EndsWithBreak(d.Text())
    then TextEdit(|Flat(d.lines[..ins.line], d.Eol())|, body + eol)
    else TextEdit(|d.Text()|, eol + body)
  }

  ghost function EditsOf(d: Document, inserts: seq<Insert<string>>): seq<TextEdit>
    requires forall k | 0 <= k < |inserts| :: inserts[k].line <= |d.lines|
  {
    if inserts == [] then [] else [EditOf(d, inserts[0])] + EditsOf(d, inserts[1..])
  }

  /** Edits at ascending offsets of one text, made together; from offset `at` on. */
  ghost predicate EditsFit(text: string, edits: seq<TextEdit>, at: nat)
    decreases |edits|
  {
    if edits == [] then at <= |text| else at <= edits[0].at <= |text| && EditsFit(text, edits[1..], edits[0].at)
  }

  ghost function Edited(text: string, edits: seq<TextEdit>, at: nat): string
    requires EditsFit(text, edits, at)
    decreases |edits|
  {
    if edits == [] then text[at..] else text[at..edits[0].at] + edits[0].text + Edited(text, edits[1..], edits[0].at)
  }

  /** An empty file counts as ending with a line break, because lines inserted into it all do. */
  ghost function Ended(d: Document): bool { d.trailing || d.lines == [] }

  /** Where line `at` begins; behind the last line of a file without a final break, the end. */
  ghost function LineStart(d: Document, at: nat): nat
    requires at <= |d.lines|
  {
    if at == |d.lines| && !Ended(d) then |d.Text()| else |Flat(d.lines[..at], d.Eol())|
  }

  /** The text of lines `i` to `j`, with the break the last line of the file may lack. */
  lemma TextFrom(d: Document, i: nat, j: nat)
    requires d.Canonical() && i <= j <= |d.lines|
    ensures LineStart(d, i) <= LineStart(d, j) <= |d.Text()|
    ensures d.Text()[LineStart(d, i)..LineStart(d, j)] + (if i < j == |d.lines| && !Ended(d) then d.Eol() else "")
      == Flat(d.lines[i..j], d.Eol())
  {
    var eol := d.Eol();
    TextIsFlat(d);
    FlatThree(d.lines, i, j, eol);
    if Ended(d) {
      SliceOf(d.Text(), "", Flat(d.lines[..i], eol), Flat(d.lines[i..j], eol), Flat(d.lines[j..], eol));
    } else if j < |d.lines| {
      FlatEndsWithEol(d.lines[j..], eol);
      SliceOf(d.Text(), eol, Flat(d.lines[..i], eol), Flat(d.lines[i..j], eol), Flat(d.lines[j..], eol));
    } else if i < j {
      TextToBareEnd(d, i);
      assert d.lines[i..j] == d.lines[i..];
    } else {
      assert d.lines[i..j] == [];
    }
  }

  lemma SliceOf(text: string, e: string, a: string, b: string, c: string)
    requires text + e == a + b + c && |c| >= |e|
    ensures |a| + |b| <= |text| && text[|a|..|a + b|] + "" == b
  {
    assert text[|a|..|a + b|] == (text + e)[|a|..|a + b|];
  }

  lemma TextToBareEnd(d: Document, i: nat)
    requires d.Canonical() && !Ended(d) && i < |d.lines|
    ensures var o := |Flat(d.lines[..i], d.Eol())|;
      o <= |d.Text()| && d.Text()[o..] + d.Eol() == Flat(d.lines[i..], d.Eol())
  {
    var eol := d.Eol();
    TextIsFlat(d);
    FlatThree(d.lines, i, i, eol);
    assert d.lines[i..i] == [];
    FlatEndsWithEol(d.lines[i..], eol);
    var a, c := Flat(d.lines[..i], eol), Flat(d.lines[i..], eol);
    assert d.Text() + eol == a + c;
    assert (d.Text() + eol)[|a|..] == c;
  }

  /** The final break the laid-in text lacks; after the bare end of a file the next line's break comes first. */
  ghost function Before(d: Document, at: nat): string { if at == |d.lines| && !Ended(d) then d.Eol() else "" }

  ghost function Missing(d: Document): string { if Ended(d) then "" else d.Eol() }

  /** Every insert adds lines. */
  ghost predicate Adds(inserts: seq<Insert<string>>) {
    forall k | 0 <= k < |inserts| :: inserts[k].lines != []
  }

  lemma InsertsInside(d: Document, inserts: seq<Insert<string>>, at: nat)
    requires at <= |d.lines| && InsertsFit(d.lines, inserts, at)
    ensures forall k | 0 <= k < |inserts| :: inserts[k].line <= |d.lines|
    decreases |inserts|
  {
    if inserts != [] {
      InsertsInside(d, inserts[1..], inserts[0].line);
      forall k | 0 <= k < |inserts| ensures inserts[k].line <= |d.lines| {
        if k > 0 { assert inserts[k] == inserts[1..][k - 1]; }
      }
    }
  }

  /** One edit is its lines with their breaks, the break in front when it goes behind a bare end. */
  lemma EditAdds(d: Document, ins: Insert<string>)
    requires d.Canonical() && d.crlf == SplitLines(d.Text()).1 && ins.line <= |d.lines| && ins.lines != []
    ensures EditOf(d, ins).at == LineStart(d, ins.line)
    ensures EditOf(d, ins).text + Before(d, ins.line) == Before(d, ins.line) + Flat(ins.lines, d.Eol())
  {
    CanonicalSplits(d);
    TextIsFlat(d);
    JoinThenBreak(ins.lines, d.Eol());
    if d.lines != [] {
      FlatEndsWithEol(d.lines, d.Eol());
      if d.trailing { assert d.Text() != ""; } else { BareTextIsNotEmpty(d); }
    }
    var body, eol := Join(ins.lines, d.Eol()), d.Eol();
    assert eol + body + eol == eol + (body + eol);
    assert body + eol + "" == "" + (body + eol);
  }

  lemma BareTextIsNotEmpty(d: Document)
    requires d.Canonical() && !d.trailing && d.lines != []
    ensures d.Text() != ""
  {
    JoinEnd(d.lines, d.Eol());
  }

  lemma GlueEdit(m: string, b: string, gap: string, e: string, f: string, rest: string, r: string, g: string)
    requires gap + b == g && e + b == b + f && rest + m == b + r
    ensures gap + e + rest + m == g + f + r
  {
    calc {
      gap + e + rest + m;
      gap + e + (rest + m);
      gap + e + (b + r);
      gap + (e + b) + r;
      gap + (b + f) + r;
      (gap + b) + f + r;
      g + f + r;
    }
  }

  /** The text between two insertion points, up to the breaks at the bare end of the file. */
  lemma GapText(d: Document, at: nat, line: nat)
    requires d.Canonical() && at <= line <= |d.lines|
    ensures LineStart(d, at) <= LineStart(d, line) <= |d.Text()|
    ensures d.Text()[LineStart(d, at)..LineStart(d, line)] + Before(d, line)
      == Before(d, at) + Flat(d.lines[at..line], d.Eol())
  {
    TextFrom(d, at, line);
    var gap := d.Text()[LineStart(d, at)..LineStart(d, line)];
    if at == line {
      assert gap == "" && d.lines[at..line] == [];
      assert "" + Before(d, line) == Before(d, at) + "";
    } else {
      assert Before(d, at) == "";
      assert "" + Flat(d.lines[at..line], d.Eol()) == Flat(d.lines[at..line], d.Eol());
    }
  }

  /** The text behind the last insertion point. */
  lemma LastText(d: Document, at: nat)
    requires d.Canonical() && at <= |d.lines|
    ensures LineStart(d, at) <= |d.Text()|
    ensures d.Text()[LineStart(d, at)..] + Missing(d) == Before(d, at) + Flat(d.lines[at..], d.Eol())
  {
    var n := |d.lines|;
    GapText(d, at, n);
    TextIsFlat(d);
    assert d.lines[at..n] == d.lines[at..] && d.lines[..n] == d.lines;
    assert LineStart(d, n) == |d.Text()|;
  }

  lemma FlatLaid(x: seq<string>, y: seq<string>, z: seq<string>, b: string, eol: string)
    ensures (b + Flat(x, eol)) + Flat(y, eol) + Flat(z, eol) == b + Flat(x + y + z, eol)
  {
    FlatConcat(x + y, z, eol);
    FlatConcat(x, y, eol);
    var fx, fy, fz := Flat(x, eol), Flat(y, eol), Flat(z, eol);
    assert (b + fx) + fy + fz == b + (fx + fy + fz);
  }

  /** The edits made together are the lines laid in, when every piece starts at its line. */
  lemma {:induction false} EditsLayIn(d: Document, inserts: seq<Insert<string>>, at: nat)
    requires d.Canonical() && d.crlf == SplitLines(d.Text()).1 && Adds(inserts)
    requires at <= |d.lines| && InsertsFit(d.lines, inserts, at)
    requires forall k | 0 <= k < |inserts| :: inserts[k].line <= |d.lines|
    ensures EditsFit(d.Text(), EditsOf(d, inserts), LineStart(d, at))
    ensures Edited(d.Text(), EditsOf(d, inserts), LineStart(d, at)) + Missing(d)
      == Before(d, at) + Flat(LaidIn(d.lines, inserts, at), d.Eol())
    decreases |inserts|
  {
    if inserts == [] {
      LastText(d, at);
    } else {
      var ins, rest := inserts[0], inserts[1..];
      assert forall k | 0 <= k < |rest| :: rest[k] == inserts[k + 1];
      EditsLayIn(d, rest, ins.line);
      GapText(d, at, ins.line);
      EditAdds(d, ins);
      assert EditsOf(d, inserts)[1..] == EditsOf(d, rest);
      LayOne(d, ins, rest, at);
    }
  }

  lemma LayOne(d: Document, ins: Insert<string>, rest: seq<Insert<string>>, at: nat)
    requires d.Canonical() && d.crlf == SplitLines(d.Text()).1 && ins.lines != []
    requires at <= ins.line <= |d.lines| && InsertsFit(d.lines, rest, ins.line)
    requires forall k | 0 <= k < |rest| :: rest[k].line <= |d.lines|
    requires EditsFit(d.Text(), EditsOf(d, rest), LineStart(d, ins.line))
    requires Edited(d.Text(), EditsOf(d, rest), LineStart(d, ins.line)) + Missing(d)
      == Before(d, ins.line) + Flat(LaidIn(d.lines, rest, ins.line), d.Eol())
    ensures LineStart(d, at) <= LineStart(d, ins.line)
    ensures d.Text()[LineStart(d, at)..LineStart(d, ins.line)] + EditOf(d, ins).text
        + Edited(d.Text(), EditsOf(d, rest), LineStart(d, ins.line)) + Missing(d)
      == Before(d, at) + Flat(d.lines[at..ins.line] + ins.lines + LaidIn(d.lines, rest, ins.line), d.Eol())
  {
    var eol := d.Eol();
    GapText(d, at, ins.line);
    EditAdds(d, ins);
    var gap := d.Text()[LineStart(d, at)..LineStart(d, ins.line)];
    var laid := LaidIn(d.lines, rest, ins.line);
    GlueEdit(Missing(d), Before(d, ins.line), gap, EditOf(d, ins).text, Flat(ins.lines, eol),
      Edited(d.Text(), EditsOf(d, rest), LineStart(d, ins.line)), Flat(laid, eol), Before(d, at) + Flat(d.lines[at..ins.line], eol));
    FlatLaid(d.lines[at..ins.line], ins.lines, laid, Before(d, at), eol);
  }

  /**
   * Opening a review inserts exactly the plan's lines: for a canonical file and every plan that adds lines
   * inside it, the edited text is the text of the lines laid in, the final line break as it was.
   */
  lemma InsertsLayInLines(d: Document, inserts: seq<Insert<string>>)
    requires d.Canonical() && d.crlf == SplitLines(d.Text()).1 && Adds(inserts) && InsertsFit(d.lines, inserts, 0)
    ensures forall k | 0 <= k < |inserts| :: inserts[k].line <= |d.lines|
    ensures EditsFit(d.Text(), EditsOf(d, inserts), 0)
    ensures Edited(d.Text(), EditsOf(d, inserts), 0) == Document(LaidIn(d.lines, inserts, 0), d.crlf, Ended(d)).Text()
  {
    InsertsInside(d, inserts, 0);
    EditsLayIn(d, inserts, 0);
    assert d.lines[..0] == [];
    StartIsTop(d);
    var laid := Document(LaidIn(d.lines, inserts, 0), d.crlf, Ended(d));
    TextIsFlat(laid);
    var text := Edited(d.Text(), EditsOf(d, inserts), 0);
    if Ended(d) {
      assert text + "" == text && "" + Flat(laid.lines, d.Eol()) == Flat(laid.lines, d.Eol());
    } else {
      LaidKeepsLines(d.lines, inserts, 0);
      assert "" + Flat(laid.lines, d.Eol()) == Flat(laid.lines, d.Eol());
      SameWithBreak(text, laid.Text(), d.Eol());
    }
  }

  lemma StartIsTop(d: Document)
    requires d.Canonical()
    ensures LineStart(d, 0) == 0 && Before(d, 0) == ""
  {
    assert d.lines[..0] == [];
  }

  lemma {:induction false} LaidKeepsLines(lines: seq<string>, inserts: seq<Insert<string>>, at: nat)
    requires at <= |lines| && InsertsFit(lines, inserts, at)
    ensures |LaidIn(lines, inserts, at)| >= |lines| - at
    decreases |inserts|
  {
    if inserts != [] { LaidKeepsLines(lines, inserts[1..], inserts[0].line); }
  }

  /**
   * Where the promise ends: an empty line proposed behind a file without a final line break is inserted as
   * that break, so the decided file already differs from the developer's before anything is accepted.
   */
  lemma EmptyLineBehindBareEnd(d: Document)
    requires d.Canonical() && !Ended(d) && d.crlf == SplitLines(d.Text()).1
    ensures var n := |d.lines|;
      var edits, block := EditsOf(d, [Insert(n, [""])]), Block(n, 0, n, 1);
      && EditsFit(d.Text(), edits, 0)
      && Edited(d.Text(), edits, 0) == d.Text() + d.Eol()
      && DecidedText(d.Text() + d.Eol(), [block]) == d.Text() + d.Eol()
  {
    var n, broken := |d.lines|, d.(trailing := true);
    var inserts := [Insert(n, [""])];
    CanonicalSplits(d);
    BareTextIsNotEmpty(d);
    EditAdds(d, inserts[0]);
    assert inserts[1..] == [];
    assert d.Text()[0..|d.Text()|] == d.Text() && d.Text()[|d.Text()|..] == "";
    assert d.Text() + (d.Eol() + "") + "" == d.Text() + d.Eol();
    assert broken.Text() == d.Text() + d.Eol() by {
      assert Join(d.lines, d.Eol()) + "" == Join(d.lines, d.Eol());
    }
    var blocks := [Block(n, 0, n, 1)];
    DecidedTextIsDecidedLines(broken, blocks);
    assert blocks[1..] == [] && GreenLines([]) == {};
    assert GreenLines(blocks) == Span(n, 1);
    KeptAll(d.lines, GreenLines(blocks), 0);
  }
}
