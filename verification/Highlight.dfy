/**
 * The highlighter of attachment-preview.ts: what it writes is the escaped source, cut into plain text and
 * spans that close before the next opens.
 */
module Highlight {
  import opened Options

  /** Regular expressions as the length of what they match at a place, 0 for no match. */
  datatype Patterns = Patterns(
    identifier: (string, nat) -> nat, number: (string, nat) -> nat,
    tag: (string, nat) -> nat, attribute: (string, nat) -> nat, space: char -> bool)

  ghost predicate Within(p: (string, nat) -> nat) { forall code, i: nat | i <= |code| :: i + p(code, i) <= |code| }

  ghost predicate Sound(p: Patterns) {
    Within(p.identifier) && Within(p.number) && Within(p.tag) && Within(p.attribute)
  }

  datatype Language =
    | Markup
    | Diff
    | Code(keywords: set<string>, lines: seq<string>, blocks: seq<(string, string)>, quotes: seq<string>)
  {
    /** No delimiter is empty, and no comment marker begins with a line break. */
    predicate Valid() {
      Code? ==>
        && (forall l | l in lines :: l != "" && l[0] != '\n')
        && (forall b | b in blocks :: b.0 != "")
        && (forall q | q in quotes :: q != "")
    }
  }

  // ---- Writing ----

  /** A stretch of source and the class of its span; plain text has none. */
  datatype Token = Token(class_: string, text: string)

  datatype Tokens = End | More(first: Token, rest: Tokens)
  {
    /** Every class is a word of small letters. */
    predicate Classed() { More? ==> Lowercase(first.class_) && rest.Classed() }
  }

  function EscapeChar(c: char): string {
    match c
    case '&' => "&amp;"
    case '<' => "&lt;"
    case '>' => "&gt;"
    case '"' => "&quot;"
    case '\'' => "&#39;"
    case _ => [c]
  }

  function Escape(s: string): string {
    if s == "" then "" else EscapeChar(s[0]) + Escape(s[1..])
  }

  const OPEN: string := "<span class=\"hl-"
  const CLOSE: string := "</span>"

  function Span(class_: string, text: string): string { OPEN + class_ + "\">" + Escape(text) + CLOSE }

  function Write(t: Token): string { if t.class_ == "" then Escape(t.text) else Span(t.class_, t.text) }

  function Render(ts: Tokens): string { if ts.End? then "" else Write(ts.first) + Render(ts.rest) }

  function Source(ts: Tokens): string { if ts.End? then "" else ts.first.text + Source(ts.rest) }

  // ---- Reading it back ----

  predicate Letter(c: char) { 'a' <= c <= 'z' }

  function AfterLetters(s: string): (r: string)
    ensures |r| <= |s|
  {
    if s != "" && Letter(s[0]) then AfterLetters(s[1..]) else s
  }

  function Prepend(text: string, rest: Option<string>): Option<string> {
    if rest.Some? then Some(text + rest.value) else None
  }

  /**
   * The text of a page holding only spans of the highlighter's classes, none inside another and all closed;
   * no text for any other page, one with a bare markup character among them.
   */
  function Text(html: string, open: bool): Option<string>
    decreases |html|
  {
    if html == "" then if open then None else Some("")
    else if html[0] == '<' then
      if !open && OPEN <= html then
        var r := AfterLetters(html[|OPEN|..]);
        if "\">" <= r then Text(r[2..], true) else None
      else if open && CLOSE <= html then Text(html[|CLOSE|..], false)
      else None
    else if html[0] == '&' then
      if "&amp;" <= html then Prepend("&", Text(html[5..], open))
      else if "&lt;" <= html then Prepend("<", Text(html[4..], open))
      else if "&gt;" <= html then Prepend(">", Text(html[4..], open))
      else if "&quot;" <= html then Prepend("\"", Text(html[6..], open))
      else if "&#39;" <= html then Prepend("'", Text(html[5..], open))
      else None
    else if html[0] == '>' || html[0] == '"' || html[0] == '\'' then None
    else Prepend([html[0]], Text(html[1..], open))
  }

  predicate Lowercase(class_: string) { forall c | c in class_ :: Letter(c) }

  lemma Regroup(a: string, b: string, c: string)
    ensures a + (b + c) == a + b + c
  {
  }

  lemma TextOfChar(c: char, rest: string, open: bool)
    ensures Text(EscapeChar(c) + rest, open) == Prepend([c], Text(rest, open))
  {
    var e := EscapeChar(c);
    var s := e + rest;
    assert s[|e|..] == rest && e <= s;
    assert forall k | 0 <= k < |e| :: s[k] == e[k];
    if c == '<' { assert s[1] == 'l'; } else if c == '>' { assert s[1] == 'g'; }
    else if c == '"' { assert s[1] == 'q'; } else if c == '\'' { assert s[1] == '#'; }
  }

  lemma {:induction false} TextOfEscaped(t: string, rest: string, open: bool)
    ensures Text(Escape(t) + rest, open) == Prepend(t, Text(rest, open))
  {
    if t == "" {
      assert Escape(t) + rest == rest;
      assert Text(rest, open).Some? ==> "" + Text(rest, open).value == Text(rest, open).value;
    } else {
      Regroup(EscapeChar(t[0]), Escape(t[1..]), rest);
      TextOfChar(t[0], Escape(t[1..]) + rest, open);
      TextOfEscaped(t[1..], rest, open);
      var r := Text(rest, open);
      if r.Some? {
        Regroup([t[0]], t[1..], r.value);
        assert [t[0]] + t[1..] == t;
      }
    }
  }

  lemma {:induction false} LettersSkipped(class_: string, rest: string)
    requires Lowercase(class_) && rest != "" && !Letter(rest[0])
    ensures AfterLetters(class_ + rest) == rest
  {
    if class_ == "" {
      assert class_ + rest == rest;
    } else {
      assert (class_ + rest)[1..] == class_[1..] + rest;
      assert class_[0] in class_ && forall c | c in class_[1..] :: c in class_;
      LettersSkipped(class_[1..], rest);
    }
  }

  lemma TextAfterOpen(class_: string, rest: string)
    requires Lowercase(class_)
    ensures Text(OPEN + (class_ + ("\">" + rest)), false) == Text(rest, true)
  {
    var tail := class_ + ("\">" + rest);
    var s := OPEN + tail;
    assert s[|OPEN|..] == tail && s[0] == '<' && OPEN <= s;
    LettersSkipped(class_, "\">" + rest);
    assert ("\">" + rest)[2..] == rest;
  }

  lemma TextAfterClose(rest: string)
    ensures Text(CLOSE + rest, true) == Text(rest, false)
  {
    var s := CLOSE + rest;
    assert s[|CLOSE|..] == rest && s[0] == '<' && CLOSE <= s;
  }

  lemma TextOfToken(t: Token, rest: string)
    requires Lowercase(t.class_)
    ensures Text(Write(t) + rest, false) == Prepend(t.text, Text(rest, false))
  {
    if t.class_ == "" {
      TextOfEscaped(t.text, rest, false);
    } else {
      var inner := Escape(t.text) + (CLOSE + rest);
      assert Write(t) + rest == OPEN + (t.class_ + ("\">" + inner));
      TextAfterOpen(t.class_, inner);
      TextOfEscaped(t.text, CLOSE + rest, true);
      TextAfterClose(rest);
    }
  }

  /** Whatever tokens are written, reading the page gives back their source. */
  lemma {:induction false} TextOfTokens(ts: Tokens)
    requires ts.Classed()
    ensures Text(Render(ts), false) == Some(Source(ts))
  {
    if ts.More? {
      TextOfTokens(ts.rest);
      TextOfToken(ts.first, Render(ts.rest));
    }
  }

  // ---- Searching ----

  predicate At(code: string, s: string, i: nat) { i + |s| <= |code| && code[i..i + |s|] == s }

  /** indexOf. */
  function IndexOf(code: string, s: string, from: nat): (at: Option<nat>)
    ensures at.Some? ==> from <= at.value && At(code, s, at.value)
    ensures forall k | from <= k < (if at.Some? then at.value else |code|) :: !At(code, s, k) || s == ""
    decreases |code| - from
  {
    if from + |s| > |code| then None
    else if code[from..from + |s|] == s then Some(from)
    else IndexOf(code, s, from + 1)
  }

  /** Just past the first `close` from `from` on, or the end. */
  function Past(code: string, close: string, from: nat): (stop: nat)
    requires from <= |code|
    ensures from <= stop <= |code|
  {
    var end := IndexOf(code, close, from);
    if end.None? then |code| else end.value + |close|
  }

  /** The first line break from `i` on, or the end. */
  function LineEnd(code: string, i: nat): (stop: nat)
    requires i <= |code|
    ensures i <= stop <= |code| && (stop < |code| ==> code[stop] == '\n')
    ensures forall k | i <= k < stop :: code[k] != '\n'
    decreases |code| - i
  {
    if i == |code| || code[i] == '\n' then i else LineEnd(code, i + 1)
  }

  predicate Multiline(q: string) { |q| == 3 || q == "`" }

  /** Where a string literal with quotes `q` ends, read from `i` on. */
  function Ending(code: string, i: nat, q: string): (end: nat)
    requires q != ""
    ensures end <= |code| && (i <= |code| ==> i <= end)
    decreases |code| - i
  {
    if i >= |code| then |code|
    else if code[i] == '\\' then Ending(code, i + 2, q)
    else if At(code, q, i) then i + |q|
    else if !Multiline(q) && code[i] == '\n' then i
    else Ending(code, i + 1, q)
  }

  method StringEnd(code: string, at: nat, q: string) returns (end: nat)
    requires q != "" && At(code, q, at)
    ensures end == Ending(code, at + |q|, q)
  {
    var i := at + |q|;
    while i < |code|
      invariant Ending(code, at + |q|, q) == Ending(code, i, q)
    {
      if code[i] == '\\' {
        i := i + 2;
        continue;
      }
      if At(code, q, i) { return i + |q|; }
      if !Multiline(q) && code[i] == '\n' { return i; }
      i := i + 1;
    }
    return |code|;
  }

  /**
   * A one-line literal holds no line break but one a backslash escapes, and any literal ends at its
   * closing quotes, at the line's end if it may not go on, or at the end of the text.
   */
  lemma {:induction false} LiteralStaysOnLine(code: string, i: nat, q: string)
    requires q != "" && '\n' !in q
    ensures var end := Ending(code, i, q);
      && (!Multiline(q) ==> forall k | i <= k < end && code[k] == '\n' :: k > i && code[k - 1] == '\\')
      && (end == |code| || (end >= i + |q| && At(code, q, end - |q|)) || (!Multiline(q) && code[end] == '\n'))
    decreases |code| - i
  {
    if i < |code| {
      if code[i] == '\\' {
        LiteralStaysOnLine(code, i + 2, q);
      } else if At(code, q, i) {
        assert forall k | i <= k < i + |q| :: code[k] == q[k - i];
      } else if Multiline(q) || code[i] != '\n' {
        LiteralStaysOnLine(code, i + 1, q);
      }
    }
  }

  // ---- Source code ----

  predicate Word(c: char) { 'A' <= c <= 'Z' || 'a' <= c <= 'z' || '0' <= c <= '9' || c == '_' }

  predicate Digit(c: char) { '0' <= c <= '9' }

  /** Where the first kind of block comment, from the k-th on, that opens at `i` stops. */
  function BlockAt(code: string, i: nat, blocks: seq<(string, string)>, k: nat): (stop: Option<nat>)
    requires i <= |code| && k <= |blocks| && forall b | b in blocks :: b.0 != ""
    ensures stop.Some? ==> i < stop.value <= |code|
    decreases |blocks| - k
  {
    if k == |blocks| then None
    else if At(code, blocks[k].0, i) then Some(Past(code, blocks[k].1, i + |blocks[k].0|))
    else BlockAt(code, i, blocks, k + 1)
  }

  function LineCommentAt(code: string, i: nat, markers: seq<string>, k: nat): (stop: Option<nat>)
    requires i <= |code| && k <= |markers| && forall l | l in markers :: l != "" && l[0] != '\n'
    ensures stop.Some? ==> i < stop.value <= |code|
    decreases |markers| - k
  {
    if k == |markers| then None
    else if At(code, markers[k], i) then
      assert markers[k] in markers && markers[k] != "";
      assert code[i] == code[i..i + |markers[k]|][0];
      Some(LineEnd(code, i))
    else LineCommentAt(code, i, markers, k + 1)
  }

  function LiteralAt(code: string, i: nat, quotes: seq<string>, k: nat): (stop: Option<nat>)
    requires i <= |code| && k <= |quotes| && forall q | q in quotes :: q != ""
    ensures stop.Some? ==> i < stop.value <= |code|
    decreases |quotes| - k
  {
    if k == |quotes| then None
    else if At(code, quotes[k], i) then
      assert quotes[k] in quotes;
      Some(Ending(code, i + |quotes[k]|, quotes[k]))
    else LiteralAt(code, i, quotes, k + 1)
  }

  /** What begins at `i`: a block comment, a line comment, or a literal, in that order of precedence. */
  function Marked(code: string, i: nat, lang: Language): (t: Option<(string, nat)>)
    requires i <= |code| && lang.Code? && lang.Valid()
    ensures t.Some? ==> i < t.value.1 <= |code| && t.value.0 in {"c", "s"}
  {
    var block := BlockAt(code, i, lang.blocks, 0);
    var comment := LineCommentAt(code, i, lang.lines, 0);
    var literal := LiteralAt(code, i, lang.quotes, 0);
    if block.Some? then Some(("c", block.value))
    else if comment.Some? then Some(("c", comment.value))
    else if literal.Some? then Some(("s", literal.value))
    else None
  }

  /** The token at `i`. Keywords and numbers count only where no word is under way. */
  function NextToken(code: string, i: nat, lang: Language, p: Patterns): (t: Token)
    requires i < |code| && lang.Code? && lang.Valid() && Sound(p)
    ensures t.text != "" && i + |t.text| <= |code| && t.text == code[i..i + |t.text|] && Lowercase(t.class_)
  {
    var marked := Marked(code, i, lang);
    if marked.Some? then Token(marked.value.0, code[i..marked.value.1])
    else if i > 0 && (Word(code[i - 1]) || code[i - 1] == '$') then Token("", [code[i]])
    else
      var number, word := if Digit(code[i]) then p.number(code, i) else 0, p.identifier(code, i);
      if number > 0 then Token("n", code[i..i + number])
      else if word > 0 then
        var text := code[i..i + word];
        Token(if text in lang.keywords then "k" else "", text)
      else Token("", [code[i]])
  }

  function CodeTokens(code: string, i: nat, lang: Language, p: Patterns): Tokens
    requires lang.Code? && lang.Valid() && Sound(p)
    decreases |code| - i
  {
    if i >= |code| then End
    else
      var t := NextToken(code, i, lang, p);
      More(t, CodeTokens(code, i + |t.text|, lang, p))
  }

  method FindMarked(code: string, i: nat, lang: Language) returns (t: Option<(string, nat)>)
    requires i <= |code| && lang.Code? && lang.Valid()
    ensures t == Marked(code, i, lang)
  {
    for k := 0 to |lang.blocks|
      invariant BlockAt(code, i, lang.blocks, 0) == BlockAt(code, i, lang.blocks, k)
    {
      var (open, close) := lang.blocks[k];
      if At(code, open, i) { return Some(("c", Past(code, close, i + |open|))); }
    }
    for k := 0 to |lang.lines|
      invariant LineCommentAt(code, i, lang.lines, 0) == LineCommentAt(code, i, lang.lines, k)
    {
      if At(code, lang.lines[k], i) { return Some(("c", LineEnd(code, i))); }
    }
    for k := 0 to |lang.quotes|
      invariant LiteralAt(code, i, lang.quotes, 0) == LiteralAt(code, i, lang.quotes, k)
    {
      if At(code, lang.quotes[k], i) {
        assert lang.quotes[k] in lang.quotes;
        var stop := StringEnd(code, i, lang.quotes[k]);
        return Some(("s", stop));
      }
    }
    return None;
  }

  lemma {:induction false} EscapeJoin(a: string, b: string)
    ensures Escape(a + b) == Escape(a) + Escape(b)
  {
    if a == "" {
      assert a + b == b;
    } else {
      assert (a + b)[1..] == a[1..] + b;
      EscapeJoin(a[1..], b);
      Regroup(EscapeChar(a[0]), Escape(a[1..]), Escape(b));
    }
  }

  /** With `plain` gathered and not yet written, `out` is all of the page but the tokens from `i` on. */
  ghost predicate CodeWrote(all: string, out: string, plain: string, code: string, i: nat, lang: Language, p: Patterns)
    requires lang.Code? && lang.Valid() && Sound(p)
  {
    all == out + Escape(plain) + Render(CodeTokens(code, i, lang, p))
  }

  lemma CodeOnward(code: string, i: nat, lang: Language, p: Patterns, class_: string, stop: nat)
    requires i < stop <= |code| && lang.Code? && lang.Valid() && Sound(p)
    requires NextToken(code, i, lang, p) == Token(class_, code[i..stop])
    ensures Render(CodeTokens(code, i, lang, p)) ==
      Write(Token(class_, code[i..stop])) + Render(CodeTokens(code, stop, lang, p))
  {
    OneTokenThenRest(code, i, lang, p, Token(class_, code[i..stop]), stop);
    RenderMore(Token(class_, code[i..stop]), CodeTokens(code, stop, lang, p));
  }

  lemma OneTokenThenRest(code: string, i: nat, lang: Language, p: Patterns, t: Token, stop: nat)
    requires i < |code| && lang.Code? && lang.Valid() && Sound(p)
    requires t == NextToken(code, i, lang, p) && stop == i + |t.text|
    ensures CodeTokens(code, i, lang, p) == More(t, CodeTokens(code, stop, lang, p))
  {
  }

  lemma RenderMore(t: Token, rest: Tokens)
    ensures Render(More(t, rest)) == Write(t) + Render(rest)
  {
  }

  /** Writing a span first writes the plain text gathered before it. */
  lemma CodeSpan(
    all: string, out: string, plain: string, code: string, i: nat, lang: Language, p: Patterns, class_: string, stop: nat)
    requires i < stop <= |code| && lang.Code? && lang.Valid() && Sound(p)
    requires CodeWrote(all, out, plain, code, i, lang, p)
    requires class_ != "" && NextToken(code, i, lang, p) == Token(class_, code[i..stop])
    ensures CodeWrote(all, out + Escape(plain) + Span(class_, code[i..stop]), "", code, stop, lang, p)
  {
    var rest := CodeTokens(code, stop, lang, p);
    CodeOnward(code, i, lang, p, class_, stop);
    Flushed(out, plain, Span(class_, code[i..stop]), Render(rest));
  }

  lemma CodePlain(
    all: string, out: string, plain: string, code: string, i: nat, lang: Language, p: Patterns, stop: nat)
    requires i < stop <= |code| && lang.Code? && lang.Valid() && Sound(p)
    requires CodeWrote(all, out, plain, code, i, lang, p)
    requires NextToken(code, i, lang, p) == Token("", code[i..stop])
    ensures CodeWrote(all, out, plain + code[i..stop], code, stop, lang, p)
  {
    var rest := CodeTokens(code, stop, lang, p);
    CodeOnward(code, i, lang, p, "", stop);
    Gathered(out, plain, code[i..stop], Render(rest));
  }

  /** The scan's choice at `i`: the class of what begins there, and where it stops. */
  method FindToken(code: string, i: nat, lang: Language, p: Patterns) returns (class_: string, stop: nat)
    requires i < |code| && lang.Code? && lang.Valid() && Sound(p)
    ensures i < stop <= |code| && NextToken(code, i, lang, p) == Token(class_, code[i..stop])
  {
    var marked := FindMarked(code, i, lang);
    if marked.Some? { return marked.value.0, marked.value.1; }
    if i == 0 || !(Word(code[i - 1]) || code[i - 1] == '$') {
      var number := if Digit(code[i]) then p.number(code, i) else 0;
      if number > 0 { return "n", i + number; }
      var word := p.identifier(code, i);
      if word > 0 { return if code[i..i + word] in lang.keywords then "k" else "", i + word; }
    }
    assert [code[i]] == code[i..i + 1];
    return "", i + 1;
  }

  /** The scan of source code. Plain text is gathered in `plain` and written when a span follows. */
  method HighlightCode(code: string, lang: Language, p: Patterns) returns (out: string)
    requires lang.Code? && lang.Valid() && Sound(p)
    ensures out == Render(CodeTokens(code, 0, lang, p))
  {
    out := "";
    var plain, i := "", 0;
    ghost var all := Render(CodeTokens(code, 0, lang, p));
    while i < |code|
      invariant i <= |code| && CodeWrote(all, out, plain, code, i, lang, p)
    {
      var class_, stop := FindToken(code, i, lang, p);
      if class_ != "" {
        CodeSpan(all, out, plain, code, i, lang, p, class_, stop);
        out, plain := out + Escape(plain) + Span(class_, code[i..stop]), "";
      } else {
        CodePlain(all, out, plain, code, i, lang, p, stop);
        plain := plain + code[i..stop];
      }
      i := stop;
    }
    out := out + Escape(plain);
    assert out + Render(End) == out;
  }

  lemma Gathered(out: string, plain: string, text: string, rest: string)
    ensures out + Escape(plain) + (Escape(text) + rest) == out + Escape(plain + text) + rest
  {
    EscapeJoin(plain, text);
    Regroup(out, Escape(plain), Escape(text));
    Regroup(out + Escape(plain), Escape(text), rest);
  }

  lemma Flushed(out: string, plain: string, written: string, rest: string)
    ensures out + Escape(plain) + (written + rest) == (out + Escape(plain) + written) + Escape("") + rest
  {
    Regroup(out + Escape(plain), written, rest);
    var all := out + Escape(plain) + written;
    assert all + Escape("") == all;
  }

  lemma Stretches(code: string, i: nat, stop: nat)
    requires i <= stop <= |code|
    ensures code[i..stop] + code[stop..] == code[i..]
  {
  }

  lemma SourceMore(t: Token, rest: Tokens, code: string, i: nat, stop: nat)
    requires i <= stop <= |code| && t.text == code[i..stop] && Source(rest) == code[stop..]
    ensures Source(More(t, rest)) == code[i..]
  {
    Stretches(code, i, stop);
  }

  lemma {:induction false} CodePartition(code: string, i: nat, lang: Language, p: Patterns)
    requires i <= |code| && lang.Code? && lang.Valid() && Sound(p)
    ensures Source(CodeTokens(code, i, lang, p)) == code[i..]
    decreases |code| - i
  {
    if i < |code| {
      var t := NextToken(code, i, lang, p);
      var stop := i + |t.text|;
      CodePartition(code, stop, lang, p);
      SourceMore(t, CodeTokens(code, stop, lang, p), code, i, stop);
    }
  }

  lemma {:induction false} CodeClassed(code: string, i: nat, lang: Language, p: Patterns)
    requires i <= |code| && lang.Code? && lang.Valid() && Sound(p)
    ensures CodeTokens(code, i, lang, p).Classed()
    decreases |code| - i
  {
    if i < |code| { CodeClassed(code, i + |NextToken(code, i, lang, p).text|, lang, p); }
  }

  // ---- Markup ----

  function MarkupToken(code: string, i: nat, inTag: bool, p: Patterns): (t: Token)
    requires i < |code| && Sound(p)
    ensures t.text != "" && i + |t.text| <= |code| && t.text == code[i..i + |t.text|] && Lowercase(t.class_)
  {
    var c := code[i];
    if inTag then
      if c == '>' then Token("t", ">")
      else if c == '"' || c == '\'' then Token("s", code[i..Past(code, [c], i + 1)])
      else
        var n := if p.space(c) || c == '=' || c == '/' then 0 else p.attribute(code, i);
        if n > 0 then Token("a", code[i..i + n]) else Token("", [c])
    else if At(code, "<!--", i) then Token("c", code[i..Past(code, "-->", i + 4)])
    else
      var n := if c == '<' then p.tag(code, i) else 0;
      if n > 0 then Token("t", code[i..i + n]) else Token("", [c])
  }

  /** Inside a tag after its name, until its `>`. */
  predicate TagAfter(t: Token, inTag: bool) {
    if inTag then t != Token("t", ">") else t.class_ == "t"
  }

  function MarkupTokens(code: string, i: nat, inTag: bool, p: Patterns): Tokens
    requires Sound(p)
    decreases |code| - i
  {
    if i >= |code| then End
    else
      var t := MarkupToken(code, i, inTag, p);
      More(t, MarkupTokens(code, i + |t.text|, TagAfter(t, inTag), p))
  }

  ghost predicate MarkupWrote(all: string, out: string, code: string, i: nat, inTag: bool, p: Patterns)
    requires Sound(p)
  {
    all == out + Render(MarkupTokens(code, i, inTag, p))
  }

  lemma MarkupStep(all: string, out: string, code: string, i: nat, inTag: bool, p: Patterns, t: Token)
    requires i < |code| && Sound(p) && MarkupWrote(all, out, code, i, inTag, p) && t == MarkupToken(code, i, inTag, p)
    ensures MarkupWrote(all, out + Write(t), code, i + |t.text|, TagAfter(t, inTag), p)
  {
    var rest := MarkupTokens(code, i + |t.text|, TagAfter(t, inTag), p);
    assert MarkupTokens(code, i, inTag, p) == More(t, rest);
    assert Render(More(t, rest)) == Write(t) + Render(rest);
    Regroup(out, Write(t), Render(rest));
  }

  method HighlightMarkup(code: string, p: Patterns) returns (out: string)
    requires Sound(p)
    ensures out == Render(MarkupTokens(code, 0, false, p))
  {
    out := "";
    var i := 0;
    ghost var all := Render(MarkupTokens(code, 0, false, p));
    while i < |code|
      invariant i <= |code| && MarkupWrote(all, out, code, i, false, p)
    {
      out, i := TextOrTag(code, i, p, out, all);
    }
    MarkupEnd(all, out, code, i, p);
  }

  /** One comment, one character, or one whole tag. */
  method TextOrTag(code: string, from: nat, p: Patterns, before: string, ghost all: string) returns (out: string, i: nat)
    requires from < |code| && Sound(p) && MarkupWrote(all, before, code, from, false, p)
    ensures from < i <= |code| && MarkupWrote(all, out, code, i, false, p)
  {
    var t := FindOutside(code, from, p);
    MarkupStep(all, before, code, from, false, p, t);
    out, i := before + Write(t), from + |t.text|;
    if t.class_ == "t" {
      out, i := InsideTag(code, i, p, out, all);
    }
  }

  lemma MarkupEnd(all: string, out: string, code: string, i: nat, p: Patterns)
    requires i >= |code| && Sound(p) && MarkupWrote(all, out, code, i, false, p)
    ensures all == out
  {
    assert out + Render(End) == out;
  }

  /** A comment, the name of a tag, or one character of text. */
  method FindOutside(code: string, i: nat, p: Patterns) returns (t: Token)
    requires i < |code| && Sound(p)
    ensures t == MarkupToken(code, i, false, p)
  {
    if At(code, "<!--", i) {
      var stop := Past(code, "-->", i + 4);
      return Token("c", code[i..stop]);
    }
    var tag := if code[i] == '<' then p.tag(code, i) else 0;
    if tag == 0 { return Token("", [code[i]]); }
    return Token("t", code[i..i + tag]);
  }

  /** Attribute names and quoted values, up to and with the tag's `>`. */
  method InsideTag(code: string, from: nat, p: Patterns, before: string, ghost all: string) returns (out: string, i: nat)
    requires from <= |code| && Sound(p) && MarkupWrote(all, before, code, from, true, p)
    ensures from <= i <= |code| && MarkupWrote(all, out, code, i, false, p)
  {
    out, i := before, from;
    while i < |code| && code[i] != '>'
      invariant from <= i <= |code| && MarkupWrote(all, out, code, i, true, p)
      decreases |code| - i
    {
      var t := FindInside(code, i, p);
      InsideGoesOn(code, i, p);
      MarkupStep(all, out, code, i, true, p, t);
      out, i := out + Write(t), i + |t.text|;
    }
    if i < |code| {
      TagCloses(all, out, code, i, p);
      out, i := out + Write(Token("t", ">")), i + 1;
    }
  }

  lemma InsideGoesOn(code: string, i: nat, p: Patterns)
    requires i < |code| && code[i] != '>' && Sound(p)
    ensures TagAfter(MarkupToken(code, i, true, p), true)
  {
  }

  lemma TagCloses(all: string, out: string, code: string, i: nat, p: Patterns)
    requires i < |code| && code[i] == '>' && Sound(p) && MarkupWrote(all, out, code, i, true, p)
    ensures MarkupWrote(all, out + Write(Token("t", ">")), code, i + 1, false, p)
  {
    MarkupStep(all, out, code, i, true, p, Token("t", ">"));
  }

  /** A quoted value, an attribute's name, or one character of what is between them. */
  method FindInside(code: string, i: nat, p: Patterns) returns (t: Token)
    requires i < |code| && code[i] != '>' && Sound(p)
    ensures t == MarkupToken(code, i, true, p)
  {
    var c := code[i];
    if c == '"' || c == '\'' {
      var stop := Past(code, [c], i + 1);
      return Token("s", code[i..stop]);
    }
    var n := if p.space(c) || c == '=' || c == '/' then 0 else p.attribute(code, i);
    if n > 0 { return Token("a", code[i..i + n]); }
    return Token("", [c]);
  }

  lemma {:induction false} MarkupPartition(code: string, i: nat, inTag: bool, p: Patterns)
    requires i <= |code| && Sound(p)
    ensures Source(MarkupTokens(code, i, inTag, p)) == code[i..]
    decreases |code| - i
  {
    if i < |code| {
      var t := MarkupToken(code, i, inTag, p);
      var stop := i + |t.text|;
      MarkupPartition(code, stop, TagAfter(t, inTag), p);
      SourceMore(t, MarkupTokens(code, stop, TagAfter(t, inTag), p), code, i, stop);
    }
  }

  lemma {:induction false} MarkupClassed(code: string, i: nat, inTag: bool, p: Patterns)
    requires i <= |code| && Sound(p)
    ensures MarkupTokens(code, i, inTag, p).Classed()
    decreases |code| - i
  {
    if i < |code| {
      var t := MarkupToken(code, i, inTag, p);
      MarkupClassed(code, i + |t.text|, TagAfter(t, inTag), p);
    }
  }

  // ---- Diffs ----

  function LineClass(line: string): string {
    if "+++" <= line || "---" <= line || "@@" <= line then "meta"
    else if "+" <= line then "add"
    else if "-" <= line then "del"
    else ""
  }

  /** A whole line, or the break behind one. */
  function DiffToken(code: string, i: nat): (t: Token)
    requires i < |code|
    ensures t.text != "" && i + |t.text| <= |code| && t.text == code[i..i + |t.text|] && Lowercase(t.class_)
  {
    if code[i] == '\n' then Token("", "\n")
    else
      var line := code[i..LineEnd(code, i)];
      Token(LineClass(line), line)
  }

  /** Line by line; the breaks between lines are plain. */
  function DiffTokens(code: string, i: nat): Tokens
    decreases |code| - i
  {
    if i >= |code| then End
    else
      var t := DiffToken(code, i);
      More(t, DiffTokens(code, i + |t.text|))
  }

  lemma {:induction false} DiffPartition(code: string, i: nat)
    requires i <= |code|
    ensures Source(DiffTokens(code, i)) == code[i..]
    decreases |code| - i
  {
    if i < |code| {
      var t := DiffToken(code, i);
      var stop := i + |t.text|;
      DiffPartition(code, stop);
      SourceMore(t, DiffTokens(code, stop), code, i, stop);
    }
  }

  lemma {:induction false} DiffClassed(code: string, i: nat)
    requires i <= |code|
    ensures DiffTokens(code, i).Classed()
    decreases |code| - i
  {
    if i < |code| { DiffClassed(code, i + |DiffToken(code, i).text|); }
  }

  // ---- Which stretch gets which class, told by the text alone ----

  predicate Opens(code: string, s: string, i: nat)
    requires i <= |code|
  {
    s <= code[i..]
  }

  lemma AtOpens(code: string, s: string, i: nat)
    requires i <= |code|
    ensures At(code, s, i) <==> Opens(code, s, i)
  {
    if i + |s| <= |code| { assert code[i..][..|s|] == code[i..i + |s|]; }
  }

  /** `stop` is just past the first `close` that begins at `from` or later; the end when there is none. */
  ghost predicate FirstEnd(code: string, close: string, from: nat, stop: nat) {
    && from <= stop <= |code|
    && (|| (from + |close| <= stop && Opens(code, close, stop - |close|)
            && forall k | from <= k < stop - |close| :: !Opens(code, close, k))
        || (stop == |code| && forall k | from <= k <= |code| :: !Opens(code, close, k)))
  }

  lemma PastIsFirst(code: string, close: string, from: nat)
    requires from <= |code|
    ensures FirstEnd(code, close, from, Past(code, close, from))
  {
    var end := IndexOf(code, close, from);
    forall k | from <= k <= |code| ensures At(code, close, k) <==> Opens(code, close, k) { AtOpens(code, close, k); }
    if close == "" { EmptyFoundAtOnce(code, from); }
  }

  lemma EmptyFoundAtOnce(code: string, from: nat)
    requires from <= |code|
    ensures IndexOf(code, "", from) == Some(from)
  {
  }

  ghost predicate ToLineEnd(code: string, i: nat, stop: nat) {
    i <= stop <= |code| && '\n' !in code[i..stop] && (stop < |code| ==> code[stop] == '\n')
  }

  /** How many backslashes stand right before `k`, none of them before `start`. */
  function Slashes(code: string, start: nat, k: nat): nat
    requires k <= |code|
  {
    if k > start && code[k - 1] == '\\' then 1 + Slashes(code, start, k - 1) else 0
  }

  /** At `k` a literal that begins at `start` can end: no backslash escapes what is there, and it closes or may not go on. */
  ghost predicate Closes(code: string, start: nat, q: string, k: nat) {
    && start <= k < |code| && code[k] != '\\' && Slashes(code, start, k) % 2 == 0
    && (Opens(code, q, k) || (|q| != 3 && q != "`" && code[k] == '\n'))
  }

  /** A literal ends at the first place where it can, with its quotes when it closes there; else at the end of the text. */
  ghost predicate LiteralEnds(code: string, start: nat, q: string, stop: nat) {
    || (stop == |code| && forall k: nat :: !Closes(code, start, q, k))
    || exists k: nat ::
         && Closes(code, start, q, k) && (forall j: nat | j < k :: !Closes(code, start, q, j))
         && stop == if Opens(code, q, k) then k + |q| else k
  }

  lemma {:induction false} EndingIsFirst(code: string, start: nat, i: nat, q: string)
    requires q != "" && start <= |code| && start <= i
    requires i <= |code| ==> Slashes(code, start, i) % 2 == 0
    requires forall k: nat | k < i :: !Closes(code, start, q, k)
    ensures LiteralEnds(code, start, q, Ending(code, i, q))
    decreases |code| - i
  {
    if i < |code| {
      AtOpens(code, q, i);
      if code[i] == '\\' {
        if i + 2 <= |code| { AfterSlash(code, start, i); }
        assert !Closes(code, start, q, i);
        assert i + 1 < |code| ==> Slashes(code, start, i + 1) == 1 + Slashes(code, start, i);
        assert !Closes(code, start, q, i + 1);
        EndingIsFirst(code, start, i + 2, q);
      } else if At(code, q, i) || (!Multiline(q) && code[i] == '\n') {
        assert Closes(code, start, q, i);
      } else {
        EndingIsFirst(code, start, i + 1, q);
      }
    }
  }

  /** Behind an escaping backslash and what it escapes, nothing is escaped. */
  lemma AfterSlash(code: string, start: nat, i: nat)
    requires start <= i && i + 2 <= |code| && code[i] == '\\' && Slashes(code, start, i) % 2 == 0
    ensures Slashes(code, start, i + 2) % 2 == 0
  {
    assert Slashes(code, start, i + 1) == 1 + Slashes(code, start, i);
  }

  /** The first of some openings, from the k-th on, that stands at `i`. */
  ghost function FirstAt(code: string, i: nat, openings: seq<string>, k: nat): (first: Option<nat>)
    requires i <= |code| && k <= |openings|
    ensures first.Some? ==>
      && k <= first.value < |openings| && Opens(code, openings[first.value], i)
      && forall j | k <= j < first.value :: !Opens(code, openings[j], i)
    ensures first.None? ==> forall j | k <= j < |openings| :: !Opens(code, openings[j], i)
    decreases |openings| - k
  {
    if k == |openings| then None else if Opens(code, openings[k], i) then Some(k) else FirstAt(code, i, openings, k + 1)
  }

  ghost function Openings(blocks: seq<(string, string)>): (openings: seq<string>)
    ensures |openings| == |blocks| && forall k | 0 <= k < |blocks| :: openings[k] == blocks[k].0
  {
    seq(|blocks|, k requires 0 <= k < |blocks| => blocks[k].0)
  }

  /** What the stretch of source code from `i` is, and how far it goes. */
  ghost predicate RightToken(code: string, i: nat, lang: Language, p: Patterns, class_: string, stop: nat)
    requires i < |code| && stop <= |code| && lang.Code?
  {
    var block := FirstAt(code, i, Openings(lang.blocks), 0);
    var quote := FirstAt(code, i, lang.quotes, 0);
    if block.Some? then
      class_ == "c" && FirstEnd(code, lang.blocks[block.value].1, i + |lang.blocks[block.value].0|, stop)
    else if FirstAt(code, i, lang.lines, 0).Some? then class_ == "c" && ToLineEnd(code, i, stop)
    else if quote.Some? then
      class_ == "s" && LiteralEnds(code, i + |lang.quotes[quote.value]|, lang.quotes[quote.value], stop)
    else if i > 0 && (Word(code[i - 1]) || code[i - 1] == '$') then class_ == "" && stop == i + 1
    else if '0' <= code[i] <= '9' && p.number(code, i) > 0 then class_ == "n" && stop == i + p.number(code, i)
    else if p.identifier(code, i) > 0 then
      stop == i + p.identifier(code, i) && class_ == if code[i..stop] in lang.keywords then "k" else ""
    else class_ == "" && stop == i + 1
  }

  lemma {:induction false} BlockIsFirst(code: string, i: nat, blocks: seq<(string, string)>, k: nat)
    requires i <= |code| && k <= |blocks| && forall b | b in blocks :: b.0 != ""
    ensures var stop, first := BlockAt(code, i, blocks, k), FirstAt(code, i, Openings(blocks), k);
      && (stop.None? <==> first.None?)
      && (stop.Some? ==> FirstEnd(code, blocks[first.value].1, i + |blocks[first.value].0|, stop.value))
    decreases |blocks| - k
  {
    if k < |blocks| {
      AtOpens(code, blocks[k].0, i);
      if At(code, blocks[k].0, i) {
        PastIsFirst(code, blocks[k].1, i + |blocks[k].0|);
      } else {
        BlockIsFirst(code, i, blocks, k + 1);
      }
    }
  }

  lemma {:induction false} LineIsFound(code: string, i: nat, markers: seq<string>, k: nat)
    requires i <= |code| && k <= |markers| && forall l | l in markers :: l != "" && l[0] != '\n'
    ensures var stop := LineCommentAt(code, i, markers, k);
      (stop.None? <==> FirstAt(code, i, markers, k).None?) && (stop.Some? ==> ToLineEnd(code, i, stop.value))
    decreases |markers| - k
  {
    if k < |markers| {
      AtOpens(code, markers[k], i);
      if !At(code, markers[k], i) { LineIsFound(code, i, markers, k + 1); }
    }
  }

  lemma {:induction false} LiteralIsFirst(code: string, i: nat, quotes: seq<string>, k: nat)
    requires i <= |code| && k <= |quotes| && forall q | q in quotes :: q != ""
    ensures var stop, first := LiteralAt(code, i, quotes, k), FirstAt(code, i, quotes, k);
      && (stop.None? <==> first.None?)
      && (stop.Some? ==> LiteralEnds(code, i + |quotes[first.value]|, quotes[first.value], stop.value))
    decreases |quotes| - k
  {
    if k < |quotes| {
      AtOpens(code, quotes[k], i);
      if At(code, quotes[k], i) {
        assert quotes[k] in quotes;
        EndingIsFirst(code, i + |quotes[k]|, i + |quotes[k]|, quotes[k]);
      } else {
        LiteralIsFirst(code, i, quotes, k + 1);
      }
    }
  }

  lemma MarkedIsRight(code: string, i: nat, lang: Language, p: Patterns)
    requires i < |code| && lang.Code? && lang.Valid()
    ensures var marked := Marked(code, i, lang);
      && (marked.Some? ==> RightToken(code, i, lang, p, marked.value.0, marked.value.1))
      && (marked.None? ==>
            && FirstAt(code, i, Openings(lang.blocks), 0).None? && FirstAt(code, i, lang.lines, 0).None?
            && FirstAt(code, i, lang.quotes, 0).None?)
  {
    BlockIsFirst(code, i, lang.blocks, 0);
    LineIsFound(code, i, lang.lines, 0);
    LiteralIsFirst(code, i, lang.quotes, 0);
  }

  lemma NextIsRight(code: string, i: nat, lang: Language, p: Patterns)
    requires i < |code| && lang.Code? && lang.Valid() && Sound(p)
    ensures var t := NextToken(code, i, lang, p); RightToken(code, i, lang, p, t.class_, i + |t.text|)
  {
    MarkedIsRight(code, i, lang, p);
    var marked := Marked(code, i, lang);
    if marked.Some? {
      var t := NextToken(code, i, lang, p);
      assert t.class_ == marked.value.0 && i + |t.text| == marked.value.1;
    }
  }

  /** What the stretch of markup from `i` is, inside a tag or not. */
  ghost predicate RightMarkup(code: string, i: nat, inTag: bool, p: Patterns, class_: string, stop: nat)
    requires i < |code|
  {
    var c := code[i];
    if inTag then
      if c == '>' then class_ == "t" && stop == i + 1
      else if c in "\"'" then class_ == "s" && FirstEnd(code, [c], i + 1, stop)
      else if !p.space(c) && c !in "=/" && p.attribute(code, i) > 0 then class_ == "a" && stop == i + p.attribute(code, i)
      else class_ == "" && stop == i + 1
    else if Opens(code, "<!--", i) then class_ == "c" && FirstEnd(code, "-->", i + 4, stop)
    else if c == '<' && p.tag(code, i) > 0 then class_ == "t" && stop == i + p.tag(code, i)
    else class_ == "" && stop == i + 1
  }

  lemma MarkupIsRight(code: string, i: nat, inTag: bool, p: Patterns)
    requires i < |code| && Sound(p)
    ensures var t := MarkupToken(code, i, inTag, p); RightMarkup(code, i, inTag, p, t.class_, i + |t.text|)
  {
    AtOpens(code, "<!--", i);
    if inTag {
      PastIsFirst(code, [code[i]], i + 1);
    } else if At(code, "<!--", i) {
      PastIsFirst(code, "-->", i + 4);
    }
  }

  /** What the stretch of a diff from `i` is: a whole line, or the break behind one. */
  ghost predicate RightLine(code: string, i: nat, class_: string, stop: nat)
    requires i < |code|
  {
    if code[i] == '\n' then class_ == "" && stop == i + 1
    else
      && ToLineEnd(code, i, stop)
      && class_ == if Opens(code, "+++", i) || Opens(code, "---", i) || Opens(code, "@@", i) then "meta"
         else if code[i] == '+' then "add" else if code[i] == '-' then "del" else ""
  }

  lemma LineIsRight(code: string, i: nat)
    requires i < |code|
    ensures var t := DiffToken(code, i); RightLine(code, i, t.class_, i + |t.text|)
  {
    if code[i] != '\n' {
      var stop := LineEnd(code, i);
      PrefixOfLine(code, i, stop, "+++");
      PrefixOfLine(code, i, stop, "---");
      PrefixOfLine(code, i, stop, "@@");
      PrefixOfLine(code, i, stop, "+");
      PrefixOfLine(code, i, stop, "-");
    }
  }

  /** A line begins with what the text does there, when that holds no break. */
  lemma PrefixOfLine(code: string, i: nat, stop: nat, s: string)
    requires i <= stop <= |code| && (stop < |code| ==> code[stop] == '\n') && '\n' !in s
    ensures s <= code[i..stop] <==> Opens(code, s, i)
  {
    if Opens(code, s, i) {
      assert forall k | 0 <= k < |s| :: code[i + k] == s[k];
      assert code[i..stop][..|s|] == code[i..][..|s|];
    }
    if s <= code[i..stop] { assert code[i..stop][..|s|] == code[i..][..|s|]; }
  }

  ghost predicate Stretch(t: Token, code: string, i: nat) {
    t.text != "" && i + |t.text| <= |code| && t.text == code[i..i + |t.text|]
  }

  /** What a stretch from `i` up to `stop`, inside a tag or not, must be to have a class. */
  type Rule = (nat, bool, string, nat) -> bool

  ghost predicate Obeys(t: Token, i: nat, inTag: bool, rule: Rule) { rule(i, inTag, t.class_, i + |t.text|) }

  /** The tokens stand one behind another from `i` to the end, each by the rule where it begins. */
  ghost predicate Tiles(ts: Tokens, code: string, i: nat, inTag: bool, rule: Rule)
    decreases ts
  {
    if ts.End? then i >= |code|
    else
      var stop := i + |ts.first.text|;
      && Stretch(ts.first, code, i) && Obeys(ts.first, i, inTag, rule)
      && Tiles(ts.rest, code, stop, InTagAfter(ts.first, inTag), rule)
  }

  /** A tag's name opens it, and the next `>` that is not inside a quoted value closes it. */
  ghost predicate InTagAfter(t: Token, inTag: bool) {
    if inTag then t.text == "" || t.text[0] != '>' else t.class_ == "t"
  }

  ghost function RuleOf(code: string, lang: Language, p: Patterns): Rule {
    (i: nat, inTag: bool, class_: string, stop: nat) =>
      i < stop <= |code| &&
      match lang
      case Diff => RightLine(code, i, class_, stop)
      case Markup => RightMarkup(code, i, inTag, p, class_, stop)
      case Code(_, _, _, _) => RightToken(code, i, lang, p, class_, stop)
  }

  /** The tokens cut the text into consecutive stretches, each of the class it is to have. */
  ghost predicate Rightly(ts: Tokens, code: string, lang: Language, p: Patterns) {
    Tiles(ts, code, 0, false, RuleOf(code, lang, p))
  }

  lemma TilesMore(t: Token, rest: Tokens, code: string, i: nat, inTag: bool, rule: Rule)
    requires Stretch(t, code, i) && Obeys(t, i, inTag, rule)
    requires Tiles(rest, code, i + |t.text|, InTagAfter(t, inTag), rule)
    ensures Tiles(More(t, rest), code, i, inTag, rule)
  {
  }

  lemma {:induction false} CodeTiles(code: string, i: nat, inTag: bool, lang: Language, p: Patterns, rule: Rule)
    requires lang.Code? && lang.Valid() && Sound(p)
    requires forall k: nat, in_ | k < |code| :: Obeys(NextToken(code, k, lang, p), k, in_, rule)
    ensures Tiles(CodeTokens(code, i, lang, p), code, i, inTag, rule)
    decreases |code| - i
  {
    if i < |code| {
      var t := NextToken(code, i, lang, p);
      CodeTiles(code, i + |t.text|, InTagAfter(t, inTag), lang, p, rule);
    }
  }

  lemma TagAfterMeans(code: string, i: nat, inTag: bool, p: Patterns)
    requires i < |code| && Sound(p)
    ensures var t := MarkupToken(code, i, inTag, p); TagAfter(t, inTag) == InTagAfter(t, inTag)
  {
  }

  lemma {:induction false} MarkupTiles(code: string, i: nat, inTag: bool, p: Patterns, rule: Rule)
    requires Sound(p)
    requires forall k: nat, in_ | k < |code| :: Obeys(MarkupToken(code, k, in_, p), k, in_, rule)
    ensures Tiles(MarkupTokens(code, i, inTag, p), code, i, inTag, rule)
    decreases |code| - i
  {
    if i < |code| {
      var t := MarkupToken(code, i, inTag, p);
      TagAfterMeans(code, i, inTag, p);
      MarkupTiles(code, i + |t.text|, TagAfter(t, inTag), p, rule);
    }
  }

  lemma DiffTilesMore(code: string, i: nat, inTag: bool, rule: Rule, t: Token, stop: nat)
    requires i < |code| && t == DiffToken(code, i) && stop == i + |t.text| && Obeys(t, i, inTag, rule)
    requires Tiles(DiffTokens(code, stop), code, stop, InTagAfter(t, inTag), rule)
    ensures Tiles(DiffTokens(code, i), code, i, inTag, rule)
  {
    TilesMore(t, DiffTokens(code, stop), code, i, inTag, rule);
  }

  lemma {:induction false} DiffTiles(code: string, i: nat, inTag: bool, rule: Rule)
    requires forall k: nat, in_ | k < |code| :: Obeys(DiffToken(code, k), k, in_, rule)
    ensures Tiles(DiffTokens(code, i), code, i, inTag, rule)
    decreases |code| - i
  {
    if i < |code| {
      var t := DiffToken(code, i);
      DiffTiles(code, i + |t.text|, InTagAfter(t, inTag), rule);
      DiffTilesMore(code, i, inTag, rule, t, i + |t.text|);
    }
  }

  /** Every language colours its text rightly. */
  lemma TokensAreRight(code: string, lang: Language, p: Patterns)
    requires lang.Valid() && Sound(p)
    ensures Rightly(AllTokens(code, lang, p), code, lang, p)
  {
    var rule := RuleOf(code, lang, p);
    match lang
    case Diff =>
      forall k: nat, in_ | k < |code| ensures Obeys(DiffToken(code, k), k, in_, rule) {
        LineIsRight(code, k);
      }
      DiffTiles(code, 0, false, rule);
    case Markup =>
      forall k: nat, in_ | k < |code|
        ensures Obeys(MarkupToken(code, k, in_, p), k, in_, rule)
      {
        MarkupIsRight(code, k, in_, p);
      }
      MarkupTiles(code, 0, false, p, rule);
    case Code(_, _, _, _) =>
      forall k: nat, in_ | k < |code|
        ensures Obeys(NextToken(code, k, lang, p), k, in_, rule)
      {
        NextIsRight(code, k, lang, p);
      }
      CodeTiles(code, 0, false, lang, p, rule);
  }

  // ---- Every language ----

  ghost function AllTokens(code: string, lang: Language, p: Patterns): Tokens
    requires lang.Valid() && Sound(p)
  {
    match lang
    case Diff => DiffTokens(code, 0)
    case Markup => MarkupTokens(code, 0, false, p)
    case Code(_, _, _, _) => CodeTokens(code, 0, lang, p)
  }

  /** Highlighting a text and reading the page gives back the text. */
  method Highlight(code: string, lang: Language, p: Patterns) returns (html: string)
    requires lang.Valid() && Sound(p)
    ensures exists ts :: html == Render(ts) && Rightly(ts, code, lang, p)
    ensures Text(html, false) == Some(code)
  {
    if lang.Diff? {
      html := Render(DiffTokens(code, 0));
    } else if lang.Markup? {
      html := HighlightMarkup(code, p);
    } else {
      html := HighlightCode(code, lang, p);
    }
    TokensPartition(code, lang, p);
    TokensAreRight(code, lang, p);
    TextOfTokens(AllTokens(code, lang, p));
  }

  /** The tokens cut the text into consecutive stretches. */
  lemma TokensPartition(code: string, lang: Language, p: Patterns)
    requires lang.Valid() && Sound(p)
    ensures Source(AllTokens(code, lang, p)) == code
    ensures AllTokens(code, lang, p).Classed()
  {
    assert code[0..] == code;
    match lang
    case Diff => DiffPartition(code, 0); DiffClassed(code, 0);
    case Markup => MarkupPartition(code, 0, false, p); MarkupClassed(code, 0, false, p);
    case Code(_, _, _, _) => CodePartition(code, 0, lang, p); CodeClassed(code, 0, lang, p);
  }
}
