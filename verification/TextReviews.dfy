/**
 * A review as the editor's text: whether the text, after the inserts that open a review and after any run of
 * decisions, is the text of the lines the review is about. It is, but where an empty line at the bare end of a
 * file is taken for a line break.
 */
module TextReviews {
  import opened Options
  import opened LineDiff
  import opened HunkPlacing
  import opened ReviewPlans
  import opened ReviewDecisions
  import opened ReviewSessions
  import opened DocumentText

  // ---- Reading a text back ----

  /** The document an editor with this line ending reads a text as. */
  ghost function DocOf(text: string, crlf: bool): Document { Document(SplitLines(text).0, crlf, EndsWithBreak(text)) }

  /** An empty last line without a break behind it, which a text cannot show. */
  ghost predicate HidesLast(d: Document) { d.lines != [] && d.lines[|d.lines| - 1] == "" && !d.trailing }

  ghost function Init<T>(xs: seq<T>): seq<T>
    requires xs != []
  {
    xs[..|xs| - 1]
  }

  ghost predicate AllPlain(lines: seq<string>) {
    forall k | 0 <= k < |lines| :: Plain(lines[k])
  }

  /** What a document's text shows: an empty last line without a break behind it reads as a break. */
  ghost function Shown(d: Document): Document {
    if d.lines == [] then Document([], d.crlf, false)
    else if HidesLast(d) then Document(Init(d.lines), d.crlf, |d.lines| > 1)
    else d
  }

  lemma ShownText(d: Document)
    requires d.Uniform()
    ensures Shown(d).Canonical() && Shown(d).Text() == d.Text() && DocOf(d.Text(), d.crlf) == Shown(d)
  {
    if HidesLast(d) {
      JoinEnd(d.lines, d.Eol());
      assert Join(d.lines, d.Eol()) + "" == Join(d.lines, d.Eol());
    }
    CanonicalSplits(Shown(d));
  }

  /** Lines and then an empty one read as lines that all end in a break. */
  lemma HiddenIsBreak(x: seq<string>, crlf: bool)
    requires forall k | 0 <= k < |x| :: Plain(x[k])
    ensures Document(x + [""], crlf, false).Text() == Document(x, crlf, true).Text()
    ensures x != [] ==> Document(x, crlf, true).Text() == Document(x, crlf, false).Text() + Document(x, crlf, false).Eol()
    ensures x != [] ==> Document(x, crlf, true).Text() != Document(x, crlf, false).Text()
  {
    var d := Document(x + [""], crlf, false);
    assert Init(d.lines) == x;
    ShownText(d);
    if x != [] { assert Join(x, d.Eol()) + "" == Join(x, d.Eol()); }
  }

  // ---- Deleting lines ----

  /** Where deleting lines goes wrong: they are the end of the file, and the last of them cannot be seen. */
  ghost predicate Overreaches(d: Document, start: int, count: int) {
    HidesLast(d) && start + count == |d.lines| && start > 0
  }

  /**
   * Deleting the range computed for some lines of a text, whether or not the text shows them all, leaves the text
   * of the lines left, exactly when it does not overreach; when it does, one line break too many stays.
   */
  lemma DeletionFollows(d: Document, start: nat, count: nat)
    requires d.Uniform() && count > 0 && start + count <= |d.lines|
    ensures var shown := Shown(d);
      var after := d.(lines := DeleteLines(d.lines, start, count));
      && start < |EditorLines(shown)| && InText(shown, LineRange(shown, start, count))
      && (DeleteRange(shown, LineRange(shown, start, count)) == after.Text() <==> !Overreaches(d, start, count))
      && (Overreaches(d, start, count) ==>
            DeleteRange(shown, LineRange(shown, start, count)) == after.Text() + d.Eol())
  {
    ShownText(d);
    if !HidesLast(d) {
      LineRangeDeletesLines(d, start, count);
    } else if |d.lines| == 1 {
      assert Init(d.lines) == [];
      assert DeleteLines(d.lines, start, count) == [];
    } else {
      HiddenDeletion(d, Init(d.lines), start, count);
    }
  }

  /** Deleting lines of `d` in the text that shows it. */
  ghost predicate DeletesIn(shown: Document, d: Document, start: nat, count: nat)
    requires start + count <= |d.lines|
  {
    var after := d.(lines := DeleteLines(d.lines, start, count));
    && shown.Canonical() && start < |EditorLines(shown)| && InText(shown, LineRange(shown, start, count))
    && (var text := DeleteRange(shown, LineRange(shown, start, count));
        if Overreaches(d, start, count) then text == after.Text() + d.Eol() else text == after.Text())
  }

  lemma HiddenDeletion(d: Document, x: seq<string>, start: nat, count: nat)
    requires d.Uniform() && HidesLast(d) && x == Init(d.lines) && x != [] && count > 0 && start + count <= |d.lines|
    ensures DeletesIn(Document(x, d.crlf, true), d, start, count)
  {
    assert d == Document(x + [""], d.crlf, false);
    if start + count <= |x| {
      DeletesInside(x, d.crlf, start, count);
    } else {
      HiddenToEnd(d, x, start, count);
    }
  }

  lemma HiddenToEnd(d: Document, x: seq<string>, start: nat, count: nat)
    requires d.lines == x + [""] && !d.trailing && AllPlain(x) && x != [] && count > 0 && start + count == |x| + 1
    ensures DeletesIn(Document(x, d.crlf, true), d, start, count)
  {
    DeletesToEnd(Document(x, d.crlf, true), start, count);
    LeavesBreak(d, x, start, count);
  }

  /** Lines above the one the text cannot show are deleted as they should be. */
  lemma DeletesInside(x: seq<string>, crlf: bool, start: nat, count: nat)
    requires AllPlain(x) && count > 0 && start + count <= |x|
    ensures var shown, was := Document(x, crlf, true), Document(x + [""], crlf, false);
      && shown.Canonical() && InText(shown, LineRange(shown, start, count))
      && DeleteRange(shown, LineRange(shown, start, count)) == was.(lines := DeleteLines(was.lines, start, count)).Text()
  {
    var left := DeleteLines(x, start, count);
    LineRangeDeletesLines(Document(x, crlf, true), start, count);
    DeleteAbove(x, start, count);
    HiddenIsBreak(left, crlf);
  }

  lemma DeleteAbove(x: seq<string>, start: nat, count: nat)
    requires start + count <= |x|
    ensures DeleteLines(x + [""], start, count) == DeleteLines(x, start, count) + [""]
  {
  }

  /** Lines deleted up to the end, with the one the text cannot show, leave the break before them. */
  lemma LeavesBreak(d: Document, x: seq<string>, start: nat, count: nat)
    requires d.lines == x + [""] && !d.trailing && AllPlain(x) && count > 0 && start + count == |x| + 1
    ensures var text, after := Document(x[..start], d.crlf, true).Text(), d.(lines := DeleteLines(d.lines, start, count));
      && (text == after.Text() <==> start == 0) && (start > 0 ==> text == after.Text() + d.Eol())
  {
    assert DeleteLines(d.lines, start, count) == x[..start];
    HiddenIsBreak(x[..start], d.crlf);
  }

  /** Behind a final break there is nothing to delete; up to it, the lines go and the break before them stays. */
  lemma DeletesToEnd(d: Document, start: nat, count: nat)
    requires d.Canonical() && d.trailing && start <= |d.lines| && start + count > |d.lines|
    ensures var r := LineRange(d, start, count);
      InText(d, r) && DeleteRange(d, r) == d.(lines := d.lines[..start]).Text()
  {
    CanonicalSplits(d);
    if start < |d.lines| {
      DeleteToFinalBreak(d, start);
    } else {
      TextIsFlat(d);
      OffsetOfLine(d, start, 0);
      assert d.lines[..start] == d.lines;
      assert d.Text()[|d.Text()|..] == "" && d.Text()[..|d.Text()|] + "" == d.Text();
    }
  }

  // ---- Deciding on a text ----

  lemma KeptLast<T>(xs: seq<T>, x: T, drop: set<int>, at: nat)
    ensures Kept(xs + [x], drop, at) == Kept(xs, drop, at) + if at + |xs| in drop then [] else [x]
  {
    KeptConcat(xs, [x], drop, at);
    assert [x][1..] == [];
  }

  lemma {:induction false} KeptPlain(lines: seq<string>, drop: set<int>, at: int)
    requires forall k | 0 <= k < |lines| :: Plain(lines[k])
    ensures forall k | 0 <= k < |Kept(lines, drop, at)| :: Plain(Kept(lines, drop, at)[k])
  {
    if lines != [] { KeptPlain(lines[1..], drop, at + 1); }
  }

  /** Where deciding goes wrong: the line the text cannot show is an open change's, and other lines are kept. */
  ghost predicate Misreads(d: Document, blocks: seq<Block>) {
    HidesLast(d) && |d.lines| - 1 in GreenLines(blocks) && DecidedLines(d.lines, blocks) != []
  }

  /** Deciding on the text is deciding on the lines exactly when the text does not misread them. */
  lemma DecidedFollows(d: Document, blocks: seq<Block>)
    requires d.Uniform()
    ensures var decided := d.(lines := DecidedLines(d.lines, blocks));
      && (DecidedText(d.Text(), blocks) == decided.Text() <==> !Misreads(d, blocks))
      && (Misreads(d, blocks) ==> DecidedText(d.Text(), blocks) == decided.Text() + d.Eol())
  {
    ShownText(d);
    if HidesLast(d) {
      HiddenDecided(d, Init(d.lines), blocks);
    } else if d.lines != [] {
      DecidedTextIsDecidedLines(d, blocks);
    }
  }

  lemma HiddenDecided(d: Document, x: seq<string>, blocks: seq<Block>)
    requires d.Uniform() && HidesLast(d) && x == Init(d.lines)
    ensures var decided := d.(lines := DecidedLines(d.lines, blocks));
      && (DecidedText(d.Text(), blocks) == decided.Text() <==> !Misreads(d, blocks))
      && (Misreads(d, blocks) ==> DecidedText(d.Text(), blocks) == decided.Text() + d.Eol())
  {
    var drop := GreenLines(blocks);
    HiddenDecidedText(d, x, blocks);
    KeptPlain(x, drop, 0);
    if x == [] {
      BareEmptyText(d.crlf);
    } else {
      KeptHidden(Kept(x, drop, 0), d.crlf, |x| in drop);
    }
  }

  lemma HiddenDecidedText(d: Document, x: seq<string>, blocks: seq<Block>)
    requires d.Uniform() && HidesLast(d) && x == Init(d.lines)
    ensures var kept := Kept(x, GreenLines(blocks), 0);
      && DecidedText(d.Text(), blocks) == Document(kept, d.crlf, x != [] && kept != []).Text()
      && DecidedLines(d.lines, blocks) == kept + if |x| in GreenLines(blocks) then [] else [""]
  {
    ShownText(d);
    DecidedTextIsDecidedLines(Shown(d), blocks);
    LastKept(d.lines, x, blocks);
  }

  lemma LastKept(lines: seq<string>, x: seq<string>, blocks: seq<Block>)
    requires lines != [] && x == Init(lines) && lines[|lines| - 1] == ""
    ensures DecidedLines(lines, blocks)
      == Kept(x, GreenLines(blocks), 0) + if |x| in GreenLines(blocks) then [] else [""]
  {
    assert lines == x + [""];
    KeptLast(x, "", GreenLines(blocks), 0);
  }

  lemma KeptHidden(kept: seq<string>, crlf: bool, green: bool)
    requires forall k | 0 <= k < |kept| :: Plain(kept[k])
    ensures var text, decided := Document(kept, crlf, kept != []).Text(), kept + if green then [] else [""];
      && (text == Document(decided, crlf, false).Text() <==> !(green && decided != []))
      && (green && decided != [] ==> text == Document(decided, crlf, false).Text() + EolOf(crlf))
  {
    HiddenIsBreak(kept, crlf);
    assert kept + [] == kept;
    if kept == [] { BareEmptyText(crlf); }
  }

  lemma BareEmptyText(crlf: bool)
    ensures Document([""], crlf, false).Text() == "" == Document([], crlf, false).Text()
  {
    assert Join([""], EolOf(crlf)) == "";
  }

  // ---- A review as the editor's text ----

  /** A file as the editor reads it, and hunks to show in it that bring no line breaks of their own. */
  ghost predicate Reviewable(d: Document, placed: seq<Hunk<string>>) {
    && d.Canonical() && d.crlf == SplitLines(d.Text()).1
    && Placeable(d.lines, placed) && NewPlain(placed)
  }

  ghost predicate NewPlain(placed: seq<Hunk<string>>) {
    placed == [] || (AllPlain(placed[0].newLines) && NewPlain(placed[1..]))
  }

  /** Some lines in place of the file's, its final line break as it was; an empty file gets one. */
  ghost function Holding(d: Document, lines: seq<string>): Document { Document(lines, d.crlf, Ended(d)) }

  /** The text and the blocks of a review. */
  datatype Screen = Screen(text: string, blocks: seq<Block>)

  /** start of the controller: a plan's inserts made together in the text of the file. */
  ghost function Opened(d: Document, placed: seq<Hunk<string>>): Screen
    requires Reviewable(d, placed)
  {
    OpenedText(d, placed);
    Screen(Edited(d.Text(), EditsOf(d, InsertsOf(placed)), 0), BlocksOf(placed, 0))
  }

  lemma {:induction false} InsertsAdd(placed: seq<Hunk<string>>)
    ensures Adds(InsertsOf(placed))
  {
    if placed != [] { InsertsAdd(placed[1..]); }
  }

  /** The text a review opens with is the text of both versions of every change. */
  lemma OpenedText(d: Document, placed: seq<Hunk<string>>)
    requires Reviewable(d, placed)
    ensures forall k | 0 <= k < |InsertsOf(placed)| :: InsertsOf(placed)[k].line <= |d.lines|
    ensures EditsFit(d.Text(), EditsOf(d, InsertsOf(placed)), 0)
    ensures var review := ReviewAt(d.lines, placed, AllOpen(|placed|));
      && Edited(d.Text(), EditsOf(d, InsertsOf(placed)), 0) == Holding(d, review.buffer).Text()
      && BlocksOf(placed, 0) == review.blocks
  {
    LaidInOpens(d.lines, placed);
    InsertsAdd(placed);
    InsertsLayInLines(d, InsertsOf(placed));
  }

  /** Deleting lines in the editor, where their range is one of the text. */
  ghost function EditorDelete(text: string, crlf: bool, start: int, count: int): string {
    var d := DocOf(text, crlf);
    if 0 <= start < |EditorLines(d)| && count > 0 && d.Canonical() && InText(d, LineRange(d, start, count))
    then DeleteRange(d, LineRange(d, start, count)) else text
  }

  /** decide of the controller: resolve the block, delete its lines from the text. */
  ghost function Carried(s: Screen, crlf: bool, i: nat, choice: Choice): Screen
    requires i < |s.blocks|
  {
    var res := ResolveBlock(s.blocks, i, choice);
    Screen(EditorDelete(s.text, crlf, res.deleteStart, res.deleteCount), res.blocks)
  }

  /** A run of decisions; one for a block that is not there ends it. */
  ghost function CarriedOut(s: Screen, crlf: bool, steps: seq<(nat, Choice)>): Screen
    decreases |steps|
  {
    if steps == [] || steps[0].0 >= |s.blocks| then s
    else CarriedOut(Carried(s, crlf, steps[0].0, steps[0].1), crlf, steps[1..])
  }

  /** The text is the text of the review's lines, and the blocks are the review's. */
  ghost predicate Shows(d: Document, s: Screen, review: Review<string>) {
    s.text == Holding(d, review.buffer).Text() && s.blocks == review.blocks
  }

  // ---- The lines of a review are lines ----

  lemma PlainConcat(x: seq<string>, y: seq<string>)
    requires AllPlain(x) && AllPlain(y)
    ensures AllPlain(x + y)
  {
  }

  lemma {:induction false} BufferPlain(current: seq<string>, placed: seq<Hunk<string>>, ds: seq<Decision>, at: nat)
    requires Ordered(current, placed, at) && Stand(current, placed) && |ds| == |placed|
    requires AllPlain(current) && NewPlain(placed)
    ensures AllPlain(Buffer(current, placed, ds, at))
    decreases |placed|
  {
    if placed != [] {
      var h := placed[0];
      StandRest(current, placed);
      BufferPlain(current, placed[1..], ds[1..], h.OldEnd());
      assert AllPlain(h.oldLines) by { assert h.oldLines == current[h.oldStart..h.OldEnd()]; }
      PlainConcat(h.oldLines, h.newLines);
      PlainConcat(current[at..h.oldStart], Segment(h, ds[0]));
      PlainConcat(current[at..h.oldStart] + Segment(h, ds[0]), Buffer(current, placed[1..], ds[1..], h.OldEnd()));
    }
  }

  lemma StandRest<T>(current: seq<T>, placed: seq<Hunk<T>>)
    requires Stand(current, placed) && placed != []
    ensures Stand(current, placed[1..])
    ensures placed[0].OldEnd() <= |current| && current[placed[0].oldStart..placed[0].OldEnd()] == placed[0].oldLines
  {
    assert forall k | 0 <= k < |placed[1..]| :: placed[1..][k] == placed[k + 1];
  }

  // ---- One decision on the text ----

  /** Deciding `choice` for block `i` deletes lines at the end of a text that cannot show the last of them. */
  ghost predicate StepOverreaches(d: Document, review: Review<string>, i: nat, choice: Choice)
    requires i < |review.blocks|
  {
    var res := ResolveBlock(review.blocks, i, choice);
    res.deleteCount > 0 && Overreaches(Holding(d, review.buffer), res.deleteStart, res.deleteCount)
  }

  lemma EditorDeletes(d: Document, lines: seq<string>, start: nat, count: nat)
    requires Holding(d, lines).Uniform() && start + count <= |lines|
    ensures var was, after := Holding(d, lines), Holding(d, DeleteLines(lines, start, count));
      && (count > 0 && Overreaches(was, start, count) ==>
            EditorDelete(was.Text(), d.crlf, start, count) == after.Text() + d.Eol())
      && (!(count > 0 && Overreaches(was, start, count)) ==>
            EditorDelete(was.Text(), d.crlf, start, count) == after.Text())
  {
    var was := Holding(d, lines);
    ShownText(was);
    if count > 0 {
      DeletionFollows(was, start, count);
    } else {
      assert DeleteLines(lines, start, count) == lines;
    }
  }

  /** A decision carried out on the text is the decision on the lines, unless it overreaches. */
  lemma StepFollows(d: Document, placed: seq<Hunk<string>>, ds: seq<Decision>, s: Screen, i: nat, choice: Choice)
    requires Reviewable(d, placed) && |ds| == |placed|
    requires Shows(d, s, ReviewAt(d.lines, placed, ds)) && i < |s.blocks|
    ensures i < OpenCount(ds)
    ensures var review := ReviewAt(d.lines, placed, Decide(ds, i, choice));
      && Carried(s, d.crlf, i, choice).blocks == review.blocks
      && (!StepOverreaches(d, ReviewAt(d.lines, placed, ds), i, choice) ==> Shows(d, Carried(s, d.crlf, i, choice), review))
      && (StepOverreaches(d, ReviewAt(d.lines, placed, ds), i, choice) ==>
            Carried(s, d.crlf, i, choice).text == Holding(d, review.buffer).Text() + d.Eol())
  {
    DecisionStep(d.lines, placed, ds, i, choice);
    BufferPlain(d.lines, placed, ds, 0);
    var review, res := ReviewAt(d.lines, placed, ds), ResolveBlock(s.blocks, i, choice);
    EditorDeletes(d, review.buffer, res.deleteStart, res.deleteCount);
  }

  // ---- Opening a review ----

  /** The last of some lines is empty. */
  ghost predicate EmptyLast(lines: seq<string>) { lines != [] && lines[|lines| - 1] == "" }

  lemma LastOf(x: seq<string>, y: seq<string>, z: seq<string>)
    ensures z != [] ==> EmptyLast(x + y + z) == EmptyLast(z)
    ensures z == [] && y != [] ==> EmptyLast(x + y + z) == EmptyLast(y)
  {
  }

  /**
   * Whether the last of the hunks puts an empty line at the end of the file: no line follows it, and the last
   * line it brings is empty.
   */
  ghost predicate EndsEmpty(current: seq<string>, placed: seq<Hunk<string>>) {
    && placed != []
    && var h := placed[|placed| - 1];
      h.OldEnd() == |current| && h.newLines != [] && h.newLines[|h.newLines| - 1] == ""
  }

  /** The last of some lines, counted from `pos`, is empty and green. */
  ghost predicate LastGreen(lines: seq<string>, pos: nat, drop: set<int>) {
    EmptyLast(lines) && pos + |lines| - 1 in drop
  }

  lemma LastGreenBelow(x: seq<string>, y: seq<string>, z: seq<string>, pos: nat, drop: set<int>)
    requires z != []
    ensures LastGreen(x + y + z, pos, drop) == LastGreen(z, pos + |x| + |y|, drop)
  {
    LastOf(x, y, z);
  }

  /** Where an open change is the end of the buffer, its last line is green when it has new lines. */
  lemma LastGreenHere(gap: seq<string>, h: Hunk<string>, pos: nat, drop: set<int>)
    requires h.oldLines != [] || h.newLines != []
    requires var start := pos + |gap|;
      forall n | start <= n < start + |Segment(h, Open)| :: n in drop <==> n >= start + |h.oldLines|
    ensures LastGreen(gap + Segment(h, Open) + [], pos, drop) == EmptyLast(h.newLines)
  {
    EndsBlank(gap, h);
  }

  /** With nothing decided, the buffer's last line is an open change's exactly when the last hunk brings it. */
  lemma {:induction false} LastIsGreen(current: seq<string>, placed: seq<Hunk<string>>, at: nat, pos: nat, drop: set<int>)
    requires Ordered(current, placed, at) && Changes(placed)
    requires forall n | n >= pos :: n in drop <==> n in GreenLines(OpenBlocks(current, placed, AllOpen(|placed|), at, pos))
    ensures LastGreen(Buffer(current, placed, AllOpen(|placed|), at), pos, drop) == EndsEmpty(current, placed)
    decreases |placed|
  {
    if placed != [] {
      var h, rest := placed[0], placed[1..];
      var start := pos + h.oldStart - at;
      var next := start + |Segment(h, Open)|;
      assert AllOpen(|placed|)[1..] == AllOpen(|rest|);
      var gap, tail := current[at..h.oldStart], Buffer(current, rest, AllOpen(|rest|), h.OldEnd());
      GreenOfFirst(current, placed, AllOpen(|placed|), at, pos, start, next, drop);
      LastIsGreen(current, rest, h.OldEnd(), next, drop);
      OpenKeeps(current, rest, h.OldEnd());
      if tail == [] {
        LastGreenHere(gap, h, pos, drop);
      } else {
        LastGreenBelow(gap, Segment(h, Open), tail, pos, drop);
        EndsEmptyRest(current, placed);
      }
    }
  }

  lemma EndsEmptyRest(current: seq<string>, placed: seq<Hunk<string>>)
    requires placed != [] && (placed[1..] == [] ==> placed[0].OldEnd() != |current|)
    ensures EndsEmpty(current, placed) <==> EndsEmpty(current, placed[1..])
  {
    if placed[1..] != [] { assert placed[|placed| - 1] == placed[1..][|placed[1..]| - 1]; }
  }

  /** An open review keeps every line of the file. */
  lemma {:induction false} OpenKeeps<T>(current: seq<T>, placed: seq<Hunk<T>>, at: nat)
    requires Ordered(current, placed, at) && Changes(placed)
    ensures at <= |current| && |Buffer(current, placed, AllOpen(|placed|), at)| >= |current| - at
    ensures placed != [] ==> Buffer(current, placed, AllOpen(|placed|), at) != []
    decreases |placed|
  {
    if placed != [] {
      assert AllOpen(|placed|)[1..] == AllOpen(|placed[1..]|);
      OpenKeeps(current, placed[1..], placed[0].OldEnd());
    }
  }

  /** What a review holds before anything is decided: the file, with the open changes' green lines left out. */
  lemma OpenLines(d: Document, placed: seq<Hunk<string>>)
    requires Reviewable(d, placed)
    ensures var review := ReviewAt(d.lines, placed, AllOpen(|placed|));
      && AllPlain(review.buffer) && DecidedLines(review.buffer, review.blocks) == d.lines
      && (Misreads(Holding(d, review.buffer), review.blocks) <==> !Ended(d) && EndsEmpty(d.lines, placed))
  {
    var ds := AllOpen(|placed|);
    BufferPlain(d.lines, placed, ds, 0);
    NothingAccepted(d.lines, placed);
    DecidedLinesAreAccepted(d.lines, placed, ds);
    OpenMisreads(d, placed);
  }

  lemma OpenMisreads(d: Document, placed: seq<Hunk<string>>)
    requires Reviewable(d, placed)
    requires var review := ReviewAt(d.lines, placed, AllOpen(|placed|)); DecidedLines(review.buffer, review.blocks) == d.lines
    ensures var review := ReviewAt(d.lines, placed, AllOpen(|placed|));
      Misreads(Holding(d, review.buffer), review.blocks) <==> !Ended(d) && EndsEmpty(d.lines, placed)
  {
    OpenLast(d.lines, placed);
    MisreadMeans(d, ReviewAt(d.lines, placed, AllOpen(|placed|)));
  }

  lemma OpenLast(current: seq<string>, placed: seq<Hunk<string>>)
    requires Placeable(current, placed)
    ensures var review := ReviewAt(current, placed, AllOpen(|placed|));
      EmptyLast(review.buffer) && |review.buffer| - 1 in GreenLines(review.blocks) <==> EndsEmpty(current, placed)
  {
    LastIsGreen(current, placed, 0, 0, GreenLines(OpenBlocks(current, placed, AllOpen(|placed|), 0, 0)));
  }

  lemma MisreadMeans(d: Document, review: Review<string>)
    ensures Misreads(Holding(d, review.buffer), review.blocks) <==>
      && !Ended(d) && EmptyLast(review.buffer) && |review.buffer| - 1 in GreenLines(review.blocks)
      && DecidedLines(review.buffer, review.blocks) != []
  {
  }

  lemma HoldingItself(d: Document)
    requires d.Canonical()
    ensures Holding(d, d.lines).Text() == d.Text()
  {
  }

  /**
   * Opening a review leaves the decided file as the file was exactly when the file ends with a line break, or
   * the last change puts no empty line at its end; otherwise the decided file has one line break too many
   * before anything is decided.
   */
  lemma OpeningKeepsFile(d: Document, placed: seq<Hunk<string>>)
    requires Reviewable(d, placed)
    ensures var s := Opened(d, placed);
      && (DecidedText(s.text, s.blocks) == d.Text() <==> Ended(d) || !EndsEmpty(d.lines, placed))
      && (!Ended(d) && EndsEmpty(d.lines, placed) ==> DecidedText(s.text, s.blocks) == d.Text() + d.Eol())
  {
    var review := ReviewAt(d.lines, placed, AllOpen(|placed|));
    OpenedText(d, placed);
    OpenLines(d, placed);
    DecidedFollows(Holding(d, review.buffer), review.blocks);
    HoldingItself(d);
  }

  // ---- Runs of decisions on the text ----

  /** After a run, the text and the decided text are those of the lines, which are those of what was decided. */
  ghost predicate Faithful(d: Document, placed: seq<Hunk<string>>, steps: seq<(nat, Choice)>)
    requires Reviewable(d, placed) && RunFits(AllOpen(|placed|), steps)
  {
    var ds, s := ReviewDecisions.After(AllOpen(|placed|), steps), CarriedOut(Opened(d, placed), d.crlf, steps);
    AcceptedOrdered(d.lines, placed, ds, 0);
    && Shows(d, s, ReviewAt(d.lines, placed, ds))
    && DecidedText(s.text, s.blocks) == Holding(d, Splice(d.lines, Accepted(placed, ds), 0)).Text()
  }

  /** The last line a change can show: the last of its new lines, of its old ones when it has none. */
  ghost predicate Blank(h: Hunk<string>) {
    if h.newLines != [] then h.newLines[|h.newLines| - 1] == ""
    else h.oldLines != [] && h.oldLines[|h.oldLines| - 1] == ""
  }

  /** Decisions can leave nothing of the file from line `at` on: it is all changes, and each can be emptied. */
  ghost predicate CanEmpty(current: seq<string>, placed: seq<Hunk<string>>, at: nat)
    decreases |placed|
  {
    if placed == [] then at == |current|
    else
      var h := placed[0];
      h.oldStart == at && (h.oldLines == [] || h.newLines == []) && CanEmpty(current, placed[1..], h.OldEnd())
  }

  /**
   * Whether some change can become the end of the file with an empty last line, and with lines before the ones
   * its decision deletes; `top` says that nothing stands before line `at`.
   */
  ghost predicate Risk(current: seq<string>, placed: seq<Hunk<string>>, at: nat, top: bool)
    decreases |placed|
  {
    && placed != []
    && var h, rest := placed[0], placed[1..];
      || (Blank(h) && CanEmpty(current, rest, h.OldEnd())
          && (!top || h.oldStart > at || (h.oldLines != [] && h.newLines != [])))
      || Risk(current, rest, h.OldEnd(), false)
  }

  ghost predicate Steady(d: Document, placed: seq<Hunk<string>>) { Ended(d) || !Risk(d.lines, placed, 0, true) }

  lemma {:induction false} NothingLeft(current: seq<string>, placed: seq<Hunk<string>>, ds: seq<Decision>, at: nat)
    requires Ordered(current, placed, at) && |ds| == |placed| && Changes(placed)
    requires Buffer(current, placed, ds, at) == []
    ensures CanEmpty(current, placed, at)
    ensures Buffer(current, placed, RejectOpen(ds), at) == []
    decreases |placed|
  {
    if placed != [] {
      var h := placed[0];
      assert RejectOpen(ds)[1..] == RejectOpen(ds[1..]);
      assert |current[at..h.oldStart]| == 0 && |Segment(h, ds[0])| == 0;
      NothingLeft(current, placed[1..], ds[1..], h.OldEnd());
    }
  }

  lemma EndsBlank(gap: seq<string>, h: Hunk<string>)
    requires h.oldLines != [] || h.newLines != []
    ensures EmptyLast(gap + Segment(h, Open) + []) <==> Blank(h)
  {
    LastOf(gap, Segment(h, Open), []);
    LastOf([], h.oldLines, h.newLines);
    assert [] + h.oldLines + h.newLines == Segment(h, Open);
  }

  /** The first change, open, is the end of the buffer and shows an empty last line. */
  lemma FirstIsRisk(current: seq<string>, placed: seq<Hunk<string>>, ds: seq<Decision>, at: nat, top: bool)
    requires Ordered(current, placed, at) && |ds| == |placed| && Changes(placed) && placed != [] && ds[0].Open?
    requires Buffer(current, placed[1..], ds[1..], placed[0].OldEnd()) == []
    requires EmptyLast(Buffer(current, placed, ds, at))
    requires var h := placed[0]; !top || h.oldStart > at || (h.oldLines != [] && h.newLines != [])
    ensures Risk(current, placed, at, top)
  {
    var h := placed[0];
    NothingLeft(current, placed[1..], ds[1..], h.OldEnd());
    EndsBlank(current[at..h.oldStart], h);
    assert Buffer(current, placed, ds, at) == current[at..h.oldStart] + Segment(h, Open) + [];
  }

  /** A decision that deletes the end of the buffer, with an empty line last and something before, is a risk. */
  lemma {:induction false} StepIsRisk(
    current: seq<string>, placed: seq<Hunk<string>>, ds: seq<Decision>, at: nat, pos: nat, i: nat, choice: Choice, start: int, count: int, top: bool)
    requires Ordered(current, placed, at) && |ds| == |placed| && Changes(placed)
    requires i < |OpenBlocks(current, placed, ds, at, pos)| && i < OpenCount(ds)
    requires DeletesAt(OpenBlocks(current, placed, ds, at, pos)[i], choice, start, count)
    requires count > 0 && start + count == pos + |Buffer(current, placed, ds, at)| && EmptyLast(Buffer(current, placed, ds, at))
    requires start > 0 && (top ==> pos == 0)
    ensures Risk(current, placed, at, top)
    decreases |placed|
  {
    var h, next := placed[0], pos + placed[0].oldStart - at + |Segment(placed[0], ds[0])|;
    var tail := Buffer(current, placed[1..], ds[1..], h.OldEnd());
    if ds[0].Open? && i == 0 {
      assert |tail| == 0;
      FirstIsRisk(current, placed, ds, at, top);
    } else {
      var i' := if ds[0].Open? then i - 1 else i;
      BufferDecided(current, placed[1..], ds[1..], h.OldEnd(), next, i', choice, start, count);
      LastOf(current[at..h.oldStart], Segment(h, ds[0]), tail);
      StepIsRisk(current, placed[1..], ds[1..], h.OldEnd(), next, i', choice, start, count, false);
    }
  }

  /** An empty green line at the end of the buffer, with other lines kept, is a risk. */
  lemma {:induction false} GreenIsRisk(
    current: seq<string>, placed: seq<Hunk<string>>, ds: seq<Decision>, at: nat, pos: nat, drop: set<int>, top: bool)
    requires Ordered(current, placed, at) && |ds| == |placed| && Changes(placed)
    requires forall n | n >= pos :: n in drop <==> n in GreenLines(OpenBlocks(current, placed, ds, at, pos))
    requires EmptyLast(Buffer(current, placed, ds, at)) && pos + |Buffer(current, placed, ds, at)| - 1 in drop
    requires top ==> Buffer(current, placed, RejectOpen(ds), at) != []
    ensures Risk(current, placed, at, top)
    decreases |placed|
  {
    assert placed != [];
    var h, start := placed[0], pos + placed[0].oldStart - at;
    var next := start + |Segment(h, ds[0])|;
    var tail := Buffer(current, placed[1..], ds[1..], h.OldEnd());
    GreenOfFirst(current, placed, ds, at, pos, start, next, drop);
    assert next + |tail| == pos + |Buffer(current, placed, ds, at)|;
    if tail == [] {
      if top { KeptBeforeFirst(current, placed, ds, at); }
      FirstIsRisk(current, placed, ds, at, top);
    } else {
      LastOf(current[at..h.oldStart], Segment(h, ds[0]), tail);
      GreenIsRisk(current, placed[1..], ds[1..], h.OldEnd(), next, drop, false);
    }
  }

  lemma KeptBeforeFirst(current: seq<string>, placed: seq<Hunk<string>>, ds: seq<Decision>, at: nat)
    requires Ordered(current, placed, at) && |ds| == |placed| && Changes(placed) && placed != [] && ds[0].Open?
    requires Buffer(current, placed[1..], ds[1..], placed[0].OldEnd()) == []
    requires Buffer(current, placed, RejectOpen(ds), at) != []
    ensures placed[0].oldStart > at || placed[0].oldLines != []
  {
    NothingLeft(current, placed[1..], ds[1..], placed[0].OldEnd());
    assert RejectOpen(ds)[1..] == RejectOpen(ds[1..]);
  }

  // ---- A steady review is carried out faithfully ----

  lemma OverreachIsRisk(d: Document, placed: seq<Hunk<string>>, ds: seq<Decision>, i: nat, choice: Choice)
    requires Reviewable(d, placed) && |ds| == |placed| && Steady(d, placed)
    requires i < |OpenBlocks(d.lines, placed, ds, 0, 0)|
    ensures !StepOverreaches(d, ReviewAt(d.lines, placed, ds), i, choice)
  {
    var review := ReviewAt(d.lines, placed, ds);
    if StepOverreaches(d, review, i, choice) {
      OverreachEnds(d, review, i, choice);
      ResolvedBlocks(d.lines, placed, ds, i, choice);
      OverreachRisks(d.lines, placed, ds, i, choice, ResolveBlock(review.blocks, i, choice));
    }
  }

  lemma OverreachEnds(d: Document, review: Review<string>, i: nat, choice: Choice)
    requires i < |review.blocks| && StepOverreaches(d, review, i, choice)
    ensures var res := ResolveBlock(review.blocks, i, choice);
      && !Ended(d) && EmptyLast(review.buffer) && res.deleteStart > 0
      && res.deleteCount > 0 && res.deleteStart + res.deleteCount == |review.buffer|
  {
  }

  lemma OverreachRisks(
    current: seq<string>, placed: seq<Hunk<string>>, ds: seq<Decision>, i: nat, choice: Choice, res: Resolution)
    requires Ordered(current, placed, 0) && |ds| == |placed| && Changes(placed)
    requires i < |OpenBlocks(current, placed, ds, 0, 0)| && i < OpenCount(ds)
    requires DeletesAt(OpenBlocks(current, placed, ds, 0, 0)[i], choice, res.deleteStart, res.deleteCount)
    requires EmptyLast(Buffer(current, placed, ds, 0)) && res.deleteStart > 0
    requires res.deleteCount > 0 && res.deleteStart + res.deleteCount == |Buffer(current, placed, ds, 0)|
    ensures Risk(current, placed, 0, true)
  {
    StepIsRisk(current, placed, ds, 0, 0, i, choice, res.deleteStart, res.deleteCount, true);
  }

  lemma MisreadIsRisk(d: Document, placed: seq<Hunk<string>>, ds: seq<Decision>)
    requires Reviewable(d, placed) && |ds| == |placed| && Steady(d, placed)
    ensures var review := ReviewAt(d.lines, placed, ds); !Misreads(Holding(d, review.buffer), review.blocks)
  {
    var review := ReviewAt(d.lines, placed, ds);
    if Misreads(Holding(d, review.buffer), review.blocks) {
      MisreadMeans(d, review);
      DecidedLinesAreAccepted(d.lines, placed, ds);
      GreenRisks(d.lines, placed, ds);
    }
  }

  lemma GreenRisks(current: seq<string>, placed: seq<Hunk<string>>, ds: seq<Decision>)
    requires Ordered(current, placed, 0) && |ds| == |placed| && Changes(placed)
    requires EmptyLast(Buffer(current, placed, ds, 0)) && Buffer(current, placed, RejectOpen(ds), 0) != []
    requires |Buffer(current, placed, ds, 0)| - 1 in GreenLines(OpenBlocks(current, placed, ds, 0, 0))
    ensures Risk(current, placed, 0, true)
  {
    GreenIsRisk(current, placed, ds, 0, 0, GreenLines(OpenBlocks(current, placed, ds, 0, 0)), true);
  }

  lemma {:induction false} SteadyRun(
    d: Document, placed: seq<Hunk<string>>, ds: seq<Decision>, s: Screen, steps: seq<(nat, Choice)>)
    requires Reviewable(d, placed) && |ds| == |placed| && Steady(d, placed)
    requires Shows(d, s, ReviewAt(d.lines, placed, ds)) && RunFits(ds, steps)
    ensures Shows(d, CarriedOut(s, d.crlf, steps), ReviewAt(d.lines, placed, ReviewDecisions.After(ds, steps)))
    decreases |steps|
  {
    if steps != [] {
      var (i, choice) := steps[0];
      BlocksInOrder(d.lines, placed, ds, 0, 0);
      StepFollows(d, placed, ds, s, i, choice);
      OverreachIsRisk(d, placed, ds, i, choice);
      SteadyRun(d, placed, Decide(ds, i, choice), Carried(s, d.crlf, i, choice), steps[1..]);
    }
  }

  /** In a steady review every run of decisions is carried out on the text exactly as on the lines. */
  lemma SteadyIsFaithful(d: Document, placed: seq<Hunk<string>>, steps: seq<(nat, Choice)>)
    requires Reviewable(d, placed) && Steady(d, placed) && RunFits(AllOpen(|placed|), steps)
    ensures Faithful(d, placed, steps)
  {
    var ds := ReviewDecisions.After(AllOpen(|placed|), steps);
    OpenedText(d, placed);
    SteadyRun(d, placed, AllOpen(|placed|), Opened(d, placed), steps);
    var review := ReviewAt(d.lines, placed, ds);
    BufferPlain(d.lines, placed, ds, 0);
    DecidedLinesAreAccepted(d.lines, placed, ds);
    MisreadIsRisk(d, placed, ds);
    DecidedFollows(Holding(d, review.buffer), review.blocks);
  }

  lemma {:induction false} DiffNewPlain(a: seq<string>, b: seq<string>, hs: seq<Hunk<string>>, i: nat, j: nat)
    requires Describes(a, b, hs, i, j) && AllPlain(b)
    ensures NewPlain(hs)
    decreases |hs|
  {
    if hs != [] {
      DiffNewPlain(a, b, hs[1..], hs[0].OldEnd(), hs[0].NewEnd());
      assert AllPlain(b[hs[0].newStart..hs[0].NewEnd()]);
    }
  }

  lemma {:induction false} PlacedNewPlain(hs: seq<Hunk<string>>, places: seq<Option<nat>>)
    requires |places| == |hs| && NewPlain(hs)
    ensures NewPlain(PlacedHunks(hs, places))
  {
    if hs != [] {
      PlacedNewPlain(hs[1..], places[1..]);
      var rest := PlacedHunks(hs[1..], places[1..]);
      if places[0].Some? {
        assert ([hs[0].(oldStart := places[0].value)] + rest)[1..] == rest;
      } else {
        assert [] + rest == rest;
      }
    }
  }

  /** What a plan shows inline of any proposal can be reviewed in any file. */
  lemma PlanIsReviewable(base: seq<string>, proposal: seq<string>, d: Document)
    requires d.Canonical() && d.crlf == SplitLines(d.Text()).1 && AllPlain(proposal)
    ensures Reviewable(d, PlacedIn(base, proposal, d.lines))
  {
    var hs := DiffHunks(base, proposal);
    PlanOpens(base, proposal, d.lines);
    DiffDescribes(base, proposal);
    DiffNewPlain(base, proposal, hs, 0, 0);
    PlacedNewPlain(hs, PlacesOf(base, proposal, d.lines));
  }

  // ---- Otherwise some run goes wrong ----

  /** The decisions of a run, one change after another from the last up: each is then the one at its place. */
  ghost function Towards(ds: seq<Decision>): seq<(nat, Choice)> {
    if ds == [] then []
    else OneDown(Towards(ds[1..])) + if ds[0].Open? then [] else [(0, ds[0].choice)]
  }

  ghost function OneDown(steps: seq<(nat, Choice)>): seq<(nat, Choice)> {
    if steps == [] then [] else [(steps[0].0 + 1, steps[0].1)] + OneDown(steps[1..])
  }

  lemma {:induction false} OneDownRuns(ds: seq<Decision>, steps: seq<(nat, Choice)>)
    requires RunFits(ds, steps)
    ensures RunFits([Open] + ds, OneDown(steps))
    ensures ReviewDecisions.After([Open] + ds, OneDown(steps)) == [Open] + ReviewDecisions.After(ds, steps)
    decreases |steps|
  {
    if steps != [] {
      var (i, choice) := steps[0];
      OneDownRuns(Decide(ds, i, choice), steps[1..]);
      assert ([Open] + ds)[1..] == ds;
      assert OneDown(steps)[1..] == OneDown(steps[1..]);
    }
  }

  lemma {:induction false} RunSnoc(ds: seq<Decision>, steps: seq<(nat, Choice)>, i: nat, choice: Choice)
    requires RunFits(ds, steps) && i < OpenCount(ReviewDecisions.After(ds, steps))
    ensures RunFits(ds, steps + [(i, choice)])
    ensures ReviewDecisions.After(ds, steps + [(i, choice)]) == Decide(ReviewDecisions.After(ds, steps), i, choice)
    decreases |steps|
  {
    if steps == [] {
      assert steps + [(i, choice)] == [(i, choice)] && [(i, choice)][1..] == [];
    } else {
      assert (steps + [(i, choice)])[1..] == steps[1..] + [(i, choice)];
      RunSnoc(Decide(ds, steps[0].0, steps[0].1), steps[1..], i, choice);
    }
  }

  /** Every combination of decisions is reached by a run. */
  lemma {:induction false} AllReached(ds: seq<Decision>)
    ensures RunFits(AllOpen(|ds|), Towards(ds)) && ReviewDecisions.After(AllOpen(|ds|), Towards(ds)) == ds
  {
    if ds != [] {
      var rest := ds[1..];
      AllReached(rest);
      OneDownRuns(AllOpen(|rest|), Towards(rest));
      if ds[0].Open? {
        assert OneDown(Towards(rest)) + [] == OneDown(Towards(rest));
      } else {
        RunSnoc([Open] + AllOpen(|rest|), OneDown(Towards(rest)), 0, ds[0].choice);
        assert ([Open] + rest)[1..] == rest;
      }
    }
  }

  lemma {:induction false} CarriedSnoc(
    current: seq<string>, placed: seq<Hunk<string>>, ds: seq<Decision>, s: Screen, crlf: bool, steps: seq<(nat, Choice)>,
    i: nat, choice: Choice)
    requires Placeable(current, placed) && |ds| == |placed| && s.blocks == OpenBlocks(current, placed, ds, 0, 0)
    requires RunFits(ds, steps) && i < OpenCount(ReviewDecisions.After(ds, steps))
    ensures var s' := CarriedOut(s, crlf, steps);
      && i < |s'.blocks| && CarriedOut(s, crlf, steps + [(i, choice)]) == Carried(s', crlf, i, choice)
    decreases |steps|
  {
    BlocksInOrder(current, placed, ds, 0, 0);
    if steps == [] {
      assert steps + [(i, choice)] == [(i, choice)] && [(i, choice)][1..] == [];
    } else {
      var (j, c) := steps[0];
      assert (steps + [(i, choice)])[1..] == steps[1..] + [(i, choice)];
      ResolvedBlocks(current, placed, ds, j, c);
      CarriedSnoc(current, placed, Decide(ds, j, c), Carried(s, crlf, j, c), crlf, steps[1..], i, choice);
    }
  }

  /** The decisions that empty changes which can be emptied. */
  ghost function Emptied(placed: seq<Hunk<string>>): (ds: seq<Decision>)
    ensures |ds| == |placed|
  {
    if placed == [] then []
    else [Decided(if placed[0].newLines == [] then Accept else Reject)] + Emptied(placed[1..])
  }

  lemma {:induction false} EmptiedLeaves(current: seq<string>, placed: seq<Hunk<string>>, at: nat)
    requires Ordered(current, placed, at) && CanEmpty(current, placed, at)
    ensures Buffer(current, placed, Emptied(placed), at) == []
    decreases |placed|
  {
    if placed != [] {
      assert Emptied(placed)[1..] == Emptied(placed[1..]);
      EmptiedLeaves(current, placed[1..], placed[0].OldEnd());
    }
  }

  ghost function StartOf(b: Block, choice: Choice): int { if choice == Accept then b.removedStart else b.addedStart }

  ghost function CountOf(b: Block, choice: Choice): int { if choice == Accept then b.removedCount else b.addedCount }

  /** Deciding block `i` deletes the end of a buffer that ends with an empty line. */
  ghost predicate AtRisk(current: seq<string>, placed: seq<Hunk<string>>, ds: seq<Decision>, at: nat, pos: nat, i: nat, choice: Choice)
    requires Ordered(current, placed, at) && |ds| == |placed|
  {
    var buffer, blocks := Buffer(current, placed, ds, at), OpenBlocks(current, placed, ds, at, pos);
    && i < |blocks| && EmptyLast(buffer)
    && CountOf(blocks[i], choice) > 0 && StartOf(blocks[i], choice) + CountOf(blocks[i], choice) == pos + |buffer|
  }

  lemma RiskHere(current: seq<string>, placed: seq<Hunk<string>>, at: nat, pos: nat)
    requires Ordered(current, placed, at) && Changes(placed) && placed != []
    requires Blank(placed[0]) && CanEmpty(current, placed[1..], placed[0].OldEnd())
    ensures var h, ds := placed[0], [Open] + Emptied(placed[1..]);
      var choice := if h.newLines != [] then Reject else Accept;
      && AtRisk(current, placed, ds, at, pos, 0, choice)
      && StartOf(OpenBlocks(current, placed, ds, at, pos)[0], choice)
        == pos + h.oldStart - at + if h.newLines != [] then |h.oldLines| else 0
  {
    var h, ds := placed[0], [Open] + Emptied(placed[1..]);
    assert ds[1..] == Emptied(placed[1..]);
    EmptiedLeaves(current, placed[1..], h.OldEnd());
    EndsBlank(current[at..h.oldStart], h);
    assert Buffer(current, placed, ds, at) == current[at..h.oldStart] + Segment(h, Open) + [];
  }

  /** A risk comes true after some decisions. */
  lemma {:induction false} RiskComesTrue(current: seq<string>, placed: seq<Hunk<string>>, at: nat, pos: nat, top: bool)
    returns (ds: seq<Decision>, i: nat, choice: Choice)
    requires Ordered(current, placed, at) && Changes(placed) && Risk(current, placed, at, top)
    ensures |ds| == |placed| && AtRisk(current, placed, ds, at, pos, i, choice)
    ensures var start := StartOf(OpenBlocks(current, placed, ds, at, pos)[i], choice); start >= pos && (top ==> start > pos)
    decreases |placed|
  {
    var h, rest := placed[0], placed[1..];
    if Blank(h) && CanEmpty(current, rest, h.OldEnd()) && (!top || h.oldStart > at || (h.oldLines != [] && h.newLines != [])) {
      ds, i, choice := [Open] + Emptied(rest), 0, if h.newLines != [] then Reject else Accept;
      RiskHere(current, placed, at, pos);
    } else {
      var ds', i';
      var next := pos + h.oldStart - at + |Segment(h, Open)|;
      ds', i', choice := RiskComesTrue(current, rest, h.OldEnd(), next, false);
      ds, i := [Open] + ds', i' + 1;
      RiskBelow(current, placed, ds', at, pos, next, i', choice);
    }
  }

  /** What is at risk below an open change is at risk with it. */
  lemma RiskBelow(
    current: seq<string>, placed: seq<Hunk<string>>, below: seq<Decision>, at: nat, pos: nat, next: nat, i: nat, choice: Choice)
    requires Ordered(current, placed, at) && Changes(placed) && placed != [] && |below| == |placed| - 1
    requires next == pos + placed[0].oldStart - at + |Segment(placed[0], Open)|
    requires AtRisk(current, placed[1..], below, placed[0].OldEnd(), next, i, choice)
    ensures AtRisk(current, placed, [Open] + below, at, pos, i + 1, choice) && next > pos
    ensures OpenBlocks(current, placed, [Open] + below, at, pos)[i + 1]
      == OpenBlocks(current, placed[1..], below, placed[0].OldEnd(), next)[i]
  {
    var h := placed[0];
    assert ([Open] + below)[1..] == below;
    LastOf(current[at..h.oldStart], Segment(h, Open), Buffer(current, placed[1..], below, h.OldEnd()));
  }

  lemma UnsteadyStep(d: Document, placed: seq<Hunk<string>>) returns (ds: seq<Decision>, i: nat, choice: Choice)
    requires Reviewable(d, placed) && !Steady(d, placed)
    ensures |ds| == |placed| && i < OpenCount(ds) && i < |OpenBlocks(d.lines, placed, ds, 0, 0)|
    ensures StepOverreaches(d, ReviewAt(d.lines, placed, ds), i, choice)
  {
    ds, i, choice := RiskComesTrue(d.lines, placed, 0, 0, true);
    AtRiskOverreaches(d, placed, ds, i, choice);
  }

  lemma AtRiskOverreaches(d: Document, placed: seq<Hunk<string>>, ds: seq<Decision>, i: nat, choice: Choice)
    requires Reviewable(d, placed) && |ds| == |placed| && !Ended(d) && AtRisk(d.lines, placed, ds, 0, 0, i, choice)
    requires StartOf(OpenBlocks(d.lines, placed, ds, 0, 0)[i], choice) > 0
    ensures i < OpenCount(ds) && StepOverreaches(d, ReviewAt(d.lines, placed, ds), i, choice)
  {
    var review := ReviewAt(d.lines, placed, ds);
    ResolvedBlocks(d.lines, placed, ds, i, choice);
    OverreachMeans(d, review, i, choice);
  }

  lemma OverreachMeans(d: Document, review: Review<string>, i: nat, choice: Choice)
    requires i < |review.blocks|
    ensures var b := review.blocks[i];
      StepOverreaches(d, review, i, choice) <==>
        && !Ended(d) && EmptyLast(review.buffer) && StartOf(b, choice) > 0
        && CountOf(b, choice) > 0 && StartOf(b, choice) + CountOf(b, choice) == |review.buffer|
  {
  }

  /** When carrying out a decision overreaches, it or the run that leads to it is not faithful. */
  lemma OverreachFails(
    d: Document, placed: seq<Hunk<string>>, before: seq<(nat, Choice)>, ds: seq<Decision>, i: nat, choice: Choice)
    requires Reviewable(d, placed) && |ds| == |placed| && i < |OpenBlocks(d.lines, placed, ds, 0, 0)|
    requires StepOverreaches(d, ReviewAt(d.lines, placed, ds), i, choice) && i < OpenCount(ds)
    requires RunFits(AllOpen(|placed|), before) && ReviewDecisions.After(AllOpen(|placed|), before) == ds
    requires Faithful(d, placed, before)
    ensures RunFits(AllOpen(|placed|), before + [(i, choice)]) && !Faithful(d, placed, before + [(i, choice)])
  {
    var s := CarriedOut(Opened(d, placed), d.crlf, before);
    RunSnoc(AllOpen(|placed|), before, i, choice);
    OpenedText(d, placed);
    CarriedSnoc(d.lines, placed, AllOpen(|placed|), Opened(d, placed), d.crlf, before, i, choice);
    StepFollows(d, placed, ds, s, i, choice);
  }

  /** In a review that is not steady, some run leaves a text that is not the text of its lines. */
  lemma UnsteadyRun(d: Document, placed: seq<Hunk<string>>) returns (steps: seq<(nat, Choice)>)
    requires Reviewable(d, placed) && !Steady(d, placed)
    ensures RunFits(AllOpen(|placed|), steps) && !Faithful(d, placed, steps)
  {
    var ds, i, choice := UnsteadyStep(d, placed);
    steps := Towards(ds);
    AllReached(ds);
    if Faithful(d, placed, steps) {
      OverreachFails(d, placed, steps, ds, i, choice);
      steps := steps + [(i, choice)];
    }
  }

  /**
   * Decisions on the editor's text are decisions on the lines, whatever the run, exactly when the review is
   * steady: the file ends with a line break, or no change can become its end with an empty last line.
   */
  lemma FaithfulIsSteady(d: Document, placed: seq<Hunk<string>>)
    requires Reviewable(d, placed)
    ensures (forall steps | RunFits(AllOpen(|placed|), steps) :: Faithful(d, placed, steps)) <==> Steady(d, placed)
  {
    if Steady(d, placed) {
      forall steps | RunFits(AllOpen(|placed|), steps) ensures Faithful(d, placed, steps) {
        SteadyIsFaithful(d, placed, steps);
      }
    } else {
      var steps := UnsteadyRun(d, placed);
    }
  }

  /** With nothing decided, rejecting a last change that ends empty deletes the end of the buffer. */
  lemma {:induction false} LastAtRisk(current: seq<string>, placed: seq<Hunk<string>>, at: nat, pos: nat)
    requires Ordered(current, placed, at) && Changes(placed) && EndsEmpty(current, placed)
    ensures AtRisk(current, placed, AllOpen(|placed|), at, pos, |placed| - 1, Reject)
    ensures StartOf(OpenBlocks(current, placed, AllOpen(|placed|), at, pos)[|placed| - 1], Reject) >= pos + |current| - at
    decreases |placed|
  {
    var h, rest := placed[0], placed[1..];
    assert AllOpen(|placed|)[1..] == AllOpen(|rest|);
    if rest == [] {
      RiskHere(current, placed, at, pos);
      assert AllOpen(1) == [Open] + Emptied(rest);
    } else {
      var next := pos + h.oldStart - at + |Segment(h, Open)|;
      LastAtRisk(current, rest, h.OldEnd(), next);
      RiskBelow(current, placed, AllOpen(|rest|), at, pos, next, |rest| - 1, Reject);
    }
  }

  /** The decisions when only the last change has been decided, and rejected. */
  ghost function LastRejected(placed: seq<Hunk<string>>): (ds: seq<Decision>)
    requires placed != []
    ensures |ds| == |placed|
  {
    Decide(AllOpen(|placed|), |placed| - 1, Reject)
  }

  /** The same file with a line break at its end. */
  ghost function Broken(d: Document): Document { d.(trailing := true) }

  /** The text is that of a file with a line break at its end, to the last when everything is rejected. */
  ghost predicate KeepsBreak(d: Document, placed: seq<Hunk<string>>, s: Screen, ds: seq<Decision>)
    requires Ordered(d.lines, placed, 0) && |ds| == |placed|
  {
    && Shows(Broken(d), s, ReviewAt(d.lines, placed, ds))
    && (ds == DecideAll(AllOpen(|placed|), Reject) ==> s.text == d.Text() + d.Eol())
  }

  lemma BrokenReviewable(d: Document, placed: seq<Hunk<string>>)
    requires Reviewable(d, placed) && !Ended(d)
    ensures Reviewable(Broken(d), placed)
  {
    EndingShows(Broken(d));
  }

  lemma BrokenText(d: Document, lines: seq<string>)
    requires !Ended(d) && lines != []
    ensures Holding(d, lines).Text() + d.Eol() == Holding(Broken(d), lines).Text()
  {
    assert Join(lines, d.Eol()) + "" == Join(lines, d.Eol());
  }

  /**
   * A change that puts an empty line at the bare end of a file cannot be rejected: rejected first, it leaves a
   * line break behind, and from then on, whatever is decided, the text is that of a file which always ended
   * with one; with everything rejected, it is the developer's text and that break.
   */
  lemma RejectLeavesBreak(d: Document, placed: seq<Hunk<string>>, steps: seq<(nat, Choice)>)
    requires Reviewable(d, placed) && !Ended(d) && EndsEmpty(d.lines, placed)
    requires RunFits(LastRejected(placed), steps)
    ensures KeepsBreak(d, placed, CarriedOut(Opened(d, placed), d.crlf, [(|placed| - 1, Reject)] + steps),
                       ReviewDecisions.After(LastRejected(placed), steps))
  {
    var n := |placed| - 1;
    RejectedShows(d, placed);
    BrokenReviewable(d, placed);
    SteadyRun(Broken(d), placed, LastRejected(placed), Carried(Opened(d, placed), d.crlf, n, Reject), steps);
    CarriedFirst(Opened(d, placed), d.crlf, n, Reject, steps);
    AllRejected(d, placed);
  }

  lemma CarriedFirst(s: Screen, crlf: bool, i: nat, choice: Choice, steps: seq<(nat, Choice)>)
    requires i < |s.blocks|
    ensures CarriedOut(s, crlf, [(i, choice)] + steps) == CarriedOut(Carried(s, crlf, i, choice), crlf, steps)
  {
    assert ([(i, choice)] + steps)[1..] == steps;
  }

  /** The rejected last change leaves its break. */
  lemma RejectedShows(d: Document, placed: seq<Hunk<string>>)
    requires Reviewable(d, placed) && !Ended(d) && EndsEmpty(d.lines, placed)
    ensures var n := |placed| - 1;
      && n < |Opened(d, placed).blocks|
      && Shows(Broken(d), Carried(Opened(d, placed), d.crlf, n, Reject),
               ReviewAt(d.lines, placed, LastRejected(placed)))
  {
    var n, allOpen := |placed| - 1, AllOpen(|placed|);
    OpenedText(d, placed);
    LastOverreaches(d, placed);
    StepFollows(d, placed, allOpen, Opened(d, placed), n, Reject);
    BrokenText(d, Buffer(d.lines, placed, Decide(allOpen, n, Reject), 0));
  }

  lemma LastOverreaches(d: Document, placed: seq<Hunk<string>>)
    requires Reviewable(d, placed) && !Ended(d) && EndsEmpty(d.lines, placed)
    ensures var n, allOpen := |placed| - 1, AllOpen(|placed|);
      && n < |OpenBlocks(d.lines, placed, allOpen, 0, 0)|
      && StepOverreaches(d, ReviewAt(d.lines, placed, allOpen), n, Reject)
      && Buffer(d.lines, placed, Decide(allOpen, n, Reject), 0) != []
  {
    var n, allOpen := |placed| - 1, AllOpen(|placed|);
    LastAtRisk(d.lines, placed, 0, 0);
    AtRiskOverreaches(d, placed, allOpen, n, Reject);
    StartLeft(d.lines, placed, allOpen, n, Reject);
  }

  /** The lines above the ones a decision deletes stay. */
  lemma StartLeft(current: seq<string>, placed: seq<Hunk<string>>, ds: seq<Decision>, i: nat, choice: Choice)
    requires Placeable(current, placed) && |ds| == |placed| && i < |OpenBlocks(current, placed, ds, 0, 0)|
    requires StartOf(OpenBlocks(current, placed, ds, 0, 0)[i], choice) > 0
    ensures i < OpenCount(ds) && Buffer(current, placed, Decide(ds, i, choice), 0) != []
  {
    DecisionStep(current, placed, ds, i, choice);
  }

  lemma AllRejected(d: Document, placed: seq<Hunk<string>>)
    requires Reviewable(d, placed) && !Ended(d)
    ensures Buffer(d.lines, placed, DecideAll(AllOpen(|placed|), Reject), 0) == d.lines
    ensures Holding(Broken(d), d.lines).Text() == d.Text() + d.Eol()
  {
    var allOpen := AllOpen(|placed|);
    NothingAccepted(d.lines, placed);
    DecidedLinesAreAccepted(d.lines, placed, allOpen);
    RejectOpenIsDecideAll(allOpen);
    BrokenText(d, d.lines);
    HoldingItself(d);
  }
}
