/**
 * What Accept and Reject do to the buffer (resolveBlock and decidedText of inline-review.ts): whatever the
 * order of the decisions, the buffer and its blocks are a function of what was decided for each change.
 */
module ReviewDecisions {
  import opened LineDiff
  import opened HunkPlacing
  import opened ReviewPlans
  import opened Selections

  datatype Choice = Accept | Reject

  /** Where one change of the review stands. */
  datatype Decision = Open | Decided(choice: Choice)

  // ---- resolveBlock, decidedText ----

  function Moved(b: Block, lines: int): Block {
    b.(removedStart := b.removedStart + lines, addedStart := b.addedStart + lines)
  }

  datatype Resolution = Resolution(deleteStart: int, deleteCount: int, blocks: seq<Block>)

  /** Accept deletes the red lines, Reject the green ones; blocks further down move up by as many lines. */
  function ResolveBlock(blocks: seq<Block>, index: nat, choice: Choice): Resolution
    requires index < |blocks|
  {
    var b := blocks[index];
    var start := if choice == Accept then b.removedStart else b.addedStart;
    var count := if choice == Accept then b.removedCount else b.addedCount;
    var rest := blocks[..index] + blocks[index + 1..];
    Resolution(start, count, seq(|rest|, k requires 0 <= k < |rest| =>
      if rest[k].removedStart > b.removedStart then Moved(rest[k], -count) else rest[k]))
  }

  function DeleteLines<T>(lines: seq<T>, start: int, count: int): seq<T>
    requires 0 <= start <= start + count <= |lines|
  {
    lines[..start] + lines[start + count..]
  }

  function Span(start: int, count: int): (s: set<int>)
    ensures forall n :: n in s <==> start <= n < start + count
    decreases count
  {
    if count <= 0 then {} else {start} + Span(start + 1, count - 1)
  }

  /** The line numbers of every block's green lines. */
  function GreenLines(blocks: seq<Block>): set<int> {
    if blocks == [] then {} else Span(blocks[0].addedStart, blocks[0].addedCount) + GreenLines(blocks[1..])
  }

  /** The lines whose number, counted from `at`, is not in `drop`. */
  function Kept<T>(lines: seq<T>, drop: set<int>, at: int): seq<T> {
    if lines == [] then [] else (if at in drop then [] else [lines[0]]) + Kept(lines[1..], drop, at + 1)
  }

  /** decidedText at the level of lines: the buffer without the green lines of every open block. */
  function DecidedLines<T>(buffer: seq<T>, blocks: seq<Block>): seq<T> {
    Kept(buffer, GreenLines(blocks), 0)
  }

  // ---- The buffer and its blocks as functions of the decisions ----

  /** The lines one change contributes. */
  ghost function Segment<T>(h: Hunk<T>, d: Decision): seq<T> {
    match d
    case Open => h.oldLines + h.newLines
    case Decided(Accept) => h.newLines
    case Decided(Reject) => h.oldLines
  }

  /** The buffer from line `at` of the developer's file on. */
  ghost function Buffer<T>(current: seq<T>, placed: seq<Hunk<T>>, ds: seq<Decision>, at: nat): seq<T>
    requires Ordered(current, placed, at) && |ds| == |placed|
    decreases |placed|
  {
    if placed == [] then current[at..]
    else current[at..placed[0].oldStart] + Segment(placed[0], ds[0]) + Buffer(current, placed[1..], ds[1..], placed[0].OldEnd())
  }

  /** The blocks of the changes still open, when line `at` of the developer's file is line `pos` of the buffer. */
  ghost function OpenBlocks<T>(current: seq<T>, placed: seq<Hunk<T>>, ds: seq<Decision>, at: nat, pos: nat): seq<Block>
    requires Ordered(current, placed, at) && |ds| == |placed|
    decreases |placed|
  {
    if placed == [] then []
    else
      var h, start := placed[0], pos + placed[0].oldStart - at;
      var rest := OpenBlocks(current, placed[1..], ds[1..], h.OldEnd(), start + |Segment(h, ds[0])|);
      if ds[0].Open? then [Block(start, |h.oldLines|, start + |h.oldLines|, |h.newLines|)] + rest else rest
  }

  ghost function OpenCount(ds: seq<Decision>): nat {
    if ds == [] then 0 else (if ds[0].Open? then 1 else 0) + OpenCount(ds[1..])
  }

  /** `choice` for the `i`-th change still open. */
  ghost function Decide(ds: seq<Decision>, i: nat, choice: Choice): (r: seq<Decision>)
    requires i < OpenCount(ds)
    ensures |r| == |ds|
  {
    if ds[0].Open? then
      (if i == 0 then [Decided(choice)] + ds[1..] else [ds[0]] + Decide(ds[1..], i - 1, choice))
    else [ds[0]] + Decide(ds[1..], i, choice)
  }

  /** Every change still open read as rejected. */
  ghost function RejectOpen(ds: seq<Decision>): (r: seq<Decision>)
    ensures |r| == |ds|
  {
    if ds == [] then [] else [if ds[0].Open? then Decided(Reject) else ds[0]] + RejectOpen(ds[1..])
  }

  /** The accepted changes. */
  ghost function Accepted<T>(placed: seq<Hunk<T>>, ds: seq<Decision>): seq<Hunk<T>>
    requires |ds| == |placed|
  {
    if placed == [] then []
    else (if ds[0] == Decided(Accept) then [placed[0]] else []) + Accepted(placed[1..], ds[1..])
  }

  ghost predicate Changes<T>(placed: seq<Hunk<T>>) {
    placed == [] || ((placed[0].oldLines != [] || placed[0].newLines != []) && Changes(placed[1..]))
  }

  // ---- Blocks lie in order ----

  /** Non-empty blocks, green directly below red, one after another from line `from` on. */
  ghost predicate InOrder(blocks: seq<Block>, from: int)
    decreases |blocks|
  {
    blocks == [] ||
    var b := blocks[0];
    && from <= b.removedStart
    && b.removedCount >= 0 && b.addedCount >= 0 && b.removedCount + b.addedCount > 0
    && b.addedStart == b.removedStart + b.removedCount
    && InOrder(blocks[1..], b.addedStart + b.addedCount)
  }

  lemma {:induction false} InOrderStarts(blocks: seq<Block>, from: int, k: nat)
    requires InOrder(blocks, from) && k < |blocks|
    ensures from <= blocks[k].removedStart
    ensures forall j | k < j < |blocks| :: blocks[k].removedStart < blocks[j].removedStart
    decreases |blocks|
  {
    var b := blocks[0];
    forall j | 0 < j < |blocks| ensures b.removedStart < blocks[j].removedStart {
      InOrderStarts(blocks[1..], b.addedStart + b.addedCount, j - 1);
      assert blocks[j] == blocks[1..][j - 1];
    }
    if k > 0 {
      InOrderStarts(blocks[1..], b.addedStart + b.addedCount, k - 1);
      forall j | k < j < |blocks| ensures blocks[k].removedStart < blocks[j].removedStart {
        assert blocks[1..][k - 1] == blocks[k] && blocks[1..][j - 1] == blocks[j];
      }
    }
  }

  lemma {:induction false} BlocksInOrder<T>(current: seq<T>, placed: seq<Hunk<T>>, ds: seq<Decision>, at: nat, pos: nat)
    requires Ordered(current, placed, at) && |ds| == |placed| && Changes(placed)
    ensures InOrder(OpenBlocks(current, placed, ds, at, pos), pos)
    ensures |OpenBlocks(current, placed, ds, at, pos)| == OpenCount(ds)
    decreases |placed|
  {
    if placed != [] {
      var h, start := placed[0], pos + placed[0].oldStart - at;
      var next := start + |Segment(h, ds[0])|;
      BlocksInOrder(current, placed[1..], ds[1..], h.OldEnd(), next);
      var rest := OpenBlocks(current, placed[1..], ds[1..], h.OldEnd(), next);
      if ds[0].Open? {
        var b := Block(start, |h.oldLines|, start + |h.oldLines|, |h.newLines|);
        assert ([b] + rest)[1..] == rest;
      } else {
        InOrderEarlier(rest, next, pos);
      }
    }
  }

  lemma InOrderEarlier(blocks: seq<Block>, from: int, earlier: int)
    requires InOrder(blocks, from) && earlier <= from
    ensures InOrder(blocks, earlier)
  {
  }

  ghost function MovedAll(blocks: seq<Block>, lines: int): seq<Block> {
    if blocks == [] then [] else [Moved(blocks[0], lines)] + MovedAll(blocks[1..], lines)
  }

  /** The blocks that remain after one is resolved by deleting `count` lines, for blocks in order. */
  ghost function Rest(blocks: seq<Block>, index: nat, count: int): seq<Block>
    requires index < |blocks|
  {
    if index == 0 then MovedAll(blocks[1..], -count)
    else [blocks[0]] + Rest(blocks[1..], index - 1, count)
  }

  lemma {:induction false} MovedAllAt(blocks: seq<Block>, lines: int)
    ensures |MovedAll(blocks, lines)| == |blocks|
    ensures forall k | 0 <= k < |blocks| :: MovedAll(blocks, lines)[k] == Moved(blocks[k], lines)
  {
    if blocks != [] { MovedAllAt(blocks[1..], lines); }
  }

  lemma {:induction false} RestAt(blocks: seq<Block>, index: nat, count: int)
    requires index < |blocks|
    ensures |Rest(blocks, index, count)| == |blocks| - 1
    ensures forall k | 0 <= k < index :: Rest(blocks, index, count)[k] == blocks[k]
    ensures forall k | index <= k < |blocks| - 1 :: Rest(blocks, index, count)[k] == Moved(blocks[k + 1], -count)
  {
    if index == 0 {
      MovedAllAt(blocks[1..], -count);
    } else {
      RestAt(blocks[1..], index - 1, count);
      var rest := Rest(blocks[1..], index - 1, count);
      assert forall k | 0 < k <= |rest| :: Rest(blocks, index, count)[k] == rest[k - 1];
      assert forall k | 0 < k < |blocks| :: blocks[1..][k - 1] == blocks[k];
    }
  }

  /** For blocks in order, the test on `removedStart` picks out exactly the blocks further down the list. */
  lemma ResolveIsRest(blocks: seq<Block>, index: nat, choice: Choice, from: int)
    requires index < |blocks| && InOrder(blocks, from)
    ensures var b, r := blocks[index], ResolveBlock(blocks, index, choice);
      DeletesAt(b, choice, r.deleteStart, r.deleteCount) && r.blocks == Rest(blocks, index, r.deleteCount)
  {
    var r := ResolveBlock(blocks, index, choice);
    RestAt(blocks, index, r.deleteCount);
    var rest := blocks[..index] + blocks[index + 1..];
    InOrderStarts(blocks, from, index);
    forall k | 0 <= k < |rest| ensures r.blocks[k] == Rest(blocks, index, r.deleteCount)[k] {
      if k < index {
        InOrderStarts(blocks, from, k);
        assert rest[k] == blocks[k];
      } else {
        assert rest[k] == blocks[k + 1];
      }
    }
  }

  /** Moving everything above by some lines moves the blocks and nothing else. */
  lemma {:induction false} OpenBlocksMoved<T>(
    current: seq<T>, placed: seq<Hunk<T>>, ds: seq<Decision>, at: nat, pos: nat, up: nat)
    requires Ordered(current, placed, at) && |ds| == |placed| && up <= pos
    ensures OpenBlocks(current, placed, ds, at, pos - up) == MovedAll(OpenBlocks(current, placed, ds, at, pos), 0 - up)
    decreases |placed|
  {
    if placed != [] {
      var h, start := placed[0], pos + placed[0].oldStart - at;
      var next := start + |Segment(h, ds[0])|;
      OpenBlocksMoved(current, placed[1..], ds[1..], h.OldEnd(), next, up);
      var rest := OpenBlocks(current, placed[1..], ds[1..], h.OldEnd(), next);
      if ds[0].Open? {
        var b := Block(start, |h.oldLines|, start + |h.oldLines|, |h.newLines|);
        assert ([b] + rest)[1..] == rest;
      }
    }
  }

  // ---- One decision ----

  /** Where a decision deletes, as `resolveBlock` gives it. */
  ghost predicate DeletesAt(b: Block, choice: Choice, start: int, count: int) {
    && start == (if choice == Accept then b.removedStart else b.addedStart)
    && count == (if choice == Accept then b.removedCount else b.addedCount)
  }

  lemma DeleteInside<T>(x: seq<T>, y: seq<T>, z: seq<T>, start: int, count: int)
    requires |x| <= start <= start + count <= |x| + |y|
    ensures DeleteLines(x + y + z, start, count) == x + DeleteLines(y, start - |x|, count) + z
  {
  }

  lemma DeleteAfter<T>(x: seq<T>, y: seq<T>, start: int, count: int)
    requires |x| <= start <= start + count <= |x| + |y|
    ensures DeleteLines(x + y, start, count) == x + DeleteLines(y, start - |x|, count)
  {
  }

  /** Deleting the red lines of an open change leaves it accepted, the green ones rejected. */
  lemma SegmentDecided<T>(gap: seq<T>, h: Hunk<T>, rest: seq<T>, choice: Choice)
    ensures var start := |gap| + if choice == Accept then 0 else |h.oldLines|;
      var count := if choice == Accept then |h.oldLines| else |h.newLines|;
      DeleteLines(gap + Segment(h, Open) + rest, start, count) == gap + Segment(h, Decided(choice)) + rest
  {
    var start := |gap| + if choice == Accept then 0 else |h.oldLines|;
    var count := if choice == Accept then |h.oldLines| else |h.newLines|;
    DeleteInside(gap, h.oldLines + h.newLines, rest, start, count);
  }

  lemma FirstOpenDecided<T>(
    current: seq<T>, placed: seq<Hunk<T>>, ds: seq<Decision>, at: nat, pos: nat, choice: Choice, start: int, count: int)
    requires Ordered(current, placed, at) && |ds| == |placed| && placed != [] && ds[0].Open?
    requires DeletesAt(OpenBlocks(current, placed, ds, at, pos)[0], choice, start, count)
    ensures pos <= start <= start + count <= pos + |Buffer(current, placed, ds, at)|
    ensures Buffer(current, placed, [Decided(choice)] + ds[1..], at)
      == DeleteLines(Buffer(current, placed, ds, at), start - pos, count)
  {
    var h := placed[0];
    var ds' := [Decided(choice)] + ds[1..];
    assert ds'[1..] == ds[1..];
    assert OpenBlocks(current, placed, ds, at, pos)[0]
      == Block(pos + h.oldStart - at, |h.oldLines|, pos + h.oldStart - at + |h.oldLines|, |h.newLines|);
    SegmentDecided(current[at..h.oldStart], h, Buffer(current, placed[1..], ds[1..], h.OldEnd()), choice);
  }

  /** The deletion of one decision turns the buffer into the buffer of the new decisions. */
  lemma {:induction false} BufferDecided<T>(
    current: seq<T>, placed: seq<Hunk<T>>, ds: seq<Decision>, at: nat, pos: nat, i: nat, choice: Choice, start: int, count: int)
    requires Ordered(current, placed, at) && |ds| == |placed| && i < OpenCount(ds)
    requires i < |OpenBlocks(current, placed, ds, at, pos)|
    requires DeletesAt(OpenBlocks(current, placed, ds, at, pos)[i], choice, start, count)
    ensures pos <= start <= start + count <= pos + |Buffer(current, placed, ds, at)|
    ensures Buffer(current, placed, Decide(ds, i, choice), at) == DeleteLines(Buffer(current, placed, ds, at), start - pos, count)
    decreases |placed|
  {
    if ds[0].Open? && i == 0 {
      FirstOpenDecided(current, placed, ds, at, pos, choice, start, count);
    } else {
      var h, next := placed[0], pos + placed[0].oldStart - at + |Segment(placed[0], ds[0])|;
      var i' := if ds[0].Open? then i - 1 else i;
      BufferDecided(current, placed[1..], ds[1..], h.OldEnd(), next, i', choice, start, count);
      FirstUntouched(current, placed, ds, Decide(ds[1..], i', choice), at, pos, next, start, count);
    }
  }

  lemma FirstUntouched<T>(
    current: seq<T>, placed: seq<Hunk<T>>, ds: seq<Decision>, rest': seq<Decision>, at: nat, pos: nat, next: nat, start: int, count: int)
    requires Ordered(current, placed, at) && placed != [] && |ds| == |placed| == |rest'| + 1
    requires next == pos + placed[0].oldStart - at + |Segment(placed[0], ds[0])|
    requires next <= start <= start + count <= next + |Buffer(current, placed[1..], ds[1..], placed[0].OldEnd())|
    requires Buffer(current, placed[1..], rest', placed[0].OldEnd())
      == DeleteLines(Buffer(current, placed[1..], ds[1..], placed[0].OldEnd()), start - next, count)
    ensures start + count <= pos + |Buffer(current, placed, ds, at)|
    ensures Buffer(current, placed, [ds[0]] + rest', at) == DeleteLines(Buffer(current, placed, ds, at), start - pos, count)
  {
    var before := current[at..placed[0].oldStart] + Segment(placed[0], ds[0]);
    DeleteAfter(before, Buffer(current, placed[1..], ds[1..], placed[0].OldEnd()), start - pos, count);
    assert ([ds[0]] + rest')[1..] == rest';
  }

  lemma {:induction false} BlocksDecided<T>(
    current: seq<T>, placed: seq<Hunk<T>>, ds: seq<Decision>, at: nat, pos: nat, i: nat, choice: Choice, start: int, count: int)
    requires Ordered(current, placed, at) && |ds| == |placed| && Changes(placed) && i < OpenCount(ds)
    requires i < |OpenBlocks(current, placed, ds, at, pos)|
    requires DeletesAt(OpenBlocks(current, placed, ds, at, pos)[i], choice, start, count)
    ensures OpenBlocks(current, placed, Decide(ds, i, choice), at, pos)
      == Rest(OpenBlocks(current, placed, ds, at, pos), i, count)
    decreases |placed|
  {
    var h, from := placed[0], pos + placed[0].oldStart - at;
    var next := from + |Segment(h, ds[0])|;
    var tail := OpenBlocks(current, placed[1..], ds[1..], h.OldEnd(), next);
    var b := Block(from, |h.oldLines|, from + |h.oldLines|, |h.newLines|);
    assert ([b] + tail)[1..] == tail;
    if ds[0].Open? && i == 0 {
      assert Decide(ds, i, choice)[1..] == ds[1..];
      OpenBlocksMoved(current, placed[1..], ds[1..], h.OldEnd(), next, count);
    } else {
      var i' := if ds[0].Open? then i - 1 else i;
      BlocksDecided(current, placed[1..], ds[1..], h.OldEnd(), next, i', choice, start, count);
      assert Decide(ds, i, choice)[1..] == Decide(ds[1..], i', choice);
    }
  }

  // ---- The state of a review, and runs of decisions ----

  datatype Review<T> = Review(buffer: seq<T>, blocks: seq<Block>)

  ghost predicate Placeable<T>(current: seq<T>, placed: seq<Hunk<T>>) {
    Ordered(current, placed, 0) && Stand(current, placed) && Changes(placed)
  }

  /** What buffer and blocks are when the changes stand as `ds` says. */
  ghost function ReviewAt<T>(current: seq<T>, placed: seq<Hunk<T>>, ds: seq<Decision>): Review<T>
    requires Ordered(current, placed, 0) && |ds| == |placed|
  {
    Review(Buffer(current, placed, ds, 0), OpenBlocks(current, placed, ds, 0, 0))
  }

  /** Block `i` can be resolved and its lines are there to delete. */
  ghost predicate CanStep<T>(r: Review<T>, i: nat, choice: Choice) {
    && i < |r.blocks|
    && var res := ResolveBlock(r.blocks, i, choice);
      0 <= res.deleteStart <= res.deleteStart + res.deleteCount <= |r.buffer|
  }

  /** One decision as the editor carries it out: resolve the block, delete its lines. */
  ghost function Step<T>(r: Review<T>, i: nat, choice: Choice): Review<T>
    requires CanStep(r, i, choice)
  {
    var res := ResolveBlock(r.blocks, i, choice);
    Review(DeleteLines(r.buffer, res.deleteStart, res.deleteCount), res.blocks)
  }

  lemma ResolvedBlocks<T>(current: seq<T>, placed: seq<Hunk<T>>, ds: seq<Decision>, i: nat, choice: Choice)
    requires Placeable(current, placed) && |ds| == |placed|
    requires i < |OpenBlocks(current, placed, ds, 0, 0)|
    ensures i < OpenCount(ds)
    ensures var blocks := OpenBlocks(current, placed, ds, 0, 0);
      var res := ResolveBlock(blocks, i, choice);
      && DeletesAt(blocks[i], choice, res.deleteStart, res.deleteCount)
      && res.blocks == OpenBlocks(current, placed, Decide(ds, i, choice), 0, 0)
  {
    var blocks := OpenBlocks(current, placed, ds, 0, 0);
    BlocksInOrder(current, placed, ds, 0, 0);
    ResolveIsRest(blocks, i, choice, 0);
    var res := ResolveBlock(blocks, i, choice);
    BlocksDecided(current, placed, ds, 0, 0, i, choice, res.deleteStart, res.deleteCount);
  }

  /** Every decision is possible and takes the review to where the new decisions put it. */
  lemma DecisionStep<T>(current: seq<T>, placed: seq<Hunk<T>>, ds: seq<Decision>, i: nat, choice: Choice)
    requires Placeable(current, placed) && |ds| == |placed|
    requires i < |OpenBlocks(current, placed, ds, 0, 0)|
    ensures i < OpenCount(ds)
    ensures CanStep(ReviewAt(current, placed, ds), i, choice)
    ensures Step(ReviewAt(current, placed, ds), i, choice) == ReviewAt(current, placed, Decide(ds, i, choice))
  {
    ResolvedBlocks(current, placed, ds, i, choice);
    var res := ResolveBlock(OpenBlocks(current, placed, ds, 0, 0), i, choice);
    BufferDecided(current, placed, ds, 0, 0, i, choice, res.deleteStart, res.deleteCount);
  }

  /** A run of decisions, each for the block at some position of the list as it then is. */
  ghost predicate Run<T>(r: Review<T>, steps: seq<(nat, Choice)>, r': Review<T>)
    decreases |steps|
  {
    if steps == [] then r' == r
    else
      var (i, choice) := steps[0];
      CanStep(r, i, choice) && Run(Step(r, i, choice), steps[1..], r')
  }

  /** The decisions a run leaves behind. */
  ghost function After(ds: seq<Decision>, steps: seq<(nat, Choice)>): (r: seq<Decision>)
    requires RunFits(ds, steps)
    ensures |r| == |ds|
    decreases |steps|
  {
    if steps == [] then ds else After(Decide(ds, steps[0].0, steps[0].1), steps[1..])
  }

  ghost predicate RunFits(ds: seq<Decision>, steps: seq<(nat, Choice)>)
    decreases |steps|
  {
    steps == [] || (steps[0].0 < OpenCount(ds) && RunFits(Decide(ds, steps[0].0, steps[0].1), steps[1..]))
  }

  /**
   * Decisions commute: after any run, in whatever order the blocks were decided, the buffer and the
   * blocks depend only on what was decided for each change.
   */
  lemma {:induction false} RunsDependOnDecisionsOnly<T>(
    current: seq<T>, placed: seq<Hunk<T>>, ds: seq<Decision>, steps: seq<(nat, Choice)>, r': Review<T>)
    requires Placeable(current, placed) && |ds| == |placed|
    requires Run(ReviewAt(current, placed, ds), steps, r')
    ensures RunFits(ds, steps) && r' == ReviewAt(current, placed, After(ds, steps))
    decreases |steps|
  {
    if steps != [] {
      var (i, choice) := steps[0];
      DecisionStep(current, placed, ds, i, choice);
      RunsDependOnDecisionsOnly(current, placed, Decide(ds, i, choice), steps[1..], r');
    }
  }

  // ---- Decisions, blocks and the accepted changes by their places ----

  /** A decision on the `i`-th open change decides the one change that is open with `i` open ones before it. */
  lemma {:induction false} DecideIsOne(ds: seq<Decision>, i: nat, choice: Choice) returns (c: nat)
    requires i < OpenCount(ds)
    ensures c < |ds| && ds[c].Open? && OpenCount(ds[..c]) == i
    ensures Decide(ds, i, choice) == ds[c := Decided(choice)]
  {
    if ds[0].Open? && i == 0 {
      c := 0;
    } else {
      var below := DecideIsOne(ds[1..], if ds[0].Open? then i - 1 else i, choice);
      c := below + 1;
      assert ds[..c][1..] == ds[1..][..below];
    }
  }

  /** The changes accepted are those decided so. */
  lemma {:induction false} AcceptedAreThose<T>(placed: seq<Hunk<T>>, ds: seq<Decision>) returns (places: seq<nat>)
    requires |ds| == |placed|
    ensures Picks(placed, places, Accepted(placed, ds))
    ensures forall c: nat | c < |ds| :: c in places <==> ds[c] == Decided(Accept)
  {
    if placed == [] {
      places := [];
    } else {
      var below := AcceptedAreThose(placed[1..], ds[1..]);
      places := AcceptedFirst(placed, ds, below);
    }
  }

  lemma AcceptedFirst<T>(placed: seq<Hunk<T>>, ds: seq<Decision>, below: seq<nat>) returns (places: seq<nat>)
    requires |ds| == |placed| && placed != [] && Picks(placed[1..], below, Accepted(placed[1..], ds[1..]))
    requires forall c: nat | c < |ds| - 1 :: c in below <==> ds[c + 1] == Decided(Accept)
    ensures Picks(placed, places, Accepted(placed, ds))
    ensures forall c: nat | c < |ds| :: c in places <==> ds[c] == Decided(Accept)
  {
    var rest := Accepted(placed[1..], ds[1..]);
    var shifted := PicksShifted(placed, below, rest);
    if ds[0] == Decided(Accept) {
      places := [0] + shifted;
    } else {
      places := shifted;
      assert [] + rest == rest;
    }
    forall c: nat | c < |ds| ensures c in places <==> ds[c] == Decided(Accept) {
      if c > 0 { assert c in places <==> c in shifted; }
    }
  }

  /** A block's red lines in a buffer are the old lines of a change, and its green lines the new ones. */
  ghost predicate Shows<T>(buffer: seq<T>, b: Block, h: Hunk<T>) {
    && 0 <= b.removedStart <= b.removedStart + b.removedCount <= |buffer|
    && 0 <= b.addedStart <= b.addedStart + b.addedCount <= |buffer|
    && buffer[b.removedStart..b.removedStart + b.removedCount] == h.oldLines
    && buffer[b.addedStart..b.addedStart + b.addedCount] == h.newLines
  }

  lemma ShowsFirst<T>(above: seq<T>, h: Hunk<T>, below: seq<T>)
    ensures Shows(above + (h.oldLines + h.newLines) + below,
      Block(|above|, |h.oldLines|, |above| + |h.oldLines|, |h.newLines|), h)
  {
    var buffer, added := above + (h.oldLines + h.newLines) + below, |above| + |h.oldLines|;
    assert buffer[|above|..added] == h.oldLines;
    assert buffer[added..added + |h.newLines|] == h.newLines;
  }

  lemma BesideSegment<T>(above: seq<T>, gap: seq<T>, segment: seq<T>, rest: seq<T>)
    ensures above + (gap + segment + rest) == above + gap + segment + rest
  {
  }

  /** The `i`-th block shows the change that a decision on it decides. */
  lemma {:induction false} BlockShowsChange<T>(
    current: seq<T>, placed: seq<Hunk<T>>, ds: seq<Decision>, at: nat, pos: nat, above: seq<T>, c: nat)
    requires Ordered(current, placed, at) && |ds| == |placed| && |above| == pos && c < |ds| && ds[c].Open?
    ensures var blocks, i := OpenBlocks(current, placed, ds, at, pos), OpenCount(ds[..c]);
      i < |blocks| && Shows(above + Buffer(current, placed, ds, at), blocks[i], placed[c])
    decreases |placed|
  {
    var h := placed[0];
    var before := above + current[at..h.oldStart];
    var rest := Buffer(current, placed[1..], ds[1..], h.OldEnd());
    BesideSegment(above, current[at..h.oldStart], Segment(h, ds[0]), rest);
    if c == 0 {
      ShowsFirst(before, h, rest);
      assert ds[..0] == [];
    } else {
      BlockShowsChange(current, placed[1..], ds[1..], h.OldEnd(), |before| + |Segment(h, ds[0])|, before + Segment(h, ds[0]), c - 1);
      assert ds[..c][1..] == ds[1..][..c - 1];
    }
  }

  // ---- What the decided file is ----

  lemma {:induction false} AcceptedOrdered<T>(current: seq<T>, placed: seq<Hunk<T>>, ds: seq<Decision>, at: nat)
    requires Ordered(current, placed, at) && |ds| == |placed|
    ensures Ordered(current, Accepted(placed, ds), at)
    decreases |placed|
  {
    if placed != [] {
      var h, rest := placed[0], Accepted(placed[1..], ds[1..]);
      AcceptedOrdered(current, placed[1..], ds[1..], h.OldEnd());
      if ds[0] == Decided(Accept) {
        assert ([h] + rest)[1..] == rest;
      } else {
        OrderedFromEarlier(current, rest, at, h.OldEnd());
        assert [] + rest == rest;
      }
    }
  }

  lemma Regroup<T>(w: seq<T>, x: seq<T>, y: seq<T>, z: seq<T>)
    ensures (w + x) + y + z == w + (x + y + z)
  {
  }

  lemma CutAt<T>(lines: seq<T>, i: nat, j: nat, k: nat)
    requires i <= j <= k <= |lines|
    ensures lines[i..k] == lines[i..j] + lines[j..k]
  {
  }

  lemma SpliceFromEarlier<T>(lines: seq<T>, hs: seq<Hunk<T>>, at: nat, at': nat)
    requires Ordered(lines, hs, at') && at <= at' && Ordered(lines, hs, at)
    ensures at' <= |lines| && Splice(lines, hs, at) == lines[at..at'] + Splice(lines, hs, at')
  {
    if hs == [] {
      CutAt(lines, at, at', |lines|);
    } else {
      OrderedInside(lines, hs[1..], hs[0].OldEnd());
      var s := hs[0].oldStart;
      CutAt(lines, at, at', s);
      Regroup(lines[at..at'], lines[at'..s], hs[0].newLines, Splice(lines, hs[1..], hs[0].OldEnd()));
    }
  }

  lemma {:induction false} OrderedInside<T>(lines: seq<T>, hs: seq<Hunk<T>>, at: nat)
    requires Ordered(lines, hs, at)
    ensures at <= |lines|
  {
  }

  /** With every change decided, the buffer is the developer's file with exactly the accepted changes made. */
  lemma {:induction false} DecidedIsSplice<T>(current: seq<T>, placed: seq<Hunk<T>>, ds: seq<Decision>, at: nat)
    requires Ordered(current, placed, at) && Stand(current, placed) && |ds| == |placed| && OpenCount(ds) == 0
    ensures Ordered(current, Accepted(placed, ds), at)
    ensures Buffer(current, placed, ds, at) == Splice(current, Accepted(placed, ds), at)
    decreases |placed|
  {
    AcceptedOrdered(current, placed, ds, at);
    if placed != [] {
      var h, rest := placed[0], Accepted(placed[1..], ds[1..]);
      assert Stand(current, placed[1..]) by {
        assert forall k | 0 <= k < |placed[1..]| :: placed[1..][k] == placed[k + 1];
      }
      DecidedIsSplice(current, placed[1..], ds[1..], h.OldEnd());
      if ds[0] == Decided(Accept) {
        assert ([h] + rest)[1..] == rest;
      } else {
        assert [] + rest == rest;
        SpliceFromEarlier(current, rest, at, h.OldEnd());
        assert current[at..h.OldEnd()] == current[at..h.oldStart] + h.oldLines;
      }
    }
  }

  lemma {:induction false} RejectOpenDecides(ds: seq<Decision>)
    ensures OpenCount(RejectOpen(ds)) == 0
  {
    if ds != [] {
      RejectOpenDecides(ds[1..]);
      assert RejectOpen(ds)[1..] == RejectOpen(ds[1..]);
    }
  }

  // ---- decidedText gives that file at every moment ----

  lemma {:induction false} KeptConcat<T>(x: seq<T>, y: seq<T>, drop: set<int>, at: nat)
    ensures Kept(x + y, drop, at) == Kept(x, drop, at) + Kept(y, drop, at + |x|)
  {
    if x == [] {
      assert x + y == y;
    } else {
      assert (x + y)[1..] == x[1..] + y;
      KeptConcat(x[1..], y, drop, at + 1);
    }
  }

  lemma {:induction false} KeptAll<T>(x: seq<T>, drop: set<int>, at: nat)
    requires forall n | at <= n < at + |x| :: n !in drop
    ensures Kept(x, drop, at) == x
  {
    if x != [] { KeptAll(x[1..], drop, at + 1); }
  }

  lemma {:induction false} KeptNone<T>(x: seq<T>, drop: set<int>, at: nat)
    requires forall n | at <= n < at + |x| :: n in drop
    ensures Kept(x, drop, at) == []
  {
    if x != [] { KeptNone(x[1..], drop, at + 1); }
  }

  lemma {:induction false} KeptSame<T>(x: seq<T>, drop: set<int>, drop': set<int>, at: nat)
    requires forall n | at <= n :: n in drop <==> n in drop'
    ensures Kept(x, drop, at) == Kept(x, drop', at)
  {
    if x != [] { KeptSame(x[1..], drop, drop', at + 1); }
  }

  lemma {:induction false} GreenBelow(blocks: seq<Block>, from: int)
    requires InOrder(blocks, from)
    ensures forall n | n in GreenLines(blocks) :: n >= from
    decreases |blocks|
  {
    if blocks != [] { GreenBelow(blocks[1..], blocks[0].addedStart + blocks[0].addedCount); }
  }

  /** An open change keeps its red lines and loses its green ones. */
  lemma KeptSegment<T>(h: Hunk<T>, d: Decision, drop: set<int>, at: nat)
    requires forall n | at <= n < at + |Segment(h, d)| :: n in drop <==> d.Open? && n >= at + |h.oldLines|
    ensures Kept(Segment(h, d), drop, at) == Segment(h, if d.Open? then Decided(Reject) else d)
  {
    if d.Open? {
      KeptConcat(h.oldLines, h.newLines, drop, at);
      KeptAll(h.oldLines, drop, at);
      KeptNone(h.newLines, drop, at + |h.oldLines|);
    } else {
      KeptAll(Segment(h, d), drop, at);
    }
  }

  /** Which lines are green: none before the first change, its new lines if it is open, and those further down. */
  lemma GreenOfFirst<T>(
    current: seq<T>, placed: seq<Hunk<T>>, ds: seq<Decision>, at: nat, pos: nat, start: nat, next: nat, drop: set<int>)
    requires Ordered(current, placed, at) && |ds| == |placed| && Changes(placed) && placed != []
    requires start == pos + placed[0].oldStart - at && next == start + |Segment(placed[0], ds[0])|
    requires forall n | n >= pos :: n in drop <==> n in GreenLines(OpenBlocks(current, placed, ds, at, pos))
    ensures forall n | pos <= n < start :: n !in drop
    ensures forall n | start <= n < next :: n in drop <==> ds[0].Open? && n >= start + |placed[0].oldLines|
    ensures forall n | next <= n :: n in drop <==>
      n in GreenLines(OpenBlocks(current, placed[1..], ds[1..], placed[0].OldEnd(), next))
  {
    var h := placed[0];
    var tail := OpenBlocks(current, placed[1..], ds[1..], h.OldEnd(), next);
    BlocksInOrder(current, placed[1..], ds[1..], h.OldEnd(), next);
    GreenBelow(tail, next);
    if ds[0].Open? {
      var b := Block(start, |h.oldLines|, start + |h.oldLines|, |h.newLines|);
      assert ([b] + tail)[1..] == tail;
      assert GreenLines([b] + tail) == Span(b.addedStart, b.addedCount) + GreenLines(tail);
    }
  }

  lemma {:induction false} KeptBuffer<T>(
    current: seq<T>, placed: seq<Hunk<T>>, ds: seq<Decision>, at: nat, pos: nat, drop: set<int>)
    requires Ordered(current, placed, at) && |ds| == |placed| && Changes(placed)
    requires forall n | n >= pos :: n in drop <==> n in GreenLines(OpenBlocks(current, placed, ds, at, pos))
    ensures Kept(Buffer(current, placed, ds, at), drop, pos) == Buffer(current, placed, RejectOpen(ds), at)
    decreases |placed|
  {
    if placed == [] {
      KeptAll(current[at..], drop, pos);
    } else {
      var h, start := placed[0], pos + placed[0].oldStart - at;
      var gap, seg := current[at..h.oldStart], Segment(h, ds[0]);
      var rest := Buffer(current, placed[1..], ds[1..], h.OldEnd());
      GreenOfFirst(current, placed, ds, at, pos, start, start + |seg|, drop);
      KeptParts(gap, h, ds[0], rest, drop, pos);
      KeptBuffer(current, placed[1..], ds[1..], h.OldEnd(), start + |seg|, drop);
      assert RejectOpen(ds)[1..] == RejectOpen(ds[1..]);
      assert Buffer(current, placed, RejectOpen(ds), at)
        == gap + Segment(h, RejectOpen(ds)[0]) + Buffer(current, placed[1..], RejectOpen(ds[1..]), h.OldEnd());
    }
  }

  lemma KeptParts<T>(gap: seq<T>, h: Hunk<T>, d: Decision, rest: seq<T>, drop: set<int>, pos: nat)
    requires forall n | pos <= n < pos + |gap| :: n !in drop
    requires var start := pos + |gap|;
      forall n | start <= n < start + |Segment(h, d)| :: n in drop <==> d.Open? && n >= start + |h.oldLines|
    ensures Kept(gap + Segment(h, d) + rest, drop, pos) ==
      gap + Segment(h, if d.Open? then Decided(Reject) else d) + Kept(rest, drop, pos + |gap| + |Segment(h, d)|)
  {
    var seg := Segment(h, d);
    KeptConcat(gap + seg, rest, drop, pos);
    KeptConcat(gap, seg, drop, pos);
    KeptAll(gap, drop, pos);
    KeptSegment(h, d, drop, pos + |gap|);
  }

  /** At every moment, the decided text is the developer's file with exactly the changes accepted so far. */
  lemma DecidedLinesAreAccepted<T>(current: seq<T>, placed: seq<Hunk<T>>, ds: seq<Decision>)
    requires Placeable(current, placed) && |ds| == |placed|
    ensures var r := ReviewAt(current, placed, ds);
      && Ordered(current, Accepted(placed, ds), 0)
      && DecidedLines(r.buffer, r.blocks) == Splice(current, Accepted(placed, ds), 0)
      && DecidedLines(r.buffer, r.blocks) == Buffer(current, placed, RejectOpen(ds), 0)
  {
    KeptBuffer(current, placed, ds, 0, 0, GreenLines(OpenBlocks(current, placed, ds, 0, 0)));
    RejectOpenDecides(ds);
    DecidedIsSplice(current, placed, RejectOpen(ds), 0);
    AcceptedRejected(placed, ds);
    AcceptedOrdered(current, placed, ds, 0);
  }

  lemma {:induction false} AcceptedRejected<T>(placed: seq<Hunk<T>>, ds: seq<Decision>)
    requires |ds| == |placed|
    ensures Accepted(placed, RejectOpen(ds)) == Accepted(placed, ds)
  {
    if placed != [] {
      AcceptedRejected(placed[1..], ds[1..]);
      assert RejectOpen(ds)[1..] == RejectOpen(ds[1..]);
    }
  }
}
