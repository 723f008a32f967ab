/** The line diff of inline-review.ts: an LCS table over the differing middle, grouped into hunks. */
module LineDiff {
  import opened Options
  import opened EditScripts

  /** A contiguous change. Positions are 0-based line numbers in the old and in the new file. */
  datatype Hunk<T> = Hunk(oldStart: nat, newStart: nat, oldLines: seq<T>, newLines: seq<T>) {
    function OldEnd(): nat { oldStart + |oldLines| }
    function NewEnd(): nat { newStart + |newLines| }
    function Reversed(): Hunk<T> { Hunk(newStart, oldStart, newLines, oldLines) }
  }

  newtype uint32 = x: int | 0 <= x < 0x1_0000_0000

  const MAX_CELLS: nat := 4_000_000

  // ---- What a list of hunks must be ----

  /**
   * `hs` says how `a` from line `i` on differs from `b` from line `j` on: between hunks the files agree,
   * every hunk changes something, and two hunks have at least one common line between them.
   */
  ghost predicate Describes<T>(a: seq<T>, b: seq<T>, hs: seq<Hunk<T>>, i: nat, j: nat)
    decreases |hs|
  {
    if hs == [] then i <= |a| && j <= |b| && a[i..] == b[j..]
    else
      var h := hs[0];
      && i <= h.oldStart && h.OldEnd() <= |a|
      && j <= h.newStart && h.NewEnd() <= |b|
      && a[i..h.oldStart] == b[j..h.newStart]
      && a[h.oldStart..h.OldEnd()] == h.oldLines
      && b[h.newStart..h.NewEnd()] == h.newLines
      && (h.oldLines != [] || h.newLines != [])
      && (|hs| > 1 ==> h.OldEnd() < hs[1].oldStart)
      && Describes(a, b, hs[1..], h.OldEnd(), h.NewEnd())
  }

  /** The hunks start at or after line `at`, in order, and stay inside `lines`. */
  ghost predicate Ordered<T>(lines: seq<T>, hs: seq<Hunk<T>>, at: nat)
    decreases |hs|
  {
    if hs == [] then at <= |lines|
    else at <= hs[0].oldStart && hs[0].OldEnd() <= |lines| && Ordered(lines, hs[1..], hs[0].OldEnd())
  }

  /** `lines` from line `at` on, with each hunk's old lines replaced by its new ones. */
  ghost function Splice<T>(lines: seq<T>, hs: seq<Hunk<T>>, at: nat): seq<T>
    requires Ordered(lines, hs, at)
    decreases |hs|
  {
    if hs == [] then lines[at..]
    else lines[at..hs[0].oldStart] + hs[0].newLines + Splice(lines, hs[1..], hs[0].OldEnd())
  }

  ghost function Reverse<T>(hs: seq<Hunk<T>>): seq<Hunk<T>> {
    seq(|hs|, k requires 0 <= k < |hs| => hs[k].Reversed())
  }

  /** Lines deleted plus lines inserted. */
  ghost function HunksCost<T>(hs: seq<Hunk<T>>): nat {
    if hs == [] then 0 else |hs[0].oldLines| + |hs[0].newLines| + HunksCost(hs[1..])
  }

  ghost function OldCount<T>(hs: seq<Hunk<T>>): nat {
    if hs == [] then 0 else |hs[0].oldLines| + OldCount(hs[1..])
  }

  lemma {:induction false} DescribesOrdered<T>(a: seq<T>, b: seq<T>, hs: seq<Hunk<T>>, i: nat, j: nat)
    requires Describes(a, b, hs, i, j)
    ensures Ordered(a, hs, i)
    decreases |hs|
  {
    if hs != [] { DescribesOrdered(a, b, hs[1..], hs[0].OldEnd(), hs[0].NewEnd()); }
  }

  /** Replacing every hunk's old lines by its new ones turns the old file into the new one. */
  lemma {:induction false} SpliceReaches<T>(a: seq<T>, b: seq<T>, hs: seq<Hunk<T>>, i: nat, j: nat)
    requires Describes(a, b, hs, i, j)
    ensures j <= |b| && Ordered(a, hs, i) && Splice(a, hs, i) == b[j..]
    decreases |hs|
  {
    if hs != [] {
      var h := hs[0];
      SpliceReaches(a, b, hs[1..], h.OldEnd(), h.NewEnd());
      assert b[j..] == b[j..h.newStart] + b[h.newStart..h.NewEnd()] + b[h.NewEnd()..];
    }
  }

  /** Read backwards, the hunks describe the way back. */
  lemma {:induction false} DescribesBackwards<T>(a: seq<T>, b: seq<T>, hs: seq<Hunk<T>>, i: nat, j: nat)
    requires Describes(a, b, hs, i, j)
    ensures Describes(b, a, Reverse(hs), j, i)
    decreases |hs|
  {
    if hs != [] {
      var h := hs[0];
      DescribesBackwards(a, b, hs[1..], h.OldEnd(), h.NewEnd());
      assert Reverse(hs)[1..] == Reverse(hs[1..]);
      if |hs| > 1 {
        var g := hs[1..][0];
        assert |a[h.OldEnd()..g.oldStart]| == |b[h.NewEnd()..g.newStart]|;
      }
    }
  }

  /** One more common line in front changes nothing. */
  lemma DescribesAfterCommonLine<T>(a: seq<T>, b: seq<T>, hs: seq<Hunk<T>>, i: nat, j: nat)
    requires i < |a| && j < |b| && a[i] == b[j]
    requires Describes(a, b, hs, i + 1, j + 1)
    ensures Describes(a, b, hs, i, j)
  {
    if hs == [] {
      assert a[i..] == [a[i]] + a[i + 1..] && b[j..] == [b[j]] + b[j + 1..];
    } else {
      var h := hs[0];
      assert a[i..h.oldStart] == [a[i]] + a[i + 1..h.oldStart];
      assert b[j..h.newStart] == [b[j]] + b[j + 1..h.newStart];
    }
  }

  // ---- The walk over the table, as a script and as hunks ----

  /** The script the walk follows: keep equal heads; otherwise insert first unless deleting keeps more. */
  ghost function Walk<T>(a: seq<T>, b: seq<T>): seq<Edit<T>>
    decreases |a| + |b|
  {
    if a == [] && b == [] then []
    else if a != [] && b != [] && a[0] == b[0] then [Keep(a[0])] + Walk(a[1..], b[1..])
    else if b != [] && (a == [] || Lcs(a, b[1..]) >= Lcs(a[1..], b)) then [Insert(b[0])] + Walk(a, b[1..])
    else [Delete(a[0])] + Walk(a[1..], b)
  }

  /** The walk's script turns `a` into `b` and keeps a longest common subsequence. */
  lemma {:induction false} WalkIsOptimal<T>(a: seq<T>, b: seq<T>)
    ensures Source(Walk(a, b)) == a && Target(Walk(a, b)) == b
    ensures Cost(Walk(a, b)) + 2 * Lcs(a, b) == |a| + |b|
    decreases |a| + |b|
  {
    if a == [] && b == [] {
    } else if a != [] && b != [] && a[0] == b[0] {
      WalkIsOptimal(a[1..], b[1..]);
      assert Walk(a, b)[1..] == Walk(a[1..], b[1..]);
    } else if b != [] && (a == [] || Lcs(a, b[1..]) >= Lcs(a[1..], b)) {
      WalkIsOptimal(a, b[1..]);
      assert Walk(a, b)[1..] == Walk(a, b[1..]);
    } else {
      WalkIsOptimal(a[1..], b);
      assert Walk(a, b)[1..] == Walk(a[1..], b);
    }
  }

  /** The hunk being collected: the open one, or a new one starting here. */
  function Opened<T>(cur: Option<Hunk<T>>, i: nat, j: nat): Hunk<T> {
    if cur.Some? then cur.value else Hunk(i, j, [], [])
  }

  function Closed<T>(cur: Option<Hunk<T>>): seq<Hunk<T>> {
    if cur.Some? then [cur.value] else []
  }

  /** Runs of deletions and insertions, each run one hunk; a kept line ends a run. */
  ghost function Group<T>(es: seq<Edit<T>>, i: nat, j: nat, cur: Option<Hunk<T>>): seq<Hunk<T>>
    decreases |es|
  {
    if es == [] then Closed(cur)
    else
      match es[0]
      case Keep(_) => Closed(cur) + Group(es[1..], i + 1, j + 1, None)
      case Insert(x) =>
        var h := Opened(cur, i, j);
        Group(es[1..], i, j + 1, Some(h.(newLines := h.newLines + [x])))
      case Delete(x) =>
        var h := Opened(cur, i, j);
        Group(es[1..], i + 1, j, Some(h.(oldLines := h.oldLines + [x])))
  }

  /** The hunk collected so far covers the changed lines just before line `i` of `a` and line `j` of `b`. */
  ghost predicate Collects<T>(a: seq<T>, b: seq<T>, cur: Option<Hunk<T>>, i: nat, j: nat)
    requires i <= |a| && j <= |b|
  {
    cur.Some? ==>
      var h := cur.value;
      && h.OldEnd() == i && h.NewEnd() == j
      && a[h.oldStart..i] == h.oldLines && b[h.newStart..j] == h.newLines
      && (h.oldLines != [] || h.newLines != [])
  }

  lemma CollectInsert<T>(a: seq<T>, b: seq<T>, cur: Option<Hunk<T>>, i: nat, j: nat)
    requires i <= |a| && j < |b| && Collects(a, b, cur, i, j)
    ensures var h := Opened(cur, i, j);
      Collects(a, b, Some(h.(newLines := h.newLines + [b[j]])), i, j + 1)
  {
    var h := Opened(cur, i, j);
    assert b[h.newStart..j + 1] == b[h.newStart..j] + [b[j]];
  }

  lemma CollectDelete<T>(a: seq<T>, b: seq<T>, cur: Option<Hunk<T>>, i: nat, j: nat)
    requires i < |a| && j <= |b| && Collects(a, b, cur, i, j)
    ensures var h := Opened(cur, i, j);
      Collects(a, b, Some(h.(oldLines := h.oldLines + [a[i]])), i + 1, j)
  {
    var h := Opened(cur, i, j);
    assert a[h.oldStart..i + 1] == a[h.oldStart..i] + [a[i]];
  }

  /** Grouping any script that turns the rest of `a` into the rest of `b`, up to a common tail, describes the change. */
  lemma {:induction false} GroupDescribes<T>(
    a: seq<T>, b: seq<T>, es: seq<Edit<T>>, tail: seq<T>, i: nat, j: nat, cur: Option<Hunk<T>>)
    requires i <= |a| && j <= |b| && a[i..] == Source(es) + tail && b[j..] == Target(es) + tail
    requires Collects(a, b, cur, i, j)
    ensures var h := Opened(cur, i, j); Describes(a, b, Group(es, i, j, cur), h.oldStart, h.newStart)
    decreases |es|
  {
    if es == [] {
      assert a[i..] == tail == b[j..];
      if cur.Some? { assert Group(es, i, j, cur)[1..] == []; }
    } else {
      match es[0]
      case Keep(x) => GroupKeep(a, b, es, tail, i, j, cur);
      case Insert(x) =>
        var h := Opened(cur, i, j);
        HeadLine(b, j, Target(es[1..]) + tail, x);
        CollectInsert(a, b, cur, i, j);
        GroupDescribes(a, b, es[1..], tail, i, j + 1, Some(h.(newLines := h.newLines + [x])));
      case Delete(x) =>
        var h := Opened(cur, i, j);
        HeadLine(a, i, Source(es[1..]) + tail, x);
        CollectDelete(a, b, cur, i, j);
        GroupDescribes(a, b, es[1..], tail, i + 1, j, Some(h.(oldLines := h.oldLines + [x])));
    }
  }

  lemma KeepHead<T>(es: seq<Edit<T>>, tail: seq<T>)
    requires es != [] && es[0].Keep?
    ensures Source(es) + tail == [es[0].line] + (Source(es[1..]) + tail)
    ensures Target(es) + tail == [es[0].line] + (Target(es[1..]) + tail)
  {
    KeptThenTail([es[0].line], Source(es[1..]), tail);
    KeptThenTail([es[0].line], Target(es[1..]), tail);
  }

  lemma KeptThenTail<T>(x: seq<T>, y: seq<T>, z: seq<T>)
    ensures (x + y) + z == x + (y + z)
  {
  }

  lemma HeadLine<T>(a: seq<T>, i: nat, rest: seq<T>, x: T)
    requires i <= |a| && (a[i..] == [x] + rest)
    ensures i < |a| && a[i] == x && a[i + 1..] == rest
  {
    assert a[i..][0] == x;
    assert a[i + 1..] == a[i..][1..];
  }

  lemma {:induction false} GroupKeep<T>(
    a: seq<T>, b: seq<T>, es: seq<Edit<T>>, tail: seq<T>, i: nat, j: nat, cur: Option<Hunk<T>>)
    requires es != [] && es[0].Keep?
    requires i <= |a| && j <= |b| && a[i..] == Source(es) + tail && b[j..] == Target(es) + tail
    requires Collects(a, b, cur, i, j)
    ensures var h := Opened(cur, i, j); Describes(a, b, Group(es, i, j, cur), h.oldStart, h.newStart)
    decreases |es|, 0
  {
    var x := es[0].line;
    KeepHead(es, tail);
    HeadLine(a, i, Source(es[1..]) + tail, x);
    HeadLine(b, j, Target(es[1..]) + tail, x);
    GroupDescribes(a, b, es[1..], tail, i + 1, j + 1, None);
    CloseBefore(a, b, cur, Group(es[1..], i + 1, j + 1, None), i, j);
  }

  /** A common line closes the hunk being collected. */
  lemma CloseBefore<T>(a: seq<T>, b: seq<T>, cur: Option<Hunk<T>>, hs: seq<Hunk<T>>, i: nat, j: nat)
    requires i < |a| && j < |b| && a[i] == b[j]
    requires Collects(a, b, cur, i, j)
    requires Describes(a, b, hs, i + 1, j + 1)
    ensures var h := Opened(cur, i, j); Describes(a, b, Closed(cur) + hs, h.oldStart, h.newStart)
  {
    GapDescribes(a, b, hs, i, j);
    if cur.Some? {
      HunkThenRest(a, b, cur.value, hs);
    } else {
      assert [] + hs == hs;
    }
  }

  lemma HunkThenRest<T>(a: seq<T>, b: seq<T>, h: Hunk<T>, hs: seq<Hunk<T>>)
    requires h.OldEnd() <= |a| && h.NewEnd() <= |b|
    requires a[h.oldStart..h.OldEnd()] == h.oldLines && b[h.newStart..h.NewEnd()] == h.newLines
    requires h.oldLines != [] || h.newLines != []
    requires Describes(a, b, hs, h.OldEnd(), h.NewEnd()) && (hs != [] ==> h.OldEnd() < hs[0].oldStart)
    ensures Describes(a, b, [h] + hs, h.oldStart, h.newStart)
  {
    assert ([h] + hs)[1..] == hs;
  }

  lemma GapDescribes<T>(a: seq<T>, b: seq<T>, hs: seq<Hunk<T>>, i: nat, j: nat)
    requires i < |a| && j < |b| && a[i] == b[j]
    requires Describes(a, b, hs, i + 1, j + 1)
    ensures Describes(a, b, hs, i, j) && (hs != [] ==> i < hs[0].oldStart)
  {
    DescribesAfterCommonLine(a, b, hs, i, j);
  }

  /** Grouping loses no deletion and no insertion. */
  lemma {:induction false} GroupCost<T>(es: seq<Edit<T>>, i: nat, j: nat, cur: Option<Hunk<T>>)
    ensures HunksCost(Group(es, i, j, cur)) == Cost(es) + HunksCost(Closed(cur))
    decreases |es|
  {
    if es != [] {
      match es[0] {
        case Keep(_) =>
          GroupCost(es[1..], i + 1, j + 1, None);
          var hs := Group(es[1..], i + 1, j + 1, None);
          if cur.Some? {
            assert ([cur.value] + hs)[1..] == hs && [cur.value][1..] == [];
          } else {
            assert [] + hs == hs;
          }
        case Insert(x) =>
          var h := Opened(cur, i, j);
          GroupCost(es[1..], i, j + 1, Some(h.(newLines := h.newLines + [x])));
        case Delete(x) =>
          var h := Opened(cur, i, j);
          GroupCost(es[1..], i + 1, j, Some(h.(oldLines := h.oldLines + [x])));
      }
    }
  }

  // ---- The whole diff ----

  /** How many leading lines two files share. */
  ghost function CommonPrefix<T>(a: seq<T>, b: seq<T>): (n: nat)
    ensures n <= |a| && n <= |b|
  {
    if a != [] && b != [] && a[0] == b[0] then 1 + CommonPrefix(a[1..], b[1..]) else 0
  }

  /** How many trailing lines they share. */
  ghost function CommonSuffix<T>(a: seq<T>, b: seq<T>): (n: nat)
    ensures n <= |a| && n <= |b|
  {
    if a != [] && b != [] && a[|a| - 1] == b[|b| - 1] then 1 + CommonSuffix(a[..|a| - 1], b[..|b| - 1]) else 0
  }

  lemma {:induction false} PrefixIsShared<T>(a: seq<T>, b: seq<T>)
    ensures var n := CommonPrefix(a, b); a[..n] == b[..n]
  {
    if a != [] && b != [] && a[0] == b[0] {
      PrefixIsShared(a[1..], b[1..]);
      var n := CommonPrefix(a[1..], b[1..]);
      assert a[..n + 1] == [a[0]] + a[1..][..n] && b[..n + 1] == [b[0]] + b[1..][..n];
    }
  }

  lemma {:induction false} SuffixIsShared<T>(a: seq<T>, b: seq<T>)
    ensures var n := CommonSuffix(a, b); a[|a| - n..] == b[|b| - n..]
  {
    if a != [] && b != [] && a[|a| - 1] == b[|b| - 1] {
      var xa, xb := a[..|a| - 1], b[..|b| - 1];
      SuffixIsShared(xa, xb);
      var n := CommonSuffix(xa, xb);
      EndingWithLast(a, n);
      EndingWithLast(b, n);
    }
  }

  lemma EndingWithLast<T>(a: seq<T>, n: nat)
    requires n < |a|
    ensures a[|a| - n - 1..] == a[..|a| - 1][|a| - 1 - n..] + [a[|a| - 1]]
  {
  }

  /** A pair of files as a shared start, the two differing middles and a shared end. */
  datatype Trimmed<T> = Trimmed(before: seq<T>, oldMiddle: seq<T>, newMiddle: seq<T>, after: seq<T>)

  ghost function Trim<T>(a: seq<T>, b: seq<T>): Trimmed<T> {
    var pre := CommonPrefix(a, b);
    var suf := CommonSuffix(a[pre..], b[pre..]);
    Trimmed(a[..pre], a[pre..|a| - suf], b[pre..|b| - suf], a[|a| - suf..])
  }

  /** Whether the differing middle is small enough to be diffed line by line. */
  ghost predicate Diffable<T>(a: seq<T>, b: seq<T>) {
    |Trim(a, b).oldMiddle| * |Trim(a, b).newMiddle| <= MAX_CELLS
  }

  ghost function MiddleHunks<T>(am: seq<T>, bm: seq<T>, pre: nat): seq<Hunk<T>> {
    if am == [] && bm == [] then []
    else if |am| * |bm| > MAX_CELLS || am == [] || bm == [] then [Hunk(pre, pre, am, bm)]
    else Group(Walk(am, bm), pre, pre, None)
  }

  ghost function DiffHunks<T>(a: seq<T>, b: seq<T>): seq<Hunk<T>> {
    var t := Trim(a, b);
    MiddleHunks(t.oldMiddle, t.newMiddle, |t.before|)
  }

  ghost predicate Puts<T>(t: Trimmed<T>, a: seq<T>, b: seq<T>) {
    a == t.before + t.oldMiddle + t.after && b == t.before + t.newMiddle + t.after
  }

  lemma TrimSplits<T>(a: seq<T>, b: seq<T>)
    ensures var t := Trim(a, b); a == t.before + t.oldMiddle + t.after && b == t.before + t.newMiddle + t.after
  {
    PrefixIsShared(a, b);
    TrimmedBehind(a, b, CommonPrefix(a, b));
  }

  /** Behind the shared start. */
  lemma TrimmedBehind<T>(a: seq<T>, b: seq<T>, pre: nat)
    requires pre <= |a| && pre <= |b| && a[..pre] == b[..pre]
    ensures var suf := CommonSuffix(a[pre..], b[pre..]);
      Puts(Trimmed(a[..pre], a[pre..|a| - suf], b[pre..|b| - suf], a[|a| - suf..]), a, b)
  {
    SuffixIsShared(a[pre..], b[pre..]);
    SplitsAt(a, b, pre, CommonSuffix(a[pre..], b[pre..]));
  }

  lemma SplitsAt<T>(a: seq<T>, b: seq<T>, pre: nat, suf: nat)
    requires pre + suf <= |a| && pre + suf <= |b| && a[..pre] == b[..pre]
    requires a[pre..][|a[pre..]| - suf..] == b[pre..][|b[pre..]| - suf..]
    ensures Puts(Trimmed(a[..pre], a[pre..|a| - suf], b[pre..|b| - suf], a[|a| - suf..]), a, b)
  {
    SharedTail(a, b, pre, suf);
    ThreeParts(a, pre, suf);
    ThreeParts(b, pre, suf);
  }

  lemma SharedTail<T>(a: seq<T>, b: seq<T>, pre: nat, suf: nat)
    requires pre + suf <= |a| && pre + suf <= |b|
    requires a[pre..][|a[pre..]| - suf..] == b[pre..][|b[pre..]| - suf..]
    ensures a[|a| - suf..] == b[|b| - suf..]
  {
    assert a[|a| - suf..] == a[pre..][|a| - pre - suf..];
    assert b[|b| - suf..] == b[pre..][|b| - pre - suf..];
  }

  lemma ThreeParts<T>(a: seq<T>, pre: nat, suf: nat)
    requires pre + suf <= |a|
    ensures a == a[..pre] + a[pre..|a| - suf] + a[|a| - suf..]
  {
  }

  lemma MiddleDescribes<T>(a: seq<T>, b: seq<T>, p: seq<T>, am: seq<T>, bm: seq<T>, s: seq<T>)
    requires a == p + am + s && b == p + bm + s
    ensures Describes(a, b, MiddleHunks(am, bm, |p|), |p|, |p|)
  {
    AfterFirst(a, p, am, s);
    AfterFirst(b, p, bm, s);
    if am == [] && bm == [] {
    } else if |am| * |bm| > MAX_CELLS || am == [] || bm == [] {
      OneHunkDescribes(a, b, p, am, bm, s);
    } else {
      WalkIsOptimal(am, bm);
      GroupDescribes(a, b, Walk(am, bm), s, |p|, |p|, None);
    }
  }

  lemma AfterFirst<T>(a: seq<T>, p: seq<T>, m: seq<T>, s: seq<T>)
    requires a == p + m + s
    ensures |p| <= |a| && a[|p|..] == m + s
  {
  }

  lemma OneHunkDescribes<T>(a: seq<T>, b: seq<T>, p: seq<T>, am: seq<T>, bm: seq<T>, s: seq<T>)
    requires a == p + am + s && b == p + bm + s && (am != [] || bm != [])
    ensures Describes(a, b, [Hunk(|p|, |p|, am, bm)], |p|, |p|)
  {
    assert a[|p| + |am|..] == s == b[|p| + |bm|..];
    assert [Hunk(|p|, |p|, am, bm)][1..] == [];
  }

  /** For every pair of files, the hunks say exactly how they differ. */
  lemma DiffDescribes<T>(a: seq<T>, b: seq<T>)
    ensures Describes(a, b, DiffHunks(a, b), 0, 0)
  {
    var t := Trim(a, b);
    TrimSplits(a, b);
    MiddleDescribes(a, b, t.before, t.oldMiddle, t.newMiddle, t.after);
    StartsWith(a, t.before, t.oldMiddle, t.after);
    StartsWith(b, t.before, t.newMiddle, t.after);
    DescribesFromTop(a, b, DiffHunks(a, b), |t.before|);
  }

  lemma StartsWith<T>(a: seq<T>, p: seq<T>, m: seq<T>, s: seq<T>)
    requires a == p + m + s
    ensures |p| <= |a| && a[..|p|] == p
  {
  }

  lemma {:induction false} DescribesFromTop<T>(a: seq<T>, b: seq<T>, hs: seq<Hunk<T>>, n: nat)
    requires n <= |a| && n <= |b| && a[..n] == b[..n]
    requires Describes(a, b, hs, n, n)
    ensures Describes(a, b, hs, 0, 0)
  {
    if n > 0 {
      assert a[..n][n - 1] == b[..n][n - 1];
      assert a[..n - 1] == a[..n][..n - 1] == b[..n][..n - 1] == b[..n - 1];
      DescribesAfterCommonLine(a, b, hs, n - 1, n - 1);
      DescribesFromTop(a, b, hs, n - 1);
    }
  }

  /** The round trip: forwards the hunks turn old into new, backwards new into old. */
  lemma DiffRoundTrip<T>(a: seq<T>, b: seq<T>)
    ensures var hs := DiffHunks(a, b);
      && Ordered(a, hs, 0) && Splice(a, hs, 0) == b
      && Ordered(b, Reverse(hs), 0) && Splice(b, Reverse(hs), 0) == a
  {
    var hs := DiffHunks(a, b);
    DiffDescribes(a, b);
    SpliceReaches(a, b, hs, 0, 0);
    DescribesBackwards(a, b, hs, 0, 0);
    SpliceReaches(b, a, Reverse(hs), 0, 0);
  }

  lemma {:induction false} DescribesCounts<T>(a: seq<T>, b: seq<T>, hs: seq<Hunk<T>>, i: nat, j: nat)
    requires Describes(a, b, hs, i, j)
    ensures i <= |a| && j <= |b| && HunksCost(hs) == 2 * OldCount(hs) + (|b| - j) - (|a| - i)
    decreases |hs|
  {
    if hs == [] {
      assert |a[i..]| == |b[j..]|;
    } else {
      var h := hs[0];
      assert |a[i..h.oldStart]| == |b[j..h.newStart]|;
      DescribesCounts(a, b, hs[1..], h.OldEnd(), h.NewEnd());
    }
  }

  lemma MiddleCost<T>(am: seq<T>, bm: seq<T>, pre: nat)
    requires |am| * |bm| <= MAX_CELLS
    ensures HunksCost(MiddleHunks(am, bm, pre)) + 2 * Lcs(am, bm) == |am| + |bm|
  {
    if am == [] || bm == [] {
      if am != [] || bm != [] { assert MiddleHunks(am, bm, pre)[1..] == []; }
    } else {
      WalkIsOptimal(am, bm);
      GroupCost(Walk(am, bm), pre, pre, None);
    }
  }

  /** Trimming the shared ends keeps the measure. */
  lemma LcsOfMiddle<T>(p: seq<T>, am: seq<T>, bm: seq<T>, s: seq<T>)
    ensures Lcs(p + am + s, p + bm + s) == |p| + Lcs(am, bm) + |s|
  {
    assert p + am + s == p + (am + s) && p + bm + s == p + (bm + s);
    LcsSharedPrefix(p, am + s, bm + s);
    LcsSharedSuffix(am, bm, s);
  }

  /**
   * Below the cut-off the lines kept number exactly a longest common subsequence of the two whole
   * files, so no edit script from `a` to `b` deletes plus inserts fewer lines.
   */
  lemma DiffIsMinimal<T>(a: seq<T>, b: seq<T>, es: seq<Edit<T>>)
    requires Diffable(a, b)
    ensures |a| - OldCount(DiffHunks(a, b)) == Lcs(a, b)
    ensures Source(es) == a && Target(es) == b ==> HunksCost(DiffHunks(a, b)) <= Cost(es)
  {
    var t := Trim(a, b);
    TrimSplits(a, b);
    LcsOfMiddle(t.before, t.oldMiddle, t.newMiddle, t.after);
    MiddleCost(t.oldMiddle, t.newMiddle, |t.before|);
    DiffDescribes(a, b);
    DescribesCounts(a, b, DiffHunks(a, b), 0, 0);
    NoCheaperScript(es);
  }

  /** The first `pre` and the last `suf` lines, which do not overlap, are the same in both files. */
  ghost predicate SharedEnds<T>(a: seq<T>, b: seq<T>, pre: nat, suf: nat) {
    && pre + suf <= |a| && pre + suf <= |b|
    && a[..pre] == b[..pre] && a[|a| - suf..] == b[|b| - suf..]
  }

  lemma {:induction false} PrefixIsLongest<T>(a: seq<T>, b: seq<T>, k: nat)
    requires k <= |a| && k <= |b| && a[..k] == b[..k]
    ensures k <= CommonPrefix(a, b)
  {
    if k > 0 {
      assert a[..k][0] == a[0] && b[..k][0] == b[0];
      assert a[1..][..k - 1] == a[..k][1..] && b[1..][..k - 1] == b[..k][1..];
      PrefixIsLongest(a[1..], b[1..], k - 1);
    }
  }

  lemma LastDropped<T>(x: seq<T>, y: seq<T>, e: T, f: T)
    requires x + [e] == y + [f]
    ensures x == y && e == f
  {
    assert (x + [e])[..|x|] == x && (y + [f])[..|y|] == y && (x + [e])[|x|] == e && (y + [f])[|y|] == f;
  }

  lemma {:induction false} SuffixIsLongest<T>(a: seq<T>, b: seq<T>, k: nat)
    requires k <= |a| && k <= |b| && a[|a| - k..] == b[|b| - k..]
    ensures k <= CommonSuffix(a, b)
    decreases k
  {
    if k > 0 {
      var xa, xb := a[..|a| - 1], b[..|b| - 1];
      EndingWithLast(a, k - 1);
      EndingWithLast(b, k - 1);
      LastDropped(xa[|xa| - (k - 1)..], xb[|xb| - (k - 1)..], a[|a| - 1], b[|b| - 1]);
      SuffixIsLongest(xa, xb, k - 1);
    }
  }

  lemma EndsAreMost<T>(a: seq<T>, b: seq<T>, pre: nat, suf: nat)
    requires SharedEnds(a, b, pre, suf)
    ensures var longest := CommonPrefix(a, b); longest + CommonSuffix(a[longest..], b[longest..]) >= pre + suf
  {
    var longest, least := CommonPrefix(a, b), if |a| < |b| then |a| else |b|;
    PrefixIsLongest(a, b, pre);
    RestShares(a, b, longest, suf, if suf <= least - longest then suf else least - longest);
  }

  lemma RestShares<T>(a: seq<T>, b: seq<T>, start: nat, suf: nat, rest: nat)
    requires rest <= suf <= |a| && suf <= |b| && start + rest <= |a| && start + rest <= |b|
    requires a[|a| - suf..] == b[|b| - suf..]
    ensures CommonSuffix(a[start..], b[start..]) >= rest
  {
    EndOfEnd(a, start, suf, rest);
    EndOfEnd(b, start, suf, rest);
    SuffixIsLongest(a[start..], b[start..], rest);
  }

  lemma TrimLengths<T>(a: seq<T>, b: seq<T>)
    ensures var longest := CommonPrefix(a, b);
      var suf := CommonSuffix(a[longest..], b[longest..]);
      && |Trim(a, b).oldMiddle| == |a| - longest - suf && |Trim(a, b).newMiddle| == |b| - longest - suf
  {
  }

  /** No other way to set shared ends aside leaves less between them. */
  lemma TrimIsMost<T>(a: seq<T>, b: seq<T>, pre: nat, suf: nat)
    requires SharedEnds(a, b, pre, suf)
    ensures |Trim(a, b).oldMiddle| <= |a| - pre - suf && |Trim(a, b).newMiddle| <= |b| - pre - suf
  {
    EndsAreMost(a, b, pre, suf);
    TrimLengths(a, b);
  }

  /** The last `n` lines, taken from what follows the first `start` or from the last `m`. */
  lemma EndOfEnd<T>(x: seq<T>, start: nat, m: nat, n: nat)
    requires n <= m <= |x| && start + n <= |x|
    ensures x[start..][|x[start..]| - n..] == x[|x| - m..][m - n..]
  {
    assert x[start..][|x| - start - n..] == x[|x| - n..] && x[|x| - m..][m - n..] == x[|x| - n..];
  }

  lemma ProductsGrow(x: nat, y: nat, x': nat, y': nat)
    requires x <= x' && y <= y'
    ensures x * y <= x' * y'
  {
  }

  /** Whenever shared ends leave at most four million pairs of lines between them, the diff is as small as any. */
  lemma DiffIsMinimalWithin<T>(a: seq<T>, b: seq<T>, pre: nat, suf: nat, es: seq<Edit<T>>)
    requires SharedEnds(a, b, pre, suf) && (|a| - pre - suf) * (|b| - pre - suf) <= 4_000_000
    requires Source(es) == a && Target(es) == b
    ensures |a| - OldCount(DiffHunks(a, b)) == Lcs(a, b) && HunksCost(DiffHunks(a, b)) <= Cost(es)
  {
    FewPairsDiffable(a, b, pre, suf);
    DiffIsMinimal(a, b, es);
  }

  lemma FewPairsDiffable<T>(a: seq<T>, b: seq<T>, pre: nat, suf: nat)
    requires SharedEnds(a, b, pre, suf) && (|a| - pre - suf) * (|b| - pre - suf) <= 4_000_000
    ensures Diffable(a, b)
  {
    TrimIsMost(a, b, pre, suf);
    ProductsGrow(|Trim(a, b).oldMiddle|, |Trim(a, b).newMiddle|, |a| - pre - suf, |b| - pre - suf);
  }

  // ---- The imperative diff ----

  /** Where cell (r, c) of a table with rows of `w` cells lies in the flat array. */
  function Cell(w: nat, r: nat, c: nat): nat { r * w + c }

  lemma CellsApart(w: nat, r: nat, c: nat, r': nat, c': nat)
    requires c < w && c' < w && (r != r' || c != c')
    ensures Cell(w, r, c) != Cell(w, r', c')
  {
    if r < r' {
      assert r' * w >= (r + 1) * w == r * w + w;
    } else if r' < r {
      assert r * w >= (r' + 1) * w == r' * w + w;
    }
  }

  lemma CellInside(n: nat, w: nat, r: nat, c: nat)
    requires r <= n && c < w
    ensures Cell(w, r, c) < (n + 1) * w
  {
    assert r * w <= n * w;
    assert (n + 1) * w == n * w + w;
  }

  ghost predicate CellHolds<T>(t: array<uint32>, am: seq<T>, bm: seq<T>, r: nat, c: nat)
    requires r <= |am| && c <= |bm|
    reads t
  {
    var k := Cell(|bm| + 1, r, c);
    k < t.Length && t[k] as int == Lcs(am[r..], bm[c..])
  }

  /** Fills the table from the end of both files; no cell can pass 32 bits below the cut-off. */
  method BuildTable<T(==)>(am: seq<T>, bm: seq<T>) returns (t: array<uint32>)
    requires am != [] && bm != [] && |am| * |bm| <= MAX_CELLS
    ensures fresh(t)
    ensures forall r, c | 0 <= r <= |am| && 0 <= c <= |bm| :: CellHolds(t, am, bm, r, c)
  {
    var n, m := |am|, |bm|;
    var w := m + 1;
    t := new uint32[(n + 1) * w](_ => 0);
    forall r, c | 0 <= r <= n && 0 <= c <= m && (r == n || c == m) ensures CellHolds(t, am, bm, r, c) {
      CellInside(n, w, r, c);
    }
    for i := n downto 0
      invariant forall r, c | 0 <= r <= n && 0 <= c <= m && (r >= i || c == m) :: CellHolds(t, am, bm, r, c)
    {
      for j := m downto 0
        invariant forall r, c | 0 <= r <= n && 0 <= c <= m && (r > i || (r == i && c >= j) || c == m) ::
          CellHolds(t, am, bm, r, c)
      {
        FillCell(t, am, bm, i, j);
      }
    }
  }

  method FillCell<T(==)>(t: array<uint32>, am: seq<T>, bm: seq<T>, i: nat, j: nat)
    requires i < |am| && j < |bm| && |am| * |bm| <= MAX_CELLS && t.Length == (|am| + 1) * (|bm| + 1)
    requires CellHolds(t, am, bm, i + 1, j + 1) && CellHolds(t, am, bm, i + 1, j) && CellHolds(t, am, bm, i, j + 1)
    modifies t
    ensures CellHolds(t, am, bm, i, j)
    ensures forall r, c | 0 <= r <= |am| && 0 <= c <= |bm| && old(CellHolds(t, am, bm, r, c)) ::
      CellHolds(t, am, bm, r, c)
  {
    var w := |bm| + 1;
    var k := Cell(w, i, j);
    CellInside(|am|, w, i, j);
    var v := CellValue(t, am, bm, i, j);
    t[k] := v;
    forall r, c | 0 <= r <= |am| && 0 <= c <= |bm| && old(CellHolds(t, am, bm, r, c))
      ensures CellHolds(t, am, bm, r, c)
    {
      if r != i || c != j { CellsApart(w, r, c, i, j); }
    }
  }

  lemma DiagonalFits<T>(am: seq<T>, bm: seq<T>, i: nat, j: nat)
    requires i < |am| && j < |bm| && |am| * |bm| <= MAX_CELLS
    ensures Lcs(am[i + 1..], bm[j + 1..]) < MAX_CELLS
  {
    LcsBounded(am[i + 1..], bm[j + 1..]);
    assert |am| <= |am| * |bm|;
  }

  /** One cell from its right, lower and diagonal neighbours. */
  method CellValue<T(==)>(t: array<uint32>, am: seq<T>, bm: seq<T>, i: nat, j: nat) returns (v: uint32)
    requires i < |am| && j < |bm| && |am| * |bm| <= MAX_CELLS
    requires CellHolds(t, am, bm, i + 1, j + 1) && CellHolds(t, am, bm, i + 1, j) && CellHolds(t, am, bm, i, j + 1)
    ensures v as int == Lcs(am[i..], bm[j..])
  {
    var w := |bm| + 1;
    var diagonal, below, right := t[Cell(w, i + 1, j + 1)], t[Cell(w, i + 1, j)], t[Cell(w, i, j + 1)];
    assert am[i..][1..] == am[i + 1..] && bm[j..][1..] == bm[j + 1..];
    DiagonalFits(am, bm, i, j);
    v := if am[i] == bm[j] then diagonal + 1 else if below > right then below else right;
  }

  /** The walk: both files from the top, guided by the table, collecting runs of change into hunks. */
  method WalkTable<T(==)>(am: seq<T>, bm: seq<T>, t: array<uint32>, pre: nat) returns (hunks: seq<Hunk<T>>)
    requires forall r, c | 0 <= r <= |am| && 0 <= c <= |bm| :: CellHolds(t, am, bm, r, c)
    ensures hunks == Group(Walk(am, bm), pre, pre, None)
  {
    var n, m := |am|, |bm|;
    var w := m + 1;
    hunks := [];
    var cur: Option<Hunk<T>> := None;
    var i, j := 0, 0;
    while i < n || j < m
      invariant 0 <= i <= n && 0 <= j <= m
      invariant hunks + Group(Walk(am[i..], bm[j..]), pre + i, pre + j, cur) == Group(Walk(am, bm), pre, pre, None)
      decreases n - i + m - j
    {
      assert i < n ==> am[i..][0] == am[i] && am[i..][1..] == am[i + 1..];
      assert j < m ==> bm[j..][0] == bm[j] && bm[j..][1..] == bm[j + 1..];
      if i < n && j < m && am[i] == bm[j] {
        hunks, cur := hunks + Closed(cur), None;
        i, j := i + 1, j + 1;
      } else if j < m && (i >= n || TableSays(t, am, bm, i, j)) {
        var h := Opened(cur, pre + i, pre + j);
        cur, j := Some(h.(newLines := h.newLines + [bm[j]])), j + 1;
      } else {
        var h := Opened(cur, pre + i, pre + j);
        cur, i := Some(h.(oldLines := h.oldLines + [am[i]])), i + 1;
      }
    }
    hunks := hunks + Closed(cur);
  }

  /** The walk's comparison: inserting next keeps at least as much as deleting next. */
  predicate TableSays<T>(t: array<uint32>, am: seq<T>, bm: seq<T>, i: nat, j: nat)
    requires i < |am| && j < |bm| && CellHolds(t, am, bm, i + 1, j) && CellHolds(t, am, bm, i, j + 1)
    reads t
  {
    var w := |bm| + 1;
    t[Cell(w, i, j + 1)] >= t[Cell(w, i + 1, j)]
  }

  method SharedPrefixLength<T(==)>(a: seq<T>, b: seq<T>) returns (pre: nat)
    ensures pre == CommonPrefix(a, b)
  {
    pre := 0;
    while pre < |a| && pre < |b| && a[pre] == b[pre]
      invariant pre <= |a| && pre <= |b|
      invariant pre + CommonPrefix(a[pre..], b[pre..]) == CommonPrefix(a, b)
    {
      assert a[pre..][1..] == a[pre + 1..] && b[pre..][1..] == b[pre + 1..];
      pre := pre + 1;
    }
  }

  /** The shared tail, found from the end and never running into the shared prefix. */
  method SharedSuffixLength<T(==)>(a: seq<T>, b: seq<T>, pre: nat) returns (suf: nat)
    requires pre <= |a| && pre <= |b|
    ensures suf == CommonSuffix(a[pre..], b[pre..])
  {
    ghost var ra, rb := a[pre..], b[pre..];
    suf := 0;
    assert ra[..|ra|] == ra && rb[..|rb|] == rb;
    while suf < |a| - pre && suf < |b| - pre && a[|a| - 1 - suf] == b[|b| - 1 - suf]
      invariant suf <= |ra| && suf <= |rb|
      invariant suf + CommonSuffix(ra[..|ra| - suf], rb[..|rb| - suf]) == CommonSuffix(ra, rb)
    {
      ghost var xa, xb := ra[..|ra| - suf], rb[..|rb| - suf];
      assert xa[..|xa| - 1] == ra[..|ra| - (suf + 1)] && xb[..|xb| - 1] == rb[..|rb| - (suf + 1)];
      suf := suf + 1;
    }
  }

  method DiffMiddle<T(==)>(am: seq<T>, bm: seq<T>, pre: nat) returns (hunks: seq<Hunk<T>>)
    ensures hunks == MiddleHunks(am, bm, pre)
  {
    if am == [] && bm == [] {
      return [];
    }
    if |am| * |bm| > MAX_CELLS || am == [] || bm == [] {
      return [Hunk(pre, pre, am, bm)];
    }
    var t := BuildTable(am, bm);
    hunks := WalkTable(am, bm, t, pre);
  }

  /** lineHunks: the hunks between two files' lines. */
  method LineHunks<T(==)>(a: seq<T>, b: seq<T>) returns (hunks: seq<Hunk<T>>)
    ensures hunks == DiffHunks(a, b)
  {
    var pre := SharedPrefixLength(a, b);
    var suf := SharedSuffixLength(a, b, pre);
    var am, bm := a[pre..|a| - suf], b[pre..|b| - suf];
    hunks := DiffMiddle(am, bm, pre);
    assert Trim(a, b) == Trimmed(a[..pre], am, bm, a[|a| - suf..]);
  }
}
