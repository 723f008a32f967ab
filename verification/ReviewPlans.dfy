/** Turning a proposal into blocks laid into the developer's file (planPropose of inline-review.ts). */
module ReviewPlans {
  import opened Options
  import opened Selections
  import opened LineDiff
  import opened HunkPlacing

  /** A change as it lies in the buffer: its old lines directly above its new ones. */
  datatype Block = Block(removedStart: int, removedCount: int, addedStart: int, addedCount: int)

  /** Lines to insert before a line of the buffer as it is before the review opens. */
  datatype Insert<T> = Insert(line: nat, lines: seq<T>)

  datatype ReviewPlan<T> = ReviewPlan(
    inserts: seq<Insert<T>>,
    blocks: seq<Block>,
    conflicts: seq<Hunk<T>>,
    applied: seq<Hunk<T>>)

  /** The entries whose place is there (`placed`) or is not. */
  function Where<T>(xs: seq<T>, places: seq<Option<nat>>, placed: bool): seq<T>
    requires |places| == |xs|
  {
    if xs == [] then []
    else (if places[0].Some? == placed then [xs[0]] else []) + Where(xs[1..], places[1..], placed)
  }

  lemma {:induction false} WherePartitions<T>(xs: seq<T>, places: seq<Option<nat>>)
    requires |places| == |xs|
    ensures multiset(Where(xs, places, true)) + multiset(Where(xs, places, false)) == multiset(xs)
  {
    if xs != [] {
      WherePartitions(xs[1..], places[1..]);
      assert xs == [xs[0]] + xs[1..];
    }
  }

  lemma {:induction false} OrderedFromEarlier<T>(lines: seq<T>, hs: seq<Hunk<T>>, at: nat, at': nat)
    requires Ordered(lines, hs, at') && at <= at'
    ensures Ordered(lines, hs, at)
  {
  }

  /** Leaving hunks out keeps the others in order and standing. */
  lemma {:induction false} WhereOrdered<T>(
    lines: seq<T>, hs: seq<Hunk<T>>, places: seq<Option<nat>>, placed: bool, at: nat)
    requires |places| == |hs| && Ordered(lines, hs, at) && Stand(lines, hs)
    ensures Ordered(lines, Where(hs, places, placed), at) && Stand(lines, Where(hs, places, placed))
    ensures |Where(hs, places, placed)| <= |hs|
    decreases |hs|
  {
    if hs != [] {
      var h, rest := hs[0], Where(hs[1..], places[1..], placed);
      assert Stand(lines, hs[1..]) by {
        assert forall k | 0 <= k < |hs[1..]| :: hs[1..][k] == hs[k + 1];
      }
      WhereOrdered(lines, hs[1..], places[1..], placed, h.OldEnd());
      if places[0].Some? == placed {
        assert ([h] + rest)[1..] == rest;
      } else {
        OrderedFromEarlier(lines, rest, at, h.OldEnd());
        assert [] + rest == rest;
      }
    }
  }

  lemma {:induction false} WhereReversed<T>(hs: seq<Hunk<T>>, places: seq<Option<nat>>, placed: bool)
    requires |places| == |hs|
    ensures Reverse(Where(hs, places, placed)) == Where(Reverse(hs), places, placed)
  {
    if hs != [] {
      WhereReversed(hs[1..], places[1..], placed);
      assert Reverse(hs)[1..] == Reverse(hs[1..]);
    }
  }

  /** Whatever hunks of a diff are set aside, read backwards they are hunks of the proposal. */
  lemma SetAsideBackwards<T>(base: seq<T>, proposal: seq<T>, places: seq<Option<nat>>)
    requires |places| == |DiffHunks(base, proposal)|
    ensures var back := Reverse(Where(DiffHunks(base, proposal), places, false));
      Ordered(proposal, back, 0) && Stand(proposal, back) && (proposal == [] ==> |back| <= 1)
  {
    var hs := DiffHunks(base, proposal);
    DiffDescribes(base, proposal);
    DescribesBackwards(base, proposal, hs, 0, 0);
    DescribesStands(proposal, base, Reverse(hs), 0, 0);
    WhereReversed(hs, places, false);
    WhereOrdered(proposal, Reverse(hs), places, false, 0);
  }

  // ---- Blocks and inserts for hunks placed in the current file ----

  function InsertsOf<T>(placed: seq<Hunk<T>>): seq<Insert<T>> {
    if placed == [] then []
    else
      (if placed[0].newLines != [] then [Insert(placed[0].OldEnd(), placed[0].newLines)] else []) + InsertsOf(placed[1..])
  }

  /** `offset` counts the lines already inserted above. */
  function BlocksOf<T>(placed: seq<Hunk<T>>, offset: nat): seq<Block> {
    if placed == [] then []
    else
      var h := placed[0];
      [Block(h.oldStart + offset, |h.oldLines|, h.OldEnd() + offset, |h.newLines|)]
      + BlocksOf(placed[1..], offset + |h.newLines|)
  }

  ghost function PlacesOf<T>(base: seq<T>, proposal: seq<T>, current: seq<T>): (places: seq<Option<nat>>)
    ensures |places| == |DiffHunks(base, proposal)|
  {
    DiffDescribes(base, proposal);
    DescribesStands(base, proposal, DiffHunks(base, proposal), 0, 0);
    Places(base, current, DiffHunks(base, proposal))
  }

  /** The proposal's hunks that fit the developer's file, at their places in it. */
  ghost function PlacedIn<T>(base: seq<T>, proposal: seq<T>, current: seq<T>): seq<Hunk<T>> {
    PlacedHunks(DiffHunks(base, proposal), PlacesOf(base, proposal, current))
  }

  ghost function Unplaced<T>(base: seq<T>, proposal: seq<T>, current: seq<T>): seq<Hunk<T>> {
    Where(DiffHunks(base, proposal), PlacesOf(base, proposal, current), false)
  }

  /** For each hunk that does not fit, where the file already has its new lines. */
  ghost function DoneOf<T>(base: seq<T>, proposal: seq<T>, current: seq<T>): (done: seq<Option<nat>>)
    ensures |done| == |Unplaced(base, proposal, current)|
  {
    SetAsideBackwards(base, proposal, PlacesOf(base, proposal, current));
    Places(proposal, current, Reverse(Unplaced(base, proposal, current)))
  }

  ghost function Plan<T>(base: seq<T>, proposal: seq<T>, current: seq<T>): ReviewPlan<T> {
    var placed := PlacedIn(base, proposal, current);
    var unplaced, done := Unplaced(base, proposal, current), DoneOf(base, proposal, current);
    ReviewPlan(InsertsOf(placed), BlocksOf(placed, 0), Where(unplaced, done, false), Where(unplaced, done, true))
  }

  /** What is shown inline comes in order, never overlaps, and its red lines are the developer's own. */
  lemma PlacedInStands<T>(base: seq<T>, proposal: seq<T>, current: seq<T>)
    ensures Ordered(current, PlacedIn(base, proposal, current), 0) && Stand(current, PlacedIn(base, proposal, current))
    ensures forall k | 0 <= k < |PlacedIn(base, proposal, current)| ::
      PlacedIn(base, proposal, current)[k].oldLines != [] || PlacedIn(base, proposal, current)[k].newLines != []
  {
    var hs := DiffHunks(base, proposal);
    DiffDescribes(base, proposal);
    DescribesStands(base, proposal, hs, 0, 0);
    PlacesStand(base, current, hs);
    DescribesChanges(base, proposal, hs, 0, 0);
    PlacedChange(hs, PlacesOf(base, proposal, current));
  }

  lemma {:induction false} DescribesChanges<T>(a: seq<T>, b: seq<T>, hs: seq<Hunk<T>>, i: nat, j: nat)
    requires Describes(a, b, hs, i, j)
    ensures forall k | 0 <= k < |hs| :: hs[k].oldLines != [] || hs[k].newLines != []
    decreases |hs|
  {
    if hs != [] {
      DescribesChanges(a, b, hs[1..], hs[0].OldEnd(), hs[0].NewEnd());
      forall k | 0 < k < |hs| ensures hs[k].oldLines != [] || hs[k].newLines != [] {
        assert hs[k] == hs[1..][k - 1];
      }
    }
  }

  lemma {:induction false} PlacedChange<T>(hs: seq<Hunk<T>>, places: seq<Option<nat>>)
    requires |places| == |hs| && forall k | 0 <= k < |hs| :: hs[k].oldLines != [] || hs[k].newLines != []
    ensures forall k | 0 <= k < |PlacedHunks(hs, places)| ::
      PlacedHunks(hs, places)[k].oldLines != [] || PlacedHunks(hs, places)[k].newLines != []
  {
    if hs != [] { PlacedChange(hs[1..], places[1..]); }
  }

  lemma {:induction false} PlacedCount<T>(hs: seq<Hunk<T>>, places: seq<Option<nat>>)
    requires |places| == |hs|
    ensures |PlacedHunks(hs, places)| == |Where(hs, places, true)|
  {
    if hs != [] { PlacedCount(hs[1..], places[1..]); }
  }

  lemma {:induction false} BlocksCount<T>(placed: seq<Hunk<T>>, offset: nat)
    ensures |BlocksOf(placed, offset)| == |placed|
  {
    if placed != [] { BlocksCount(placed[1..], offset + |placed[0].newLines|); }
  }

  /** Every hunk of the diff is shown inline, already in the file, or set aside: exactly one of the three. */
  lemma PlanPartitions<T>(base: seq<T>, proposal: seq<T>, current: seq<T>)
    ensures var plan := Plan(base, proposal, current);
      var hs := DiffHunks(base, proposal);
      var shown := Where(hs, PlacesOf(base, proposal, current), true);
      && multiset(shown) + multiset(plan.applied) + multiset(plan.conflicts) == multiset(hs)
      && |plan.blocks| == |shown|
  {
    var hs, places := DiffHunks(base, proposal), PlacesOf(base, proposal, current);
    WherePartitions(hs, places);
    WherePartitions(Unplaced(base, proposal, current), DoneOf(base, proposal, current));
    PlacedCount(hs, places);
    BlocksCount(PlacedIn(base, proposal, current), 0);
  }

  lemma {:induction false} WhereAll<T>(xs: seq<T>, places: seq<Option<nat>>, placed: bool)
    requires |places| == |xs| && forall k | 0 <= k < |places| :: places[k].Some?
    ensures Where(xs, places, placed) == if placed then xs else []
  {
    if xs != [] { WhereAll(xs[1..], places[1..], placed); }
  }

  /**
   * A file nobody touched takes every hunk inline at its own place; a file that already reads like the
   * proposal leaves nothing to set aside.
   */
  lemma NothingSetAside<T>(base: seq<T>, proposal: seq<T>, current: seq<T>)
    ensures current == base ==>
      var plan := Plan(base, proposal, current);
      PlacedIn(base, proposal, current) == DiffHunks(base, proposal) && plan.conflicts == [] && plan.applied == []
    ensures current == proposal ==> Plan(base, proposal, current).conflicts == []
  {
    var hs := DiffHunks(base, proposal);
    if current == base {
      PlacedInPlace(hs);
      WhereAll(hs, PlacesOf(base, proposal, current), false);
    }
    if current == proposal {
      WhereAll(Unplaced(base, proposal, current), DoneOf(base, proposal, current), false);
    }
  }

  // ---- What is shown, already in, or set aside, told by the files alone ----

  /** `picked` is the entries whose place is there, or is not, in order. */
  ghost predicate PicksWhere<T>(xs: seq<T>, places: seq<Option<nat>>, placed: bool, picked: seq<T>)
    requires |places| == |xs|
  {
    exists at ::
      && Picks(xs, at, picked)
      && forall k: nat :: k in at <==> k < |places| && places[k].Some? == placed
  }

  lemma {:induction false} WherePicks<T>(xs: seq<T>, places: seq<Option<nat>>, placed: bool)
    requires |places| == |xs|
    ensures PicksWhere(xs, places, placed, Where(xs, places, placed))
  {
    if xs == [] {
      var none: seq<nat> := [];
      assert Picks(xs, none, []);
    } else {
      WherePicks(xs[1..], places[1..], placed);
      PicksMore(xs, places, placed, Where(xs[1..], places[1..], placed));
    }
  }

  lemma PicksMore<T>(xs: seq<T>, places: seq<Option<nat>>, placed: bool, rest: seq<T>)
    requires |places| == |xs| && xs != [] && PicksWhere(xs[1..], places[1..], placed, rest)
    ensures PicksWhere(xs, places, placed, (if places[0].Some? == placed then [xs[0]] else []) + rest)
  {
    var below :| Picks(xs[1..], below, rest)
      && forall k: nat :: k in below <==> k < |places[1..]| && places[1..][k].Some? == placed;
    var shifted := PicksShifted(xs, below, rest);
    assert [] + rest == rest;
    var first := places[0].Some? == placed;
    var at := if first then [0] + shifted else shifted;
    assert Picks(xs, at, (if first then [xs[0]] else []) + rest);
    assert |places[1..]| == |places| - 1;
    forall k: nat ensures k in at <==> k < |places| && places[k].Some? == placed {
      if 0 < k < |places| { assert places[1..][k - 1] == places[k]; }
    }
  }

  /** The hunks with a place, at their places. */
  ghost function AtPlaces<T>(hs: seq<Hunk<T>>, places: seq<Option<nat>>): (there: seq<Hunk<T>>)
    requires |places| == |hs|
    ensures |there| == |hs| && forall k | 0 <= k < |hs| ::
      there[k] == if places[k].Some? then hs[k].(oldStart := places[k].value) else hs[k]
  {
    seq(|hs|, k requires 0 <= k < |hs| => if places[k].Some? then hs[k].(oldStart := places[k].value) else hs[k])
  }

  lemma {:induction false} PlacedMoves<T>(hs: seq<Hunk<T>>, places: seq<Option<nat>>)
    requires |places| == |hs|
    ensures PlacedHunks(hs, places) == Where(AtPlaces(hs, places), places, true)
  {
    if hs != [] {
      PlacedMoves(hs[1..], places[1..]);
      assert AtPlaces(hs, places)[1..] == AtPlaces(hs[1..], places[1..]);
    }
  }

  /** Hunks read backwards: the new lines for the old ones, at their places in the proposal. */
  ghost predicate Backwards<T>(hs: seq<Hunk<T>>, back: seq<Hunk<T>>) {
    && |back| == |hs|
    && forall k | 0 <= k < |hs| :: back[k] == Hunk(hs[k].newStart, hs[k].oldStart, hs[k].newLines, hs[k].oldLines)
  }

  /**
   * Every hunk of the diff is looked for in the file by its old lines and those around them in the base; the ones
   * not found are looked for by their new lines and those around them in the proposal. Those found first are
   * shown where they were found, those found then are already in the file, and the others are conflicts.
   */
  lemma PlanSorts<T>(base: seq<T>, proposal: seq<T>, current: seq<T>)
    returns (places: seq<Option<nat>>, unplaced: seq<Hunk<T>>, back: seq<Hunk<T>>, done: seq<Option<nat>>)
    ensures var hs, plan := DiffHunks(base, proposal), Plan(base, proposal, current);
      && (forall k | 0 <= k < |hs| :: hs[k].OldEnd() <= |base|) && PlacedAsRead(base, current, hs, places)
      && PicksWhere(AtPlaces(hs, places), places, true, PlacedIn(base, proposal, current))
      && PicksWhere(hs, places, false, unplaced)
      && Backwards(unplaced, back)
      && (forall k | 0 <= k < |back| :: back[k].OldEnd() <= |proposal|) && PlacedAsRead(proposal, current, back, done)
      && PicksWhere(unplaced, done, true, plan.applied) && PicksWhere(unplaced, done, false, plan.conflicts)
  {
    var hs := DiffHunks(base, proposal);
    places, unplaced := PlacesOf(base, proposal, current), Unplaced(base, proposal, current);
    back, done := Reverse(unplaced), DoneOf(base, proposal, current);
    DiffDescribes(base, proposal);
    DescribesStands(base, proposal, hs, 0, 0);
    PlacesAreAsRead(base, current, hs);
    PlacedMoves(hs, places);
    WherePicks(AtPlaces(hs, places), places, true);
    WherePicks(hs, places, false);
    SetAsideBackwards(base, proposal, places);
    PlacesAreAsRead(proposal, current, back);
    WherePicks(unplaced, done, true);
    WherePicks(unplaced, done, false);
  }

  /** So a change that counts as already in the file reads there, with the lines around it in the proposal. */
  lemma AppliedReads<T>(base: seq<T>, proposal: seq<T>, current: seq<T>, h: Hunk<T>)
    requires h in Plan(base, proposal, current).applied
    ensures h.NewEnd() <= |proposal| && exists p: nat :: ReadsWithin(proposal, current, h.Reversed(), p)
  {
    var places, unplaced, back, done := PlanSorts(base, proposal, current);
    var k := PickedPlace(unplaced, done, true, Plan(base, proposal, current).applied, h);
    FoundReads(proposal, current, back, done, k);
    assert back[k] == h.Reversed() && back[k].OldEnd() <= |proposal|;
  }

  lemma PickedPlace<T>(xs: seq<T>, places: seq<Option<nat>>, placed: bool, picked: seq<T>, x: T) returns (k: nat)
    requires |places| == |xs| && PicksWhere(xs, places, placed, picked) && x in picked
    ensures k < |xs| && xs[k] == x && places[k].Some? == placed
  {
    var at :| Picks(xs, at, picked) && forall k: nat :: k in at <==> k < |places| && places[k].Some? == placed;
    var j :| 0 <= j < |picked| && picked[j] == x;
    k := at[j];
    assert k in at;
  }

  // ---- planPropose ----

  lemma {:induction false} PlacedHunksUpTo<T>(hs: seq<Hunk<T>>, places: seq<Option<nat>>, k: nat)
    requires |places| == |hs| && k < |hs|
    ensures var before := PlacedHunks(hs[..k], places[..k]);
      PlacedHunks(hs[..k + 1], places[..k + 1]) ==
        if places[k].Some? then before + [hs[k].(oldStart := places[k].value)] else before
  {
    if k > 0 {
      PlacedHunksUpTo(hs[1..], places[1..], k - 1);
      assert hs[..k + 1][1..] == hs[1..][..k] && places[..k + 1][1..] == places[1..][..k];
      assert hs[..k][1..] == hs[1..][..k - 1] && places[..k][1..] == places[1..][..k - 1];
    }
  }

  ghost function Grown<T>(placed: seq<Hunk<T>>): nat {
    if placed == [] then 0 else |placed[0].newLines| + Grown(placed[1..])
  }

  lemma {:induction false} InsertsSnoc<T>(placed: seq<Hunk<T>>, h: Hunk<T>)
    ensures Grown(placed + [h]) == Grown(placed) + |h.newLines|
    ensures InsertsOf(placed + [h]) ==
      InsertsOf(placed) + (if h.newLines != [] then [Insert(h.OldEnd(), h.newLines)] else [])
  {
    if placed == [] {
      assert placed + [h] == [h] && [h][1..] == [];
    } else {
      assert (placed + [h])[1..] == placed[1..] + [h];
      InsertsSnoc(placed[1..], h);
    }
  }

  lemma {:induction false} BlocksSnoc<T>(placed: seq<Hunk<T>>, h: Hunk<T>, offset: nat)
    ensures var at := offset + Grown(placed);
      BlocksOf(placed + [h], offset) ==
        BlocksOf(placed, offset) + [Block(h.oldStart + at, |h.oldLines|, h.OldEnd() + at, |h.newLines|)]
  {
    if placed == [] {
      assert placed + [h] == [h] && [h][1..] == [];
    } else {
      assert (placed + [h])[1..] == placed[1..] + [h];
      BlocksSnoc(placed[1..], h, offset + |placed[0].newLines|);
    }
  }

  method LayOut<T>(hunks: seq<Hunk<T>>, places: seq<Option<nat>>) returns (inserts: seq<Insert<T>>, blocks: seq<Block>)
    requires |places| == |hunks|
    ensures inserts == InsertsOf(PlacedHunks(hunks, places)) && blocks == BlocksOf(PlacedHunks(hunks, places), 0)
  {
    inserts, blocks := [], [];
    var offset := 0;
    for k := 0 to |hunks|
      invariant inserts == InsertsOf(PlacedHunks(hunks[..k], places[..k]))
      invariant blocks == BlocksOf(PlacedHunks(hunks[..k], places[..k]), 0)
      invariant offset == Grown(PlacedHunks(hunks[..k], places[..k]))
    {
      PlacedHunksUpTo(hunks, places, k);
      if places[k].Some? {
        var h, at := hunks[k], places[k].value;
        InsertsSnoc(PlacedHunks(hunks[..k], places[..k]), h.(oldStart := at));
        BlocksSnoc(PlacedHunks(hunks[..k], places[..k]), h.(oldStart := at), 0);
        if h.newLines != [] {
          inserts := inserts + [Insert(at + |h.oldLines|, h.newLines)];
        }
        var removedStart := at + offset;
        blocks := blocks + [Block(removedStart, |h.oldLines|, removedStart + |h.oldLines|, |h.newLines|)];
        offset := offset + |h.newLines|;
      }
    }
    assert hunks[..|hunks|] == hunks && places[..|hunks|] == places;
  }

  method PlanPropose<T(==)>(base: seq<T>, proposal: seq<T>, current: seq<T>) returns (plan: ReviewPlan<T>)
    ensures plan == Plan(base, proposal, current)
  {
    var hunks := LineHunks(base, proposal);
    DiffDescribes(base, proposal);
    DescribesStands(base, proposal, hunks, 0, 0);
    var places := PlaceHunks(base, current, hunks);
    var unplaced := Where(hunks, places, false);
    SetAsideBackwards(base, proposal, places);
    var back := seq(|unplaced|, k requires 0 <= k < |unplaced| => unplaced[k].Reversed());
    assert back == Reverse(unplaced);
    var done := PlaceHunks(proposal, current, back);
    var inserts, blocks := LayOut(hunks, places);
    plan := ReviewPlan(inserts, blocks, Where(unplaced, done, false), Where(unplaced, done, true));
  }
}
