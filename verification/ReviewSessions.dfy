/**
 * A review of one file as the editor holds it (the session half of review-controller.ts): the buffer with
 * both versions of every open change, the blocks over it, and the disk that each decision is written to.
 */
module ReviewSessions {
  import opened Options
  import opened LineDiff
  import opened HunkPlacing
  import opened ReviewPlans
  import opened ReviewDecisions

  datatype ReviewResult = ReviewResult(accepted: nat, rejected: nat, conflicts: nat, applied: nat, abandoned: bool)

  // ---- Laying a plan in ----

  /** The buffer after a plan's inserts, from line `at` of the developer's file on. */
  function LaidIn<T>(current: seq<T>, inserts: seq<Insert<T>>, at: nat): seq<T>
    requires at <= |current| && InsertsFit(current, inserts, at)
    decreases |inserts|
  {
    if inserts == [] then current[at..]
    else current[at..inserts[0].line] + inserts[0].lines + LaidIn(current, inserts[1..], inserts[0].line)
  }

  predicate InsertsFit<T>(current: seq<T>, inserts: seq<Insert<T>>, at: nat)
    decreases |inserts|
  {
    inserts == [] || (at <= inserts[0].line <= |current| && InsertsFit(current, inserts[1..], inserts[0].line))
  }

  ghost function AllOpen(n: nat): (ds: seq<Decision>)
    ensures |ds| == n && OpenCount(ds) == n
  {
    if n == 0 then [] else [Open] + AllOpen(n - 1)
  }

  lemma InsertsFitEarlier<T>(current: seq<T>, inserts: seq<Insert<T>>, at: nat, at': nat)
    requires at <= at' <= |current| && InsertsFit(current, inserts, at')
    ensures InsertsFit(current, inserts, at)
    ensures LaidIn(current, inserts, at) == current[at..at'] + LaidIn(current, inserts, at')
  {
    if inserts == [] {
      CutAt(current, at, at', |current|);
    } else {
      var line := inserts[0].line;
      CutAt(current, at, at', line);
      Regroup(current[at..at'], current[at'..line], inserts[0].lines, LaidIn(current, inserts[1..], line));
    }
  }

  /** The plan's inserts and blocks are the review with nothing decided. */
  lemma {:induction false} LaidInIsOpen<T>(current: seq<T>, placed: seq<Hunk<T>>, at: nat)
    requires Ordered(current, placed, at) && Stand(current, placed)
    ensures at <= |current| && InsertsFit(current, InsertsOf(placed), at)
    ensures LaidIn(current, InsertsOf(placed), at) == Buffer(current, placed, AllOpen(|placed|), at)
    decreases |placed|
  {
    OrderedInside(current, placed, at);
    if placed != [] {
      var h := placed[0];
      assert Stand(current, placed[1..]) by {
        assert forall k | 0 <= k < |placed[1..]| :: placed[1..][k] == placed[k + 1];
      }
      LaidInIsOpen(current, placed[1..], h.OldEnd());
      assert AllOpen(|placed|)[1..] == AllOpen(|placed[1..]|);
      CutAt(current, at, h.oldStart, h.OldEnd());
      LaidFirst(current, h, InsertsOf(placed[1..]), at);
    }
  }

  lemma LaidFirst<T>(current: seq<T>, h: Hunk<T>, rest: seq<Insert<T>>, at: nat)
    requires at <= h.oldStart && h.OldEnd() <= |current| && InsertsFit(current, rest, h.OldEnd())
    requires current[at..h.OldEnd()] == current[at..h.oldStart] + h.oldLines
    ensures var all := (if h.newLines != [] then [Insert(h.OldEnd(), h.newLines)] else []) + rest;
      && InsertsFit(current, all, at)
      && LaidIn(current, all, at) == current[at..h.oldStart] + Segment(h, Open) + LaidIn(current, rest, h.OldEnd())
  {
    var gap, tail := current[at..h.oldStart], LaidIn(current, rest, h.OldEnd());
    if h.newLines == [] {
      assert [] + rest == rest;
      InsertsFitEarlier(current, rest, at, h.OldEnd());
      assert Segment(h, Open) == h.oldLines;
    } else {
      assert ([Insert(h.OldEnd(), h.newLines)] + rest)[1..] == rest;
      Regroup(gap, h.oldLines, h.newLines, tail);
      assert gap + (h.oldLines + h.newLines) + tail == gap + (h.oldLines + h.newLines + tail);
    }
  }

  lemma {:induction false} BlocksAreOpen<T>(current: seq<T>, placed: seq<Hunk<T>>, at: nat, offset: nat)
    requires Ordered(current, placed, at)
    ensures OpenBlocks(current, placed, AllOpen(|placed|), at, at + offset) == BlocksOf(placed, offset)
    decreases |placed|
  {
    if placed != [] {
      var h := placed[0];
      assert AllOpen(|placed|)[1..] == AllOpen(|placed[1..]|);
      BlocksAreOpen(current, placed[1..], h.OldEnd(), offset + |h.newLines|);
    }
  }

  // ---- Decisions in bulk ----

  ghost function DecideAll(ds: seq<Decision>, choice: Choice): (r: seq<Decision>)
    ensures |r| == |ds| && OpenCount(r) == 0
  {
    if ds == [] then [] else [if ds[0].Open? then Decided(choice) else ds[0]] + DecideAll(ds[1..], choice)
  }

  lemma {:induction false} DecideTowardsAll(ds: seq<Decision>, i: nat, choice: Choice)
    requires i < OpenCount(ds)
    ensures DecideAll(Decide(ds, i, choice), choice) == DecideAll(ds, choice)
    ensures OpenCount(Decide(ds, i, choice)) == OpenCount(ds) - 1
  {
    if ds[0].Open? && i == 0 {
      assert Decide(ds, i, choice)[1..] == ds[1..];
    } else {
      var i' := if ds[0].Open? then i - 1 else i;
      DecideTowardsAll(ds[1..], i', choice);
      assert Decide(ds, i, choice)[1..] == Decide(ds[1..], i', choice);
    }
  }

  lemma {:induction false} NothingOpen(ds: seq<Decision>, choice: Choice)
    requires OpenCount(ds) == 0
    ensures DecideAll(ds, choice) == ds
  {
    if ds != [] { NothingOpen(ds[1..], choice); }
  }

  lemma {:induction false} RejectOpenIsDecideAll(ds: seq<Decision>)
    ensures RejectOpen(ds) == DecideAll(ds, Reject)
  {
    if ds != [] { RejectOpenIsDecideAll(ds[1..]); }
  }

  /** How many changes were decided one way. */
  ghost function Count(ds: seq<Decision>, choice: Choice): nat {
    if ds == [] then 0 else (if ds[0] == Decided(choice) then 1 else 0) + Count(ds[1..], choice)
  }

  lemma {:induction false} CountDecided(ds: seq<Decision>, i: nat, choice: Choice)
    requires i < OpenCount(ds)
    ensures Count(Decide(ds, i, choice), choice) == Count(ds, choice) + 1
    ensures forall other | other != choice :: Count(Decide(ds, i, choice), other) == Count(ds, other)
  {
    if ds[0].Open? && i == 0 {
      assert Decide(ds, i, choice)[1..] == ds[1..];
    } else {
      var i' := if ds[0].Open? then i - 1 else i;
      CountDecided(ds[1..], i', choice);
      assert Decide(ds, i, choice)[1..] == Decide(ds[1..], i', choice);
    }
  }

  lemma {:induction false} CountsAddUp(ds: seq<Decision>)
    ensures Count(ds, Accept) + Count(ds, Reject) + OpenCount(ds) == |ds|
  {
    if ds != [] {
      CountsAddUp(ds[1..]);
      match ds[0] case Open => case Decided(Accept) => case Decided(Reject) =>
    }
  }

  lemma {:induction false} AcceptedAll<T>(placed: seq<Hunk<T>>, choice: Choice)
    ensures Accepted(placed, DecideAll(AllOpen(|placed|), choice)) == if choice == Accept then placed else []
  {
    if placed != [] {
      AcceptedAll(placed[1..], choice);
      var ds := AllOpen(|placed|);
      assert ds[1..] == AllOpen(|placed[1..]|);
      assert DecideAll(ds, choice)[1..] == DecideAll(ds[1..], choice);
    }
  }

  /** Rejecting everything gives back the developer's file; accepting everything in an untouched file gives the proposal. */
  lemma BulkDecisions<T>(base: seq<T>, proposal: seq<T>, current: seq<T>)
    ensures var placed := PlacedIn(base, proposal, current);
      var ds := AllOpen(|placed|);
      && Ordered(current, Accepted(placed, DecideAll(ds, Reject)), 0)
      && Splice(current, Accepted(placed, DecideAll(ds, Reject)), 0) == current
      && (current == base ==>
            && Ordered(current, Accepted(placed, DecideAll(ds, Accept)), 0)
            && Splice(current, Accepted(placed, DecideAll(ds, Accept)), 0) == proposal)
  {
    AcceptedAll(PlacedIn(base, proposal, current), Reject);
    AcceptedAll(PlacedIn(base, proposal, current), Accept);
    if current == base {
      NothingSetAside(base, proposal, current);
      DiffRoundTrip(base, proposal);
    }
  }

  // ---- The session ----

  /**
   * One review. `fate` says of every write to the disk, counted from the first, whether it succeeds: a
   * full disk or a lost mount may strike at any of them.
   */
  class ReviewSession<T(==)> {
    ghost const current: seq<T>
    ghost const placed: seq<Hunk<T>>
    ghost var ds: seq<Decision>

    const wasDirty: bool
    const conflicts: nat
    const applied: nat
    const fate: nat -> bool

    var buffer: seq<T>
    var disk: seq<T>
    var blocks: seq<Block>
    var accepted: nat
    var rejected: nat
    var writeThrough: bool
    var wrote: bool
    var underReview: bool
    var result: Option<ReviewResult>
    var attempts: nat

    /** The developer's file with exactly the changes accepted so far. */
    ghost function DecidedFile(): seq<T>
      requires Placeable(current, placed) && |ds| == |placed|
      reads this
    {
      AcceptedOrdered(current, placed, ds, 0);
      Splice(current, Accepted(placed, ds), 0)
    }

    /** Buffer and blocks are what the decisions make them. */
    ghost predicate Follows()
      reads this
    {
      && Placeable(current, placed) && |ds| == |placed|
      && Review(buffer, blocks) == ReviewAt(current, placed, ds)
    }

    /** The buffer without the green lines of open changes is the decided file; with none open, it is the buffer itself. */
    lemma FollowsDecides()
      requires Follows()
      ensures |blocks| == OpenCount(ds)
      ensures DecidedLines(buffer, blocks) == DecidedFile()
      ensures blocks == [] ==> buffer == DecidedFile()
    {
      BlocksInOrder(current, placed, ds, 0, 0);
      DecidedLinesAreAccepted(current, placed, ds);
      if blocks == [] { NothingDropped(buffer); }
    }

    /**
     * While a review is open, buffer and blocks are what the decisions make them, the tallies count the
     * decisions, and a disk that is written through holds exactly the decided file.
     */
    ghost predicate Valid()
      reads this
    {
      && Placeable(current, placed) && |ds| == |placed|
      && (wasDirty ==> !writeThrough && !wrote)
      && (underReview ==>
            && Follows()
            && blocks != []
            && accepted == Count(ds, Accept) && rejected == Count(ds, Reject)
            && (writeThrough ==> disk == DecidedFile()))
    }

    /** Starts a review of `proposal` over the file as the developer has it open. */
    constructor (base: seq<T>, proposal: seq<T>, current: seq<T>, disk: seq<T>, dirty: bool, writable: bool, fate: nat -> bool)
      requires !dirty && writable ==> disk == current
      ensures Valid()
      ensures this.current == current && placed == PlacedIn(base, proposal, current) && ds == AllOpen(|placed|)
      ensures this.disk == disk && wasDirty == dirty && !wrote && this.fate == fate && attempts == 0
      ensures var plan := Plan(base, proposal, current);
        && conflicts == |plan.conflicts| && applied == |plan.applied|
        && underReview == (plan.blocks != [])
        && (underReview ==> writeThrough == (!dirty && writable))
        && (!underReview ==>
              && buffer == current
              && result == Some(ReviewResult(0, 0, conflicts, applied, conflicts > 0)))
    {
      var plan := PlanPropose(base, proposal, current);
      PlanOpens(base, proposal, current);
      ghost var placed := PlacedIn(base, proposal, current);
      this.current, this.placed, ds := current, placed, AllOpen(|placed|);
      this.disk, wasDirty, this.fate, attempts := disk, dirty, fate, 0;
      conflicts, applied := |plan.conflicts|, |plan.applied|;
      accepted, rejected, wrote := 0, 0, false;
      blocks := plan.blocks;
      writeThrough := !dirty && writable;
      underReview := plan.blocks != [];
      buffer := if plan.blocks == [] then current else LaidIn(current, plan.inserts, 0);
      result := if plan.blocks == []
        then Some(ReviewResult(0, 0, |plan.conflicts|, |plan.applied|, |plan.conflicts| > 0)) else None;
    }

    /** writeDisk: a failure is not fatal, it only ends writing through. */
    method WriteDisk(text: seq<T>)
      modifies this`disk, this`wrote, this`writeThrough, this`attempts
      ensures attempts == old(attempts) + 1
      ensures fate(old(attempts)) ==> disk == text && wrote && writeThrough == old(writeThrough)
      ensures !fate(old(attempts)) ==> disk == old(disk) && wrote == old(wrote) && !writeThrough
    {
      if fate(attempts) {
        disk, wrote := text, true;
      } else {
        writeThrough := false;
      }
      attempts := attempts + 1;
    }

    /**
     * What a decision that leaves the review open does to the disk: written through, one write, and only its
     * failure ends the writing; not written through, nothing.
     */
    twostate predicate WrittenThrough()
      requires Placeable(current, placed) && |ds| == |placed|
      reads this
    {
      if old(writeThrough) then
        && attempts == old(attempts) + 1
        && (if fate(old(attempts)) then writeThrough && wrote && disk == DecidedFile()
            else !writeThrough && wrote == old(wrote) && disk == old(disk))
      else
        attempts == old(attempts) && disk == old(disk) && !writeThrough && wrote == old(wrote)
    }

    /** While a review is open, every change is accepted, rejected or open. */
    lemma TalliesAddUp()
      requires Valid() && underReview
      ensures accepted + rejected + |blocks| == |placed|
    {
      FollowsDecides();
      CountsAddUp(ds);
    }

    /** What settling leaves: an editor that wrote behind its own back reloads from the disk, whatever that holds. */
    twostate predicate Settled(decided: seq<T>)
      reads this
    {
      && attempts == old(attempts) + 1
      && (if fate(old(attempts)) then disk == decided && buffer == decided
          else disk == old(disk) && buffer == if old(wrote) then old(disk) else decided)
    }

    /** settle: save as usual when the disk was never touched; otherwise write it and reload the editor from it. */
    method Settle()
      modifies this`buffer, this`disk, this`wrote, this`writeThrough, this`attempts
      ensures Settled(old(buffer)) && (old(wrote) ==> wrote) && (!old(writeThrough) ==> !writeThrough)
      // The decisions stay in the editor except when the last write fails after an earlier one went through.
      ensures buffer == old(buffer) <==> fate(old(attempts)) || !old(wrote) || old(disk) == old(buffer)
    {
      if !wrote {
        if fate(attempts) { disk := buffer; }
        attempts := attempts + 1;
        return;
      }
      WriteDisk(buffer);
      buffer := disk;
    }

    /** end: the review closes; unless it was given up, a file that was clean is settled. */
    method End(abandoned: bool)
      modifies this`buffer, this`disk, this`wrote, this`writeThrough, this`attempts, this`underReview, this`result
      ensures !underReview
      ensures result == Some(ReviewResult(accepted, rejected, conflicts, applied, abandoned || blocks != []))
      ensures if !abandoned && !wasDirty then Settled(old(buffer))
        else buffer == old(buffer) && disk == old(disk) && attempts == old(attempts) && wrote == old(wrote)
      ensures wasDirty ==> wrote == old(wrote) && writeThrough == old(writeThrough)
    {
      underReview := false;
      if !abandoned && !wasDirty {
        Settle();
      }
      result := Some(ReviewResult(accepted, rejected, conflicts, applied, abandoned || blocks != []));
    }

    /** Resolves one block: its lines go from the buffer, the blocks below move up. */
    method Resolve(index: nat, choice: Choice)
      requires Follows() && index < |blocks|
      modifies this`buffer, this`blocks, this`ds
      ensures Follows()
      ensures index < OpenCount(old(ds)) && ds == ReviewDecisions.Decide(old(ds), index, choice)
      ensures |blocks| == |old(blocks)| - 1
    {
      DecisionStep(current, placed, ds, index, choice);
      var r := ResolveBlock(blocks, index, choice);
      if r.deleteCount > 0 {
        buffer := DeleteLines(buffer, r.deleteStart, r.deleteCount);
      }
      blocks := r.blocks;
      ds := ReviewDecisions.Decide(ds, index, choice);
    }

    /**
     * decide: one Accept or Reject. Out of range, nothing happens. The last decision ends the review with
     * editor and disk holding exactly the decided file, provided its write succeeds.
     */
    method Decide(index: int, choice: Choice)
      requires Valid()
      modifies this
      ensures Valid()
      ensures !(old(underReview) && 0 <= index < |old(blocks)|) ==> unchanged(this)
      ensures old(underReview) && 0 <= index < |old(blocks)| ==>
        && index < OpenCount(old(ds)) && ds == ReviewDecisions.Decide(old(ds), index, choice)
        && |blocks| == |old(blocks)| - 1 && underReview == (blocks != [])
        && (wasDirty ==> disk == old(disk))
        && accepted + rejected + |blocks| == |placed|
        && (underReview ==> WrittenThrough())
        && (!underReview ==>
              && OpenCount(ds) == 0
              && result == Some(ReviewResult(Count(ds, Accept), Count(ds, Reject), conflicts, applied, false))
              && (if wasDirty then buffer == DecidedFile() else Settled(DecidedFile())))
    {
      if !underReview || index < 0 || index >= |blocks| { return; }
      Resolve(index, choice);
      CountDecided(old(ds), index, choice);
      if choice == Accept { accepted := accepted + 1; } else { rejected := rejected + 1; }
      FollowsDecides();
      CountsAddUp(ds);
      if blocks == [] {
        End(false);
        return;
      }
      if writeThrough {
        WriteDisk(DecidedLines(buffer, blocks));
      }
    }

    /** allCmd: the same decision for every change still open, from the last block up. */
    method DecideEvery(choice: Choice)
      requires Valid()
      modifies this
      ensures Valid()
      ensures !old(underReview) ==> unchanged(this)
      ensures old(underReview) ==>
        && !underReview && ds == DecideAll(old(ds), choice)
        && result == Some(ReviewResult(Count(ds, Accept), Count(ds, Reject), conflicts, applied, false))
        && (wasDirty ==> buffer == DecidedFile() && disk == old(disk))
        && (!wasDirty ==> attempts > 0 && (fate(attempts - 1) ==> disk == DecidedFile() && buffer == DecidedFile()))
    {
      if !underReview { return; }
      while blocks != []
        invariant Valid() && (underReview <==> blocks != []) && (wasDirty ==> disk == old(disk))
        invariant DecideAll(ds, choice) == DecideAll(old(ds), choice)
        invariant !underReview ==>
          && OpenCount(ds) == 0
          && result == Some(ReviewResult(Count(ds, Accept), Count(ds, Reject), conflicts, applied, false))
          && (wasDirty ==> buffer == DecidedFile())
          && (!wasDirty ==> attempts > 0 && (fate(attempts - 1) ==> disk == DecidedFile() && buffer == DecidedFile()))
        decreases |blocks|
      {
        ghost var before := ds;
        label turn:
        Decide(|blocks| - 1, choice);
        DecideTowardsAll(before, old@turn(|blocks|) - 1, choice);
      }
      NothingOpen(ds, choice);
    }

    /** Every open change rejected, from the last block up, and nothing counted or written. */
    method RejectEvery()
      requires Follows()
      modifies this`buffer, this`blocks, this`ds
      ensures Follows() && blocks == [] && ds == RejectOpen(old(ds))
      ensures buffer == DecidedFile() == old(DecidedFile())
    {
      while blocks != []
        invariant Follows()
        invariant DecideAll(ds, Reject) == DecideAll(old(ds), Reject)
        decreases |blocks|
      {
        ghost var before, last := ds, |blocks| - 1;
        Resolve(|blocks| - 1, Reject);
        DecideTowardsAll(before, last, Reject);
      }
      FollowsDecides();
      NothingOpen(ds, Reject);
      RejectOpenIsDecideAll(old(ds));
      AcceptedRejected(placed, old(ds));
    }

    /**
     * withdraw: the review is taken back; every open change is removed and nothing is counted. The
     * editor ends at the file as decided before, and so does the disk unless its write fails.
     */
    method Withdraw()
      requires Valid()
      modifies this
      ensures Valid()
      ensures !old(underReview) ==> unchanged(this)
      ensures old(underReview) ==>
        && !underReview && ds == RejectOpen(old(ds)) && DecidedFile() == old(DecidedFile())
        && result == Some(ReviewResult(Count(old(ds), Accept), Count(old(ds), Reject), conflicts, applied, true))
        && (if wasDirty then buffer == DecidedFile() && disk == old(disk) else Settled(DecidedFile()))
    {
      if !underReview { return; }
      RejectEvery();
      if !wasDirty {
        Settle();
      }
      End(true);
    }
  }

  lemma TwoAccepted<T>(current: seq<T>, placed: seq<Hunk<T>>)
    requires Ordered(current, placed, 0) && |placed| == 2 && |placed[1].newLines| != |placed[1].oldLines|
    ensures Ordered(current, [placed[0]], 0) && Splice(current, [placed[0]], 0) != Splice(current, placed, 0)
  {
    assert placed[1..][1..] == [] && [placed[0]][1..] == [];
    var at, next := placed[0].OldEnd(), placed[1];
    assert |Splice(current, [], at)| == |current| - at;
    assert |Splice(current, placed[1..], at)| == next.oldStart - at + |next.newLines| + |current| - next.OldEnd();
  }

  /**
   * A whole review that ends with less than was decided: two changes, both accepted, where the disk takes the
   * first write and not the last. The report says two accepted; editor and disk hold one.
   */
  method LastDecisionLost<T(==)>(base: seq<T>, proposal: seq<T>, current: seq<T>, fate: nat -> bool)
    returns (s: ReviewSession<T>)
    requires var placed := PlacedIn(base, proposal, current);
      |placed| == 2 && |placed[1].newLines| != |placed[1].oldLines|
    requires fate(0) && !fate(1)
    ensures s.Valid() && !s.underReview && s.result.Some? && s.result.value.accepted == 2 && !s.result.value.abandoned
    ensures s.buffer == s.disk && s.buffer != s.DecidedFile()
  {
    BlocksCount(PlacedIn(base, proposal, current), 0);
    TwoDecisions(PlacedIn(base, proposal, current));
    s := new ReviewSession(base, proposal, current, current, false, true, fate);
    s.Decide(0, Accept);
    s.TalliesAddUp();
    assert s.ds == [Decided(Accept), Open] && s.wrote && s.writeThrough && s.attempts == 1;
    s.Decide(0, Accept);
    assert s.ds == [Decided(Accept), Decided(Accept)];
    TwoAccepted(current, PlacedIn(base, proposal, current));
  }

  lemma TwoDecisions<T>(placed: seq<Hunk<T>>)
    requires |placed| == 2
    ensures var one, two := [Decided(Accept), Open], [Decided(Accept), Decided(Accept)];
      && Decide(AllOpen(2), 0, Accept) == one && Decide(one, 0, Accept) == two
      && Accepted(placed, one) == [placed[0]] && Accepted(placed, two) == placed
      && Count(two, Accept) == 2
  {
    assert AllOpen(2)[1..] == AllOpen(1) && AllOpen(1)[1..] == [];
    assert AllOpen(2) == [Open, Open];
    assert [Decided(Accept), Open][1..] == [Open] && [Open][1..] == [];
    var two := [Decided(Accept), Decided(Accept)];
    assert two[1..] == [Decided(Accept)] && two[1..][1..] == [];
    assert placed[1..][1..] == [] && placed == [placed[0], placed[1]];
    assert Accepted(placed[1..], [Open]) == [] && Accepted(placed[1..], [Decided(Accept)]) == [placed[1]];
  }

  lemma {:induction false} ChangesFromAll<T>(placed: seq<Hunk<T>>)
    requires forall k | 0 <= k < |placed| :: placed[k].oldLines != [] || placed[k].newLines != []
    ensures Changes(placed)
  {
    if placed != [] {
      assert forall k | 0 <= k < |placed[1..]| :: placed[1..][k] == placed[k + 1];
      ChangesFromAll(placed[1..]);
    }
  }

  /** A plan laid in is a review with every placed change open, and its decided file is the file as it was. */
  lemma PlanOpens<T>(base: seq<T>, proposal: seq<T>, current: seq<T>)
    ensures var plan, placed := Plan(base, proposal, current), PlacedIn(base, proposal, current);
      var ds := AllOpen(|placed|);
      && Placeable(current, placed)
      && InsertsFit(current, plan.inserts, 0)
      && Review(LaidIn(current, plan.inserts, 0), plan.blocks) == ReviewAt(current, placed, ds)
      && Ordered(current, Accepted(placed, ds), 0) && Splice(current, Accepted(placed, ds), 0) == current
      && Count(ds, Accept) == 0 && Count(ds, Reject) == 0
  {
    PlacedInStands(base, proposal, current);
    var placed := PlacedIn(base, proposal, current);
    ChangesFromAll(placed);
    LaidInOpens(current, placed);
    NothingAccepted(current, placed);
  }

  lemma LaidInOpens<T>(current: seq<T>, placed: seq<Hunk<T>>)
    requires Placeable(current, placed)
    ensures InsertsFit(current, InsertsOf(placed), 0)
    ensures Review(LaidIn(current, InsertsOf(placed), 0), BlocksOf(placed, 0)) == ReviewAt(current, placed, AllOpen(|placed|))
  {
    LaidInIsOpen(current, placed, 0);
    BlocksAreOpen(current, placed, 0, 0);
  }

  lemma NothingAccepted<T>(current: seq<T>, placed: seq<Hunk<T>>)
    requires Placeable(current, placed)
    ensures var ds := AllOpen(|placed|);
      && Ordered(current, Accepted(placed, ds), 0)
      && Splice(current, Accepted(placed, ds), 0) == current
      && Count(ds, Accept) == 0 && Count(ds, Reject) == 0
  {
    var ds := AllOpen(|placed|);
    AcceptedAll(placed, Reject);
    RejectOpenIsDecideAll(ds);
    AcceptedRejected(placed, ds);
    CountsAddUp(ds);
  }

  /** With no block left there is nothing to drop. */
  lemma NothingDropped<T>(buffer: seq<T>)
    ensures DecidedLines(buffer, []) == buffer
  {
    KeptAll(buffer, {}, 0);
  }
}
