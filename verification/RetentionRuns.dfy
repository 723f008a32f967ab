/**
 * pruneSessions of session-retention.ts, await by await.
 */
module RetentionRuns {
  import opened Options
  import opened SessionRows
  import opened SessionRetention
  import opened RetentionHistory

  /** What a deletion did: the row went, it had moved, or the database raised. */
  datatype DeleteOutcome = Deleted | Gone | Failed

  /** What became of one eligible session in the second phase. */
  datatype Swept = Skipped | Reopened | Removed | Errored | Raised

  /** The history after an await, in which others left `w`, and a write of the run's own. */
  ghost function Written(trace: History, w: World, kind: Kind, after: World): History {
    trace + [Event(Others, w)] + [Event(kind, after)]
  }

  lemma Wrote(origin: World, trace: History, w: World, kind: Kind, after: World, cutoff: int)
    requires Sound(origin, trace, cutoff) && !kind.Others?
    ensures var mid := trace + [Event(Others, w)];
      && Sound(origin, mid, cutoff)
      && (Sound(origin, Written(trace, w, kind, after), cutoff) <==> Justified(origin, mid, cutoff, kind))
      && TallyOf(origin, Written(trace, w, kind, after)) == Tallied(TallyOf(origin, mid), kind, w, after)
      && SameOwn(TallyOf(origin, trace), TallyOf(origin, mid))
  {
    TallyGrown(origin, trace, Others, w, cutoff);
    TallyGrown(origin, trace + [Event(Others, w)], kind, after, cutoff);
  }

  lemma WriteGrows(env: nat -> World -> World, first: nat, origin: World, trace: History, kind: Kind, w: World, after: World)
    requires Genuine(env, first, origin, trace) && w == Now(origin, trace) && !kind.Others?
    requires after == Effect(env, first + Awaits(trace), kind, w)
    ensures var next := trace + [Event(kind, after)];
      Genuine(env, first, origin, next) && Now(origin, next) == after && Awaits(next) == Awaits(trace)
  {
    GrownBy(env, first, origin, trace, kind);
  }

  /** The second comes to the same of the run's own, with perhaps more changed by others. */
  ghost predicate SameOwn(s: Tally, t: Tally) {
    s.held == t.held && s.gone == t.gone && s.failed == t.failed && s.touched <= t.touched
  }

  // ---- The run's steps, by its history ----

  /** One row of the first screening: let go exactly when it is eligible. */
  ghost predicate RowScreened(origin: World, trace: History, ctx: Context, readAt: nat, row: Row, eligible: bool) {
    exists at, verdict ::
      FirstScreened(origin, trace, ctx.cutoff, ctx, readAt, at, row, verdict) && (eligible <==> verdict == MayGo)
  }

  lemma RowScreenedKept(origin: World, a: History, b: History, ctx: Context, readAt: nat, row: Row, eligible: bool)
    requires a <= b && RowScreened(origin, a, ctx, readAt, row, eligible)
    ensures RowScreened(origin, b, ctx, readAt, row, eligible)
  {
    var at, verdict :|
      FirstScreened(origin, a, ctx.cutoff, ctx, readAt, at, row, verdict) && (eligible <==> verdict == MayGo);
    FirstKept(origin, a, b, ctx.cutoff, ctx, readAt, at, row, verdict);
  }

  /** One more row screened. */
  lemma ScreenedMore(
    origin: World, a: History, b: History, ctx: Context, readAt: nat, rows: Table, i: nat, at: nat,
    eligible: Table, errors: set<Id>, verdict: Verdict)
    requires a <= b && Quiet(a, 0, |a|) && Quiet(b, |a|, |b|) && at == |a| && |b| == |a| + 2 && i < |rows|
    requires ContextRead(origin, a, readAt, ctx, ctx.cutoff) && rows == WorldAt(origin, a, readAt).rows
    requires verdict == ScreenedAt(origin, b, at, rows[i], ctx)
    requires forall r | r in eligible :: r in rows[..i] && LetGoFirst(origin, a, ctx.cutoff, r)
    requires forall r | r in rows[..i] :: RowScreened(origin, a, ctx, readAt, r, r in eligible)
    requires forall id | id in errors :: RaisedFirst(origin, a, ctx.cutoff, id)
    ensures rows[i].id !in IdSet(eligible)
    ensures FirstScreened(origin, b, ctx.cutoff, ctx, readAt, at, rows[i], verdict)
    ensures forall r | r in eligible :: LetGoFirst(origin, b, ctx.cutoff, r)
    ensures verdict == MayGo ==> LetGoFirst(origin, b, ctx.cutoff, rows[i])
    ensures verdict == Threw ==> RaisedFirst(origin, b, ctx.cutoff, rows[i].id)
    ensures forall r | r in rows[..i + 1] ::
      RowScreened(origin, b, ctx, readAt, r, r in eligible || (verdict == MayGo && r == rows[i]))
    ensures forall id | id in errors :: RaisedFirst(origin, b, ctx.cutoff, id)
  {
    assert FirstScreened(origin, b, ctx.cutoff, ctx, readAt, at, rows[i], verdict);
    forall r | r in rows[..i] ensures r.id != rows[i].id { var k :| 0 <= k < i && rows[k] == r; }
    forall r | r in eligible ensures LetGoFirst(origin, b, ctx.cutoff, r) { LetGoKept(origin, a, b, ctx.cutoff, r); }
    forall id | id in errors ensures RaisedFirst(origin, b, ctx.cutoff, id) { RaisedKept(origin, a, b, ctx.cutoff, id); }
    forall r | r in rows[..i + 1]
      ensures RowScreened(origin, b, ctx, readAt, r, r in eligible || (verdict == MayGo && r == rows[i]))
    {
      if r in rows[..i] {
        RowScreenedKept(origin, a, b, ctx, readAt, r, r in eligible);
      } else {
        assert r == rows[i];
      }
    }
  }

  /** So far the run has only closed, and holds closed just these. */
  ghost predicate OnlyCloses(t: Tally, closed: set<Id>) { t.held == closed && t.gone == {} && t.failed == {} }

  lemma {:induction false} QuietIsSound(origin: World, trace: History, cutoff: int)
    requires Quiet(trace, 0, |trace|)
    ensures Sound(origin, trace, cutoff) && OnlyCloses(TallyOf(origin, trace), {})
    decreases |trace|
  {
    if trace != [] { QuietIsSound(origin, trace[..|trace| - 1], cutoff); }
  }

  lemma ClosingSound(
    origin: World, screened: History, trace: History, w: World, e: Row, closed: set<Id>, cutoff: int)
    requires Sound(origin, trace, cutoff) && OnlyCloses(TallyOf(origin, trace), closed) && screened <= trace
    requires LetGoFirst(origin, screened, cutoff, e) && e.status == Active
    ensures var next := Written(trace, w, Closing(e), CloseIn(w, e));
      && Sound(origin, next, cutoff) && TriesToClose(next, e)
      && OnlyCloses(TallyOf(origin, next), if StandsAs(w, e, Active) then closed + {e.id} else closed)
  {
    var next := Written(trace, w, Closing(e), CloseIn(w, e));
    Wrote(origin, trace, w, Closing(e), CloseIn(w, e), cutoff);
    LetGoKept(origin, screened, trace + [Event(Others, w)], cutoff, e);
    assert next[|trace| + 1].kind == Closing(e);
  }

  /** After the first i eligible sessions: the active ones were tried, and these are held closed. */
  ghost predicate ClosedSoFar(origin: World, trace: History, cutoff: int, eligible: Table, i: nat, closedHere: set<Id>)
    requires i <= |eligible|
  {
    && Sound(origin, trace, cutoff) && OnlyCloses(TallyOf(origin, trace), closedHere)
    && closedHere <= IdSet(eligible[..i])
    && forall e | e in eligible[..i] && e.status == Active :: TriesToClose(trace, e)
  }

  lemma CloseSkips(origin: World, trace: History, cutoff: int, eligible: Table, i: nat, closedHere: set<Id>)
    requires i < |eligible| && eligible[i].status != Active
    requires ClosedSoFar(origin, trace, cutoff, eligible, i, closedHere)
    ensures ClosedSoFar(origin, trace, cutoff, eligible, i + 1, closedHere)
    ensures ActiveIds(eligible[..i + 1]) == ActiveIds(eligible[..i])
  {
    assert eligible[..i + 1] == eligible[..i] + [eligible[i]];
  }

  lemma CloseMore(
    origin: World, screened: History, trace: History, w: World, cutoff: int, eligible: Table, i: nat, closedHere: set<Id>)
    requires screened <= trace
    requires i < |eligible| && eligible[i].status == Active && LetGoFirst(origin, screened, cutoff, eligible[i])
    requires ClosedSoFar(origin, trace, cutoff, eligible, i, closedHere)
    ensures var e := eligible[i];
      ClosedSoFar(origin, Written(trace, w, Closing(e), CloseIn(w, e)), cutoff, eligible, i + 1,
                  if StandsAs(w, e, Active) then closedHere + {e.id} else closedHere)
  {
    var e := eligible[i];
    var next := Written(trace, w, Closing(e), CloseIn(w, e));
    ClosingSound(origin, screened, trace, w, e, closedHere, cutoff);
    assert eligible[..i + 1] == eligible[..i] + [e];
    forall x | x in eligible[..i] && x.status == Active ensures TriesToClose(next, x) { TriedKept(trace, next, x); }
  }

  ghost predicate AllStand(w: World, eligible: Table) {
    forall r | r in eligible :: r in w.rows && r.container == Stopped
  }

  ghost predicate AsClosed(start: World, now: World, eligible: Table, i: nat, closedHere: set<Id>)
    requires i <= |eligible|
  {
    closedHere == ActiveIds(eligible[..i]) && now == Midway(start, closedHere, {})
  }

  lemma CloseAsPlanned(start: World, now: World, eligible: Table, i: nat, closedHere: set<Id>)
    requires i < |eligible| && eligible[i].status == Active && AllStand(start, eligible)
    requires AsClosed(start, now, eligible, i, closedHere)
    ensures var e := eligible[i];
      StandsAs(now, e, Active) && AsClosed(start, CloseIn(now, e), eligible, i + 1, closedHere + {e.id})
  {
    MidwayClose(start, eligible, i, closedHere);
  }

  /** In the second phase: a sound history, with its context read and nothing closed since. */
  ghost predicate Sweeping(origin: World, trace: History, ctx: Context, readAt: nat) {
    && Sound(origin, trace, ctx.cutoff) && ContextRead(origin, trace, readAt, ctx, ctx.cutoff)
    && ClosesNothingFrom(trace, readAt)
  }

  lemma QuietSweeps(origin: World, a: History, b: History, ctx: Context, readAt: nat)
    requires a <= b && Quiet(b, |a|, |b|) && Sweeping(origin, a, ctx, readAt)
    ensures Sweeping(origin, b, ctx, readAt)
    ensures SameOwn(TallyOf(origin, a), TallyOf(origin, b))
  {
    QuietKeeps(origin, a, b);
    ContextKept(origin, a, b, readAt, ctx, ctx.cutoff);
  }

  lemma BeginsSweep(origin: World, a: History, b: History, ctx: Context, readAt: nat, closed: set<Id>)
    requires a <= b && Quiet(b, |a|, |b|) && Sound(origin, a, ctx.cutoff) && OnlyCloses(TallyOf(origin, a), closed)
    requires readAt >= |a| && ContextRead(origin, b, readAt, ctx, ctx.cutoff)
    ensures Sweeping(origin, b, ctx, readAt) && OnlyCloses(TallyOf(origin, b), closed)
  {
    QuietKeeps(origin, a, b);
  }

  /** What one session's turn in the second phase adds to the tally. */
  ghost predicate SweptBy(origin: World, s: Tally, t: Tally, id: Id, result: Swept) {
    && t.held == (if result == Reopened then s.held - {id} else s.held)
    && t.gone == (if result == Removed then s.gone + {id} else s.gone)
    && t.failed == (if result == Errored then s.failed + {id} else s.failed)
    && s.touched <= t.touched
    && (result == Skipped ==> id in t.held ==> id in t.touched)
    && (result == Errored ==> id in t.touched || IsClosed(origin, t, id))
  }

  lemma DeletionSweeps(
    origin: World, trace: History, w: World, ctx: Context, readAt: nat, seenAt: nat, at: nat, row: Row)
    requires Sweeping(origin, trace, ctx, readAt)
    requires Rescreened(origin, trace, ctx.cutoff, ctx, readAt, seenAt, at, row, MayGo) && Quiet(trace, seenAt, |trace|)
    ensures var next := Written(trace, w, Deleting(row), RemoveIn(w, row));
      && Sweeping(origin, next, ctx, readAt)
      && Rescreened(origin, next, ctx.cutoff, ctx, readAt, seenAt, at, row, MayGo)
      && (row.id !in w.undeletable && !StandsAs(w, row, Closed) ==> MovedSince(origin, next, seenAt, row))
      && Removes(TallyOf(origin, trace), TallyOf(origin, next), w, row)
  {
    var mid, after := trace + [Event(Others, w)], RemoveIn(w, row);
    var next := Written(trace, w, Deleting(row), after);
    Wrote(origin, trace, w, Deleting(row), after, ctx.cutoff);
    DeletionJustified(origin, trace, mid, ctx, readAt, seenAt, at, row);
    SweepsOn(origin, trace, w, Deleting(row), after, ctx, readAt);
    RescreenKept(origin, trace, next, ctx.cutoff, ctx, readAt, seenAt, at, row, MayGo);
    if row.id !in w.undeletable && !StandsAs(w, row, Closed) { MovedNow(origin, mid, seenAt, row, after); }
  }

  ghost predicate Removes(s: Tally, t: Tally, w: World, row: Row) {
    if row.id in w.undeletable then SameOwn(s.(failed := s.failed + {row.id}), t)
    else if StandsAs(w, row, Closed) then SameOwn(s.(gone := s.gone + {row.id}), t)
    else SameOwn(s, t)
  }

  lemma DeletionJustified(
    origin: World, a: History, b: History, ctx: Context, readAt: nat, seenAt: nat, at: nat, row: Row)
    requires a <= b && Quiet(b, |a|, |b|) && Quiet(a, seenAt, |a|)
    requires Rescreened(origin, a, ctx.cutoff, ctx, readAt, seenAt, at, row, MayGo)
    ensures Justified(origin, b, ctx.cutoff, Deleting(row))
  {
    RescreenKept(origin, a, b, ctx.cutoff, ctx, readAt, seenAt, at, row, MayGo);
    assert Quiet(b, seenAt, |b|);
  }

  lemma MovedNow(origin: World, mid: History, from: nat, row: Row, after: World)
    requires from <= |mid| && row.id !in Now(origin, mid).undeletable && !StandsAs(Now(origin, mid), row, Closed)
    ensures MovedSince(origin, mid + [Event(Deleting(row), after)], from, row)
  {
    var next := mid + [Event(Deleting(row), after)];
    assert next[|mid|].kind == Deleting(row) && WorldAt(origin, next, |mid|) == Now(origin, mid);
  }

  /** After an await and a write that is no close, the second phase goes on. */
  lemma SweepsOn(origin: World, trace: History, w: World, kind: Kind, after: World, ctx: Context, readAt: nat)
    requires Sweeping(origin, trace, ctx, readAt) && !kind.Closing?
    requires Sound(origin, Written(trace, w, kind, after), ctx.cutoff)
    ensures Sweeping(origin, Written(trace, w, kind, after), ctx, readAt)
  {
    ContextKept(origin, trace, Written(trace, w, kind, after), readAt, ctx, ctx.cutoff);
  }

  lemma ReopeningSweeps(
    origin: World, trace: History, w: World, ctx: Context, readAt: nat, seenAt: nat, at: nat, row: Row, verdict: Verdict)
    requires Sweeping(origin, trace, ctx, readAt) && row.id in TallyOf(origin, trace).held
    requires Rescreened(origin, trace, ctx.cutoff, ctx, readAt, seenAt, at, row, verdict)
    requires verdict.Kept? || (verdict == MayGo && MovedSince(origin, trace, seenAt, row))
    ensures var next := Written(trace, w, Reopening(row.id), ReopenIn(w, row.id));
      && Sweeping(origin, next, ctx, readAt)
      && (var s := TallyOf(origin, trace); SameOwn(s.(held := s.held - {row.id}), TallyOf(origin, next)))
  {
    var after := ReopenIn(w, row.id);
    Wrote(origin, trace, w, Reopening(row.id), after, ctx.cutoff);
    ReopeningJustified(origin, trace, trace + [Event(Others, w)], ctx, readAt, seenAt, at, row, verdict);
    SweepsOn(origin, trace, w, Reopening(row.id), after, ctx, readAt);
  }

  lemma ReopeningJustified(
    origin: World, a: History, b: History, ctx: Context, readAt: nat, seenAt: nat, at: nat, row: Row, verdict: Verdict)
    requires a <= b && Quiet(b, |a|, |b|) && row.id in TallyOf(origin, b).held
    requires Rescreened(origin, a, ctx.cutoff, ctx, readAt, seenAt, at, row, verdict)
    requires verdict.Kept? || (verdict == MayGo && MovedSince(origin, a, seenAt, row))
    ensures Justified(origin, b, ctx.cutoff, Reopening(row.id))
  {
    RescreenKept(origin, a, b, ctx.cutoff, ctx, readAt, seenAt, at, row, verdict);
    if !verdict.Kept? { MovedKept(origin, a, b, seenAt, row); }
  }

  lemma MovedKept(origin: World, a: History, b: History, from: nat, row: Row)
    requires a <= b && MovedSince(origin, a, from, row)
    ensures MovedSince(origin, b, from, row)
  {
    var k :| from <= k < |a| && a[k].kind == Deleting(row) && row.id !in WorldAt(origin, a, k).undeletable
      && !StandsAs(WorldAt(origin, a, k), row, Closed);
    assert b[k].kind == Deleting(row) && WorldAt(origin, b, k) == WorldAt(origin, a, k);
  }

  /** What has been reported so far of the second phase. */
  ghost predicate Reported(origin: World, t: Tally, listed: seq<Id>, errors: set<Id>) {
    && Listed(listed) == t.gone && errors == t.failed && t.failed !! t.gone
    && forall id | id in t.failed && id !in t.touched :: IsClosed(origin, t, id)
  }

  /**
   * After the first i eligible sessions: of those this run closed, the ones not yet swept are still closed,
   * and of the swept ones only those deleted, failed or changed by others can be.
   */
  ghost predicate Accounted(eligible: Table, i: nat, closedHere: set<Id>, t: Tally)
    requires i <= |eligible|
  {
    && t.held <= closedHere <= t.held + IdSet(eligible[..i])
    && t.gone + t.failed <= IdSet(eligible[..i])
    && t.held * IdSet(eligible[..i]) <= t.touched + t.gone + t.failed
  }

  lemma AccountedStep(
    origin: World, eligible: Table, i: nat, closedHere: set<Id>, s: Tally, t: Tally, listed: seq<Id>, errors: set<Id>,
    result: Swept)
    requires i < |eligible| && Accounted(eligible, i, closedHere, s) && Reported(origin, s, listed, errors)
    requires SweptBy(origin, s, t, eligible[i].id, result)
    ensures result == Raised ==> Reported(origin, t, listed, errors)
    ensures result != Raised ==>
      && Accounted(eligible, i + 1, closedHere, t)
      && Reported(origin, t, if result == Removed then listed + [eligible[i].id] else listed,
                  if result == Errored then errors + {eligible[i].id} else errors)
    ensures eligible[i].id !in listed
  {
    var id := eligible[i].id;
    assert eligible[..i + 1] == eligible[..i] + [eligible[i]];
    assert IdSet(eligible[..i + 1]) == IdSet(eligible[..i]) + {id};
    NotSweptYet(eligible, i);
    ListedMore(listed, id);
    if result != Raised {
      forall x | x in t.held * IdSet(eligible[..i + 1]) ensures x in t.touched + t.gone + t.failed {
        if x != id { assert x in s.held * IdSet(eligible[..i]); }
      }
    }
    forall other | other in t.failed && other !in t.touched ensures IsClosed(origin, t, other) {
      if other != id { assert other in s.failed && other !in s.touched; }
    }
  }

  lemma AccountedAll(eligible: Table, closedHere: set<Id>, t: Tally)
    requires Accounted(eligible, |eligible|, closedHere, t) && closedHere <= IdSet(eligible)
    ensures t.held <= t.touched + t.gone + t.failed
  {
    assert eligible[..|eligible|] == eligible;
  }

  /** Where the second phase is after the first i eligible sessions. */
  ghost predicate SoFar(
    origin: World, trace: History, ctx: Context, readAt: nat, eligible: Table, i: nat, closedHere: set<Id>,
    listed: seq<Id>, errors: set<Id>)
    requires i <= |eligible|
  {
    && Sweeping(origin, trace, ctx, readAt) && Distinct(listed)
    && Reported(origin, TallyOf(origin, trace), listed, errors)
    && Accounted(eligible, i, closedHere, TallyOf(origin, trace))
  }

  lemma ItsTurn(
    origin: World, trace: History, ctx: Context, readAt: nat, eligible: Table, i: nat, closedHere: set<Id>,
    listed: seq<Id>, errors: set<Id>)
    requires i < |eligible| && SoFar(origin, trace, ctx, readAt, eligible, i, closedHere, listed, errors)
    ensures var id, t := eligible[i].id, TallyOf(origin, trace);
      (id in closedHere <==> id in t.held) && id !in t.gone + t.failed && id !in Listed(listed)
  {
    NotSweptYet(eligible, i);
  }

  lemma SoFarMore(
    origin: World, before: History, after: History, ctx: Context, readAt: nat, eligible: Table, i: nat, closedHere: set<Id>,
    listed: seq<Id>, errors: set<Id>, result: Swept)
    requires i < |eligible| && SoFar(origin, before, ctx, readAt, eligible, i, closedHere, listed, errors)
    requires Sweeping(origin, after, ctx, readAt)
    requires SweptBy(origin, TallyOf(origin, before), TallyOf(origin, after), eligible[i].id, result)
    ensures result == Raised ==> Reported(origin, TallyOf(origin, after), listed, errors)
    ensures result != Raised ==>
      SoFar(origin, after, ctx, readAt, eligible, i + 1, closedHere,
            if result == Removed then listed + [eligible[i].id] else listed,
            if result == Errored then errors + {eligible[i].id} else errors)
  {
    AccountedStep(
      origin, eligible, i, closedHere, TallyOf(origin, before), TallyOf(origin, after), listed, errors, result);
  }

  ghost predicate SweptAsPlanned(w: World, now: World, eligible: Table, i: nat, closedHere: set<Id>, listed: seq<Id>)
    requires i <= |eligible|
  {
    listed == IdsOf(Removable(eligible[..i])) && now == Midway(w, closedHere, Listed(listed))
  }

  lemma PlanMore(
    w: World, was: World, now: World, eligible: Table, i: nat, closedHere: set<Id>, listed: seq<Id>, result: Swept)
    requires i < |eligible| && SweptAsPlanned(w, was, eligible, i, closedHere, listed)
    requires var e := eligible[i];
      if e.status == Active || e.status == Closed
      then result == Removed && now == Midway(w, closedHere, Listed(listed) + {e.id})
      else result == Skipped && now == was
    ensures SweptAsPlanned(w, now, eligible, i + 1, closedHere, if result == Removed then listed + [eligible[i].id] else listed)
  {
    RemovableMore(eligible, i);
    ListedMore(listed, eligible[i].id);
  }

  lemma {:induction false} ListedRows(origin: World, trace: History, cutoff: int, rows: seq<Row>)
    requires forall r | r in rows :: LetGoFirst(origin, trace, cutoff, r)
    ensures forall id | id in IdsOf(rows) :: exists row: Row | row.id == id :: LetGoFirst(origin, trace, cutoff, row)
  {
    IdsListed(rows);
    forall id | id in IdsOf(rows) ensures exists row: Row | row.id == id :: LetGoFirst(origin, trace, cutoff, row) {
      assert id in Listed(IdsOf(rows));
      var r :| r in rows && r.id == id;
    }
  }

  /** What the first phase did, seen from the end of the run. */
  lemma FirstPhaseStays(
    origin: World, screened: History, closed: History, trace: History, cutoff: int, ctx: Context, readAt: nat, rows: Table,
    eligible: Table)
    requires screened <= closed <= trace && Quiet(screened, 0, |screened|) && ctx.cutoff == cutoff
    requires ContextRead(origin, screened, readAt, ctx, cutoff) && rows == WorldAt(origin, screened, readAt).rows
    requires forall r | r in rows :: RowScreened(origin, screened, ctx, readAt, r, r in eligible)
    requires forall e | e in eligible && e.status == Active :: TriesToClose(closed, e)
    ensures FirstPhaseDone(origin, trace, cutoff)
  {
    ContextKept(origin, screened, trace, readAt, ctx, cutoff);
    forall row | row in rows ensures PutThrough(origin, trace, cutoff, ctx, readAt, row) {
      var at, verdict :|
        FirstScreened(origin, screened, cutoff, ctx, readAt, at, row, verdict) && (row in eligible <==> verdict == MayGo);
      FirstKept(origin, screened, trace, cutoff, ctx, readAt, at, row, verdict);
      if verdict == MayGo && row.status == Active { TriedKept(closed, trace, row); }
    }
    assert Quiet(trace, 0, readAt + 2);
  }

  lemma AllIdleListed(w: World, cutoff: int)
    ensures forall r | r in w.rows :: r.id in IdsOf(Eligible(w, cutoff, w.rows)) <==> Idle(w, cutoff, r)
    ensures forall r | r in w.rows ::
      r.id in IdsOf(RemovedBy(w, cutoff)) <==> Idle(w, cutoff, r) && (r.status == Active || r.status == Closed)
  {
    forall r | r in w.rows
      ensures r.id in IdsOf(Eligible(w, cutoff, w.rows)) <==> Idle(w, cutoff, r)
      ensures r.id in IdsOf(RemovedBy(w, cutoff)) <==> Idle(w, cutoff, r) && (r.status == Active || r.status == Closed)
    {
      IdleIsRemoved(w, cutoff, r);
      assert forall ids: seq<Id>, id :: id in Listed(ids) <==> id in ids;
    }
  }

  /** A run. `env(k)` is what all other writers do to the world at the k-th await. */
  class Run {
    const env: nat -> World -> World
    var world: World
    var tick: nat
    ghost var first: nat
    ghost var origin: World
    ghost var trace: History

    /** The history kept is what happened to the world, await by await. */
    ghost predicate Valid()
      reads this
    {
      Genuine(env, first, origin, trace) && world == Now(origin, trace) && tick == first + Awaits(trace)
    }

    constructor (env: nat -> World -> World, world: World)
      ensures this.env == env && this.world == world && tick == 0 && Valid()
    {
      this.env, this.world, tick, first, origin, trace := env, world, 0, 0, world, [];
    }

    /** An await: anyone else may act. */
    method Await()
      requires Valid()
      modifies this`world, this`tick, this`trace
      ensures Valid() && world == env(old(tick))(old(world)) && trace == old(trace) + [Event(Others, world)]
    {
      GrownBy(env, first, origin, trace, Others);
      world := env(tick)(world);
      tick := tick + 1;
      trace := trace + [Event(Others, world)];
    }

    /** Nobody else writes. */
    ghost predicate Undisturbed() {
      forall k, w :: env(k)(w) == w
    }

    method BuildContext(cutoff: int) returns (rows: Table, ctx: Context, ghost readAt: nat)
      requires Valid()
      modifies this`world, this`tick, this`trace
      ensures Valid() && old(trace) <= trace && Quiet(trace, |old(trace)|, |trace|)
      ensures readAt == |old(trace)| + 1 && |trace| == readAt + 2 && ContextRead(origin, trace, readAt, ctx, cutoff)
      ensures rows == WorldAt(origin, trace, readAt).rows
      ensures Undisturbed() ==>
        world == old(world) && rows == world.rows && ctx.pinned == world.pinned && ctx.blocked == world.blocked
    {
      ghost var start := trace;
      readAt := |trace| + 1;
      Await();
      rows := world.rows;
      ghost var w1 := world;
      var continuations := Continuations(rows);
      Await();
      var pinned := world.pinned;
      ghost var w2 := world;
      Await();
      ctx := Context(cutoff, continuations, pinned, world.blocked);
      ReadsContext(origin, start, w1, w2, world, ctx);
    }

    lemma ReadsContext(origin: World, start: History, w1: World, w2: World, w3: World, ctx: Context)
      requires ContinuationIds(w1.rows, ctx.continuations) && ctx.pinned == w2.pinned && ctx.blocked == w3.blocked
      ensures var next := start + [Event(Others, w1)] + [Event(Others, w2)] + [Event(Others, w3)];
        && start <= next && Quiet(next, |start|, |next|) && |next| == |start| + 3
        && WorldAt(origin, next, |start| + 1) == w1 && ContextRead(origin, next, |start| + 1, ctx, ctx.cutoff)
    {
      var next := start + [Event(Others, w1)] + [Event(Others, w2)] + [Event(Others, w3)];
      assert WorldAt(origin, next, |start| + 1) == w1 && WorldAt(origin, next, |start| + 2) == w2;
      assert WorldAt(origin, next, |start| + 3) == w3;
    }

    /** screen: all but the mailbox, an await, the mailbox, and another await before its verdict is known. */
    method Screen(row: Row, ctx: Context) returns (verdict: Verdict)
      requires Valid()
      modifies this`world, this`tick, this`trace
      ensures Valid() && old(trace) <= trace && |trace| == |old(trace)| + 2 && Quiet(trace, |old(trace)|, |trace|)
      ensures verdict == ScreenedAt(origin, trace, |old(trace)|, row, ctx)
      ensures verdict == Screening(row, ctx, old(world), env(old(tick))(old(world)))
      ensures Undisturbed() ==> world == old(world)
    {
      var before := world;
      Await();
      verdict := Screening(row, ctx, before, world);
      Await();
    }

    method CloseSession(row: Row) returns (changed: bool)
      requires Valid()
      modifies this`world, this`tick, this`trace
      ensures Valid()
      ensures var w := env(old(tick))(old(world));
        && world == CloseIn(w, row) && changed == StandsAs(w, row, Active)
        && trace == Written(old(trace), w, Closing(row), world)
    {
      Await();
      WriteGrows(env, first, origin, trace, Closing(row), world, CloseIn(world, row));
      changed := StandsAs(world, row, Active);
      world := CloseIn(world, row);
      trace := trace + [Event(Closing(row), world)];
    }

    method ReopenSession(id: Id)
      requires Valid()
      modifies this`world, this`tick, this`trace
      ensures Valid()
      ensures var w := env(old(tick))(old(world));
        world == ReopenIn(w, id) && trace == Written(old(trace), w, Reopening(id), world)
    {
      Await();
      WriteGrows(env, first, origin, trace, Reopening(id), world, ReopenIn(world, id));
      world := ReopenIn(world, id);
      trace := trace + [Event(Reopening(id), world)];
    }

    /** deleteCentralRows: reads which tables exist, then one transaction. */
    method DeleteCentralRows(row: Row) returns (outcome: DeleteOutcome)
      requires Valid()
      modifies this`world, this`tick, this`trace
      ensures Valid()
      ensures var w := env(old(tick))(old(world));
        && trace == Written(old(trace), w, Deleting(row), world)
        && world == RemoveIn(w, row)
        && outcome == if row.id in w.undeletable then Failed else if StandsAs(w, row, Closed) then Deleted else Gone
    {
      Await();
      WriteGrows(env, first, origin, trace, Deleting(row), world, RemoveIn(world, row));
      outcome :=
        if row.id in world.undeletable then Failed else if StandsAs(world, row, Closed) then Deleted else Gone;
      world := RemoveIn(world, row);
      trace := trace + [Event(Deleting(row), world)];
    }

    /** The first screening: the rows it lets go; a row whose screening raises is reported and left. */
    method ScreenAll(rows: Table, ctx: Context, ghost readAt: nat) returns (eligible: Table, errors: set<Id>)
      requires Valid() && Quiet(trace, 0, |trace|) && ContextRead(origin, trace, readAt, ctx, ctx.cutoff)
      requires rows == WorldAt(origin, trace, readAt).rows
      modifies this`world, this`tick, this`trace
      ensures Valid() && old(trace) <= trace && Quiet(trace, 0, |trace|)
      ensures forall r | r in rows :: RowScreened(origin, trace, ctx, readAt, r, r in eligible)
      ensures forall r | r in eligible :: r in rows && LetGoFirst(origin, trace, ctx.cutoff, r)
      ensures forall id | id in errors :: RaisedFirst(origin, trace, ctx.cutoff, id)
      ensures Undisturbed() && ctx == ContextOf(old(world), ctx.cutoff) ==>
        world == old(world) && eligible == Eligible(world, ctx.cutoff, rows)
    {
      eligible, errors := [], {};
      for i := 0 to |rows|
        invariant Valid() && old(trace) <= trace && Quiet(trace, 0, |trace|)
        invariant forall r | r in eligible :: r in rows[..i] && LetGoFirst(origin, trace, ctx.cutoff, r)
        invariant forall r | r in rows[..i] :: RowScreened(origin, trace, ctx, readAt, r, r in eligible)
        invariant forall id | id in errors :: RaisedFirst(origin, trace, ctx.cutoff, id)
        invariant Undisturbed() && ctx == ContextOf(old(world), ctx.cutoff) ==>
          world == old(world) && eligible == Eligible(old(world), ctx.cutoff, rows[..i])
      {
        assert rows[..i + 1] == rows[..i] + [rows[i]] && rows[..i + 1][..i] == rows[..i];
        ghost var before, at := trace, |trace|;
        var verdict := Screen(rows[i], ctx);
        ScreenedMore(origin, before, trace, ctx, readAt, rows, i, at, eligible, errors, verdict);
        if verdict == MayGo {
          eligible := eligible + [rows[i]];
        } else if verdict == Threw {
          errors := errors + {rows[i].id};
        }
      }
      assert rows[..|rows|] == rows;
    }

    /** One session of the first phase. */
    method CloseOne(
      eligible: Table, i: nat, closedHere: set<Id>, ghost screened: History, ghost cutoff: int, ghost start: World)
      returns (closed: set<Id>)
      requires Valid() && screened <= trace && i < |eligible| && LetGoFirst(origin, screened, cutoff, eligible[i])
      requires ClosedSoFar(origin, trace, cutoff, eligible, i, closedHere)
      modifies this`world, this`tick, this`trace
      ensures Valid() && screened <= trace && ClosedSoFar(origin, trace, cutoff, eligible, i + 1, closed)
      ensures Undisturbed() && AllStand(start, eligible) && AsClosed(start, old(world), eligible, i, closedHere) ==>
        AsClosed(start, world, eligible, i + 1, closed)
    {
      var e := eligible[i];
      if e.status != Active {
        CloseSkips(origin, trace, cutoff, eligible, i, closedHere);
        return closedHere;
      }
      ghost var w := env(tick)(world);
      CloseMore(origin, screened, trace, w, cutoff, eligible, i, closedHere);
      if AllStand(start, eligible) && AsClosed(start, w, eligible, i, closedHere) {
        CloseAsPlanned(start, w, eligible, i, closedHere);
      }
      var changed := CloseSession(e);
      closed := if changed then closedHere + {e.id} else closedHere;
    }

    /** The first phase: closes the eligible sessions that are active, each only if it still stands as screened. */
    method CloseEligible(eligible: Table, ghost cutoff: int) returns (closedHere: set<Id>)
      requires Valid() && Quiet(trace, 0, |trace|)
      requires forall r | r in eligible :: LetGoFirst(origin, trace, cutoff, r)
      modifies this`world, this`tick, this`trace
      ensures Valid() && old(trace) <= trace && Sound(origin, trace, cutoff)
      ensures closedHere <= IdSet(eligible) && OnlyCloses(TallyOf(origin, trace), closedHere)
      ensures forall e | e in eligible && e.status == Active :: TriesToClose(trace, e)
      ensures Undisturbed() && AllStand(old(world), eligible) ==>
        closedHere == ActiveIds(eligible) && world == Midway(old(world), closedHere, {})
    {
      closedHere := {};
      MidwayStart(world);
      QuietIsSound(origin, trace, cutoff);
      ghost var screened, start := trace, world;
      for i := 0 to |eligible|
        invariant Valid() && screened <= trace && ClosedSoFar(origin, trace, cutoff, eligible, i, closedHere)
        invariant Undisturbed() && AllStand(start, eligible) ==> AsClosed(start, world, eligible, i, closedHere)
      {
        closedHere := CloseOne(eligible, i, closedHere, screened, cutoff, start);
      }
      assert eligible[..|eligible|] == eligible;
    }

    /** Close the eligible sessions and, when any was closed, let writes in flight land. */
    method CloseAndWait(cutoff: int, eligible: Table, ghost w: World) returns (closedHere: set<Id>)
      requires Valid() && Quiet(trace, 0, |trace|)
      requires forall r | r in eligible :: LetGoFirst(origin, trace, cutoff, r)
      modifies this`world, this`tick, this`trace
      ensures Valid() && old(trace) <= trace && Sound(origin, trace, cutoff)
      ensures closedHere <= IdSet(eligible) && OnlyCloses(TallyOf(origin, trace), closedHere)
      ensures forall e | e in eligible && e.status == Active :: TriesToClose(trace, e)
      ensures old(Alone(world, w, cutoff, eligible)) ==>
        closedHere == ActiveIds(eligible) && world == Midway(w, closedHere, {})
    {
      EligibleMembers(w, cutoff, w.rows);
      closedHere := CloseEligible(eligible, cutoff);
      if closedHere != {} {
        ghost var before := trace;
        Await();
        QuietKeeps(origin, before, trace);
        forall e | e in eligible && e.status == Active ensures TriesToClose(trace, e) { TriedKept(before, trace, e); }
      }
    }

    /**
     * One session of the second phase: read afresh, screened again, deleted under the guard or, when this
     * run had closed it, reopened. `w` and `e` are the starting world and row of an undisturbed run.
     */
    method SweepOne(
      id: Id, ctx: Context, closedHere: set<Id>, ghost readAt: nat,
      ghost closed: set<Id>, ghost gone: set<Id>, ghost w: World, ghost e: Row)
      returns (result: Swept)
      requires Valid() && Sweeping(origin, trace, ctx, readAt)
      requires var t := TallyOf(origin, trace); (id in closedHere <==> id in t.held) && id !in t.gone + t.failed
      modifies this`world, this`tick, this`trace
      ensures Valid() && old(trace) <= trace && Sweeping(origin, trace, ctx, readAt)
      ensures SweptBy(origin, old(TallyOf(origin, trace)), TallyOf(origin, trace), id, result)
      ensures result == Raised ==> RaisedAgain(origin, trace, ctx.cutoff)
      ensures AsPlanned(old(world), ctx, closed, gone, w, e) && e.id == id ==>
        (if e.status == Active || e.status == Closed
         then result == Removed && world == Midway(w, closed, gone + {id})
         else result == Skipped && world == old(world))
    {
      ghost var before := trace;
      Await();
      QuietSweeps(origin, before, trace, ctx, readAt);
      var live := Find(world.rows, id);
      HistoryTracks(env, first, origin, trace, ctx.cutoff);
      if AsPlanned(old(world), ctx, closed, gone, w, e) && e.id == id { PlannedRow(ctx, closed, gone, w, e); }
      if live.None? || live.value.status != Closed {
        return Skipped;
      }
      result := ScreenThenDelete(live.value, ctx, closedHere, readAt);
    }

    /** A closed session of the second phase, screened again. */
    method ScreenThenDelete(row: Row, ctx: Context, closedHere: set<Id>, ghost readAt: nat) returns (result: Swept)
      requires Valid() && Sweeping(origin, trace, ctx, readAt)
      requires Find(world.rows, row.id) == Some(row) && row.status == Closed
      requires var t := TallyOf(origin, trace); (row.id in closedHere <==> row.id in t.held) && row.id !in t.gone + t.failed
      modifies this`world, this`tick, this`trace
      ensures Valid() && old(trace) <= trace && Sweeping(origin, trace, ctx, readAt)
      ensures SweptBy(origin, old(TallyOf(origin, trace)), TallyOf(origin, trace), row.id, result)
      ensures result == Raised ==> RaisedAgain(origin, trace, ctx.cutoff)
      ensures
        Undisturbed() && Screening(row, ctx, old(world), old(world)) == MayGo && StandsAs(old(world), row, Closed)
        && row.id !in old(world).undeletable ==>
          result == Removed && world == DeleteIn(old(world), row)
    {
      ghost var seenAt, start := |trace|, trace;
      HistoryTracks(env, first, origin, trace, ctx.cutoff);
      Await();
      ghost var at := |trace|;
      var verdict := Screen(row, ctx);
      QuietSweeps(origin, start, trace, ctx, readAt);
      assert Rescreened(origin, trace, ctx.cutoff, ctx, readAt, seenAt, at, row, verdict);
      if verdict == Threw {
        return Raised;
      }
      if verdict != MayGo {
        if row.id in closedHere {
          ReopenOne(row, ctx, readAt, seenAt, at, verdict);
          return Reopened;
        }
        return Skipped;
      }
      result := DeleteOrReopen(row, ctx, closedHere, readAt, seenAt, at);
    }

    /** A session both screenings let go: deleted if it still stands, else put back if this run had closed it. */
    method DeleteOrReopen(
      row: Row, ctx: Context, closedHere: set<Id>, ghost readAt: nat, ghost seenAt: nat, ghost at: nat)
      returns (result: Swept)
      requires Valid() && Sweeping(origin, trace, ctx, readAt)
      requires Rescreened(origin, trace, ctx.cutoff, ctx, readAt, seenAt, at, row, MayGo) && Quiet(trace, seenAt, |trace|)
      requires var t := TallyOf(origin, trace);
        && (row.id in closedHere <==> row.id in t.held) && row.id !in t.gone + t.failed
        && (row.id in t.touched || IsClosed(origin, t, row.id))
      modifies this`world, this`tick, this`trace
      ensures Valid() && old(trace) <= trace && Sweeping(origin, trace, ctx, readAt)
      ensures SweptBy(origin, old(TallyOf(origin, trace)), TallyOf(origin, trace), row.id, result)
      ensures result != Raised
      ensures Undisturbed() && StandsAs(old(world), row, Closed) && row.id !in old(world).undeletable ==>
        result == Removed && world == DeleteIn(old(world), row)
    {
      ghost var w := env(tick)(world);
      DeletionSweeps(origin, trace, w, ctx, readAt, seenAt, at, row);
      var outcome := DeleteCentralRows(row);
      if outcome == Failed { return Errored; }
      if outcome == Deleted { return Removed; }
      if row.id in closedHere {
        ReopenOne(row, ctx, readAt, seenAt, at, MayGo);
        return Reopened;
      }
      HistoryTracks(env, first, origin, trace, ctx.cutoff);
      return Skipped;
    }

    /** Puts back a session the second screening kept, or whose deletion found it moved. */
    method ReopenOne(row: Row, ctx: Context, ghost readAt: nat, ghost seenAt: nat, ghost at: nat, ghost verdict: Verdict)
      requires Valid() && Sweeping(origin, trace, ctx, readAt) && row.id in TallyOf(origin, trace).held
      requires Rescreened(origin, trace, ctx.cutoff, ctx, readAt, seenAt, at, row, verdict)
      requires verdict.Kept? || (verdict == MayGo && MovedSince(origin, trace, seenAt, row))
      modifies this`world, this`tick, this`trace
      ensures Valid() && old(trace) <= trace && Sweeping(origin, trace, ctx, readAt)
      ensures var s, t := old(TallyOf(origin, trace)), TallyOf(origin, trace); SameOwn(s.(held := s.held - {row.id}), t)
    {
      ReopeningSweeps(origin, trace, env(tick)(world), ctx, readAt, seenAt, at, row, verdict);
      ReopenSession(row.id);
    }

    /** The second phase was planned from `w` by an undisturbed first phase. */
    ghost predicate AllPlanned(now: World, ctx: Context, eligible: Table, closedHere: set<Id>, w: World) {
      && Undisturbed() && now == Midway(w, closedHere, {}) && w.undeletable == {}
      && ctx.pinned == w.pinned && ctx.blocked == w.blocked
      && ContinuationIds(WithClosed(w.rows, closedHere), ctx.continuations)
      && closedHere == ActiveIds(eligible)
      && forall e | e in eligible :: e in w.rows && Screening(e, ContextOf(w, ctx.cutoff), w, w) == MayGo
    }

    /** The second phase. An exception of its screening, unlike one of its deletion, ends the run. */
    method SweepAll(eligible: Table, ctx: Context, closedHere: set<Id>, ghost readAt: nat, ghost w: World)
      returns (listed: seq<Id>, errors: set<Id>, outcome: Outcome)
      requires Valid() && Sweeping(origin, trace, ctx, readAt)
      requires closedHere <= IdSet(eligible) && OnlyCloses(TallyOf(origin, trace), closedHere)
      modifies this`world, this`tick, this`trace
      ensures Valid() && old(trace) <= trace && Sweeping(origin, trace, ctx, readAt)
      ensures Distinct(listed) && Reported(origin, TallyOf(origin, trace), listed, errors)
      ensures var t := TallyOf(origin, trace); outcome == Completed ==> t.held <= t.touched + t.gone + t.failed
      ensures outcome == Aborted ==> RaisedAgain(origin, trace, ctx.cutoff)
      ensures old(AllPlanned(world, ctx, eligible, closedHere, w)) ==>
        && outcome == Completed && listed == IdsOf(Removable(eligible))
        && world == Midway(w, closedHere, Listed(listed))
    {
      listed, errors := [], {};
      assert Listed(listed) == {};
      ghost var planned, start := AllPlanned(world, ctx, eligible, closedHere, w), trace;
      for i := 0 to |eligible|
        invariant Valid() && start <= trace
        invariant SoFar(origin, trace, ctx, readAt, eligible, i, closedHere, listed, errors)
        invariant planned ==> SweptAsPlanned(w, world, eligible, i, closedHere, listed)
      {
        ghost var before, was, gone := trace, world, Listed(listed);
        ItsTurn(origin, trace, ctx, readAt, eligible, i, closedHere, listed, errors);
        if planned { PlanStep(old(world), ctx, eligible, closedHere, gone, w, eligible[i]); }
        var result := SweepOne(eligible[i].id, ctx, closedHere, readAt, closedHere, gone, w, eligible[i]);
        SoFarMore(origin, before, trace, ctx, readAt, eligible, i, closedHere, listed, errors, result);
        if result == Raised { return listed, errors, Aborted; }
        if planned { PlanMore(w, was, world, eligible, i, closedHere, listed, result); }
        if result == Removed {
          listed := listed + [eligible[i].id];
        } else if result == Errored {
          errors := errors + {eligible[i].id};
        }
      }
      AccountedAll(eligible, closedHere, TallyOf(origin, trace));
      assert eligible[..|eligible|] == eligible;
      outcome := Completed;
    }

    /**
     * pruneSessions. Whatever others do between two awaits, a real run is `Performed` from the world it found;
     * left alone, it removes what the dry run lists of the active and closed sessions. A dry run writes nothing.
     */
    method Prune(cutoff: int, dryRun: bool) returns (listed: seq<Id>, errors: set<Id>, outcome: Outcome)
      modifies this
      ensures Valid() && origin == old(world) && first == old(tick)
      ensures dryRun ==> outcome == Completed && Quiet(trace, 0, |trace|)
      ensures dryRun ==> forall id | id in listed :: exists row: Row | row.id == id :: LetGoFirst(origin, trace, cutoff, row)
      ensures !dryRun ==> Performed(env, first, origin, trace, cutoff, listed, errors, outcome)
      ensures Undisturbed() && dryRun ==>
        world == old(world) && listed == IdsOf(Eligible(world, cutoff, world.rows))
      ensures Undisturbed() && !dryRun && old(world).undeletable == {} ==>
        && outcome == Completed && listed == IdsOf(RemovedBy(old(world), cutoff))
        && world == Pruned(old(world), cutoff)
      ensures Undisturbed() && (dryRun || old(world).undeletable == {}) ==> forall r | r in old(world).rows ::
        r.id in listed <==> Idle(old(world), cutoff, r) && (dryRun || r.status == Active || r.status == Closed)
    {
      AllIdleListed(world, cutoff);
      first, origin, trace := tick, world, [];
      ghost var w := world;
      var rows, ctx, readAt := BuildContext(cutoff);
      if Undisturbed() { StillContext(w, ctx); }
      ghost var read := trace;
      var eligible, raised := ScreenAll(rows, ctx, readAt);
      if dryRun {
        listed := ListIds(eligible);
        ListedRows(origin, trace, cutoff, eligible);
        return listed, raised, Completed;
      }
      ContextKept(origin, read, trace, readAt, ctx, cutoff);
      listed, errors, outcome := Remove(cutoff, eligible, raised, rows, ctx, readAt, w);
    }

    /** A run nobody else writes beside, just after its first screening of `w`. */
    ghost predicate Alone(now: World, w: World, cutoff: int, eligible: Table) {
      Undisturbed() && now == w && w.undeletable == {} && eligible == Eligible(w, cutoff, w.rows)
    }

    /** The part of a run that writes: close, wait, then screen again and delete. */
    method Remove(
      cutoff: int, eligible: Table, raised: set<Id>, ghost rows: Table, ghost firstCtx: Context, ghost firstAt: nat,
      ghost w: World)
      returns (listed: seq<Id>, errors: set<Id>, outcome: Outcome)
      requires Valid() && Quiet(trace, 0, |trace|) && ContextRead(origin, trace, firstAt, firstCtx, cutoff)
      requires rows == WorldAt(origin, trace, firstAt).rows
      requires forall r | r in rows :: RowScreened(origin, trace, firstCtx, firstAt, r, r in eligible)
      requires forall r | r in eligible :: LetGoFirst(origin, trace, cutoff, r)
      requires forall id | id in raised :: RaisedFirst(origin, trace, cutoff, id)
      modifies this`world, this`tick, this`trace
      ensures Valid() && Performed(env, first, origin, trace, cutoff, listed, errors, outcome)
      ensures old(Alone(world, w, cutoff, eligible)) ==>
        && outcome == Completed && listed == IdsOf(RemovedBy(w, cutoff)) && world == Pruned(w, cutoff)
    {
      ghost var planned, screened := Alone(world, w, cutoff, eligible), trace;
      var closedHere := CloseAndWait(cutoff, eligible, w);
      ghost var closed := trace;
      var freshRows, again, readAt := BuildContext(cutoff);
      if planned { PlanHolds(w, cutoff, eligible, closedHere, freshRows, again); }
      BeginsSweep(origin, closed, trace, again, readAt, closedHere);
      var failed;
      listed, failed, outcome := SweepAll(eligible, again, closedHere, readAt, w);
      if planned { PlanDone(w, cutoff, eligible, listed); }
      errors := raised + failed;
      FirstPhaseStays(origin, screened, closed, trace, cutoff, firstCtx, firstAt, rows, eligible);
      forall id | id in raised ensures RaisedFirst(origin, trace, cutoff, id) { RaisedKept(origin, screened, trace, cutoff, id); }
    }

    /** An undisturbed run in the middle of its second phase, with `e` among the sessions to go. */
    ghost predicate AsPlanned(now: World, ctx: Context, closed: set<Id>, gone: set<Id>, w: World, e: Row) {
      && Undisturbed() && now == Midway(w, closed, gone) && w.undeletable == {}
      && ctx.pinned == w.pinned && ctx.blocked == w.blocked
      && ContinuationIds(WithClosed(w.rows, closed), ctx.continuations)
      && e in w.rows && e.id !in gone && Screening(e, ContextOf(w, ctx.cutoff), w, w) == MayGo
      && (e.id in closed <==> e.status == Active)
    }

    lemma PlanStep(now: World, ctx: Context, eligible: Table, closedHere: set<Id>, gone: set<Id>, w: World, e: Row)
      requires AllPlanned(now, ctx, eligible, closedHere, w) && e in eligible && e.id !in gone
      ensures AsPlanned(Midway(w, closedHere, gone), ctx, closedHere, gone, w, e)
    {
      ActiveExactly(eligible, e);
    }

    lemma PlanHolds(w: World, cutoff: int, eligible: Table, closedHere: set<Id>, freshRows: Table, again: Context)
      requires Undisturbed() && w.undeletable == {} && again.cutoff == cutoff
      requires eligible == Eligible(w, cutoff, w.rows)
      requires closedHere == ActiveIds(eligible) && freshRows == Midway(w, closedHere, {}).rows
      requires again.pinned == w.pinned && again.blocked == w.blocked && ContinuationIds(freshRows, again.continuations)
      ensures AllPlanned(Midway(w, closedHere, {}), again, eligible, closedHere, w)
    {
      EligibleMembers(w, cutoff, w.rows);
      MidwayNothingGone(w, closedHere);
    }

    lemma PlannedRow(ctx: Context, closed: set<Id>, gone: set<Id>, w: World, e: Row)
      requires AsPlanned(Midway(w, closed, gone), ctx, closed, gone, w, e)
      ensures var m := Midway(w, closed, gone);
        var live := Find(m.rows, e.id);
        && live == Some(if e.status == Active then e.(status := Closed) else e)
        && (live.value.status == Closed ==>
              && Screening(live.value, ctx, m, m) == MayGo
              && StandsAs(m, live.value, Closed)
              && DeleteIn(m, live.value) == Midway(w, closed, gone + {e.id}))
    {
      var j :| 0 <= j < |w.rows| && w.rows[j] == e;
      FindUnique(w.rows, j);
      FindMidway(w, closed, gone, e.id);
      if e.status == Active || e.status == Closed {
        assert e.(status := Closed) == if e.status == Active then e.(status := Closed) else e;
        ScreenedAgain(w, ctx, closed, gone, e);
        DeleteFromMidway(w, closed, gone, e.(status := Closed));
      }
    }
  }
}
