/**
 * What a run of session-retention.ts is, whoever else writes in between: a history of its own guarded writes and
 * of what other writers did at each await, and what such a history can have done.
 */
module RetentionHistory {
  import opened Options
  import opened SessionRows
  import opened SessionRetention

  // ---- The history of a run ----

  /** What made a step: the other writers, at an await, or one of the run's own guarded writes. */
  datatype Kind = Others | Closing(row: Row) | Reopening(id: Id) | Deleting(row: Row)

  datatype Event = Event(kind: Kind, after: World)

  type History = seq<Event>

  /** The world before the i-th event. */
  ghost function WorldAt(origin: World, trace: History, i: nat): World
    requires i <= |trace|
  {
    if i == 0 then origin else trace[i - 1].after
  }

  ghost function Now(origin: World, trace: History): World { WorldAt(origin, trace, |trace|) }

  /** deleteCentralRows: nothing of its transaction lands when it raises. */
  function RemoveIn(w: World, row: Row): World { if row.id in w.undeletable then w else DeleteIn(w, row) }

  ghost function Effect(env: nat -> World -> World, await: nat, kind: Kind, w: World): World {
    match kind
    case Others => env(await)(w)
    case Closing(row) => CloseIn(w, row)
    case Reopening(id) => ReopenIn(w, id)
    case Deleting(row) => RemoveIn(w, row)
  }

  ghost function Awaits(trace: History): nat {
    if trace == [] then 0 else Awaits(trace[..|trace| - 1]) + if trace[|trace| - 1].kind.Others? then 1 else 0
  }

  /** Every event is what its maker does to the world before it, other writers as `env` says, await by await. */
  ghost predicate Genuine(env: nat -> World -> World, first: nat, origin: World, trace: History) {
    trace == [] ||
    var before, last := trace[..|trace| - 1], trace[|trace| - 1];
    && Genuine(env, first, origin, before)
    && last.after == Effect(env, first + Awaits(before), last.kind, Now(origin, before))
  }

  /**
   * What a history comes to: the sessions this run closed and has not reopened, those it deleted, those whose
   * deletion raised, and those whose row somebody else changed.
   */
  datatype Tally = Tally(held: set<Id>, gone: set<Id>, failed: set<Id>, touched: set<Id>)

  ghost function Tallied(t: Tally, kind: Kind, before: World, after: World): Tally {
    match kind
    case Others => t.(touched := t.touched + Differing(before.rows, after.rows))
    case Closing(row) => if StandsAs(before, row, Active) then t.(held := t.held + {row.id}) else t
    case Reopening(id) => t.(held := t.held - {id})
    case Deleting(row) =>
      if row.id in before.undeletable then t.(failed := t.failed + {row.id})
      else if StandsAs(before, row, Closed) then t.(gone := t.gone + {row.id})
      else t
  }

  ghost function TallyOf(origin: World, trace: History): Tally {
    if trace == [] then Tally({}, {}, {}, {})
    else
      var before, last := trace[..|trace| - 1], trace[|trace| - 1];
      Tallied(TallyOf(origin, before), last.kind, Now(origin, before), last.after)
  }

  ghost predicate Quiet(trace: History, from: nat, to: nat)
    requires to <= |trace|
  {
    forall k | from <= k < to :: trace[k].kind.Others?
  }

  ghost predicate ClosesNothingFrom(trace: History, from: nat) {
    forall k | from <= k < |trace| :: !trace[k].kind.Closing?
  }

  /** A context read from event `at` on: the rows there, the pinned chats and what blocks one await later each. */
  ghost predicate ContextRead(origin: World, trace: History, at: nat, ctx: Context, cutoff: int) {
    && at + 2 <= |trace| && ctx.cutoff == cutoff
    && ContinuationIds(WorldAt(origin, trace, at).rows, ctx.continuations)
    && ctx.pinned == WorldAt(origin, trace, at + 1).pinned && ctx.blocked == WorldAt(origin, trace, at + 2).blocked
  }

  /** A screening, the mailbox read one await after the rest. */
  ghost function ScreenedAt(origin: World, trace: History, at: nat, row: Row, ctx: Context): Verdict
    requires at + 1 <= |trace|
  {
    Screening(row, ctx, WorldAt(origin, trace, at), WorldAt(origin, trace, at + 1))
  }

  /** A screening of the first phase: before this run wrote anything, of a row its context was read with. */
  ghost predicate FirstScreened(
    origin: World, trace: History, cutoff: int, ctx: Context, readAt: nat, at: nat, row: Row, verdict: Verdict)
  {
    && ContextRead(origin, trace, readAt, ctx, cutoff) && row in WorldAt(origin, trace, readAt).rows
    && readAt + 2 <= at && at + 1 <= |trace| && Quiet(trace, 0, at + 1)
    && ScreenedAt(origin, trace, at, row, ctx) == verdict
  }

  /**
   * A screening of the second phase: with a context read after this run's last close, of the row as it was
   * read after that, closed.
   */
  ghost predicate Rescreened(
    origin: World, trace: History, cutoff: int, ctx: Context, readAt: nat, seenAt: nat, at: nat, row: Row, verdict: Verdict)
  {
    && ContextRead(origin, trace, readAt, ctx, cutoff) && ClosesNothingFrom(trace, readAt)
    && readAt + 2 <= seenAt <= at && at + 1 <= |trace| && Quiet(trace, seenAt, at + 1)
    && Find(WorldAt(origin, trace, seenAt).rows, row.id) == Some(row) && row.status == Closed
    && ScreenedAt(origin, trace, at, row, ctx) == verdict
  }

  /** Somewhere from `from` on the row was to be deleted but had moved. */
  ghost predicate MovedSince(origin: World, trace: History, from: nat, row: Row) {
    exists k | from <= k < |trace| ::
      && trace[k].kind == Deleting(row) && row.id !in WorldAt(origin, trace, k).undeletable
      && !StandsAs(WorldAt(origin, trace, k), row, Closed)
  }

  /**
   * What a run needs before a write of its own: to close, a first screening that let the active session go; to
   * delete, a second screening that let it go, and nothing of its own since; to reopen, to have closed it, and a
   * second screening that kept it or a deletion that found it moved.
   */
  ghost predicate Justified(origin: World, trace: History, cutoff: int, kind: Kind) {
    match kind
    case Others => true
    case Closing(row) =>
      row.status == Active && exists ctx, readAt, at :: FirstScreened(origin, trace, cutoff, ctx, readAt, at, row, MayGo)
    case Deleting(row) => exists ctx, readAt, seenAt, at ::
      Rescreened(origin, trace, cutoff, ctx, readAt, seenAt, at, row, MayGo) && Quiet(trace, seenAt, |trace|)
    case Reopening(id) =>
      && id in TallyOf(origin, trace).held
      && exists ctx, readAt, seenAt, at, row, verdict ::
           && Rescreened(origin, trace, cutoff, ctx, readAt, seenAt, at, row, verdict) && row.id == id
           && (verdict.Kept? || (verdict == MayGo && MovedSince(origin, trace, seenAt, row)))
  }

  ghost predicate Sound(origin: World, trace: History, cutoff: int) {
    trace == [] ||
    var before := trace[..|trace| - 1];
    Sound(origin, before, cutoff) && Justified(origin, before, cutoff, trace[|trace| - 1].kind)
  }

  /** Every write of a sound history is justified by what came before it. */
  lemma {:induction false} WritesAreJustified(origin: World, trace: History, cutoff: int, i: nat)
    requires Sound(origin, trace, cutoff) && i < |trace|
    ensures Justified(origin, trace[..i], cutoff, trace[i].kind)
    decreases |trace|
  {
    var n := |trace| - 1;
    if i < n {
      WritesAreJustified(origin, trace[..n], cutoff, i);
      assert trace[..n][..i] == trace[..i];
    }
  }

  // ---- Histories grow ----

  lemma GrownBy(env: nat -> World -> World, first: nat, origin: World, trace: History, kind: Kind)
    requires Genuine(env, first, origin, trace)
    ensures var after := Effect(env, first + Awaits(trace), kind, Now(origin, trace));
      var next := trace + [Event(kind, after)];
      && Genuine(env, first, origin, next) && Now(origin, next) == after
      && Awaits(next) == Awaits(trace) + if kind.Others? then 1 else 0
  {
    var next := trace + [Event(kind, Effect(env, first + Awaits(trace), kind, Now(origin, trace)))];
    assert next[..|next| - 1] == trace;
  }

  lemma TallyGrown(origin: World, trace: History, kind: Kind, after: World, cutoff: int)
    ensures var next := trace + [Event(kind, after)];
      && TallyOf(origin, next) == Tallied(TallyOf(origin, trace), kind, Now(origin, trace), after)
      && (Sound(origin, next, cutoff) <==> Sound(origin, trace, cutoff) && Justified(origin, trace, cutoff, kind))
  {
    var next := trace + [Event(kind, after)];
    assert next[..|next| - 1] == trace;
  }

  /** Other writers' steps leave what this run did as it was. */
  lemma {:induction false} QuietKeeps(origin: World, a: History, b: History)
    requires a <= b && Quiet(b, |a|, |b|)
    ensures forall cutoff :: Sound(origin, a, cutoff) ==> Sound(origin, b, cutoff)
    ensures var s, t := TallyOf(origin, a), TallyOf(origin, b);
      t.held == s.held && t.gone == s.gone && t.failed == s.failed && s.touched <= t.touched
    decreases |b|
  {
    if |b| == |a| {
      assert b == a;
    } else {
      var before := b[..|b| - 1];
      assert a <= before;
      QuietKeeps(origin, a, before);
    }
  }

  lemma ContextKept(origin: World, a: History, b: History, at: nat, ctx: Context, cutoff: int)
    requires a <= b && ContextRead(origin, a, at, ctx, cutoff)
    ensures ContextRead(origin, b, at, ctx, cutoff)
  {
  }

  lemma FirstKept(
    origin: World, a: History, b: History, cutoff: int, ctx: Context, readAt: nat, at: nat, row: Row, verdict: Verdict)
    requires a <= b && FirstScreened(origin, a, cutoff, ctx, readAt, at, row, verdict)
    ensures FirstScreened(origin, b, cutoff, ctx, readAt, at, row, verdict)
  {
  }

  lemma RescreenKept(
    origin: World, a: History, b: History, cutoff: int, ctx: Context, readAt: nat, seenAt: nat, at: nat, row: Row,
    verdict: Verdict)
    requires a <= b && Rescreened(origin, a, cutoff, ctx, readAt, seenAt, at, row, verdict)
    requires ClosesNothingFrom(b, |a|)
    ensures Rescreened(origin, b, cutoff, ctx, readAt, seenAt, at, row, verdict)
  {
  }

  // ---- What a sound history may have done to rows nobody else touched ----

  /**
   * Rows outside `touched` are as at the start, but for those this run removed (`gone`) and those it
   * holds closed (`held`), which were active.
   */
  ghost predicate Tracks(start: Table, now: Table, t: Tally) {
    forall id | id !in t.touched ::
      if id in t.gone then Find(now, id) == None
      else if id in t.held then
        Find(start, id).Some? && Find(start, id).value.status == Active
        && Find(now, id) == Some(Find(start, id).value.(status := Closed))
      else Find(now, id) == Find(start, id)
  }

  lemma {:induction false} HistoryTracks(
    env: nat -> World -> World, first: nat, origin: World, trace: History, cutoff: int)
    requires Genuine(env, first, origin, trace) && Sound(origin, trace, cutoff)
    ensures Tracks(origin.rows, Now(origin, trace).rows, TallyOf(origin, trace))
    decreases |trace|
  {
    if trace != [] {
      var before, last := trace[..|trace| - 1], trace[|trace| - 1];
      HistoryTracks(env, first, origin, before, cutoff);
      TracksStep(origin.rows, Now(origin, before), last.after, TallyOf(origin, before), last.kind, env, first + Awaits(before));
    }
  }

  lemma TracksStep(
    start: Table, w: World, w': World, t: Tally, kind: Kind, env: nat -> World -> World, await: nat)
    requires Tracks(start, w.rows, t) && w' == Effect(env, await, kind, w)
    requires kind.Reopening? ==> kind.id in t.held
    ensures Tracks(start, w'.rows, Tallied(t, kind, w, w'))
  {
    match kind
    case Others =>
    case Closing(row) => forall id { FindAfterStatus(w.rows, row.id, Closed, id); }
    case Reopening(other) => forall id { FindAfterStatus(w.rows, other, Active, id); }
    case Deleting(row) => forall id { FindAfterWithout(w.rows, {row.id}, id); }
  }

  datatype Outcome = Completed | Aborted

  // ---- What a whole run is ----

  ghost predicate TriesToClose(trace: History, row: Row) { exists i | 0 <= i < |trace| :: trace[i].kind == Closing(row) }

  ghost predicate LetGoFirst(origin: World, trace: History, cutoff: int, row: Row) {
    exists ctx, readAt, at :: FirstScreened(origin, trace, cutoff, ctx, readAt, at, row, MayGo)
  }

  ghost predicate RaisedFirst(origin: World, trace: History, cutoff: int, id: Id) {
    exists ctx, readAt, at, row :: FirstScreened(origin, trace, cutoff, ctx, readAt, at, row, Threw) && row.id == id
  }

  /** The last thing a run did was a second screening that raised. */
  ghost predicate RaisedAgain(origin: World, trace: History, cutoff: int) {
    exists ctx, readAt, seenAt, at: nat, row ::
      Rescreened(origin, trace, cutoff, ctx, readAt, seenAt, at, row, Threw) && at + 2 == |trace|
  }

  /** What one row of the table as first read met: one screening and, if that let an active session go, a try to close it. */
  ghost predicate PutThrough(origin: World, trace: History, cutoff: int, ctx: Context, readAt: nat, row: Row) {
    exists at, verdict ::
      && FirstScreened(origin, trace, cutoff, ctx, readAt, at, row, verdict)
      && (verdict == MayGo && row.status == Active ==> TriesToClose(trace, row))
  }

  ghost predicate FirstPhaseDone(origin: World, trace: History, cutoff: int) {
    exists ctx, readAt: nat ::
      && ContextRead(origin, trace, readAt, ctx, cutoff) && Quiet(trace, 0, readAt + 2)
      && forall row | row in WorldAt(origin, trace, readAt).rows :: PutThrough(origin, trace, cutoff, ctx, readAt, row)
  }

  /** A session was closed at the start, or this run holds it closed. */
  ghost predicate IsClosed(origin: World, t: Tally, id: Id) {
    id in t.held || (Find(origin.rows, id).Some? && Find(origin.rows, id).value.status == Closed)
  }

  ghost predicate Distinct(ids: seq<Id>) { forall i, j | 0 <= i < j < |ids| :: ids[i] != ids[j] }

  /**
   * A real run, by its history: every write justified, every row screened and every active session let go tried;
   * listed are the sessions deleted, and errors those whose first screening or deletion raised. A run completes
   * with no session held closed but those others changed, deleted, or failed to delete; it aborts only when a
   * second screening raises.
   */
  ghost predicate Performed(
    env: nat -> World -> World, first: nat, origin: World, trace: History, cutoff: int,
    listed: seq<Id>, errors: set<Id>, outcome: Outcome)
  {
    var t := TallyOf(origin, trace);
    && Genuine(env, first, origin, trace) && Sound(origin, trace, cutoff) && FirstPhaseDone(origin, trace, cutoff)
    && Distinct(listed) && Listed(listed) == t.gone
    && t.failed <= errors && (forall id | id in errors && id !in t.failed :: RaisedFirst(origin, trace, cutoff, id))
    && t.failed !! t.gone && (forall id | id in t.failed && id !in t.touched :: IsClosed(origin, t, id))
    && (outcome == Completed ==> t.held <= t.touched + t.gone + t.failed)
    && (outcome == Aborted ==> RaisedAgain(origin, trace, cutoff))
  }

  /** After a run, a row nobody else wrote is gone and listed, or as it was; closed only if its deletion raised or the run aborted. */
  lemma EveryRowAccounted(
    env: nat -> World -> World, first: nat, origin: World, trace: History, cutoff: int,
    listed: seq<Id>, errors: set<Id>, outcome: Outcome, id: Id)
    requires Performed(env, first, origin, trace, cutoff, listed, errors, outcome)
    requires id !in TallyOf(origin, trace).touched
    ensures var was, now := Find(origin.rows, id), Find(Now(origin, trace).rows, id);
      && (id in listed ==> now == None)
      && (id !in listed ==> now == was || ClosedOnly(was, now))
      && (outcome == Completed && id !in TallyOf(origin, trace).failed && id !in listed ==> now == was)
      && (id in TallyOf(origin, trace).failed ==> now.Some? && now.value.status == Closed && was.Some?)
  {
    HistoryTracks(env, first, origin, trace, cutoff);
  }

  lemma LetGoKept(origin: World, a: History, b: History, cutoff: int, row: Row)
    requires a <= b && LetGoFirst(origin, a, cutoff, row)
    ensures LetGoFirst(origin, b, cutoff, row)
  {
    var ctx, readAt, at :| FirstScreened(origin, a, cutoff, ctx, readAt, at, row, MayGo);
    FirstKept(origin, a, b, cutoff, ctx, readAt, at, row, MayGo);
  }

  lemma RaisedKept(origin: World, a: History, b: History, cutoff: int, id: Id)
    requires a <= b && RaisedFirst(origin, a, cutoff, id)
    ensures RaisedFirst(origin, b, cutoff, id)
  {
    var ctx, readAt, at, row :| FirstScreened(origin, a, cutoff, ctx, readAt, at, row, Threw) && row.id == id;
    FirstKept(origin, a, b, cutoff, ctx, readAt, at, row, Threw);
  }

  lemma TriedKept(a: History, b: History, row: Row)
    requires a <= b && TriesToClose(a, row)
    ensures TriesToClose(b, row)
  {
    var i :| 0 <= i < |a| && a[i].kind == Closing(row);
    assert b[i].kind == Closing(row);
  }

  // ---- Which sessions a run may close and delete ----

  /**
   * A session as the worlds of a history showed it: of the context read from event `at` on, nothing resumes it,
   * its chat is not pinned and nothing blocks it; looked at from event `seen` on, it is idle.
   */
  ghost predicate FoundIdle(origin: World, trace: History, cutoff: int, at: nat, seen: nat, row: Row)
    requires at + 2 <= |trace| && seen + 1 <= |trace|
  {
    && LooksIdle(row, cutoff, WorldAt(origin, trace, seen), WorldAt(origin, trace, seen + 1))
    && (forall r | r in WorldAt(origin, trace, at).rows && r.id == row.id :: !Continues(WorldAt(origin, trace, at).rows, r))
    && NotPinned(row, WorldAt(origin, trace, at + 1).pinned)
    && row.id !in WorldAt(origin, trace, at + 2).blocked
  }

  lemma MayGoIsIdle(origin: World, trace: History, cutoff: int, ctx: Context, at: nat, seen: nat, row: Row)
    requires ContextRead(origin, trace, at, ctx, cutoff) && seen + 1 <= |trace|
    requires ScreenedAt(origin, trace, seen, row, ctx) == MayGo
    ensures FoundIdle(origin, trace, cutoff, at, seen, row)
  {
    MayGoMeans(row, ctx, WorldAt(origin, trace, seen), WorldAt(origin, trace, seen + 1));
  }

  /** The run had only waited until the session, a row of the table read first, was found idle. */
  ghost predicate ClosedForGood(origin: World, trace: History, cutoff: int, at: nat, seen: nat, row: Row) {
    && at + 2 <= seen && seen + 1 <= |trace| && Quiet(trace, 0, seen + 1)
    && row in WorldAt(origin, trace, at).rows && row.status == Active
    && FoundIdle(origin, trace, cutoff, at, seen, row)
  }

  /**
   * The session was found closed, event `found`, and idle since then; the run had closed nothing since it read
   * its context, and has only waited since.
   */
  ghost predicate DeletedForGood(origin: World, trace: History, cutoff: int, at: nat, found: nat, seen: nat, row: Row) {
    && at + 2 <= found <= seen && seen + 1 <= |trace|
    && ClosesNothingFrom(trace, at) && Quiet(trace, found, |trace|)
    && Find(WorldAt(origin, trace, found).rows, row.id) == Some(row) && row.status == Closed
    && FoundIdle(origin, trace, cutoff, at, seen, row)
  }

  /** A run closes and deletes only sessions it found idle. */
  lemma OnlyIdleGo(origin: World, trace: History, cutoff: int, i: nat)
    requires Sound(origin, trace, cutoff) && i < |trace|
    ensures match trace[i].kind
      case Closing(row) => exists at, seen :: ClosedForGood(origin, trace[..i], cutoff, at, seen, row)
      case Deleting(row) => exists at, found, seen :: DeletedForGood(origin, trace[..i], cutoff, at, found, seen, row)
      case _ => true
  {
    var before := trace[..i];
    WritesAreJustified(origin, trace, cutoff, i);
    match trace[i].kind
    case Closing(row) =>
      var ctx, readAt, at :| FirstScreened(origin, before, cutoff, ctx, readAt, at, row, MayGo);
      MayGoIsIdle(origin, before, cutoff, ctx, readAt, at, row);
      assert ClosedForGood(origin, before, cutoff, readAt, at, row);
    case Deleting(row) =>
      var ctx, readAt, seenAt, at :|
        Rescreened(origin, before, cutoff, ctx, readAt, seenAt, at, row, MayGo) && Quiet(before, seenAt, |before|);
      MayGoIsIdle(origin, before, cutoff, ctx, readAt, at, row);
      assert DeletedForGood(origin, before, cutoff, readAt, seenAt, at, row);
    case _ =>
  }

  /** A deletion that took its row away: the row was there, closed, stopped and last used as the one screened. */
  ghost predicate TookAway(origin: World, trace: History, i: nat, row: Row) {
    && i < |trace| && trace[i].kind == Deleting(row)
    && (var live := Find(WorldAt(origin, trace, i).rows, row.id);
        live.Some? && live.value.status == Closed && live.value.container == Stopped
        && live.value.lastActive == row.lastActive)
    && Find(trace[i].after.rows, row.id) == None
    && forall id | id != row.id :: Find(trace[i].after.rows, id) == Find(WorldAt(origin, trace, i).rows, id)
  }

  lemma {:induction false} GoneWasTaken(env: nat -> World -> World, first: nat, origin: World, trace: History, id: Id)
    returns (i: nat, row: Row)
    requires Genuine(env, first, origin, trace) && id in TallyOf(origin, trace).gone
    ensures TookAway(origin, trace, i, row) && row.id == id
    decreases |trace|
  {
    var n := |trace| - 1;
    var before, last := trace[..n], trace[n];
    if id in TallyOf(origin, before).gone {
      i, row := GoneWasTaken(env, first, origin, before, id);
      assert WorldAt(origin, trace, i) == WorldAt(origin, before, i) && trace[i] == before[i];
    } else {
      i, row := n, last.kind.row;
      forall other { FindAfterWithout(Now(origin, before).rows, {row.id}, other); }
    }
  }

  /** Every session listed as removed was found closed and idle, and its row taken away as it was found. */
  lemma ListedWasIdle(
    env: nat -> World -> World, first: nat, origin: World, trace: History, cutoff: int,
    listed: seq<Id>, errors: set<Id>, outcome: Outcome, id: Id)
    returns (i: nat, row: Row)
    requires Performed(env, first, origin, trace, cutoff, listed, errors, outcome) && id in listed
    ensures TookAway(origin, trace, i, row) && row.id == id
    ensures exists at, found, seen :: DeletedForGood(origin, trace[..i], cutoff, at, found, seen, row)
  {
    assert id in Listed(listed);
    i, row := GoneWasTaken(env, first, origin, trace, id);
    OnlyIdleGo(origin, trace, cutoff, i);
  }

  // ---- A mailbox that cannot be read ----

  /** Other writers change nothing but this: while the session is closed, its mailbox cannot be read. */
  ghost function Spoilt(w: World, id: Id): World {
    w.(unreadable := if Find(w.rows, id).Some? && Find(w.rows, id).value.status == Closed then {id} else {})
  }

  ghost predicate Spoils(env: nat -> World -> World, id: Id) { forall k, w :: env(k)(w) == Spoilt(w, id) }

  /** An active session the first screening lets go, in a world where every mailbox can be read. */
  ghost predicate Readable(w: World, cutoff: int, r: Row) {
    r in w.rows && r.status == Active && w.unreadable == {} && Screening(r, ContextOf(w, cutoff), w, w) == MayGo
  }

  lemma {:induction false} EventAt(env: nat -> World -> World, first: nat, origin: World, trace: History, i: nat) returns (k: nat)
    requires Genuine(env, first, origin, trace) && i < |trace|
    ensures trace[i].after == Effect(env, k, trace[i].kind, WorldAt(origin, trace, i))
    ensures Genuine(env, first, origin, trace[..i])
    decreases |trace|
  {
    var n := |trace| - 1;
    if i < n {
      k := EventAt(env, first, origin, trace[..n], i);
      assert trace[..n][..i] == trace[..i];
    } else {
      k := first + Awaits(trace[..n]);
    }
  }

  lemma FindRow(rows: Table, r: Row)
    requires r in rows
    ensures Find(rows, r.id) == Some(r)
  {
    var i :| 0 <= i < |rows| && rows[i] == r;
    FindUnique(rows, i);
  }

  /** Until the run writes, nothing changes. */
  lemma {:induction false} StillAt(
    env: nat -> World -> World, first: nat, origin: World, trace: History, cutoff: int, r: Row, i: nat)
    requires Genuine(env, first, origin, trace) && Spoils(env, r.id) && Readable(origin, cutoff, r)
    requires i <= |trace| && Quiet(trace, 0, i)
    ensures WorldAt(origin, trace, i) == origin
    decreases i
  {
    if i > 0 {
      StillAt(env, first, origin, trace, cutoff, r, i - 1);
      var k := EventAt(env, first, origin, trace, i - 1);
      FindRow(origin.rows, r);
      assert trace[i - 1].kind.Others? && trace[i - 1].after == Spoilt(origin, r.id);
    }
  }

  /** So the run tries to close the session. */
  lemma TriesSession(env: nat -> World -> World, first: nat, origin: World, trace: History, cutoff: int, r: Row)
    requires Genuine(env, first, origin, trace) && Spoils(env, r.id) && Readable(origin, cutoff, r)
    requires FirstPhaseDone(origin, trace, cutoff)
    ensures TriesToClose(trace, r)
  {
    var ctx, readAt: nat :|
      && ContextRead(origin, trace, readAt, ctx, cutoff) && Quiet(trace, 0, readAt + 2)
      && forall row | row in WorldAt(origin, trace, readAt).rows :: PutThrough(origin, trace, cutoff, ctx, readAt, row);
    StillAt(env, first, origin, trace, cutoff, r, readAt);
    StillAt(env, first, origin, trace, cutoff, r, readAt + 1);
    StillAt(env, first, origin, trace, cutoff, r, readAt + 2);
    StillContext(origin, ctx);
    assert PutThrough(origin, trace, cutoff, ctx, readAt, r);
    var at: nat, verdict :|
      && FirstScreened(origin, trace, cutoff, ctx, readAt, at, r, verdict)
      && (verdict == MayGo && r.status == Active ==> TriesToClose(trace, r));
    StillAt(env, first, origin, trace, cutoff, r, at);
    StillAt(env, first, origin, trace, cutoff, r, at + 1);
  }

  /** Everything about the session that a screening reads, but its mailbox, is as at the start. */
  ghost predicate Unmoved(origin: World, w: World, id: Id) {
    && w == origin.(rows := w.rows, blocked := w.blocked, unreadable := w.unreadable)
    && (id in w.blocked <==> id in origin.blocked)
  }

  /** What holds all along: nobody else changes a row, and the session is not deleted, nor reopened once closed. */
  ghost predicate StaysClosed(origin: World, trace: History, id: Id) {
    var t := TallyOf(origin, trace);
    && t.touched == {} && id !in t.gone + t.failed && Unmoved(origin, Now(origin, trace), id)
  }

  lemma PrefixNow(origin: World, trace: History, i: nat)
    requires i <= |trace|
    ensures Now(origin, trace[..i]) == WorldAt(origin, trace, i)
  {
  }

  lemma {:induction false} PrefixHolds(env: nat -> World -> World, first: nat, origin: World, trace: History, cutoff: int, i: nat)
    requires Genuine(env, first, origin, trace) && Sound(origin, trace, cutoff) && i <= |trace|
    ensures Genuine(env, first, origin, trace[..i]) && Sound(origin, trace[..i], cutoff)
    decreases |trace|
  {
    var n := |trace| - 1;
    if i == |trace| {
      assert trace[..i] == trace;
    } else {
      PrefixHolds(env, first, origin, trace[..n], cutoff, i);
      assert trace[..n][..i] == trace[..i];
    }
  }

  /** While the run only waits, no row changes. */
  lemma {:induction false} RowsStay(
    env: nat -> World -> World, first: nat, origin: World, trace: History, id: Id, from: nat, until: nat)
    requires Genuine(env, first, origin, trace) && Spoils(env, id) && from <= until <= |trace| && Quiet(trace, from, until)
    ensures WorldAt(origin, trace, until).rows == WorldAt(origin, trace, from).rows
    decreases until
  {
    if from != until {
      RowsStay(env, first, origin, trace, id, from, until - 1);
      var k := EventAt(env, first, origin, trace, until - 1);
      assert trace[until - 1].kind.Others? && trace[until - 1].after == Spoilt(WorldAt(origin, trace, until - 1), id);
    }
  }

  /** A session held closed was held before, when nothing was closed since. */
  lemma {:induction false} HeldBefore(origin: World, trace: History, id: Id, from: nat, until: nat)
    requires from <= until <= |trace| && ClosesNothingFrom(trace, from) && id in TallyOf(origin, trace[..until]).held
    ensures id in TallyOf(origin, trace[..from]).held
    decreases until
  {
    if from != until {
      assert trace[..until][..until - 1] == trace[..until - 1] && trace[..until][until - 1] == trace[until - 1];
      HeldBefore(origin, trace, id, from, until - 1);
    }
  }

  /** The session's row at any time: as at the start, but closed while this run holds it. */
  lemma SessionRow(
    env: nat -> World -> World, first: nat, origin: World, trace: History, cutoff: int, r: Row, i: nat)
    requires Genuine(env, first, origin, trace) && Sound(origin, trace, cutoff) && i <= |trace| && r in origin.rows
    requires StaysClosed(origin, trace[..i], r.id)
    ensures Find(WorldAt(origin, trace, i).rows, r.id) ==
      Some(if r.id in TallyOf(origin, trace[..i]).held then r.(status := Closed) else r)
    ensures Unmoved(origin, WorldAt(origin, trace, i), r.id)
  {
    PrefixHolds(env, first, origin, trace, cutoff, i);
    PrefixNow(origin, trace, i);
    HistoryTracks(env, first, origin, trace[..i], cutoff);
    FindRow(origin.rows, r);
  }

  ghost predicate AlwaysCalm(origin: World, trace: History, id: Id) {
    StaysClosed(origin, trace, id) && (trace == [] || AlwaysCalm(origin, trace[..|trace| - 1], id))
  }

  lemma {:induction false} CalmAt(origin: World, trace: History, id: Id, i: nat)
    requires AlwaysCalm(origin, trace, id) && i <= |trace|
    ensures StaysClosed(origin, trace[..i], id)
    decreases |trace|
  {
    if i < |trace| {
      CalmAt(origin, trace[..|trace| - 1], id, i);
      assert trace[..|trace| - 1][..i] == trace[..i];
    } else {
      assert trace[..i] == trace;
    }
  }

  /** Screened again, the session's mailbox raises. */
  lemma RescreenRaises(
    env: nat -> World -> World, first: nat, origin: World, trace: History, cutoff: int, r: Row, ctx: Context, readAt: nat,
    seenAt: nat, at: nat, row: Row, verdict: Verdict)
    requires Genuine(env, first, origin, trace) && Sound(origin, trace, cutoff) && Spoils(env, r.id)
    requires Readable(origin, cutoff, r) && row.id == r.id
    requires AlwaysCalm(origin, trace, r.id)
    requires Rescreened(origin, trace, cutoff, ctx, readAt, seenAt, at, row, verdict)
    ensures verdict == Threw
  {
    SeenClosed(env, first, origin, trace, cutoff, r, seenAt, row);
    ContextOfClosed(env, first, origin, trace, cutoff, r, ctx, readAt, seenAt);
    SpoiltAt(env, first, origin, trace, cutoff, r, seenAt, at);
    UnreadableThrows(r, ctx, origin, WorldAt(origin, trace, at), WorldAt(origin, trace, at + 1));
  }

  lemma SeenClosed(
    env: nat -> World -> World, first: nat, origin: World, trace: History, cutoff: int, r: Row, seenAt: nat, row: Row)
    requires Genuine(env, first, origin, trace) && Sound(origin, trace, cutoff) && r in origin.rows && r.status == Active
    requires AlwaysCalm(origin, trace, r.id) && seenAt <= |trace|
    requires Find(WorldAt(origin, trace, seenAt).rows, r.id) == Some(row) && row.status == Closed
    ensures row == r.(status := Closed) && r.id in TallyOf(origin, trace[..seenAt]).held
  {
    CalmAt(origin, trace, r.id, seenAt);
    SessionRow(env, first, origin, trace, cutoff, r, seenAt);
  }

  lemma SpoiltAt(
    env: nat -> World -> World, first: nat, origin: World, trace: History, cutoff: int, r: Row, seenAt: nat, at: nat)
    requires Genuine(env, first, origin, trace) && Sound(origin, trace, cutoff) && Spoils(env, r.id) && r in origin.rows
    requires AlwaysCalm(origin, trace, r.id) && seenAt <= at < |trace| && Quiet(trace, seenAt, at + 1)
    requires Find(WorldAt(origin, trace, seenAt).rows, r.id) == Some(r.(status := Closed))
    ensures r.id in WorldAt(origin, trace, at + 1).unreadable && Unmoved(origin, WorldAt(origin, trace, at), r.id)
  {
    CalmAt(origin, trace, r.id, at);
    SessionRow(env, first, origin, trace, cutoff, r, at);
    RowsStay(env, first, origin, trace, r.id, seenAt, at);
    var k := EventAt(env, first, origin, trace, at);
    assert trace[at].kind.Others? && trace[at].after == Spoilt(WorldAt(origin, trace, at), r.id);
  }

  lemma ContextOfClosed(
    env: nat -> World -> World, first: nat, origin: World, trace: History, cutoff: int, r: Row, ctx: Context, readAt: nat,
    seenAt: nat)
    requires Genuine(env, first, origin, trace) && Sound(origin, trace, cutoff) && r in origin.rows
    requires AlwaysCalm(origin, trace, r.id)
    requires ContextRead(origin, trace, readAt, ctx, cutoff) && ClosesNothingFrom(trace, readAt)
    requires readAt + 2 <= seenAt <= |trace| && r.id in TallyOf(origin, trace[..seenAt]).held
    ensures ctx.pinned == origin.pinned && (r.id in ctx.blocked <==> r.id in origin.blocked)
    ensures r.id !in ctx.continuations
  {
    CalmAt(origin, trace, r.id, readAt);
    CalmAt(origin, trace, r.id, readAt + 1);
    CalmAt(origin, trace, r.id, readAt + 2);
    HeldBefore(origin, trace, r.id, readAt, seenAt);
    SessionRow(env, first, origin, trace, cutoff, r, readAt);
    SessionRow(env, first, origin, trace, cutoff, r, readAt + 1);
    SessionRow(env, first, origin, trace, cutoff, r, readAt + 2);
    ClosedContinuesNothing(WorldAt(origin, trace, readAt).rows, ctx.continuations, r.(status := Closed));
  }

  lemma ClosedContinuesNothing(rows: Table, continuations: set<Id>, r: Row)
    requires ContinuationIds(rows, continuations) && Find(rows, r.id) == Some(r) && r.status == Closed
    ensures r.id !in continuations
  {
    if x :| x in rows && x.id == r.id && Continues(rows, x) {
      FindRow(rows, x);
      PickIsBest(rows, InConversation(r.Conversation()), Newer);
      PickIsBest(rows, OfAgent(r.agent), CreatedLater);
    }
  }

  lemma UnreadableThrows(r: Row, ctx: Context, origin: World, before: World, during: World)
    requires Screening(r, ContextOf(origin, ctx.cutoff), origin, origin) == MayGo
    requires ctx.pinned == origin.pinned && (r.id in ctx.blocked <==> r.id in origin.blocked)
    requires r.id !in ctx.continuations && Unmoved(origin, before, r.id) && r.id in during.unreadable
    ensures Screening(r.(status := Closed), ctx, before, during) == Threw
  {
  }

  /** Through the whole run the session is neither deleted nor put back. */
  lemma {:induction false} SessionStays(
    env: nat -> World -> World, first: nat, origin: World, trace: History, cutoff: int, r: Row)
    requires Genuine(env, first, origin, trace) && Sound(origin, trace, cutoff) && Spoils(env, r.id)
    requires Readable(origin, cutoff, r)
    ensures AlwaysCalm(origin, trace, r.id)
    ensures TriesToClose(trace, r) ==> r.id in TallyOf(origin, trace).held
    decreases |trace|
  {
    if trace != [] {
      var n := |trace| - 1;
      SessionStays(env, first, origin, trace[..n], cutoff, r);
      assert trace == trace[..n] + [trace[n]];
      SessionStep(env, first, origin, trace[..n], trace[n], cutoff, r);
    }
  }

  lemma SessionStep(
    env: nat -> World -> World, first: nat, origin: World, before: History, last: Event, cutoff: int, r: Row)
    requires Genuine(env, first, origin, before + [last]) && Sound(origin, before + [last], cutoff) && Spoils(env, r.id)
    requires Readable(origin, cutoff, r)
    requires AlwaysCalm(origin, before, r.id)
    requires TriesToClose(before, r) ==> r.id in TallyOf(origin, before).held
    ensures StaysClosed(origin, before + [last], r.id)
    ensures TriesToClose(before + [last], r) ==> r.id in TallyOf(origin, before + [last]).held
  {
    var trace := before + [last];
    assert trace[..|before|] == before && before[..|before|] == before;
    SessionRow(env, first, origin, before, cutoff, r, |before|);
    match last.kind
    case Others =>
      assert last.after == Spoilt(Now(origin, before), r.id);
      assert Differing(last.after.rows, last.after.rows) == {};
    case Closing(row) =>
      if row != r { NotTriedNow(before, last, r); }
    case Reopening(id) =>
      if id == r.id {
        var ctx, readAt, seenAt, at, row, verdict :|
          && Rescreened(origin, before, cutoff, ctx, readAt, seenAt, at, row, verdict) && row.id == id
          && (verdict.Kept? || (verdict == MayGo && MovedSince(origin, before, seenAt, row)));
        RescreenRaises(env, first, origin, before, cutoff, r, ctx, readAt, seenAt, at, row, verdict);
        assert false;
      }
    case Deleting(row) =>
      if row.id == r.id {
        var ctx, readAt, seenAt, at :|
          Rescreened(origin, before, cutoff, ctx, readAt, seenAt, at, row, MayGo) && Quiet(before, seenAt, |before|);
        RescreenRaises(env, first, origin, before, cutoff, r, ctx, readAt, seenAt, at, row, MayGo);
        assert false;
      }
    if !last.kind.Closing? { NotTriedNow(before, last, r); }
  }

  lemma NotTriedNow(before: History, last: Event, r: Row)
    requires last.kind != Closing(r)
    ensures TriesToClose(before + [last], r) ==> TriesToClose(before, r)
  {
    if TriesToClose(before + [last], r) {
      var i :| 0 <= i < |before + [last]| && (before + [last])[i].kind == Closing(r);
      assert before[i].kind == Closing(r);
    }
  }

  /**
   * Against such a mailbox every run aborts, and leaves closed a session that was active: the exception of a
   * second screening is not caught, and nothing undoes the close.
   */
  lemma AbortLeavesClosed(
    env: nat -> World -> World, first: nat, origin: World, trace: History, cutoff: int,
    listed: seq<Id>, errors: set<Id>, outcome: Outcome, r: Row)
    requires Performed(env, first, origin, trace, cutoff, listed, errors, outcome)
    requires Spoils(env, r.id) && Readable(origin, cutoff, r)
    ensures outcome == Aborted
    ensures Find(origin.rows, r.id) == Some(r) && Find(Now(origin, trace).rows, r.id) == Some(r.(status := Closed))
  {
    TriesSession(env, first, origin, trace, cutoff, r);
    SessionStays(env, first, origin, trace, cutoff, r);
    assert trace[..|trace|] == trace;
    SessionRow(env, first, origin, trace, cutoff, r, |trace|);
    FindRow(origin.rows, r);
  }
}
