/**
 * The two-phase removal of session-retention.ts: screen, close, wait, screen again, delete under a guard,
 * reopen what is kept, while other writers change the world at every await.
 */
module SessionRetention {
  import opened Options
  import opened SessionRows

  /**
   * Everything a run reads: the table, pinned chats, sessions something waits on or holds, live
   * containers, the times of the files in each session's folder, mailboxes, and the sessions whose folder,
   * mailbox or rows raise.
   */
  datatype World = World(
    rows: Table,
    pinned: set<string>,
    blocked: map<Id, string>,
    running: set<Id>,
    fileTimes: map<Id, map<string, int>>,
    mailboxes: map<Id, Mailbox>,
    unnamable: set<Id>,
    unreadable: set<Id>,
    undeletable: set<Id>)

  /** What a mailbox holds: due or scheduled messages, live tasks, and due replies not yet delivered. */
  datatype Mailbox = Mailbox(due: nat, tasks: nat, undelivered: nat) {
    predicate Busy() { due > 0 || tasks > 0 || undelivered > 0 }
  }

  datatype Context = Context(cutoff: int, continuations: set<Id>, pinned: set<string>, blocked: map<Id, string>)

  datatype Keep = Recent | ContainerUp | Blocked(reason: string) | Continuation | Pinned | MailboxPending

  datatype Verdict = Kept(rule: Keep) | MayGo | Threw

  /** The newest of the times named, 0 when there is none. */
  function NewestOf(times: map<string, int>, names: seq<string>): (newest: int)
    ensures newest >= 0 && forall name | name in names && name in times :: times[name] <= newest
    ensures newest == 0 || exists name | name in names :: name in times && times[name] == newest
  {
    if names == [] then 0
    else
      var n := |names| - 1;
      var before := NewestOf(times, names[..n]);
      assert names == names[..n] + [names[n]];
      if names[n] in times && times[names[n]] > before then times[names[n]] else before
  }

  /** The files a live session keeps touching. */
  const TOUCHED := [".heartbeat", "inbound.db", "outbound.db"]

  /** fileActivityMs */
  function FileActivity(w: World, id: Id): int {
    if id in w.fileTimes then NewestOf(w.fileTimes[id], TOUCHED) else 0
  }

  /**
   * screen: the first rule that keeps a session. Everything but the mailbox is read in `before`; the
   * mailbox is read after an await, in `during`.
   */
  function Screening(row: Row, ctx: Context, before: World, during: World): Verdict {
    var last := row.Activity();
    if last >= ctx.cutoff then Kept(Recent)
    else if row.container != Stopped || row.id in before.running then Kept(ContainerUp)
    else if row.id in ctx.blocked then Kept(Blocked(ctx.blocked[row.id]))
    else if row.id in ctx.continuations then Kept(Continuation)
    else if row.chat.Some? && row.chat.value != "" && row.chat.value in ctx.pinned then Kept(Pinned)
    else if row.id in before.unnamable then Threw
    else if FileActivity(before, row.id) >= ctx.cutoff then Kept(Recent)
    else if row.id in during.unreadable then Threw
    else if row.id in during.mailboxes && during.mailboxes[row.id].Busy() then Kept(MailboxPending)
    else MayGo
  }

  // ---- What a session must be to go ----

  /** Nothing the row tells of the session is as late as the cutoff; no time counts as the time 0. */
  ghost predicate LongUnused(row: Row, cutoff: int) {
    row.createdAt < cutoff && (if row.lastActive.Some? then row.lastActive.value < cutoff else 0 < cutoff)
  }

  /** No file of the session was touched since the cutoff, which is past the time 0. */
  ghost predicate FilesUntouched(w: World, id: Id, cutoff: int) {
    0 < cutoff && (id in w.fileTimes ==>
      forall name | name in {".heartbeat", "inbound.db", "outbound.db"} && name in w.fileTimes[id] ::
        w.fileTimes[id][name] < cutoff)
  }

  ghost predicate MailboxIdle(w: World, id: Id) { id in w.mailboxes ==> w.mailboxes[id] == Mailbox(0, 0, 0) }

  /** A session of no named chat, or of one that is not pinned. */
  ghost predicate NotPinned(row: Row, pinned: set<string>) { forall chat | row.chat == Some(chat) && chat != "" :: chat !in pinned }

  /** What the world `before` the mailbox is read must show of a session for it to go, and the world `during` that. */
  ghost predicate LooksIdle(row: Row, cutoff: int, before: World, during: World) {
    && LongUnused(row, cutoff) && FilesUntouched(before, row.id, cutoff)
    && row.container == Stopped && row.id !in before.running
    && MailboxIdle(during, row.id)
    && row.id !in before.unnamable && row.id !in during.unreadable
  }

  /** A screening lets a session go exactly when it looks idle, nothing blocks it, no message resumes it, and its chat is not pinned. */
  lemma MayGoMeans(row: Row, ctx: Context, before: World, during: World)
    ensures Screening(row, ctx, before, during) == MayGo <==>
      && LooksIdle(row, ctx.cutoff, before, during)
      && row.id !in ctx.blocked && row.id !in ctx.continuations && NotPinned(row, ctx.pinned)
  {
    FilesMean(before, row.id, ctx.cutoff);
  }

  /** What each reason to keep a session says of it. */
  lemma KeptMeans(row: Row, ctx: Context, before: World, during: World)
    ensures match Screening(row, ctx, before, during)
      case Kept(Recent) => !LongUnused(row, ctx.cutoff) || !FilesUntouched(before, row.id, ctx.cutoff)
      case Kept(ContainerUp) => row.container != Stopped || row.id in before.running
      case Kept(Blocked(reason)) => row.id in ctx.blocked && reason == ctx.blocked[row.id]
      case Kept(Continuation) => row.id in ctx.continuations
      case Kept(Pinned) => !NotPinned(row, ctx.pinned)
      case Kept(MailboxPending) => !MailboxIdle(during, row.id)
      case Threw => row.id in before.unnamable || row.id in during.unreadable
      case MayGo => true
    ensures !LongUnused(row, ctx.cutoff) ==> Screening(row, ctx, before, during) == Kept(Recent)
  {
    FilesMean(before, row.id, ctx.cutoff);
  }

  lemma FilesMean(w: World, id: Id, cutoff: int)
    ensures FileActivity(w, id) < cutoff <==> FilesUntouched(w, id, cutoff)
  {
    assert forall name :: name in TOUCHED <==> name in {".heartbeat", "inbound.db", "outbound.db"};
  }

  /** A screening reads of the context and the world only what concerns its row. */
  lemma SameScreening(r: Row, a: Context, b: Context, v: World, w: World)
    requires a.cutoff == b.cutoff && a.pinned == b.pinned
    requires r.id in a.continuations <==> r.id in b.continuations
    requires r.id in a.blocked <==> r.id in b.blocked
    requires r.id in a.blocked ==> a.blocked[r.id] == b.blocked[r.id]
    requires v == w.(rows := v.rows, blocked := v.blocked)
    ensures Screening(r, a, v, v) == Screening(r, b, w, w)
  {
  }

  /** No rule asks whether the session is active. */
  lemma StatusUnread(r: Row, ctx: Context, w: World)
    ensures Screening(r.(status := Closed), ctx, w, w) == Screening(r, ctx, w, w)
  {
  }

  // ---- The guarded writes ----

  /** Whether the row still stands as it was screened, with the given status. */
  predicate StandsAs(w: World, row: Row, status: Status) {
    var live := Find(w.rows, row.id);
    live.Some? && live.value.status == status && live.value.container == Stopped && live.value.lastActive == row.lastActive
  }

  /** closeSession's update. */
  function CloseIn(w: World, row: Row): World {
    if StandsAs(w, row, Active) then w.(rows := SetStatus(w.rows, row.id, Closed)) else w
  }

  /** reopenSession's update. */
  function ReopenIn(w: World, id: Id): World {
    var live := Find(w.rows, id);
    if live.Some? && live.value.status == Closed then w.(rows := SetStatus(w.rows, id, Active)) else w
  }

  /** deleteCentralRows' transaction: the row, and what waited on it. */
  function DeleteIn(w: World, row: Row): World {
    if StandsAs(w, row, Closed) then w.(rows := Without(w.rows, {row.id}), blocked := w.blocked - {row.id}) else w
  }

  /** Ids whose row differs between two tables. */
  ghost function Differing(a: Table, b: Table): (ids: set<Id>)
    ensures forall id :: id !in ids ==> Find(a, id) == Find(b, id)
  {
    var ids := set r | r in a + b && Find(a, r.id) != Find(b, r.id) :: r.id;
    assert forall id | id !in ids :: Find(a, id) == Find(b, id) by {
      forall id | id !in ids ensures Find(a, id) == Find(b, id) {
        if Find(a, id).Some? { assert Find(a, id).value in a + b; }
        if Find(b, id).Some? { assert Find(b, id).value in a + b; }
      }
    }
    ids
  }

  // ---- What an undisturbed run does ----

  ghost function ContinuationSet(rows: seq<Row>): (ids: set<Id>)
    ensures ContinuationIds(rows, ids)
  {
    set r | r in rows && Continues(rows, r) :: r.id
  }

  /** The context a run reads when nobody else writes. */
  ghost function ContextOf(w: World, cutoff: int): Context {
    Context(cutoff, ContinuationSet(w.rows), w.pinned, w.blocked)
  }

  /** The rows of the table, in order, that the first screening lets go. */
  ghost function Eligible(w: World, cutoff: int, rows: seq<Row>): seq<Row> {
    if rows == [] then []
    else
      var n := |rows| - 1;
      Eligible(w, cutoff, rows[..n]) + if Screening(rows[n], ContextOf(w, cutoff), w, w) == MayGo then [rows[n]] else []
  }

  /** Their ids, in order: what a dry run lists. */
  ghost function IdsOf(rows: seq<Row>): seq<Id> {
    if rows == [] then [] else IdsOf(rows[..|rows| - 1]) + [rows[|rows| - 1].id]
  }

  /** A run closes only active sessions and deletes only closed ones; any other status is left alone. */
  ghost function Removable(rows: seq<Row>): seq<Row> {
    if rows == [] then []
    else
      var n := |rows| - 1;
      Removable(rows[..n]) + if rows[n].status == Active || rows[n].status == Closed then [rows[n]] else []
  }

  ghost function IdSet(rows: seq<Row>): set<Id> { set r | r in rows :: r.id }

  ghost function ActiveIds(rows: seq<Row>): set<Id> { set r | r in rows && r.status == Active :: r.id }

  ghost function WithClosed(rows: seq<Row>, ids: set<Id>): (t: seq<Row>)
    ensures |t| == |rows|
    ensures forall i | 0 <= i < |rows| :: t[i] == if rows[i].id in ids then rows[i].(status := Closed) else rows[i]
    ensures Unique(rows) ==> Unique(t)
  {
    seq(|rows|, i requires 0 <= i < |rows| => if rows[i].id in ids then rows[i].(status := Closed) else rows[i])
  }

  /** The world in the middle of an undisturbed run. */
  ghost function Midway(w: World, closed: set<Id>, gone: set<Id>): World {
    w.(rows := Without(WithClosed(w.rows, closed), gone), blocked := w.blocked - gone)
  }

  lemma {:induction false} EligibleMembers(w: World, cutoff: int, rows: seq<Row>)
    ensures forall r :: r in Eligible(w, cutoff, rows) <==> r in rows && Screening(r, ContextOf(w, cutoff), w, w) == MayGo
    ensures Unique(rows) ==> Unique(Eligible(w, cutoff, rows))
  {
    if rows != [] {
      var n := |rows| - 1;
      EligibleMembers(w, cutoff, rows[..n]);
      assert rows == rows[..n] + [rows[n]];
      var init := Eligible(w, cutoff, rows[..n]);
      if Unique(rows) {
        forall i | 0 <= i < |init| ensures init[i].id != rows[n].id { assert init[i] in rows[..n]; }
      }
    }
  }

  lemma {:induction false} RemovableMembers(rows: seq<Row>)
    ensures forall r :: r in Removable(rows) <==> r in rows && (r.status == Active || r.status == Closed)
  {
    if rows != [] {
      var n := |rows| - 1;
      RemovableMembers(rows[..n]);
      assert rows == rows[..n] + [rows[n]];
    }
  }

  /** Once active sessions are closed, nothing that was to go is a continuation. */
  lemma ClosedDoesNotContinue(rows: Table, closed: set<Id>, r: Row)
    requires r.status != Active
    ensures !Continues(WithClosed(rows, closed), r)
  {
    PickIsBest(WithClosed(rows, closed), InConversation(r.Conversation()), Newer);
    PickIsBest(WithClosed(rows, closed), OfAgent(r.agent), CreatedLater);
  }

  lemma FindMidway(w: World, closed: set<Id>, gone: set<Id>, id: Id)
    ensures Find(Midway(w, closed, gone).rows, id) ==
      if id in gone then None
      else
        var r := Find(w.rows, id);
        if r.Some? && id in closed then Some(r.value.(status := Closed)) else r
  {
    var t: Table := WithClosed(w.rows, closed);
    FindAfterWithout(t, gone, id);
    var r := Find(w.rows, id);
    if r.Some? {
      var i :| 0 <= i < |w.rows| && w.rows[i] == r.value;
      FindUnique(t, i);
    } else {
      assert forall i | 0 <= i < |t| :: t[i].id == w.rows[i].id;
    }
  }

  /** The second screening of a session that was to go lets it go again. */
  lemma ScreenedAgain(w: World, ctx: Context, closed: set<Id>, gone: set<Id>, r: Row)
    requires r in w.rows && Screening(r, ContextOf(w, ctx.cutoff), w, w) == MayGo && r.id !in gone
    requires ctx.pinned == w.pinned && ctx.blocked == w.blocked
    requires ContinuationIds(WithClosed(w.rows, closed), ctx.continuations)
    requires r.id in closed || r.status == Closed
    ensures var m := Midway(w, closed, gone); Screening(r.(status := Closed), ctx, m, m) == MayGo
  {
    NoLongerContinues(w, closed, r, ctx.continuations);
    StatusUnread(r, ContextOf(w, ctx.cutoff), w);
    SameScreening(r.(status := Closed), ctx, ContextOf(w, ctx.cutoff), Midway(w, closed, gone), w);
  }

  lemma NoLongerContinues(w: World, closed: set<Id>, r: Row, continuations: set<Id>)
    requires r in w.rows && (r.id in closed || r.status == Closed)
    requires ContinuationIds(WithClosed(w.rows, closed), continuations)
    ensures r.id !in continuations
  {
    var t := WithClosed(w.rows, closed);
    if x :| x in t && x.id == r.id && Continues(t, x) {
      var i :| 0 <= i < |t| && t[i] == x;
      var j :| 0 <= j < |w.rows| && w.rows[j] == r;
      assert t[i].id == w.rows[i].id;
      assert i == j;
      ClosedDoesNotContinue(w.rows, closed, x);
    }
  }

  lemma {:induction false} WithoutTwice(rows: seq<Row>, a: set<Id>, b: set<Id>)
    ensures Without(Without(rows, a), b) == Without(rows, a + b)
  {
    if rows != [] {
      var n := |rows| - 1;
      WithoutTwice(rows[..n], a, b);
      if rows[n].id !in a {
        var t := Without(rows[..n], a);
        assert (t + [rows[n]])[..|t|] == t;
      }
    }
  }

  lemma {:induction false} WithoutForgetsStatus(rows: seq<Row>, closed: set<Id>, gone: set<Id>)
    requires closed <= gone
    ensures Without(WithClosed(rows, closed), gone) == Without(rows, gone)
  {
    if rows != [] {
      var n := |rows| - 1;
      WithoutForgetsStatus(rows[..n], closed, gone);
      assert WithClosed(rows, closed)[..n] == WithClosed(rows[..n], closed);
    }
  }

  ghost function Listed(ids: seq<Id>): set<Id> { set id | id in ids }

  ghost predicate ClosedOnly(was: Option<Row>, now: Option<Row>) {
    was.Some? && was.value.status == Active && now == Some(was.value.(status := Closed))
  }

  /** The rows an undisturbed run removes. */
  ghost function RemovedBy(w: World, cutoff: int): seq<Row> { Removable(Eligible(w, cutoff, w.rows)) }

  /** The world after an undisturbed run. */
  ghost function Pruned(w: World, cutoff: int): World {
    var gone := IdSet(RemovedBy(w, cutoff));
    w.(rows := Without(w.rows, gone), blocked := w.blocked - gone)
  }

  method ListIds(rows: seq<Row>) returns (ids: seq<Id>)
    ensures ids == IdsOf(rows)
  {
    ids := [];
    for i := 0 to |rows|
      invariant ids == IdsOf(rows[..i])
    {
      assert rows[..i + 1][..i] == rows[..i];
      ids := ids + [rows[i].id];
    }
    assert rows[..|rows|] == rows;
  }

  lemma ListedMore(listed: seq<Id>, id: Id)
    ensures Listed(listed + [id]) == Listed(listed) + {id}
  {
  }

  lemma RemovableMore(eligible: Table, i: nat)
    requires i < |eligible|
    ensures var e := eligible[i];
      IdsOf(Removable(eligible[..i + 1])) ==
        IdsOf(Removable(eligible[..i])) + if e.status == Active || e.status == Closed then [e.id] else []
  {
    var upTo := eligible[..i + 1];
    assert upTo[..i] == eligible[..i] && upTo != [] && upTo[i] == eligible[i];
    var prev := Removable(eligible[..i]);
    if eligible[i].status == Active || eligible[i].status == Closed {
      assert Removable(upTo) == prev + [eligible[i]];
      assert (prev + [eligible[i]])[..|prev|] == prev;
    } else {
      assert Removable(upTo) == prev;
    }
  }

  lemma NotSweptYet(eligible: Table, i: nat)
    requires i < |eligible|
    ensures eligible[i].id !in IdSet(eligible[..i])
  {
    forall r | r in eligible[..i] ensures r.id != eligible[i].id {
      var k :| 0 <= k < i && eligible[k] == r;
    }
  }

  lemma ActiveExactly(eligible: Table, e: Row)
    requires e in eligible
    ensures e.id in ActiveIds(eligible) <==> e.status == Active
  {
    var i :| 0 <= i < |eligible| && eligible[i] == e;
    if r :| r in eligible && r.status == Active && r.id == e.id {
      var k :| 0 <= k < |eligible| && eligible[k] == r;
      assert k == i;
    }
  }

  /** Reading the context of a still world gives the context its own rows define. */
  lemma StillContext(w: World, ctx: Context)
    requires ContinuationIds(w.rows, ctx.continuations) && ctx.pinned == w.pinned && ctx.blocked == w.blocked
    ensures ctx == ContextOf(w, ctx.cutoff)
  {
    forall id ensures id in ctx.continuations <==> id in ContinuationSet(w.rows) { }
    assert ctx.continuations == ContinuationSet(w.rows);
  }

  lemma {:induction false} IdsListed(rows: seq<Row>)
    ensures Listed(IdsOf(rows)) == IdSet(rows)
  {
    if rows != [] {
      var n := |rows| - 1;
      IdsListed(rows[..n]);
      assert rows == rows[..n] + [rows[n]];
      assert IdSet(rows) == IdSet(rows[..n]) + {rows[n].id};
      assert Listed(IdsOf(rows)) == Listed(IdsOf(rows[..n])) + {rows[n].id};
    }
  }

  /** In this world the session looks idle, nothing blocks it, its chat is not pinned and no message resumes it. */
  ghost predicate Idle(w: World, cutoff: int, r: Row) {
    && LooksIdle(r, cutoff, w, w) && r.id !in w.blocked && NotPinned(r, w.pinned)
    && !Continues(w.rows, r)
  }

  /** Left alone, a dry run lists exactly the idle sessions, and a run removes exactly those that are active or closed. */
  lemma IdleIsRemoved(w: World, cutoff: int, r: Row)
    requires r in w.rows
    ensures r.id in Listed(IdsOf(Eligible(w, cutoff, w.rows))) <==> Idle(w, cutoff, r)
    ensures r.id in Listed(IdsOf(RemovedBy(w, cutoff))) <==> Idle(w, cutoff, r) && (r.status == Active || r.status == Closed)
  {
    IdleMayGo(w, cutoff, r);
    EligibleMembers(w, cutoff, w.rows);
    RemovableMembers(Eligible(w, cutoff, w.rows));
    IdOfMember(w.rows, Eligible(w, cutoff, w.rows), r);
    IdOfMember(w.rows, RemovedBy(w, cutoff), r);
  }

  lemma IdleMayGo(w: World, cutoff: int, r: Row)
    requires r in w.rows
    ensures Screening(r, ContextOf(w, cutoff), w, w) == MayGo <==> Idle(w, cutoff, r)
  {
    MayGoMeans(r, ContextOf(w, cutoff), w, w);
    SameRow(w.rows, r);
  }

  /** Of rows of a table, an id lists its row. */
  lemma IdOfMember(rows: Table, some: seq<Row>, r: Row)
    requires r in rows && forall x | x in some :: x in rows
    ensures r.id in Listed(IdsOf(some)) <==> r in some
  {
    IdsListed(some);
    if x :| x in some && x.id == r.id {
      var i :| 0 <= i < |rows| && rows[i] == r;
      var k :| 0 <= k < |rows| && rows[k] == x;
      assert i == k;
    }
  }

  lemma PlanDone(w: World, cutoff: int, eligible: Table, listed: seq<Id>)
    requires eligible == Eligible(w, cutoff, w.rows) && listed == IdsOf(Removable(eligible))
    ensures Midway(w, ActiveIds(eligible), Listed(listed)) == Pruned(w, cutoff)
  {
    IdsListed(Removable(eligible));
    RemovableMembers(eligible);
    WithoutForgetsStatus(w.rows, ActiveIds(eligible), Listed(listed));
  }

  // ---- What a run leaves behind ----

  /** A row the first screening lets go is no continuation. */
  lemma RemovedDoNotContinue(w: World, cutoff: int, r: Row)
    requires r in w.rows && r.id in IdSet(RemovedBy(w, cutoff))
    ensures r in Eligible(w, cutoff, w.rows) && !Continues(w.rows, r)
  {
    RemovableMembers(Eligible(w, cutoff, w.rows));
    EligibleMembers(w, cutoff, w.rows);
    var x :| x in RemovedBy(w, cutoff) && x.id == r.id;
    var i :| 0 <= i < |w.rows| && w.rows[i] == r;
    var k :| 0 <= k < |w.rows| && w.rows[k] == x;
    assert i == k;
  }

  /** A run changes nothing about which session any message resumes. */
  lemma ResumptionUnchanged(w: World, cutoff: int)
    ensures forall key :: Resumed(Pruned(w, cutoff).rows, key) == Resumed(w.rows, key)
    ensures forall agent :: ResumedByAgent(Pruned(w, cutoff).rows, agent) == ResumedByAgent(w.rows, agent)
  {
    var gone := IdSet(RemovedBy(w, cutoff));
    forall r | r in w.rows && r.id in gone ensures !Continues(w.rows, r) { RemovedDoNotContinue(w, cutoff, r); }
    ResumptionSurvives(w.rows, gone);
  }

  /** Nor does any single deletion, whatever others have written by then: a closed session is resumed by nothing. */
  lemma DeletionKeepsResumption(w: World, row: Row)
    ensures forall key :: Resumed(DeleteIn(w, row).rows, key) == Resumed(w.rows, key)
    ensures forall agent :: ResumedByAgent(DeleteIn(w, row).rows, agent) == ResumedByAgent(w.rows, agent)
  {
    if StandsAs(w, row, Closed) {
      forall r | r in w.rows && r.id in {row.id} ensures !Continues(w.rows, r) {
        var i :| 0 <= i < |w.rows| && w.rows[i] == r;
        FindUnique(w.rows, i);
        PickIsBest(w.rows, InConversation(r.Conversation()), Newer);
        PickIsBest(w.rows, OfAgent(r.agent), CreatedLater);
      }
      ResumptionSurvives(w.rows, {row.id});
    }
  }

  /** What a run leaves is screened the second time as it was the first. */
  lemma ScreenedAlike(w: World, cutoff: int, r: Row)
    requires r in Pruned(w, cutoff).rows
    ensures var p := Pruned(w, cutoff);
      Screening(r, ContextOf(p, cutoff), p, p) == Screening(r, ContextOf(w, cutoff), w, w)
  {
    var p, gone := Pruned(w, cutoff), IdSet(RemovedBy(w, cutoff));
    forall x | x in w.rows && x.id in gone ensures !Continues(w.rows, x) { RemovedDoNotContinue(w, cutoff, x); }
    ContinuesSurvives(w.rows, gone, r);
    SameRow(w.rows, r);
    SameRow(p.rows, r);
    assert r.id !in gone;
    SameScreening(r, ContextOf(p, cutoff), ContextOf(w, cutoff), p, w);
  }

  lemma SameRow(rows: Table, r: Row)
    requires r in rows
    ensures r.id in ContinuationSet(rows) <==> Continues(rows, r)
  {
    var i :| 0 <= i < |rows| && rows[i] == r;
    if x :| x in rows && x.id == r.id && Continues(rows, x) {
      var k :| 0 <= k < |rows| && rows[k] == x;
      assert i == k;
    }
  }

  /** A session a run leaves is, at the next, either kept or of a status no run removes. */
  lemma LeftBehind(w: World, cutoff: int, r: Row)
    requires r in Eligible(Pruned(w, cutoff), cutoff, Pruned(w, cutoff).rows)
    ensures r in w.rows && r.status != Active && r.status != Closed
  {
    var p := Pruned(w, cutoff);
    EligibleMembers(p, cutoff, p.rows);
    ScreenedAlike(w, cutoff, r);
    EligibleMembers(w, cutoff, w.rows);
    RemovableMembers(Eligible(w, cutoff, w.rows));
    assert r in Eligible(w, cutoff, w.rows);
    assert r !in RemovedBy(w, cutoff);
  }

  /** A second run with the same clock finds nothing to remove. */
  lemma RunAgain(w: World, cutoff: int)
    ensures RemovedBy(Pruned(w, cutoff), cutoff) == []
    ensures (forall r | r in w.rows :: r.status == Active || r.status == Closed) ==>
      Eligible(Pruned(w, cutoff), cutoff, Pruned(w, cutoff).rows) == []
  {
    var left := Eligible(Pruned(w, cutoff), cutoff, Pruned(w, cutoff).rows);
    forall r | r in left ensures r in w.rows && r.status != Active && r.status != Closed {
      LeftBehind(w, cutoff, r);
    }
    NoneRemovable(left);
    assert left != [] ==> left[0] in left;
  }

  lemma {:induction false} NoneRemovable(rows: seq<Row>)
    requires forall r | r in rows :: r.status != Active && r.status != Closed
    ensures Removable(rows) == []
  {
    if rows != [] { NoneRemovable(rows[..|rows| - 1]); }
  }

  /** When every session is active or closed, a run removes exactly what the dry run lists. */
  lemma {:induction false} AllRemovable(rows: seq<Row>)
    ensures Removable(rows) == rows <==> forall r | r in rows :: r.status == Active || r.status == Closed
  {
    RemovableMembers(rows);
    RemovableBound(rows);
  }

  lemma {:induction false} RemovableBound(rows: seq<Row>)
    ensures |Removable(rows)| <= |rows|
    ensures (forall r | r in rows :: r.status == Active || r.status == Closed) ==> Removable(rows) == rows
  {
    if rows != [] {
      var n := |rows| - 1;
      RemovableBound(rows[..n]);
      assert rows == rows[..n] + [rows[n]];
    }
  }

  lemma DeleteFromMidway(w: World, closed: set<Id>, gone: set<Id>, row: Row)
    requires StandsAs(Midway(w, closed, gone), row, Closed)
    ensures DeleteIn(Midway(w, closed, gone), row) == Midway(w, closed, gone + {row.id})
  {
    WithoutTwice(WithClosed(w.rows, closed), gone, {row.id});
    assert w.blocked - gone - {row.id} == w.blocked - (gone + {row.id});
  }

  lemma NoneClosed(rows: seq<Row>)
    ensures WithClosed(rows, {}) == rows
  {
  }

  lemma MidwayStart(w: World)
    ensures Midway(w, {}, {}) == w
  {
    NoneClosed(w.rows);
    MidwayNothingGone(w, {});
    var rows := w.rows;
    assert w.(rows := rows) == w;
  }

  lemma WithoutLast(rows: seq<Row>, last: Row, gone: set<Id>)
    ensures Without(rows + [last], gone) == if last.id in gone then Without(rows, gone) else Without(rows, gone) + [last]
  {
    assert (rows + [last])[..|rows|] == rows;
  }

  lemma {:induction false} NothingGone(rows: seq<Row>)
    ensures Without(rows, {}) == rows
    decreases |rows|
  {
    if rows != [] {
      var init, last := SplitLast(rows);
      NothingGone(init);
      WithoutLast(init, last, {});
    }
  }

  lemma SplitLast(rows: seq<Row>) returns (init: seq<Row>, last: Row)
    requires rows != []
    ensures rows == init + [last] && |init| < |rows|
    ensures Unique(rows) ==> Unique(init)
  {
    init, last := rows[..|rows| - 1], rows[|rows| - 1];
  }

  /** In an undisturbed run every active eligible session is found as it was screened, and closes. */
  lemma MidwayClose(w: World, eligible: Table, i: nat, closed: set<Id>)
    requires i < |eligible| && eligible[i].status == Active && closed == ActiveIds(eligible[..i])
    requires forall r | r in eligible :: r in w.rows && r.container == Stopped
    ensures StandsAs(Midway(w, closed, {}), eligible[i], Active)
    ensures CloseIn(Midway(w, closed, {}), eligible[i]) == Midway(w, closed + {eligible[i].id}, {})
    ensures closed + {eligible[i].id} == ActiveIds(eligible[..i + 1])
  {
    var e := eligible[i];
    assert eligible[..i + 1] == eligible[..i] + [e];
    forall r | r in eligible[..i] ensures r.id != e.id {
      var k :| 0 <= k < i && eligible[k] == r;
    }
    ClosesAsScreened(w, e, closed);
  }

  lemma MidwayNothingGone(w: World, closed: set<Id>)
    ensures Midway(w, closed, {}) == w.(rows := WithClosed(w.rows, closed))
  {
    NothingGone(WithClosed(w.rows, closed));
    assert w.blocked - {} == w.blocked;
  }

  lemma ClosesAsScreened(w: World, e: Row, closed: set<Id>)
    requires e in w.rows && e.status == Active && e.container == Stopped && e.id !in closed
    ensures StandsAs(Midway(w, closed, {}), e, Active)
    ensures CloseIn(Midway(w, closed, {}), e) == Midway(w, closed + {e.id}, {})
  {
    var j :| 0 <= j < |w.rows| && w.rows[j] == e;
    FindUnique(w.rows, j);
    FindMidway(w, closed, {}, e.id);
    MidwayNothingGone(w, closed);
    MidwayNothingGone(w, closed + {e.id});
    CloseOneMore(w.rows, closed, e.id);
  }

  lemma CloseOneMore(rows: Table, closed: set<Id>, id: Id)
    ensures SetStatus(WithClosed(rows, closed), id, Closed) == WithClosed(rows, closed + {id})
  {
  }

  // ---- Closing, which can end a conversation ----

  /** A closed session is to the pick as one that is gone. */
  lemma {:induction false} PickWithoutClosed(rows: Table, id: Id, matches: Row -> bool, beats: (Row, Row) -> bool)
    requires forall r | matches(r) :: r.status == Active
    ensures Pick(SetStatus(rows, id, Closed), matches, beats) == Pick(Without(rows, {id}), matches, beats)
    decreases |rows|
  {
    if rows != [] {
      var init, last := SplitLast(rows);
      PickWithoutClosed(init, id, matches, beats);
      ClosedLast(rows, init, last, id);
      WithoutLast(init, last, {id});
      PickLast(SetStatus(init, id, Closed), if last.id == id then last.(status := Closed) else last, matches, beats);
      PickLast(Without(init, {id}), last, matches, beats);
    }
  }

  lemma ClosedLast(rows: Table, init: Table, last: Row, id: Id)
    requires rows == init + [last]
    ensures SetStatus(rows, id, Closed) ==
      SetStatus(init, id, Closed) + [if last.id == id then last.(status := Closed) else last]
  {
  }

  lemma PickLast(rows: seq<Row>, x: Row, matches: Row -> bool, beats: (Row, Row) -> bool)
    ensures Pick(rows + [x], matches, beats) ==
      var prev := Pick(rows, matches, beats);
      if !matches(x) then prev else if prev.None? || beats(x, prev.value) then Some(x) else prev
  {
    assert (rows + [x])[..|rows|] == rows;
  }

  /** Closing leaves every resumption as it was exactly when the close finds nothing to do, or a session no message would resume. */
  lemma CloseKeepsResumption(w: World, row: Row)
    ensures
      ((forall key :: Resumed(CloseIn(w, row).rows, key) == Resumed(w.rows, key))
       && (forall agent :: ResumedByAgent(CloseIn(w, row).rows, agent) == ResumedByAgent(w.rows, agent)))
      <==> !StandsAs(w, row, Active) || !Continues(w.rows, Find(w.rows, row.id).value)
  {
    if StandsAs(w, row, Active) {
      var live, after := Find(w.rows, row.id).value, CloseIn(w, row).rows;
      forall key ensures Resumed(after, key) == Resumed(Without(w.rows, {row.id}), key) {
        PickWithoutClosed(w.rows, row.id, InConversation(key), Newer);
      }
      forall agent ensures ResumedByAgent(after, agent) == ResumedByAgent(Without(w.rows, {row.id}), agent) {
        PickWithoutClosed(w.rows, row.id, OfAgent(agent), CreatedLater);
      }
      if Continues(w.rows, live) {
        ClosedIsNotResumed(w.rows, row.id, live);
      } else {
        forall r | r in w.rows && r.id == row.id ensures r == live {
          var i :| 0 <= i < |w.rows| && w.rows[i] == r;
          FindUnique(w.rows, i);
        }
        ResumptionSurvives(w.rows, {row.id});
      }
    }
  }

  lemma ClosedIsNotResumed(rows: Table, id: Id, live: Row)
    requires live.id == id
    ensures Resumed(Without(rows, {id}), live.Conversation()) != Some(live)
    ensures ResumedByAgent(Without(rows, {id}), live.agent) != Some(live)
  {
    PickIsBest(Without(rows, {id}), InConversation(live.Conversation()), Newer);
    PickIsBest(Without(rows, {id}), OfAgent(live.agent), CreatedLater);
  }

  /** The world after another writer closes a session. */
  function ClosedByOthers(w: World, id: Id): World { w.(rows := SetStatus(w.rows, id, Closed)) }

  /**
   * Where that fails: two sessions of one conversation, the older let go because the newer would be resumed.
   * Another writer closes the newer one. The close still finds the older as it was screened, and takes from
   * the conversation the one session it had left; screened again, it may go.
   */
  lemma CloseEndsConversation(w: World, cutoff: int, a: Row, b: Row)
    requires w.rows == [a, b] && a.status == Active && b.status == Active && a.Conversation() == b.Conversation()
    requires Screening(b, ContextOf(w, cutoff), w, w) == MayGo
    ensures var x := ClosedByOthers(w, a.id);
      var y := CloseIn(x, b);
      && Resumed(w.rows, b.Conversation()) == Some(a)
      && StandsAs(x, b, Active) && Resumed(x.rows, b.Conversation()) == Some(b)
      && Resumed(y.rows, b.Conversation()) == None
      && Find(y.rows, b.id) == Some(b.(status := Closed))
      && Screening(b.(status := Closed), ContextOf(y, cutoff), y, y) == MayGo
  {
    var key, x := b.Conversation(), ClosedByOthers(w, a.id);
    var y, a', b' := CloseIn(x, b), a.(status := Closed), b.(status := Closed);
    assert w.rows[0].id != w.rows[1].id;
    assert x.rows == [a', b];
    FindUnique(w.rows, 1);
    FindUnique(x.rows, 1);
    assert y.rows == [a', b'];
    FindUnique(y.rows, 1);
    PickIsBest(w.rows, InConversation(key), Newer);
    PickIsBest(x.rows, InConversation(key), Newer);
    PickIsBest(y.rows, InConversation(key), Newer);
    assert b in w.rows && (Resumed(w.rows, key) == Some(b) ==> Continues(w.rows, b));
    assert x.rows[1] == b;
    PickIsBest(y.rows, OfAgent(b.agent), CreatedLater);
    StatusUnread(b, ContextOf(w, cutoff), w);
    SameScreening(b', ContextOf(y, cutoff), ContextOf(w, cutoff), y, w);
  }
}
