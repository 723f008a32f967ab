/**
 * Sessions as rows of the central table, which of them a new message would resume, and which rule of
 * session-retention.ts keeps one.
 */
module SessionRows {
  import opened Options

  /** Session ids matter only for equality and order. */
  type Id = int

  datatype Status = Active | Closed | OtherStatus(name: string)

  datatype Container = Stopped | OtherContainer(name: string)

  /** Times in milliseconds; an absent or unreadable `last_active` counts as 0. */
  datatype Row = Row(
    id: Id,
    agent: string,
    chat: Option<string>,
    thread: Option<string>,
    status: Status,
    container: Container,
    lastActive: Option<int>,
    createdAt: int)
  {
    function Activity(): int {
      var last := if lastActive.Some? then lastActive.value else 0;
      if last > createdAt then last else createdAt
    }

    predicate SystemThread() {
      chat == None && thread.Some? && |thread.value| >= 7 && thread.value[..7] == "system:"
    }

    /** A null chat or thread names the same conversation as an empty one. */
    function Conversation(): (string, string, string) {
      (agent, if chat.Some? then chat.value else "", if thread.Some? then thread.value else "")
    }
  }

  ghost predicate Unique(rows: seq<Row>) {
    forall i, j | 0 <= i < j < |rows| :: rows[i].id != rows[j].id
  }

  /** The sessions table in the order the database returns it; ids are its key. */
  type Table = rows: seq<Row> | Unique(rows) witness []

  function Find(rows: seq<Row>, id: Id): (r: Option<Row>)
    ensures r.Some? ==> r.value in rows && r.value.id == id
    ensures r.None? ==> forall i | 0 <= i < |rows| :: rows[i].id != id
  {
    if rows == [] then None else if rows[0].id == id then Some(rows[0]) else Find(rows[1..], id)
  }

  lemma {:induction false} FindUnique(rows: seq<Row>, i: nat)
    requires Unique(rows) && i < |rows|
    ensures Find(rows, rows[i].id) == Some(rows[i])
  {
    if i > 0 { FindUnique(rows[1..], i - 1); }
  }

  function SetStatus(rows: Table, id: Id, status: Status): (t: Table)
    ensures |t| == |rows|
    ensures forall i | 0 <= i < |rows| :: t[i] == if rows[i].id == id then rows[i].(status := status) else rows[i]
  {
    seq(|rows|, i requires 0 <= i < |rows| => if rows[i].id == id then rows[i].(status := status) else rows[i])
  }

  /** The rows whose ids are not in `gone`, in order. */
  function Without(rows: seq<Row>, gone: set<Id>): (t: seq<Row>)
    ensures forall r :: r in t <==> r in rows && r.id !in gone
    ensures Unique(rows) ==> Unique(t)
  {
    if rows == [] then []
    else
      var n := |rows| - 1;
      var init := Without(rows[..n], gone);
      assert rows == rows[..n] + [rows[n]];
      if rows[n].id in gone then init
      else
        assert Unique(rows) ==> forall i | 0 <= i < |init| :: init[i].id != rows[n].id by {
          forall i | 0 <= i < |init| && Unique(rows) ensures init[i].id != rows[n].id {
            assert init[i] in rows[..n];
          }
        }
        init + [rows[n]]
  }

  lemma FindAfterStatus(rows: Table, id: Id, status: Status, other: Id)
    ensures Find(SetStatus(rows, id, status), other) ==
      if other == id && Find(rows, id).Some? then Some(Find(rows, id).value.(status := status)) else Find(rows, other)
  {
    var t := SetStatus(rows, id, status);
    var r := Find(rows, other);
    if r.Some? {
      var i :| 0 <= i < |rows| && rows[i] == r.value;
      FindUnique(t, i);
    } else {
      assert forall i | 0 <= i < |t| :: t[i].id == rows[i].id;
    }
  }

  lemma FindAfterWithout(rows: Table, gone: set<Id>, other: Id)
    ensures Find(Without(rows, gone), other) == if other in gone then None else Find(rows, other)
  {
    var t: Table := Without(rows, gone);
    var r := Find(rows, other);
    if r.Some? && other !in gone {
      assert r.value in t;
      var i :| 0 <= i < |t| && t[i] == r.value;
      FindUnique(t, i);
    }
  }

  // ---- Picking the newest ----

  /** The row that no matching row before or after it beats; of equals, the first. */
  ghost function Pick(rows: seq<Row>, matches: Row -> bool, beats: (Row, Row) -> bool): Option<Row> {
    if rows == [] then None
    else
      var prev, x := Pick(rows[..|rows| - 1], matches, beats), rows[|rows| - 1];
      if !matches(x) then prev else if prev.None? || beats(x, prev.value) then Some(x) else prev
  }

  /** A strict order in which incomparable rows are interchangeable. */
  ghost predicate Ranks(beats: (Row, Row) -> bool) {
    && (forall a, b, c | beats(a, b) :: beats(a, c) || beats(c, b))
    && (forall a, b | beats(a, b) :: !beats(b, a))
  }

  lemma {:induction false} PickIsBest(rows: seq<Row>, matches: Row -> bool, beats: (Row, Row) -> bool)
    requires Ranks(beats)
    ensures var p := Pick(rows, matches, beats);
      && (p.None? <==> forall r | r in rows :: !matches(r))
      && (p.Some? ==> p.value in rows && matches(p.value) && forall r | r in rows && matches(r) :: !beats(r, p.value))
  {
    if rows != [] {
      var n := |rows| - 1;
      PickIsBest(rows[..n], matches, beats);
      assert rows == rows[..n] + [rows[n]];
    }
  }

  /** Taking out rows that were not picked leaves the pick as it was. */
  lemma {:induction false} PickSurvives(rows: seq<Row>, gone: set<Id>, matches: Row -> bool, beats: (Row, Row) -> bool)
    requires Ranks(beats)
    requires var p := Pick(rows, matches, beats); p.Some? ==> p.value.id !in gone
    ensures Pick(Without(rows, gone), matches, beats) == Pick(rows, matches, beats)
  {
    if rows != [] {
      var n := |rows| - 1;
      var init, x := rows[..n], rows[n];
      var kept := Without(init, gone);
      PickIsBest(init, matches, beats);
      PickIsBest(kept, matches, beats);
      assert (kept + [x])[..|kept|] == kept;
      var prev := Pick(init, matches, beats);
      if !matches(x) || (prev.Some? && !beats(x, prev.value)) {
        PickSurvives(init, gone, matches, beats);
      }
    }
  }

  // ---- Which session a message resumes ----

  ghost function InConversation(key: (string, string, string)): Row -> bool {
    (r: Row) => r.status == Active && r.Conversation() == key
  }

  ghost function OfAgent(agent: string): Row -> bool {
    (r: Row) => r.status == Active && r.agent == agent && !r.SystemThread()
  }

  predicate Newer(a: Row, b: Row) {
    a.Activity() > b.Activity() || (a.Activity() == b.Activity() && a.id > b.id)
  }

  predicate CreatedLater(a: Row, b: Row) { a.createdAt > b.createdAt }

  /** The session the router resumes for a conversation. */
  ghost function Resumed(rows: seq<Row>, key: (string, string, string)): Option<Row> {
    Pick(rows, InConversation(key), Newer)
  }

  /** The session agent-to-agent messages resume. */
  ghost function ResumedByAgent(rows: seq<Row>, agent: string): Option<Row> {
    Pick(rows, OfAgent(agent), CreatedLater)
  }

  /** A session's activity is the later of its last use, 0 when there is none on record, and its creation. */
  lemma ActivityMeans(r: Row)
    ensures var t := r.Activity();
      && r.createdAt <= t && (if r.lastActive.Some? then r.lastActive.value <= t else 0 <= t)
      && (t == r.createdAt || r.lastActive == Some(t) || (r.lastActive == None && t == 0))
  {
  }

  /** An active session of the conversation that an agent, a chat and a thread name, absent ones written empty. */
  ghost predicate ActiveIn(r: Row, agent: string, chat: string, thread: string) {
    && r.status == Active && r.agent == agent
    && (r.chat == Some(chat) || (r.chat == None && chat == ""))
    && (r.thread == Some(thread) || (r.thread == None && thread == ""))
  }

  /** A message resumes the active session of its conversation that is the most recently used, of two alike the one with the higher id. */
  lemma ResumedIsNewest(rows: Table, agent: string, chat: string, thread: string, r: Row)
    ensures Resumed(rows, (agent, chat, thread)) == Some(r) <==>
      && r in rows && ActiveIn(r, agent, chat, thread)
      && forall x | x in rows && x != r && ActiveIn(x, agent, chat, thread) ::
           x.Activity() < r.Activity() || (x.Activity() == r.Activity() && x.id < r.id)
  {
    var key := (agent, chat, thread);
    var p := Resumed(rows, key);
    PickIsBest(rows, InConversation(key), Newer);
    assert forall x :: InConversation(key)(x) <==> ActiveIn(x, agent, chat, thread);
    forall x, y | x in rows && y in rows && x != y ensures x.id != y.id {
      var i :| 0 <= i < |rows| && rows[i] == x;
      var j :| 0 <= j < |rows| && rows[j] == y;
    }
  }

  /** An active session of the agent, not of one of the system's own threads. */
  ghost predicate ActiveOf(r: Row, agent: string) {
    r.status == Active && r.agent == agent && !(r.chat == None && r.thread.Some? && "system:" <= r.thread.value)
  }

  /** Row `i` was created last of those that match, and is the first of them. */
  ghost predicate CreatedLast(rows: seq<Row>, agent: string, i: nat) {
    && i < |rows| && ActiveOf(rows[i], agent)
    && forall j | 0 <= j < |rows| && ActiveOf(rows[j], agent) ::
         rows[j].createdAt <= rows[i].createdAt && (j < i ==> rows[j].createdAt < rows[i].createdAt)
  }

  lemma {:induction false} LastCreated(rows: seq<Row>, agent: string) returns (i: nat)
    ensures ResumedByAgent(rows, agent).None? ==> forall r | r in rows :: !ActiveOf(r, agent)
    ensures ResumedByAgent(rows, agent).Some? ==> CreatedLast(rows, agent, i) && ResumedByAgent(rows, agent) == Some(rows[i])
  {
    i := 0;
    if rows != [] {
      var n := |rows| - 1;
      var prev := LastCreated(rows[..n], agent);
      assert rows == rows[..n] + [rows[n]];
      i := if ResumedByAgent(rows[..n], agent) == ResumedByAgent(rows, agent) && prev < n then prev else n;
    }
  }

  /** A message from another agent resumes the active session created last, of several the first in the table. */
  lemma ResumedByAgentIsLatest(rows: Table, agent: string, r: Row)
    ensures ResumedByAgent(rows, agent) == Some(r) <==> exists i: nat :: CreatedLast(rows, agent, i) && rows[i] == r
  {
    var i := LastCreated(rows, agent);
    forall j: nat | CreatedLast(rows, agent, j) ensures ResumedByAgent(rows, agent) == Some(rows[j]) {
      assert rows[j] in rows;
    }
  }

  /** Whether a new message would resume this session. */
  ghost predicate Continues(rows: seq<Row>, r: Row) {
    Resumed(rows, r.Conversation()) == Some(r) || ResumedByAgent(rows, r.agent) == Some(r)
  }

  ghost predicate ContinuationIds(rows: seq<Row>, ids: set<Id>) {
    forall id :: id in ids <==> exists r | r in rows :: r.id == id && Continues(rows, r)
  }

  /** Removing sessions no message would resume changes nothing for any conversation or agent. */
  lemma ResumptionSurvives(rows: seq<Row>, gone: set<Id>)
    requires forall r | r in rows && r.id in gone :: !Continues(rows, r)
    ensures forall key :: Resumed(Without(rows, gone), key) == Resumed(rows, key)
    ensures forall agent :: ResumedByAgent(Without(rows, gone), agent) == ResumedByAgent(rows, agent)
  {
    forall key ensures Resumed(Without(rows, gone), key) == Resumed(rows, key) {
      PickIsBest(rows, InConversation(key), Newer);
      PickSurvives(rows, gone, InConversation(key), Newer);
    }
    forall agent ensures ResumedByAgent(Without(rows, gone), agent) == ResumedByAgent(rows, agent) {
      PickIsBest(rows, OfAgent(agent), CreatedLater);
      PickSurvives(rows, gone, OfAgent(agent), CreatedLater);
    }
  }

  /** So the sessions that remain are resumed exactly when they were. */
  lemma ContinuesSurvives(rows: seq<Row>, gone: set<Id>, r: Row)
    requires forall x | x in rows && x.id in gone :: !Continues(rows, x)
    ensures Continues(Without(rows, gone), r) <==> Continues(rows, r)
  {
    ResumptionSurvives(rows, gone);
  }

  /** continuations: one pass over the rows, keeping the newest seen so far for each key. */
  method Continuations(rows: seq<Row>) returns (keep: set<Id>)
    ensures ContinuationIds(rows, keep)
  {
    var byConversation: map<(string, string, string), Row> := map[];
    var byAgent: map<string, Row> := map[];
    for i := 0 to |rows|
      invariant forall key :: Resumed(rows[..i], key) == if key in byConversation then Some(byConversation[key]) else None
      invariant forall agent :: ResumedByAgent(rows[..i], agent) == if agent in byAgent then Some(byAgent[agent]) else None
    {
      var r := rows[i];
      assert rows[..i + 1][..i] == rows[..i] && rows[..i + 1][i] == r;
      if r.status != Active { continue; }
      var key := r.Conversation();
      if key !in byConversation || Newer(r, byConversation[key]) {
        byConversation := byConversation[key := r];
      }
      if r.SystemThread() { continue; }
      if r.agent !in byAgent || CreatedLater(r, byAgent[r.agent]) {
        byAgent := byAgent[r.agent := r];
      }
    }
    assert rows[..|rows|] == rows;
    keep := (set key | key in byConversation :: byConversation[key].id) + (set agent | agent in byAgent :: byAgent[agent].id);
    KeptContinue(rows, byConversation, byAgent, keep);
  }

  lemma KeptContinue(
    rows: seq<Row>, byConversation: map<(string, string, string), Row>, byAgent: map<string, Row>, keep: set<Id>)
    requires forall key :: Resumed(rows, key) == if key in byConversation then Some(byConversation[key]) else None
    requires forall agent :: ResumedByAgent(rows, agent) == if agent in byAgent then Some(byAgent[agent]) else None
    requires keep == (set key | key in byConversation :: byConversation[key].id) + (set agent | agent in byAgent :: byAgent[agent].id)
    ensures ContinuationIds(rows, keep)
  {
    forall id ensures id in keep <==> exists r | r in rows :: r.id == id && Continues(rows, r) {
      if key :| key in byConversation && byConversation[key].id == id {
        PickIsBest(rows, InConversation(key), Newer);
        assert Resumed(rows, key) == Some(byConversation[key]);
        assert Continues(rows, byConversation[key]);
      }
      if agent :| agent in byAgent && byAgent[agent].id == id {
        PickIsBest(rows, OfAgent(agent), CreatedLater);
        assert ResumedByAgent(rows, agent) == Some(byAgent[agent]);
        assert Continues(rows, byAgent[agent]);
      }
      if r :| r in rows && r.id == id && Continues(rows, r) {
        if Resumed(rows, r.Conversation()) == Some(r) {
          assert r.Conversation() in byConversation;
        } else {
          assert r.agent in byAgent;
        }
      }
    }
  }
}
