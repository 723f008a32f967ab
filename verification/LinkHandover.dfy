/**
 * Several editor windows on one machine, each with its own link, and a central that lets one of them hold the
 * machine: a hello that does not stand by takes the connection over, one that does is turned away while
 * another window holds it. Taking over ends.
 */
module LinkHandover {
  import opened Options
  import opened RunnerLinks

  /** From central to a window, in order. */
  datatype Message = Welcome | SentAway(held: bool)

  /** A window: its link, the hello central has not read yet, and what central sent and the link has not read. */
  datatype Window = Window(link: Link, hello: Option<bool>, inbox: seq<Message>)

  datatype Machine = Machine(windows: seq<Window>, holder: Option<nat>)

  datatype Move =
    | Local(i: nat, e: Event)
    | SaysHello(i: nat)
    | Hears(i: nat)
    | Delivers(i: nat)
    | Connects(i: nat, standby: bool)

  predicate Connected(l: Link) { l.ws.Some? && l.ws.value in l.phases && l.phases[l.ws.value] == Open }

  predicate Dials(l: Link) { l.ws.Some? && l.ws.value in l.phases && l.phases[l.ws.value] == Dialing }

  /** What may happen next, with every link's connection kept up until central or its window ends it. */
  predicate CanMove(m: Machine, v: Move) {
    v.i < |m.windows| &&
    var w := m.windows[v.i];
    match v
    case Local(_, e) =>
      && Enabled(w.link, e)
      && (e.Token? || e.TimerFires? || e.Nudge? || e.Stop? || (e.Refused? && w.link.ws == Some(e.s)))
    case SaysHello(_) => Dials(w.link)
    case Hears(_) => w.hello.Some?
    case Delivers(_) => w.inbox != [] && Connected(w.link)
    case Connects(_, _) => true
  }

  /** A window's connection ends and central lets go of it. */
  function Freed(holder: Option<nat>, i: nat): Option<nat> { if holder == Some(i) then None else holder }

  function Read(w: Window, poll: nat): Window
    requires w.inbox != [] && Connected(w.link)
  {
    var s := w.link.ws.value;
    var e := if w.inbox[0].Welcome? then Welcomed(s, true) else Closed(s, 4409, w.inbox[0].held);
    w.(link := Step(w.link, e, poll), inbox := w.inbox[1..])
  }

  /** Central reads a hello. */
  function Answered(m: Machine, i: nat): Machine
    requires i < |m.windows| && m.windows[i].hello.Some?
  {
    var w := m.windows[i];
    if w.hello.value && m.holder.Some? then
      m.(windows := m.windows[i := w.(hello := None, inbox := w.inbox + [SentAway(true)])])
    else
      var others := if m.holder.Some? && m.holder.value < |m.windows| then
        var j := m.holder.value;
        m.windows[j := m.windows[j].(inbox := m.windows[j].inbox + [SentAway(false)])]
      else m.windows;
      Machine(others[i := w.(hello := None, inbox := w.inbox + [Welcome])], Some(i))
  }

  function Moved(m: Machine, v: Move, poll: nat): Machine
    requires CanMove(m, v)
  {
    var w := m.windows[v.i];
    match v
    case Local(i, e) =>
      var w' := w.(link := Step(w.link, e, poll));
      if e.Stop? then Machine(m.windows[i := w'.(hello := None, inbox := [])], Freed(m.holder, i))
      else m.(windows := m.windows[i := w'])
    case SaysHello(i) =>
      var w' := w.(link := Step(w.link, Opens(w.link.ws.value), poll), hello := Some(w.link.standby));
      m.(windows := m.windows[i := w'])
    case Hears(i) => Answered(m, i)
    case Delivers(i) => m.(windows := m.windows[i := Read(w, poll)])
    case Connects(i, standby) =>
      Machine(m.windows[i := Window(Started(standby), None, [])], Freed(m.holder, i))
  }

  /** A hello that takes the machine from another window. */
  predicate TakesOver(m: Machine, v: Move) {
    v.Hears? && CanMove(m, v) && !m.windows[v.i].hello.value && m.holder.Some?
  }

  // ---- What every move keeps ----

  predicate Leaving(w: Window) { w.inbox != [] && w.inbox[|w.inbox| - 1].SentAway? }

  predicate WellFormed(w: Window, holds: bool) {
    && Sane(w.link)
    && (holds || w.hello.Some? || w.inbox != [] ==> !w.link.stopped && Connected(w.link))
    && (holds ==> w.hello.None? && !Leaving(w))
    && (w.hello.Some? ==> w.inbox == [] && w.hello.value == w.link.standby)
    && (|w.inbox| == 0 || |w.inbox| == 1 || (|w.inbox| == 2 && w.inbox[0].Welcome? && w.inbox[1].SentAway?))
    && (w.inbox != [] && !Leaving(w) ==> holds)
  }

  predicate Settled(m: Machine) {
    && (m.holder.Some? ==> m.holder.value < |m.windows|)
    && forall i | 0 <= i < |m.windows| :: WellFormed(m.windows[i], m.holder == Some(i))
  }

  /** A window that would still take the machine from whoever holds it. */
  predicate Contends(m: Machine, i: nat)
    requires i < |m.windows|
  {
    var w := m.windows[i];
    !w.link.stopped && m.holder != Some(i) && !Leaving(w) && !w.link.standby
  }

  function Contenders(m: Machine, n: nat): nat
    requires n <= |m.windows|
  {
    if n == 0 then 0 else Contenders(m, n - 1) + if Contends(m, n - 1) then 1 else 0
  }

  function AllContenders(m: Machine): nat { Contenders(m, |m.windows|) }

  /** Counts differ by no more than what happens at one window. */
  lemma {:induction false} CountAround(a: Machine, b: Machine, i: nat, n: nat)
    requires |a.windows| == |b.windows| && i < |a.windows| && n <= |a.windows|
    requires forall k | 0 <= k < |a.windows| && k != i :: Contends(b, k) ==> Contends(a, k)
    ensures Contenders(b, n) <= Contenders(a, n) +
      (if i < n && Contends(b, i) then 1 else 0) - (if i < n && Contends(a, i) then 1 else 0)
  {
    if n > 0 { CountAround(a, b, i, n - 1); }
  }

  lemma LocalKeeps(w: Window, holds: bool, e: Event, poll: nat)
    requires WellFormed(w, holds) && Enabled(w.link, e)
    requires e.Token? || e.TimerFires? || e.Nudge? || (e.Refused? && w.link.ws == Some(e.s))
    ensures var w' := w.(link := Step(w.link, e, poll));
      WellFormed(w', holds) && w'.link.standby == w.link.standby && (w.link.stopped ==> w'.link.stopped)
  {
    StepKeeps(w.link, e, poll);
  }

  lemma ReadKeeps(w: Window, holds: bool, poll: nat)
    requires WellFormed(w, holds) && w.inbox != [] && Connected(w.link)
    ensures var w' := Read(w, poll);
      && WellFormed(w', holds)
      && (!holds && !Leaving(w') ==> w'.link.standby)
  {
    var s := w.link.ws.value;
    var e := if w.inbox[0].Welcome? then Welcomed(s, true) else Closed(s, 4409, w.inbox[0].held);
    StepKeeps(w.link, e, poll);
  }

  lemma HelloKeeps(w: Window, holds: bool, poll: nat)
    requires WellFormed(w, holds) && Dials(w.link)
    ensures var w' := w.(link := Step(w.link, Opens(w.link.ws.value), poll), hello := Some(w.link.standby));
      WellFormed(w', holds) && !holds && !w.link.stopped
  {
    StepKeeps(w.link, Opens(w.link.ws.value), poll);
  }

  /** A change at one window, which central lets go of or not, is judged by that window alone. */
  lemma OneWindow(m: Machine, i: nat, w: Window, holder: Option<nat>)
    requires Settled(m) && i < |m.windows| && (holder == m.holder || holder == Freed(m.holder, i))
    requires WellFormed(w, holder == Some(i))
    ensures var m' := Machine(m.windows[i := w], holder);
      && Settled(m')
      && AllContenders(m') <= AllContenders(m) + (if Contends(m', i) then 1 else 0) - (if Contends(m, i) then 1 else 0)
  {
    CountAround(m, Machine(m.windows[i := w], holder), i, |m.windows|);
  }

  lemma TurnedAway(m: Machine, i: nat)
    requires Settled(m) && i < |m.windows| && m.windows[i].hello == Some(true) && m.holder.Some?
    ensures Settled(Answered(m, i)) && AllContenders(Answered(m, i)) <= AllContenders(m)
  {
    var w := m.windows[i];
    assert WellFormed(w, m.holder == Some(i));
    OneWindow(m, i, w.(hello := None, inbox := w.inbox + [SentAway(true)]), m.holder);
  }

  lemma Accepted(m: Machine, i: nat)
    requires Settled(m) && i < |m.windows| && m.windows[i].hello.Some? && (m.windows[i].hello.value ==> m.holder.None?)
    ensures Settled(Answered(m, i))
    ensures AllContenders(Answered(m, i)) + (if TakesOver(m, Hears(i)) then 1 else 0) <= AllContenders(m)
  {
    if m.holder.Some? {
      var j := m.holder.value;
      var w := m.windows[j].(inbox := m.windows[j].inbox + [SentAway(false)]);
      assert WellFormed(m.windows[j], true);
      OneWindow(m, j, w, None);
      assert WellFormed(m.windows[i], m.holder == Some(i));
      Granted(Machine(m.windows[j := w], None), i);
    } else {
      Granted(m, i);
    }
  }

  /** A machine nobody holds goes to the window whose hello is read. */
  lemma Granted(m: Machine, i: nat)
    requires Settled(m) && m.holder.None? && i < |m.windows| && m.windows[i].hello.Some?
    ensures var w := m.windows[i];
      var m' := Machine(m.windows[i := w.(hello := None, inbox := w.inbox + [Welcome])], Some(i));
      && Settled(m')
      && AllContenders(m') + (if w.hello.value then 0 else 1) <= AllContenders(m)
  {
    var w := m.windows[i];
    var m' := Machine(m.windows[i := w.(hello := None, inbox := w.inbox + [Welcome])], Some(i));
    assert WellFormed(w, false);
    CountAround(m, m', i, |m.windows|);
  }

  /** A move keeps the machine in order, and a takeover leaves one contender fewer; only connecting by hand adds one. */
  lemma MoveKeeps(m: Machine, v: Move, poll: nat)
    requires Settled(m) && CanMove(m, v)
    ensures Settled(Moved(m, v, poll))
    ensures AllContenders(Moved(m, v, poll)) + (if TakesOver(m, v) then 1 else 0) <=
      AllContenders(m) + (if v.Connects? && !v.standby then 1 else 0)
  {
    var m', w := Moved(m, v, poll), m.windows[v.i];
    assert WellFormed(w, m.holder == Some(v.i));
    match v
    case Local(i, e) =>
      if e.Stop? { StepKeeps(w.link, e, poll); } else { LocalKeeps(w, m.holder == Some(i), e, poll); }
      OneWindow(m, i, m'.windows[i], m'.holder);
    case SaysHello(i) =>
      HelloKeeps(w, m.holder == Some(i), poll);
      OneWindow(m, i, m'.windows[i], m'.holder);
    case Hears(i) =>
      if w.hello.value && m.holder.Some? { TurnedAway(m, i); } else { Accepted(m, i); }
    case Delivers(i) =>
      ReadKeeps(w, m.holder == Some(i), poll);
      OneWindow(m, i, m'.windows[i], m'.holder);
    case Connects(i, standby) => OneWindow(m, i, m'.windows[i], m'.holder);
  }

  // ---- Whole runs ----

  ghost predicate CanRun(m: Machine, moves: seq<Move>, poll: nat)
    decreases |moves|
  {
    moves == [] || (CanMove(m, moves[0]) && CanRun(Moved(m, moves[0], poll), moves[1..], poll))
  }

  ghost function AfterMoves(m: Machine, moves: seq<Move>, poll: nat): Machine
    requires CanRun(m, moves, poll)
    decreases |moves|
  {
    if moves == [] then m else AfterMoves(Moved(m, moves[0], poll), moves[1..], poll)
  }

  ghost function Takeovers(m: Machine, moves: seq<Move>, poll: nat): nat
    requires CanRun(m, moves, poll)
    decreases |moves|
  {
    if moves == [] then 0
    else (if TakesOver(m, moves[0]) then 1 else 0) + Takeovers(Moved(m, moves[0], poll), moves[1..], poll)
  }

  /** Connections a user asks for, which do not stand by. */
  ghost function ByHand(moves: seq<Move>): nat {
    if moves == [] then 0 else (if moves[0].Connects? && !moves[0].standby then 1 else 0) + ByHand(moves[1..])
  }

  /**
   * However the windows, their timers and central interleave, the machine changes hands by takeover no more
   * often than there are windows to begin with that would take it, plus one for each connection made by hand.
   */
  lemma {:induction false} HandoversEnd(m: Machine, moves: seq<Move>, poll: nat)
    requires Settled(m) && CanRun(m, moves, poll)
    ensures Settled(AfterMoves(m, moves, poll))
    ensures Takeovers(m, moves, poll) + AllContenders(AfterMoves(m, moves, poll)) <= AllContenders(m) + ByHand(moves)
    decreases |moves|
  {
    if moves != [] {
      MoveKeeps(m, moves[0], poll);
      HandoversEnd(Moved(m, moves[0], poll), moves[1..], poll);
    }
  }

  /** With every window started to stand by and none connected by hand, nobody ever takes the machine from another. */
  lemma StandingByNeverTakes(n: nat, moves: seq<Move>, poll: nat)
    requires CanRun(Machine(seq(n, _ => Window(Started(true), None, [])), None), moves, poll)
    requires ByHand(moves) == 0
    ensures Takeovers(Machine(seq(n, _ => Window(Started(true), None, [])), None), moves, poll) == 0
  {
    var m := Machine(seq(n, _ => Window(Started(true), None, [])), None);
    NoContenders(m, n);
    HandoversEnd(m, moves, poll);
  }

  lemma {:induction false} NoContenders(m: Machine, n: nat)
    requires n <= |m.windows| && forall i | 0 <= i < |m.windows| :: m.windows[i].link.standby
    ensures Contenders(m, n) == 0
  {
    if n > 0 { NoContenders(m, n - 1); }
  }
}
