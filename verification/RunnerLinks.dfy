/**
 * The reconnecting link of link.ts as a machine of timer, token, socket and caller events: a running link
 * always has exactly one thing under way, and a stopped one never opens another socket.
 */
module RunnerLinks {
  import opened Options

  type Socket = nat

  /** Dialing may be refused or open; open may carry messages; any may close; terminated only closes. */
  datatype Phase = Dialing | Open | Terminated

  const FIRST_WAIT: nat := 1_000
  const LONGEST_WAIT: nat := 30_000
  const SUPERSEDED_WAIT: nat := 300_000

  function NextWait(current: nat): nat {
    var doubled := (if current > FIRST_WAIT then current else FIRST_WAIT) * 2;
    if doubled < LONGEST_WAIT then doubled else LONGEST_WAIT
  }

  /**
   * The link's fields, and around them what may still call back: token requests in flight, armed timeouts,
   * sockets not yet closed and those that have been welcomed.
   */
  datatype Link = Link(
    stopped: bool, ws: Option<Socket>, timer: bool, backoff: nat, connectedOnce: bool, tokenMisses: nat,
    standby: bool, centralStandby: bool, standingBy: bool, welcome: bool,
    fetches: nat, armed: nat, wait: nat, phases: map<Socket, Phase>, welcomed: set<Socket>, next: Socket)

  datatype Event =
    | Token(ok: bool)
    | TimerFires
    | Opens(s: Socket)
    | Refused(s: Socket, status: nat)
    | Welcomed(s: Socket, standby: bool)
    | Closed(s: Socket, code: nat, held: bool)
    | Nudge
    | Stop

  predicate Enabled(l: Link, e: Event) {
    match e
    case Token(_) => l.fetches > 0
    case TimerFires => l.armed > 0
    case Opens(s) => s in l.phases && l.phases[s] == Dialing
    case Refused(s, _) => s in l.phases && l.phases[s] == Dialing
    case Welcomed(s, _) => s in l.phases && l.phases[s] == Open
    case Closed(s, code, held) => s in l.phases && (held ==> code == 4409)
    case Nudge => true
    case Stop => true
  }

  // ---- What each event does ----

  function Schedule(l: Link): Link {
    if l.stopped then l
    else l.(timer := true, armed := l.armed + 1, wait := l.backoff,
            backoff := if l.standby then l.backoff else NextWait(l.backoff))
  }

  function Attempt(l: Link): Link { if l.stopped then l else l.(fetches := l.fetches + 1) }

  function StandBy(l: Link, poll: nat): Link {
    Schedule(l.(standingBy := true, standby := true, backoff := if l.centralStandby then poll else SUPERSEDED_WAIT))
  }

  function NoToken(l: Link): Link {
    if l.stopped then l
    else if l.connectedOnce then Schedule(l.(tokenMisses := l.tokenMisses + 1))
    else l.(stopped := true)
  }

  function Dialled(l: Link): Link {
    if l.stopped then l else l.(ws := Some(l.next), phases := l.phases[l.next := Dialing], next := l.next + 1)
  }

  function AfterToken(l: Link, ok: bool): Link
    requires l.fetches > 0
  {
    var l := l.(fetches := l.fetches - 1);
    if ok then Dialled(l.(tokenMisses := 0)) else NoToken(l)
  }

  function AfterRefusal(l: Link, s: Socket, status: nat): Link {
    var l := l.(ws := None, phases := l.phases[s := Terminated]);
    if status == 401 || status == 403 then l.(stopped := true) else Schedule(l)
  }

  function AfterWelcome(l: Link, s: Socket, standby: bool): Link {
    l.(welcomed := l.welcomed + {s}, backoff := FIRST_WAIT, standby := false, standingBy := false,
       centralStandby := standby, connectedOnce := true, welcome := true)
  }

  function AfterClose(l: Link, s: Socket, code: nat, held: bool, poll: nat): Link {
    var gone := l.(phases := l.phases - {s});
    if l.ws != Some(s) then gone else Dropped(gone.(ws := None, welcome := false), s in l.welcomed, code, held, poll)
  }

  /** The link's own socket has closed. */
  function Dropped(l: Link, welcomed: bool, code: nat, held: bool, poll: nat): Link {
    if code == 4409 then StandBy(l.(centralStandby := held || l.centralStandby), poll)
    else if code == 4403 then l.(stopped := true)
    else if l.stopped then l
    else Schedule(if welcomed then l.(backoff := FIRST_WAIT) else l)
  }

  function Disarmed(l: Link): Link {
    if l.timer then l.(timer := false, armed := if l.armed > 0 then l.armed - 1 else 0) else l
  }

  function AfterNudge(l: Link): Link {
    if l.stopped || l.ws.Some? || !l.timer || l.standby then l
    else Attempt(Disarmed(l).(backoff := FIRST_WAIT))
  }

  function AfterStop(l: Link): Link { Disarmed(l.(stopped := true)).(ws := None, welcome := false) }

  function Step(l: Link, e: Event, poll: nat): Link
    requires Enabled(l, e)
  {
    match e
    case Token(ok) => AfterToken(l, ok)
    case TimerFires => Attempt(l.(timer := false, armed := l.armed - 1))
    case Opens(s) => l.(phases := l.phases[s := Open])
    case Refused(s, status) => AfterRefusal(l, s, status)
    case Welcomed(s, standby) => AfterWelcome(l, s, standby)
    case Closed(s, code, held) => AfterClose(l, s, code, held, poll)
    case Nudge => AfterNudge(l)
    case Stop => AfterStop(l)
  }

  function Fresh(standby: bool): Link {
    Link(false, None, false, FIRST_WAIT, false, 0, standby, false, false, false, 0, 0, 0, map[], {}, 0)
  }

  /** A link just started. */
  function Started(standby: bool): Link { Attempt(Fresh(standby)) }

  // ---- What holds over every run ----

  function UnderWay(l: Link): nat { l.fetches + l.armed + if l.ws.Some? then 1 else 0 }

  /**
   * A running link is doing exactly one of: fetching a token, holding one socket, waiting on one timer. A
   * stopped one holds no socket and no timer. Every socket that can still open, be refused or speak is the
   * link's own, unless the link has stopped.
   */
  predicate Sane(l: Link) {
    && (if l.stopped then l.armed == 0 && l.ws.None? && l.fetches <= 1 else UnderWay(l) == 1)
    && (l.timer <==> l.armed == 1)
    && (l.ws.Some? ==> l.ws.value in l.phases && l.phases[l.ws.value] != Terminated)
    && (forall s | s in l.phases :: s < l.next && (l.phases[s] == Terminated || l.stopped || l.ws == Some(s)))
    && (forall s | s in l.welcomed :: s < l.next)
    && (l.welcome && !l.stopped ==> l.ws.Some? && l.phases[l.ws.value] == Open)
  }

  /** How long a link ever waits. */
  predicate BoundedWait(l: Link, poll: nat) {
    if l.standby then l.backoff == FIRST_WAIT || l.backoff == poll || l.backoff == SUPERSEDED_WAIT
    else FIRST_WAIT <= l.backoff <= LONGEST_WAIT
  }

  predicate Keeps(l: Link, l': Link, poll: nat) {
    && Sane(l')
    && (l.stopped ==> l'.stopped && l'.next == l.next && l'.fetches <= l.fetches)
    && (BoundedWait(l, poll) ==> BoundedWait(l', poll))
  }

  lemma CloseKeeps(l: Link, s: Socket, code: nat, held: bool, poll: nat)
    requires Sane(l) && s in l.phases
    ensures Keeps(l, AfterClose(l, s, code, held, poll), poll)
  {
    var gone := l.(phases := l.phases - {s});
    if l.ws == Some(s) {
      DropKeeps(gone.(ws := None, welcome := false), s in l.welcomed, code, held, poll);
    }
  }

  /** What a link may be just after its own socket closed: nothing under way. */
  lemma DropKeeps(l: Link, welcomed: bool, code: nat, held: bool, poll: nat)
    requires !l.stopped && UnderWay(l) == 0 && !l.timer && !l.welcome
    requires forall s | s in l.phases :: s < l.next && l.phases[s] == Terminated
    requires forall s | s in l.welcomed :: s < l.next
    ensures Keeps(l, Dropped(l, welcomed, code, held, poll), poll)
  {
    if code == 4409 {
      var l1 := l.(centralStandby := held || l.centralStandby, standingBy := true, standby := true);
      ScheduleKeeps(l1.(backoff := if l1.centralStandby then poll else SUPERSEDED_WAIT), poll);
    } else if code != 4403 {
      ScheduleKeeps(if welcomed then l.(backoff := FIRST_WAIT) else l, poll);
    }
  }

  /** With nothing under way, a timer is armed. */
  lemma ScheduleKeeps(l: Link, poll: nat)
    requires !l.stopped && UnderWay(l) == 0 && !l.timer && !l.welcome
    requires forall s | s in l.phases :: s < l.next && l.phases[s] == Terminated
    requires forall s | s in l.welcomed :: s < l.next
    ensures Sane(Schedule(l)) && (BoundedWait(l, poll) ==> BoundedWait(Schedule(l), poll))
  {
  }

  lemma RefusalKeeps(l: Link, s: Socket, status: nat, poll: nat)
    requires Sane(l) && Enabled(l, Refused(s, status))
    ensures Keeps(l, AfterRefusal(l, s, status), poll)
  {
  }

  lemma TokenKeeps(l: Link, ok: bool, poll: nat)
    requires Sane(l) && Enabled(l, Token(ok))
    ensures Keeps(l, AfterToken(l, ok), poll)
  {
  }

  lemma WelcomeKeeps(l: Link, s: Socket, standby: bool, poll: nat)
    requires Sane(l) && Enabled(l, Welcomed(s, standby))
    ensures Keeps(l, AfterWelcome(l, s, standby), poll)
  {
  }

  lemma StepKeeps(l: Link, e: Event, poll: nat)
    requires Sane(l) && Enabled(l, e)
    ensures Keeps(l, Step(l, e, poll), poll)
  {
    match e
    case Token(ok) => TokenKeeps(l, ok, poll);
    case TimerFires =>
    case Opens(s) =>
    case Refused(s, status) => RefusalKeeps(l, s, status, poll);
    case Welcomed(s, standby) => WelcomeKeeps(l, s, standby, poll);
    case Closed(s, code, held) => CloseKeeps(l, s, code, held, poll);
    case Nudge =>
    case Stop =>
  }

  ghost predicate Possible(l: Link, events: seq<Event>, poll: nat)
    decreases |events|
  {
    events == [] || (Enabled(l, events[0]) && Possible(Step(l, events[0], poll), events[1..], poll))
  }

  ghost function Run(l: Link, events: seq<Event>, poll: nat): Link
    requires Possible(l, events, poll)
    decreases |events|
  {
    if events == [] then l else Run(Step(l, events[0], poll), events[1..], poll)
  }

  lemma {:induction false} RunKeeps(l: Link, events: seq<Event>, poll: nat)
    requires Sane(l) && BoundedWait(l, poll) && Possible(l, events, poll)
    ensures Sane(Run(l, events, poll)) && BoundedWait(Run(l, events, poll), poll)
    ensures l.stopped ==> Run(l, events, poll).stopped && Run(l, events, poll).next == l.next
    decreases |events|
  {
    if events != [] {
      StepKeeps(l, events[0], poll);
      RunKeeps(Step(l, events[0], poll), events[1..], poll);
    }
  }

  /**
   * From its start, whatever happens in whatever order, a running link has exactly one thing under way: it
   * neither leaks a second connection nor stops trying.
   */
  lemma AlwaysOneThingUnderWay(standby: bool, events: seq<Event>, poll: nat)
    requires Possible(Started(standby), events, poll)
    ensures var l := Run(Started(standby), events, poll);
      && (!l.stopped ==> UnderWay(l) == 1)
      && (l.stopped ==> l.armed == 0 && l.ws.None?)
      && (!l.stopped && !l.standby ==> FIRST_WAIT <= l.backoff <= LONGEST_WAIT)
  {
    RunKeeps(Started(standby), events, poll);
  }

  /** Once stopped, no event opens a socket: a token that arrives late is dropped. */
  lemma StoppedStaysStopped(standby: bool, before: seq<Event>, after: seq<Event>, poll: nat)
    requires Possible(Started(standby), before, poll) && Run(Started(standby), before, poll).stopped
    requires Possible(Run(Started(standby), before, poll), after, poll)
    ensures var l, l' := Run(Started(standby), before, poll), Run(Run(Started(standby), before, poll), after, poll);
      l'.stopped && l'.next == l.next && l'.ws.None? && l'.armed == 0
  {
    RunKeeps(Started(standby), before, poll);
    RunKeeps(Run(Started(standby), before, poll), after, poll);
  }

  // ---- When a link stops, and when it stands by ----

  ghost predicate RefusedBefore(events: seq<Event>, k: nat, s: Socket) {
    exists j: nat :: j < k && j < |events| && events[j].Refused? && events[j].s == s
  }

  ghost predicate WelcomedBefore(events: seq<Event>, k: nat) {
    exists j: nat :: j < k && j < |events| && events[j].Welcomed?
  }

  /**
   * The k-th event stops the link: a stop, a refusal of the token, the close of a machine that is not allowed on
   * a socket that was not refused, or a missing token on a link never welcomed.
   */
  ghost predicate StopsAt(events: seq<Event>, k: nat) {
    k < |events| &&
    match events[k]
    case Stop => true
    case Refused(_, status) => status == 401 || status == 403
    case Closed(s, code, _) => code == 4403 && !RefusedBefore(events, k, s)
    case Token(ok) => !ok && !WelcomedBefore(events, k)
    case _ => false
  }

  ghost predicate StoppedBefore(events: seq<Event>, k: nat) { exists j: nat :: j < k && StopsAt(events, j) }

  /** The k-th event tells a running link that another window holds the machine. */
  ghost predicate TakenOverAt(events: seq<Event>, k: nat) {
    k < |events| && events[k].Closed? && events[k].code == 4409
    && !RefusedBefore(events, k, events[k].s) && !StoppedBefore(events, k)
  }

  /** The link stands by: from its start, or since another window took over, it has not been welcomed. */
  ghost predicate StandsBy(standby: bool, events: seq<Event>) {
    || (standby && !WelcomedBefore(events, |events|))
    || exists k: nat :: TakenOverAt(events, k) && forall j | k < j < |events| :: !events[j].Welcomed?
  }

  /** What a history of events makes of a link. */
  ghost predicate Remembers(l: Link, standby: bool, events: seq<Event>) {
    && (l.stopped <==> StoppedBefore(events, |events|))
    && (l.standby <==> StandsBy(standby, events))
    && (l.connectedOnce <==> WelcomedBefore(events, |events|))
    && (!l.stopped ==> forall s | s in l.phases :: l.phases[s] == Terminated <==> RefusedBefore(events, |events|, s))
    && (forall s: Socket | RefusedBefore(events, |events|, s) :: s < l.next)
  }

  /** One more event changes nothing about the earlier ones. */
  lemma EarlierSame(events: seq<Event>, e: Event)
    ensures var more := events + [e];
      && (forall k: nat, s: Socket | k <= |events| :: RefusedBefore(more, k, s) <==> RefusedBefore(events, k, s))
      && (forall k: nat | k <= |events| :: WelcomedBefore(more, k) <==> WelcomedBefore(events, k))
  {
    var more := events + [e];
    forall k: nat, s: Socket | k <= |events| ensures RefusedBefore(more, k, s) <==> RefusedBefore(events, k, s) {
      if j: nat :| j < k && j < |more| && more[j].Refused? && more[j].s == s { assert events[j] == more[j]; }
      if j: nat :| j < k && j < |events| && events[j].Refused? && events[j].s == s { assert events[j] == more[j]; }
    }
    forall k: nat | k <= |events| ensures WelcomedBefore(more, k) <==> WelcomedBefore(events, k) {
      if j: nat :| j < k && j < |more| && more[j].Welcomed? { assert events[j] == more[j]; }
      if j: nat :| j < k && j < |events| && events[j].Welcomed? { assert events[j] == more[j]; }
    }
  }

  lemma EarlierStops(events: seq<Event>, e: Event)
    ensures var more := events + [e];
      && (forall k: nat | k < |events| :: StopsAt(more, k) <==> StopsAt(events, k))
      && (forall k: nat | k <= |events| :: StoppedBefore(more, k) <==> StoppedBefore(events, k))
      && (forall k: nat | k < |events| :: TakenOverAt(more, k) <==> TakenOverAt(events, k))
  {
    var more := events + [e];
    EarlierSame(events, e);
    forall k: nat | k < |events| ensures StopsAt(more, k) <==> StopsAt(events, k) { assert more[k] == events[k]; }
    forall k: nat | k <= |events| ensures StoppedBefore(more, k) <==> StoppedBefore(events, k) {
      if j: nat :| j < k && StopsAt(more, j) { assert StopsAt(events, j); }
      if j: nat :| j < k && StopsAt(events, j) { assert StopsAt(more, j); }
    }
    forall k: nat | k < |events| ensures TakenOverAt(more, k) <==> TakenOverAt(events, k) { assert more[k] == events[k]; }
  }

  /** What one more event adds to the history. */
  lemma HistoryMore(standby: bool, events: seq<Event>, e: Event)
    ensures var n, more := |events|, events + [e];
      && (WelcomedBefore(more, |more|) <==> WelcomedBefore(events, n) || e.Welcomed?)
      && (forall s: Socket :: RefusedBefore(more, |more|, s) <==> RefusedBefore(events, n, s) || (e.Refused? && e.s == s))
      && (StoppedBefore(more, |more|) <==> StoppedBefore(events, n) || StopsAt(more, n))
      && (StandsBy(standby, more) <==> !e.Welcomed? && (StandsBy(standby, events) || TakenOverAt(more, n)))
  {
    var n, more := |events|, events + [e];
    assert more[n] == e && forall j | 0 <= j < n :: more[j] == events[j];
    EarlierStops(events, e);
    assert WelcomedBefore(more, n + 1) <==> WelcomedBefore(events, n) || e.Welcomed? by {
      if j: nat :| j < n + 1 && j < |more| && more[j].Welcomed? { assert j < n ==> events[j].Welcomed?; }
      if j: nat :| j < n && j < |events| && events[j].Welcomed? { assert more[j].Welcomed?; }
      if e.Welcomed? { assert more[n].Welcomed?; }
    }
    forall s: Socket ensures RefusedBefore(more, |more|, s) <==> RefusedBefore(events, n, s) || (e.Refused? && e.s == s) {
      RefusedMore(events, e, s);
    }
    StandsMore(standby, events, e);
  }

  lemma RefusedMore(events: seq<Event>, e: Event, s: Socket)
    ensures RefusedBefore(events + [e], |events + [e]|, s) <==>
      RefusedBefore(events, |events|, s) || (e.Refused? && e.s == s)
  {
    var n, more := |events|, events + [e];
    if RefusedBefore(more, |more|, s) {
      var j: nat :| j < |more| && more[j].Refused? && more[j].s == s;
      if j < n { assert events[j] == more[j]; } else { assert more[j] == e; }
    }
    if RefusedBefore(events, n, s) {
      var j: nat :| j < n && j < |events| && events[j].Refused? && events[j].s == s;
      assert more[j] == events[j];
    }
    if e.Refused? && e.s == s { assert more[n] == e; }
  }

  lemma StandsMore(standby: bool, events: seq<Event>, e: Event)
    requires var n, more := |events|, events + [e];
      && (WelcomedBefore(more, n + 1) <==> WelcomedBefore(events, n) || e.Welcomed?)
      && forall k: nat | k < n :: TakenOverAt(more, k) <==> TakenOverAt(events, k)
    ensures StandsBy(standby, events + [e]) <==>
      !e.Welcomed? && (StandsBy(standby, events) || TakenOverAt(events + [e], |events|))
  {
    var n, more := |events|, events + [e];
    assert more[n] == e && forall j | 0 <= j < n :: more[j] == events[j];
    if k: nat :| TakenOverAt(more, k) && forall j | k < j < |more| :: !more[j].Welcomed? {
      if k < n { assert TakenOverAt(events, k) && !more[n].Welcomed?; }
    }
    if !e.Welcomed? {
      if k: nat :| TakenOverAt(events, k) && forall j | k < j < n :: !events[j].Welcomed? { assert TakenOverAt(more, k); }
    }
  }

  /** One event, by what the link remembers: a socket that closes counts when it was not refused. */
  lemma StepMakes(l: Link, e: Event, poll: nat)
    requires Sane(l) && Enabled(l, e)
    ensures var l' := Step(l, e, poll);
      && l'.connectedOnce == (l.connectedOnce || e.Welcomed?)
      && l'.stopped == (l.stopped || match e
           case Stop => true
           case Refused(_, status) => status == 401 || status == 403
           case Closed(s, code, _) => code == 4403 && l.phases[s] != Terminated
           case Token(ok) => !ok && !l.connectedOnce
           case _ => false)
      && l'.standby == (!e.Welcomed? &&
           (l.standby || (e.Closed? && e.code == 4409 && !l.stopped && l.phases[e.s] != Terminated)))
  {
    match e
    case Token(_) =>
    case TimerFires =>
    case Opens(_) =>
    case Refused(_, _) =>
    case Welcomed(_, _) =>
    case Closed(_, _, _) =>
    case Nudge =>
    case Stop =>
  }

  lemma StepSockets(l: Link, e: Event, poll: nat)
    requires Sane(l) && Enabled(l, e)
    ensures var l' := Step(l, e, poll);
      && l'.phases == (match e
           case Token(ok) => if ok && !l.stopped then l.phases[l.next := Dialing] else l.phases
           case Opens(s) => l.phases[s := Open]
           case Refused(s, _) => l.phases[s := Terminated]
           case Closed(s, _, _) => l.phases - {s}
           case _ => l.phases)
      && l'.next == (if e == Token(true) && !l.stopped then l.next + 1 else l.next)
  {
    match e
    case Token(_) =>
    case TimerFires =>
    case Opens(_) =>
    case Refused(_, _) =>
    case Welcomed(_, _) =>
    case Closed(_, _, _) =>
    case Nudge =>
    case Stop =>
  }

  /** A step keeps what the history says. */
  lemma StepRemembers(l: Link, standby: bool, events: seq<Event>, e: Event, poll: nat)
    requires Sane(l) && Enabled(l, e) && Remembers(l, standby, events)
    ensures Remembers(Step(l, e, poll), standby, events + [e])
  {
    StepMakes(l, e, poll);
    StepSockets(l, e, poll);
    HistoryMore(standby, events, e);
    EarlierSame(events, e);
    EarlierStops(events, e);
    assert (events + [e])[|events|] == e;
  }

  lemma {:induction false} PossibleSnoc(l: Link, events: seq<Event>, e: Event, poll: nat)
    requires Possible(l, events + [e], poll)
    ensures Possible(l, events, poll) && Enabled(Run(l, events, poll), e)
    ensures Run(l, events + [e], poll) == Step(Run(l, events, poll), e, poll)
    decreases |events|
  {
    if events == [] {
      assert events + [e] == [e] && [e][1..] == [];
    } else {
      assert (events + [e])[1..] == events[1..] + [e] && (events + [e])[0] == events[0];
      PossibleSnoc(Step(l, events[0], poll), events[1..], e, poll);
    }
  }

  /**
   * Over every run from its start: a link has stopped if and only if it was stopped, its token was refused, its
   * machine was turned away or a token was missing before it had ever been welcomed; and it stands by if and
   * only if it began so or another window took over, and it has not been welcomed since.
   */
  lemma {:induction false} StoppedIfAndOnlyIf(standby: bool, events: seq<Event>, poll: nat)
    requires Possible(Started(standby), events, poll)
    ensures var l := Run(Started(standby), events, poll);
      && (l.stopped <==> exists k: nat :: StopsAt(events, k))
      && (l.standby <==> StandsBy(standby, events))
      && Sane(l) && Remembers(l, standby, events)
    decreases |events|
  {
    if events != [] {
      var init, e := events[..|events| - 1], events[|events| - 1];
      assert events == init + [e];
      PossibleSnoc(Started(standby), init, e, poll);
      StoppedIfAndOnlyIf(standby, init, poll);
      StepKeeps(Run(Started(standby), init, poll), e, poll);
      StepRemembers(Run(Started(standby), init, poll), standby, init, e, poll);
    }
    assert (exists k: nat :: StopsAt(events, k)) <==> StoppedBefore(events, |events|);
  }

  // ---- How long a link waits ----

  function Doublings(k: nat): nat { if k == 0 then 1 else 2 * Doublings(k - 1) }

  /** A second, doubled k times, and never more than half a minute. */
  function WaitAfter(k: nat): nat { if 1_000 * Doublings(k) < 30_000 then 1_000 * Doublings(k) else 30_000 }

  lemma NextDoubles(k: nat)
    ensures NextWait(WaitAfter(k)) == WaitAfter(k + 1)
  {
    assert Doublings(k) >= 1 by { DoublingsPositive(k); }
  }

  lemma {:induction false} DoublingsPositive(k: nat)
    ensures Doublings(k) >= 1
  {
    if k > 0 { DoublingsPositive(k - 1); }
  }

  /** A running link loses what it had under way, and does not stop: no token, a refusal, its own socket closed. */
  ghost predicate Loses(l: Link, e: Event) {
    && !l.stopped && Enabled(l, e)
    && match e
       case Token(ok) => !ok && l.connectedOnce
       case Refused(_, status) => status != 401 && status != 403
       case Closed(s, code, _) => l.ws == Some(s) && code != 4403
       case _ => false
  }

  /**
   * Then it waits on a timer: as long as its backoff says; a second after a welcomed connection; when another
   * window took over, as often as central wants to be asked, or five minutes. The next wait is twice as long, up
   * to half a minute, but for a link that stands by.
   */
  lemma LossWaits(l: Link, e: Event, poll: nat)
    requires Sane(l) && Loses(l, e)
    ensures var l' := Step(l, e, poll);
      && !l'.stopped && l'.timer && l'.armed == 1 && l'.fetches == 0 && l'.ws == None
      && l'.wait == (if e.Closed? && e.code == 4409 then (if e.held || l.centralStandby then poll else 300_000)
                     else if e.Closed? && e.s in l.welcomed then 1_000 else l.backoff)
      && l'.backoff == (if l'.standby then l'.wait
                        else if l'.wait <= 1_000 then 2_000 else if 2 * l'.wait < 30_000 then 2 * l'.wait else 30_000)
  {
  }

  /** A nudge ends a wait at once, unless the link stands by; at any other time it does nothing. */
  lemma NudgeHurries(l: Link, poll: nat)
    requires Sane(l)
    ensures var l' := Step(l, Nudge, poll);
      if !l.stopped && l.armed == 1 && !l.standby
      then l' == l.(timer := false, armed := 0, fetches := 1, backoff := 1_000) else l' == l
  {
  }

  /** Refused sockets, one round after another, each on its own socket. */
  ghost function Refusals(next: Socket, statuses: seq<nat>): seq<Event>
    decreases |statuses|
  {
    if statuses == [] then []
    else [TimerFires] + ([Token(true)] + ([Refused(next, statuses[0])] + Refusals(next + 1, statuses[1..])))
  }

  lemma RunsFirst(l: Link, e: Event, rest: seq<Event>, poll: nat)
    requires Enabled(l, e) && Possible(Step(l, e, poll), rest, poll)
    ensures Possible(l, [e] + rest, poll) && Run(l, [e] + rest, poll) == Run(Step(l, e, poll), rest, poll)
  {
    assert ([e] + rest)[1..] == rest;
  }

  /** A link that is refused again and again waits a second, then two, four, and so on up to half a minute. */
  lemma {:induction false} WaitsGrow(l: Link, k: nat, statuses: seq<nat>, poll: nat)
    requires Sane(l) && !l.stopped && !l.standby && l.armed == 1 && l.backoff == WaitAfter(k)
    requires forall i | 0 <= i < |statuses| :: statuses[i] != 401 && statuses[i] != 403
    ensures Possible(l, Refusals(l.next, statuses), poll)
    ensures var l' := Run(l, Refusals(l.next, statuses), poll);
      && Sane(l') && !l'.stopped && l'.armed == 1 && l'.backoff == WaitAfter(k + |statuses|)
      && (statuses != [] ==> l'.wait == WaitAfter(k + |statuses| - 1))
    decreases |statuses|
  {
    if statuses != [] {
      var fetching := Step(l, TimerFires, poll);
      var dialling := Step(fetching, Token(true), poll);
      var refused := Step(dialling, Refused(l.next, statuses[0]), poll);
      var rest := Refusals(l.next + 1, statuses[1..]);
      StepKeeps(l, TimerFires, poll);
      StepKeeps(fetching, Token(true), poll);
      StepKeeps(dialling, Refused(l.next, statuses[0]), poll);
      NextDoubles(k);
      WaitsGrow(refused, k + 1, statuses[1..], poll);
      RunsFirst(dialling, Refused(l.next, statuses[0]), rest, poll);
      RunsFirst(fetching, Token(true), [Refused(l.next, statuses[0])] + rest, poll);
      RunsFirst(l, TimerFires, [Token(true)] + ([Refused(l.next, statuses[0])] + rest), poll);
    }
  }

  /** A welcome that arrives on the socket of a stopped link still marks it welcomed: the message handler does not ask. */
  lemma LateWelcome(l: Link, s: Socket, standby: bool, poll: nat)
    requires Sane(l) && l.stopped && Enabled(l, Welcomed(s, standby))
    ensures var l' := Step(l, Welcomed(s, standby), poll); l'.stopped && l'.welcome && l'.ws.None?
  {
  }

  /** A welcome that no stop follows. */
  ghost predicate WelcomeStands(events: seq<Event>) {
    exists k: nat :: k < |events| && events[k].Welcomed? && Stop !in events[k + 1..]
  }

  lemma WelcomeStandsFirst(e: Event, rest: seq<Event>)
    ensures WelcomeStands([e] + rest) <==> WelcomeStands(rest) || (e.Welcomed? && Stop !in rest)
  {
    var events := [e] + rest;
    assert events[1..] == rest;
    if WelcomeStands(events) {
      var k: nat :| k < |events| && events[k].Welcomed? && Stop !in events[k + 1..];
      if k > 0 { assert rest[k - 1] == events[k] && rest[k..] == events[k + 1..]; }
    }
    if WelcomeStands(rest) {
      var k: nat :| k < |rest| && rest[k].Welcomed? && Stop !in rest[k + 1..];
      assert events[k + 1] == rest[k] && events[k + 1 + 1..] == rest[k + 1..];
    }
    if e.Welcomed? && Stop !in rest { assert events[0].Welcomed? && events[0 + 1..] == rest; }
  }

  /** A stopped link ends welcomed exactly when it is and no stop follows, or a later welcome stands. */
  lemma {:induction false} StoppedWelcome(l: Link, events: seq<Event>, poll: nat)
    requires Sane(l) && l.stopped && Possible(l, events, poll)
    ensures Run(l, events, poll).welcome <==> WelcomeStands(events) || (l.welcome && Stop !in events)
    ensures forall k | 0 <= k < |events| && events[k].Welcomed? :: events[k].s in l.phases
    decreases |events|
  {
    if events != [] {
      var e, rest := events[0], events[1..];
      var l' := Step(l, e, poll);
      StepKeeps(l, e, poll);
      StoppedWelcome(l', rest, poll);
      StoppedStep(l, e, poll);
      assert events == [e] + rest;
      WelcomeStandsFirst(e, rest);
      assert forall k | 0 < k < |events| :: events[k] == rest[k - 1];
    }
  }

  /** Once stopped, only a welcome welcomes, only a stop undoes it, and no socket is added. */
  lemma StoppedStep(l: Link, e: Event, poll: nat)
    requires Sane(l) && l.stopped && Enabled(l, e)
    ensures Step(l, e, poll).welcome == (e.Welcomed? || (l.welcome && !e.Stop?))
    ensures Step(l, e, poll).phases.Keys <= l.phases.Keys && (e.Welcomed? ==> e.s in l.phases)
  {
  }

  /** However a link stops, it stops unwelcomed. */
  lemma StoppingClears(l: Link, e: Event, poll: nat)
    requires Sane(l) && !l.stopped && Enabled(l, e) && Step(l, e, poll).stopped
    ensures !Step(l, e, poll).welcome
  {
  }

  /**
   * Over every run: a link that `e` stops ends welcomed exactly when a later welcome stands, and every such
   * welcome comes on a socket that had not closed when the link stopped.
   */
  lemma EndsWelcomed(standby: bool, before: seq<Event>, e: Event, after: seq<Event>, poll: nat)
    requires Possible(Started(standby), before, poll)
    requires var l := Run(Started(standby), before, poll);
      && !l.stopped && Enabled(l, e) && Step(l, e, poll).stopped && Possible(Step(l, e, poll), after, poll)
    ensures var l := Step(Run(Started(standby), before, poll), e, poll);
      && (Run(l, after, poll).welcome <==> WelcomeStands(after))
      && forall k | 0 <= k < |after| && after[k].Welcomed? :: after[k].s in l.phases
  {
    RunKeeps(Started(standby), before, poll);
    var l := Run(Started(standby), before, poll);
    StepKeeps(l, e, poll);
    StoppingClears(l, e, poll);
    StoppedWelcome(Step(l, e, poll), after, poll);
  }

  /** The events can happen to the link, and leave it stopped and yet welcomed. */
  ghost predicate LeavesWelcomed(l: Link, events: seq<Event>, poll: nat) {
    Possible(l, events, poll) && Run(l, events, poll).stopped && Run(l, events, poll).welcome
  }

  lemma LeavesFirst(l: Link, e: Event, rest: seq<Event>, poll: nat)
    requires Enabled(l, e) && LeavesWelcomed(Step(l, e, poll), rest, poll)
    ensures LeavesWelcomed(l, [e] + rest, poll)
  {
    assert ([e] + rest)[1..] == rest;
  }

  /** It happens from the start: the socket opens, the link is stopped, and the welcome already on its way arrives. */
  lemma WelcomedAfterStop(standby: bool, poll: nat)
    ensures LeavesWelcomed(Started(standby), [Token(true), Opens(0), Stop, Welcomed(0, false)], poll)
  {
    var dialled := Step(Started(standby), Token(true), poll);
    var stopped := Step(Step(dialled, Opens(0), poll), Stop, poll);
    LeavesFirst(stopped, Welcomed(0, false), [], poll);
    LeavesFirst(Step(dialled, Opens(0), poll), Stop, [Welcomed(0, false)] + [], poll);
    LeavesFirst(dialled, Opens(0), [Stop] + ([Welcomed(0, false)] + []), poll);
    LeavesFirst(Started(standby), Token(true), [Opens(0)] + ([Stop] + ([Welcomed(0, false)] + [])), poll);
    FourInOrder(Token(true), Opens(0), Stop, Welcomed(0, false));
  }

  lemma FourInOrder<T>(a: T, b: T, c: T, d: T)
    ensures [a] + ([b] + ([c] + ([d] + []))) == [a, b, c, d]
  {
  }

  // ---- The link itself ----

  class RunnerLink {
    const poll: nat
    var stopped: bool
    var ws: Option<Socket>
    var timer: bool
    var backoff: nat
    var connectedOnce: bool
    var tokenMisses: nat
    var standby: bool
    var centralStandby: bool
    var standingBy: bool
    var welcome: bool
    var next: Socket
    var welcomed: set<Socket>
    ghost var fetches: nat
    ghost var armed: nat
    ghost var wait: nat
    ghost var phases: map<Socket, Phase>

    ghost function State(): Link
      reads this
    {
      Link(stopped, ws, timer, backoff, connectedOnce, tokenMisses, standby, centralStandby, standingBy, welcome,
           fetches, armed, wait, phases, welcomed, next)
    }

    ghost predicate Valid()
      reads this
    {
      Sane(State())
    }

    constructor (standby: bool, poll: nat)
      ensures State() == Fresh(standby) && this.poll == poll
    {
      this.poll, stopped, ws, timer, backoff := poll, false, None, false, FIRST_WAIT;
      connectedOnce, tokenMisses, this.standby, centralStandby := false, 0, standby, false;
      standingBy, welcome, next, welcomed := false, false, 0, {};
      fetches, armed, wait, phases := 0, 0, 0, map[];
    }

    method Start()
      requires State() == Fresh(standby)
      modifies this
      ensures State() == Started(old(standby)) && Valid()
    {
      stopped := false;
      DoAttempt();
    }

    /** schedule, called only with nothing under way. */
    method DoSchedule()
      modifies this
      ensures State() == Schedule(old(State()))
    {
      if stopped { return; }
      timer, armed, wait := true, armed + 1, backoff;
      if !standby { backoff := NextWait(backoff); }
    }

    method DoAttempt()
      modifies this
      ensures State() == Attempt(old(State()))
    {
      if stopped { return; }
      fetches := fetches + 1;
    }

    method DoStandBy()
      modifies this
      ensures State() == StandBy(old(State()), poll)
    {
      standingBy, standby := true, true;
      backoff := if centralStandby then poll else SUPERSEDED_WAIT;
      DoSchedule();
    }

    method OnToken(ok: bool)
      requires Valid() && Enabled(State(), Token(ok))
      modifies this
      ensures Valid() && State() == Step(old(State()), Token(ok), poll)
    {
      TokenKeeps(State(), ok, poll);
      fetches := fetches - 1;
      if ok { DoDial(); } else { DoNoToken(); }
    }

    /** Before the first connection a missing token ends the link; after it, it is tried again. */
    method DoNoToken()
      modifies this
      ensures State() == NoToken(old(State()))
    {
      if stopped { return; }
      if connectedOnce {
        tokenMisses := tokenMisses + 1;
        DoSchedule();
        return;
      }
      stopped := true;
    }

    /** A token that arrives after a stop opens nothing. */
    method DoDial()
      modifies this
      ensures State() == Dialled(old(State()).(tokenMisses := 0))
    {
      tokenMisses := 0;
      if stopped { return; }
      ws, phases, next := Some(next), phases[next := Dialing], next + 1;
    }

    method OnTimer()
      requires Valid() && Enabled(State(), TimerFires)
      modifies this
      ensures Valid() && State() == Step(old(State()), TimerFires, poll)
    {
      StepKeeps(State(), TimerFires, poll);
      timer, armed := false, armed - 1;
      DoAttempt();
    }

    /** open: the hello names what `standby` is at this moment. */
    method OnOpen(s: Socket) returns (helloStandby: bool)
      requires Valid() && Enabled(State(), Opens(s))
      modifies this`phases
      ensures Valid() && State() == Step(old(State()), Opens(s), poll) && helloStandby == standby
    {
      StepKeeps(State(), Opens(s), poll);
      phases := phases[s := Open];
      helloStandby := standby;
    }

    method OnRefused(s: Socket, status: nat)
      requires Valid() && Enabled(State(), Refused(s, status))
      modifies this
      ensures Valid() && State() == Step(old(State()), Refused(s, status), poll)
    {
      RefusalKeeps(State(), s, status, poll);
      ws, phases := None, phases[s := Terminated];
      if status == 401 || status == 403 {
        stopped := true;
        return;
      }
      DoSchedule();
    }

    method OnWelcome(s: Socket, knowsStandby: bool)
      requires Valid() && Enabled(State(), Welcomed(s, knowsStandby))
      modifies this
      ensures Valid() && State() == Step(old(State()), Welcomed(s, knowsStandby), poll)
    {
      WelcomeKeeps(State(), s, knowsStandby, poll);
      welcomed, backoff := welcomed + {s}, FIRST_WAIT;
      standby, standingBy, centralStandby := false, false, knowsStandby;
      connectedOnce, welcome := true, true;
    }

    method OnClose(s: Socket, code: nat, held: bool)
      requires Valid() && Enabled(State(), Closed(s, code, held))
      modifies this
      ensures Valid() && State() == Step(old(State()), Closed(s, code, held), poll)
    {
      CloseKeeps(State(), s, code, held, poll);
      phases := phases - {s};
      if ws != Some(s) { return; }
      ws, welcome := None, false;
      DoDropped(s in welcomed, code, held);
    }

    method DoDropped(wasWelcomed: bool, code: nat, held: bool)
      modifies this
      ensures State() == Dropped(old(State()), wasWelcomed, code, held, poll)
    {
      if code == 4409 {
        if held { centralStandby := true; }
        DoStandBy();
        return;
      }
      if code == 4403 {
        stopped := true;
        return;
      }
      if !stopped {
        if wasWelcomed { backoff := FIRST_WAIT; }
        DoSchedule();
      }
    }

    method DoNudge()
      requires Valid()
      modifies this
      ensures Valid() && State() == Step(old(State()), Nudge, poll)
      ensures old(stopped || ws.Some? || !timer || standby) ==> State() == old(State())
    {
      StepKeeps(State(), Nudge, poll);
      if stopped || ws.Some? || !timer || standby { return; }
      timer, armed, backoff := false, armed - 1, FIRST_WAIT;
      DoAttempt();
    }

    method DoStop()
      requires Valid()
      modifies this
      ensures Valid() && State() == Step(old(State()), Stop, poll) && stopped
    {
      StepKeeps(State(), Stop, poll);
      stopped := true;
      if timer { timer, armed := false, armed - 1; }
      ws, welcome := None, false;
    }
  }
}
