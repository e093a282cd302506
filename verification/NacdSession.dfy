/**
  The NACD client session of nacd_tcp_client.c: an automaton driven by the
  events it arms. A reply is what `recv` put into the zeroed buffer; whether a
  send succeeds is part of the event.
 */
module NacdSession {

  // `enum nacd_state_e`; the state is an int and callers may pass anything
  const NACD_CONNECT := 0
  const NACD_SEND_HEART_BEAT := 1
  const NACD_SEND_USER_PASSWD := 2
  const NACD_ADD_SEC_ASSERT := 3
  const NACD_DEL_SEC_ASSERT := 4
  const NACD_QUIT_STATE := 5
  const NACD_STATE_MAX := 6

  // `enum nacd_inter_protol_type`, the requests
  const NACD_HEART_BEAT_KEEPALIVE := 0
  const NACD_USER_PASSWD_AUTH := 1
  const NACD_SEC_ASSERT_AAD := 2
  const NACD_SEC_ASSERT_DEL := 3
  const NACD_QUIT := 4

  // result codes
  const NACD_SUCCESS := 0
  const NACD_SYSTEM_ERR := 4
  const NACD_INCOMPLETE := 13
  const NACD_CONNECTION_SERVER := 24
  const NACD_CONN_ERR := 31
  const NACD_HEART_BEAT_ERR := 32
  const NACD_USER_PASSWD_AUTH_ERR := 33
  const NACD_SEC_ASSERT_ADD_ERR := 34
  const NACD_SEC_ASSERT_DEL_ERR := 35
  const NACD_QUIT_ERR := 36

  /** A header as it goes over the wire, and the number of bytes sent with it; or a connection attempt. */
  datatype Output = Connected | Message(typ: int, len: int, bytes: int)

  /** What the session did, in order. */
  datatype Act = Sends(output: Output) | Receives

  /** What the event base waits for; `Dangling` is an event armed inside a released session. */
  datatype Armed = Nothing | ReadOrTimeout | WriteOrTimeout | Dangling

  datatype Event = Timeout | Readable(reply: string) | Writable(ok: bool)

  /** `freed` counts releases; `touched` says that the session was used after its release. */
  datatype Session = Session(state: int, armed: Armed, freed: nat, touched: bool, handled: nat, log: seq<Act>)

  // ----- messages

  /** `htons` and `ntohs` on a little-endian host. */
  function SwapBytes(x: int): int
    requires 0 <= x < 0x1_0000
  {
    x % 256 * 256 + x / 256
  }

  /** The peer reads back the header fields that were put in. */
  lemma SwapTwice(x: int)
    requires 0 <= x < 0x1_0000
    ensures 0 <= SwapBytes(x) < 0x1_0000 && SwapBytes(SwapBytes(x)) == x
  {
  }

  /** The messages `nacd_send_message` builds: type, size of the whole structure, bytes handed to send. */
  function MessageOf(state: int): Output
    requires NACD_CONNECT <= state <= NACD_QUIT_STATE
  {
    if state == NACD_CONNECT then Connected
    else if state == NACD_SEND_HEART_BEAT then Message(SwapBytes(NACD_HEART_BEAT_KEEPALIVE), SwapBytes(4), 4)
    else if state == NACD_SEND_USER_PASSWD then Message(SwapBytes(NACD_USER_PASSWD_AUTH), SwapBytes(260), 260)
    else if state == NACD_ADD_SEC_ASSERT then Message(SwapBytes(NACD_SEC_ASSERT_AAD), SwapBytes(2052), 2052)
    else if state == NACD_DEL_SEC_ASSERT then Message(SwapBytes(NACD_SEC_ASSERT_DEL), SwapBytes(2052), 2052)
    else Message(SwapBytes(NACD_QUIT), SwapBytes(4), 4)
  }

  // the structures of nacd_tcp_client.h: a header of two 16-bit fields, and what follows it
  const HEADER_SIZE := 2 + 2
  const USER_INFO_SIZE := HEADER_SIZE + 128 + 128
  const SEC_ASSERT_SIZE := HEADER_SIZE + 2048

  /** The header of a message as it lies in the memory of a little-endian host, which is what is sent. */
  function HeaderBytes(typ: int, len: int): seq<int> {
    [typ % 256, typ / 256, len % 256, len / 256]
  }

  /**
    What a peer receives in each state: the type of the request in network byte order,
    high byte first, and in the same way the size of its structure, which is also
    the number of bytes sent.
   */
  lemma HeaderOnWire(state: int)
    requires NACD_SEND_HEART_BEAT <= state <= NACD_QUIT_STATE
    ensures var size := if state == NACD_SEND_USER_PASSWD then USER_INFO_SIZE
                        else if state == NACD_ADD_SEC_ASSERT || state == NACD_DEL_SEC_ASSERT then SEC_ASSERT_SIZE
                        else HEADER_SIZE;
            var typ := state - 1;
            var m := MessageOf(state);
            && m.Message? && m.bytes == size
            && HeaderBytes(m.typ, m.len) == [typ / 256, typ % 256, size / 256, size % 256]
    ensures MessageOf(NACD_CONNECT) == Connected
  {
  }

  /** `nacd_error`; a failed or empty receive leaves zeroes, which are no error. */
  predicate IsError(reply: string) {
    |reply| >= 4 && reply[..4] == "-ERR"
  }

  predicate Known(state: int) {
    NACD_CONNECT <= state <= NACD_QUIT_STATE
  }

  predicate IsRequest(state: int) {
    NACD_SEND_HEART_BEAT <= state <= NACD_DEL_SEC_ASSERT
  }

  // ----- the automaton

  /** The state `nacd_recv_message` goes to after a reply that is no error. */
  function AfterReply(state: int): int {
    if IsRequest(state) then NACD_QUIT_STATE
    else if state == NACD_QUIT_STATE then NACD_STATE_MAX
    else state
  }

  function Send(s: Session): Session {
    if Known(s.state) then s.(log := s.log + [Sends(MessageOf(s.state))]) else s
  }

  function Release(s: Session): Session {
    s.(freed := s.freed + 1, armed := Nothing)
  }

  /** `nacd_msg_process` */
  function Handle(s: Session, ev: Event): Session {
    match ev
    case Timeout => Release(s)
    case Readable(reply) =>
      var got := s.(log := s.log + [Receives]);
      if Known(s.state) && IsError(reply) then Release(got)
      else
        var next := got.(state := AfterReply(s.state));
        if next.state == NACD_STATE_MAX then Release(next) else next.(armed := WriteOrTimeout)
    case Writable(ok) =>
      if Known(s.state) && !ok then Release(s).(armed := Dangling, touched := true)
      else Send(s).(armed := ReadOrTimeout)
  }

  predicate Accepts(armed: Armed, ev: Event) {
    match ev
    case Timeout => armed.ReadOrTimeout? || armed.WriteOrTimeout?
    case Readable(_) => armed.ReadOrTimeout?
    case Writable(_) => armed.WriteOrTimeout?
  }

  /** The event base delivers only what is armed. */
  function Step(s: Session, ev: Event): Session {
    if Accepts(s.armed, ev) then Handle(s.(handled := s.handled + 1), ev) else s
  }

  function Run(s: Session, events: seq<Event>): Session {
    if events == [] then s else Step(Run(s, events[..|events| - 1]), events[|events| - 1])
  }

  /** `nacd_process_task_session`: a failed send leaves the session neither armed nor released. */
  function Start(state: int, ok: bool): Session {
    var s := Session(state, Nothing, 0, false, 0, []);
    if Known(state) && !ok then s else Send(s).(armed := ReadOrTimeout)
  }

  /** No event that was delivered is a failed send. */
  predicate SendsSucceed(s: Session, events: seq<Event>) {
    events == [] ||
    var front, ev := events[..|events| - 1], events[|events| - 1];
    SendsSucceed(s, front) && !(Accepts(Run(s, front).armed, ev) && ev == Writable(false))
  }

  /** The same session with acts logged before. */
  function After(before: seq<Act>, s: Session): Session {
    s.(log := before + s.log)
  }

  lemma StepAfter(before: seq<Act>, s: Session, ev: Event)
    ensures Step(After(before, s), ev) == After(before, Step(s, ev))
  {
    hide MessageOf;
    assert forall act: Act :: before + (s.log + [act]) == before + s.log + [act];
  }

  /** What was done before, such as connecting, makes no difference to a run. */
  lemma {:induction false} RunAfter(before: seq<Act>, s: Session, events: seq<Event>)
    ensures Run(After(before, s), events) == After(before, Run(s, events))
  {
    if events != [] {
      hide Step, After;
      RunAfter(before, s, events[..|events| - 1]);
      StepAfter(before, Run(s, events[..|events| - 1]), events[|events| - 1]);
    }
  }

  // ----- every run from a request

  /** The four situations a run from a request can be in. */
  ghost predicate AtPhase(s: Session, request: int, phase: nat)
    requires IsRequest(request)
  {
    var ask, quit := Sends(MessageOf(request)), Sends(MessageOf(NACD_QUIT_STATE));
    match phase
    case 0 => s == Session(request, ReadOrTimeout, 0, false, 0, [ask])
    case 1 => s == Session(NACD_QUIT_STATE, WriteOrTimeout, 0, false, 1, [ask, Receives])
    case 2 => s == Session(NACD_QUIT_STATE, ReadOrTimeout, 0, false, 2, [ask, Receives, quit])
    case _ =>
      && s.armed == Nothing && s.freed == 1 && !s.touched && 1 <= s.handled <= 3
      && s.state in {request, NACD_QUIT_STATE, NACD_STATE_MAX}
      && s.log <= [ask, Receives, quit, Receives] && s.log != []
      && (s.state == NACD_STATE_MAX ==> s.handled == 3 && s.log == [ask, Receives, quit, Receives])
  }

  ghost predicate Reached(s: Session, request: int)
    requires IsRequest(request)
  {
    exists phase: nat :: phase <= 3 && AtPhase(s, request, phase)
  }

  lemma StepKeepsReached(s: Session, ev: Event, request: int)
    requires IsRequest(request) && Reached(s, request)
    requires !(Accepts(s.armed, ev) && ev == Writable(false))
    ensures Reached(Step(s, ev), request)
  {
    var phase: nat :| phase <= 3 && AtPhase(s, request, phase);
    var ask, quit := Sends(MessageOf(request)), Sends(MessageOf(NACD_QUIT_STATE));
    var t := Step(s, ev);
    assert [ask] + [Receives] == [ask, Receives] <= [ask, Receives, quit, Receives];
    assert [ask, Receives] + [quit] == [ask, Receives, quit] <= [ask, Receives, quit, Receives];
    assert [ask, Receives, quit] + [Receives] == [ask, Receives, quit, Receives];
    if !Accepts(s.armed, ev) {
      assert AtPhase(t, request, phase);
    } else if ev.Timeout? {
      assert AtPhase(t, request, 3);
    } else if phase == 0 {
      assert AtPhase(t, request, 1) || AtPhase(t, request, 3);
    } else if phase == 1 {
      assert AtPhase(t, request, 2);
    } else {
      assert AtPhase(t, request, 3);
    }
  }

  lemma {:induction false} RunsStayReached(request: int, events: seq<Event>)
    requires IsRequest(request) && SendsSucceed(Start(request, true), events)
    ensures Reached(Run(Start(request, true), events), request)
  {
    if events == [] {
      assert AtPhase(Start(request, true), request, 0);
    } else {
      hide Step, Reached, Start;
      var front := events[..|events| - 1];
      RunsStayReached(request, front);
      StepKeepsReached(Run(Start(request, true), front), events[|events| - 1], request);
    }
  }

  /** Sends and receives take turns, a send first. */
  ghost predicate Alternates(log: seq<Act>) {
    forall k :: 0 <= k < |log| ==> (log[k].Sends? <==> k % 2 == 0)
  }

  /** The messages among the acts. */
  function Outputs(log: seq<Act>): seq<Output> {
    if log == [] then []
    else
      var front, last := Outputs(log[..|log| - 1]), log[|log| - 1];
      if last.Sends? then front + [last.output] else front
  }

  lemma OutputsUpTo(log: seq<Act>, n: nat)
    requires n < |log|
    ensures Outputs(log[..n + 1]) ==
              if log[n].Sends? then Outputs(log[..n]) + [log[n].output] else Outputs(log[..n])
  {
    assert log[..n + 1][..n] == log[..n];
  }

  /** Everything a session can do in one exchange of a request. */
  function WholeRun(ask: Output, quit: Output): (acts: seq<Act>)
    ensures |acts| == 4
  {
    [Sends(ask), Receives, Sends(quit), Receives]
  }

  lemma OutputsOfWholeRun(ask: Output, quit: Output, n: nat)
    requires n <= 4
    ensures Outputs(WholeRun(ask, quit)[..n]) == if n == 0 then [] else if n < 3 then [ask] else [ask] + [quit]
  {
    if n != 0 {
      OutputsOfWholeRun(ask, quit, n - 1);
      OutputsUpTo(WholeRun(ask, quit), n - 1);
      hide Outputs;
    }
  }

  lemma OutputsOfRun(ask: Output, quit: Output, log: seq<Act>)
    requires log <= WholeRun(ask, quit)
    ensures Alternates(log) && Outputs(log) <= [ask, quit]
    ensures |log| == 4 ==> Outputs(log) == [ask, quit]
  {
    hide *;
    WholeRunAlternates(ask, quit, log);
    assert log == WholeRun(ask, quit)[..|log|];
    OutputsOfWholeRun(ask, quit, |log|);
    assert [ask] + [quit] == [ask, quit];
  }

  lemma WholeRunAlternates(ask: Output, quit: Output, log: seq<Act>)
    requires log <= WholeRun(ask, quit)
    ensures Alternates(log)
  {
    assert forall k :: 0 <= k < |log| ==> log[k] == WholeRun(ask, quit)[k];
  }

  /**
    For every request, all server replies and all event sequences whose sends
    succeed: sends and receives alternate, the messages are a prefix of request
    then QUIT, at most three events are handled, the session is never used after
    its release, and it is released exactly when nothing is armed, which three
    handled events always bring about.
   */
  lemma EveryRunIsOrderly(request: int, events: seq<Event>)
    requires IsRequest(request) && SendsSucceed(Start(request, true), events)
    ensures var s := Run(Start(request, true), events);
            && Alternates(s.log)
            && Outputs(s.log) <= [MessageOf(request), MessageOf(NACD_QUIT_STATE)]
            && s.handled <= 3 && !s.touched
            && s.freed == (if s.armed == Nothing then 1 else 0)
            && (s.handled == 3 ==> s.freed == 1)
            && s.state in {request, NACD_QUIT_STATE, NACD_STATE_MAX}
            && (s.state == NACD_STATE_MAX ==>
                  s.freed == 1 && Outputs(s.log) == [MessageOf(request), MessageOf(NACD_QUIT_STATE)])
  {
    RunsStayReached(request, events);
    var s := Run(Start(request, true), events);
    var ask, quit := MessageOf(request), MessageOf(NACD_QUIT_STATE);
    hide MessageOf;
    var phase: nat :| phase <= 3 && AtPhase(s, request, phase);
    assert s.log <= WholeRun(ask, quit);
    OutputsOfRun(ask, quit, s.log);
  }

  /** The events that end a session. */
  predicate Ends(s: Session, ev: Event) {
    match ev
    case Timeout => true
    case Readable(reply) => IsError(reply) || s.state == NACD_QUIT_STATE
    case Writable(_) => false
  }

  /**
    One delivered event releases the session exactly if it is a timeout, an error or
    the final reply; the state never goes back.
   */
  lemma ReleasedExactlyWhen(request: int, events: seq<Event>, ev: Event)
    requires IsRequest(request) && SendsSucceed(Start(request, true), events + [ev])
    ensures var s, t := Run(Start(request, true), events), Run(Start(request, true), events + [ev]);
            && (t.freed == s.freed + 1 <==> Accepts(s.armed, ev) && Ends(s, ev))
            && (t.freed == s.freed || t.freed == s.freed + 1)
            && s.state <= t.state
  {
    assert (events + [ev])[..|events|] == events;
    RunsStayReached(request, events);
    var s := Run(Start(request, true), events);
    assert Run(Start(request, true), events + [ev]) == Step(s, ev);
    hide Start, Run;
    var phase: nat :| phase <= 3 && AtPhase(s, request, phase);
  }

  /** The states in which a reply is awaited: behind a request, or behind QUIT. */
  ghost predicate AwaitsReply(s: Session) {
    s.armed == ReadOrTimeout && (IsRequest(s.state) || s.state == NACD_QUIT_STATE)
  }

  /** A reply that begins with -ERR ends the session wherever it is awaited, whatever follows. */
  lemma ErrorReplyEnds(s: Session, rest: string)
    requires AwaitsReply(s)
    ensures Step(s, Readable("-ERR" + rest))
            == s.(armed := Nothing, freed := s.freed + 1, handled := s.handled + 1, log := s.log + [Receives])
  {
    assert ("-ERR" + rest)[..4] == "-ERR";
  }

  /** Any other reply takes a request on to QUIT, and ends the session after QUIT. */
  lemma OtherReplyGoesOn(s: Session, reply: string)
    requires AwaitsReply(s)
    requires |reply| < 4 || reply[0] != '-' || reply[1] != 'E' || reply[2] != 'R' || reply[3] != 'R'
    ensures var t, got := Step(s, Readable(reply)), s.(handled := s.handled + 1, log := s.log + [Receives]);
            if IsRequest(s.state) then t == got.(state := NACD_QUIT_STATE, armed := WriteOrTimeout)
            else t == got.(state := NACD_STATE_MAX, armed := Nothing, freed := s.freed + 1)
  {
    if |reply| >= 4 {
      assert reply[..4][0] == reply[0] && reply[..4][1] == reply[1];
      assert reply[..4][2] == reply[2] && reply[..4][3] == reply[3];
    }
  }

  /** So the first reply to a request decides: one that begins with -ERR ends the session, all else goes on to QUIT. */
  lemma FirstReplyDecides(request: int, reply: string)
    requires IsRequest(request)
    ensures var t := Step(Start(request, true), Readable(reply));
            if "-ERR" <= reply then t.freed == 1 && t.armed == Nothing && t.state == request
            else t.freed == 0 && t.armed == WriteOrTimeout && t.state == NACD_QUIT_STATE
  {
    if "-ERR" <= reply {
      assert reply == "-ERR" + reply[4..];
      ErrorReplyEnds(Start(request, true), reply[4..]);
    } else {
      OtherReplyGoesOn(Start(request, true), reply);
    }
  }

  // ----- where the code falls short

  /** A session whose first send fails is never armed and never released, whatever comes. */
  lemma {:induction false} FailedStartIsStuck(state: int, events: seq<Event>)
    requires Known(state)
    ensures Run(Start(state, false), events) == Session(state, Nothing, 0, false, 0, [])
  {
    if events != [] {
      hide Start;
      FailedStartIsStuck(state, events[..|events| - 1]);
    }
  }

  ghost predicate Sound(s: Session) {
    && (s.touched <==> s.armed == Dangling)
    && (s.armed == Dangling ==> s.freed == 1)
    && (s.armed == ReadOrTimeout || s.armed == WriteOrTimeout ==> s.freed == 0 && Known(s.state))
  }

  lemma StepKeepsSound(s: Session, ev: Event)
    requires Sound(s)
    ensures Sound(Step(s, ev))
    ensures Step(s, ev).touched <==> s.touched || (Accepts(s.armed, ev) && ev == Writable(false))
  {
  }

  /** From any known state the session is used after its release exactly when a delivered send fails. */
  lemma {:induction false} TouchedExactlyWhen(state: int, events: seq<Event>)
    requires Known(state)
    ensures Sound(Run(Start(state, true), events))
    ensures Run(Start(state, true), events).touched <==> !SendsSucceed(Start(state, true), events)
  {
    if events != [] {
      hide Step, Sound, Start;
      var front := events[..|events| - 1];
      TouchedExactlyWhen(state, front);
      StepKeepsSound(Run(Start(state, true), front), events[|events| - 1]);
    }
  }

  lemma RunOfTwo(s: Session, first: Event, second: Event)
    ensures Run(s, [first, second]) == Step(Step(s, first), second)
  {
    hide Step;
    assert [first, second][..1] == [first] && [first][..0] == [];
    assert Run(s, [first]) == Step(Run(s, []), first);
  }

  /** For example: the request is answered and the QUIT message cannot be sent. */
  lemma FailedQuitTouchesReleased(request: int)
    requires IsRequest(request)
    ensures var s := Run(Start(request, true), [Readable(""), Writable(false)]);
            s.freed == 1 && s.touched
  {
    RunOfTwo(Start(request, true), Readable(""), Writable(false));
  }

  /** What a session started in some state can be in and send: that state and its message, or the end of a request. */
  ghost predicate StaysNear(s: Session, state: int) {
    && (s.state == state || s.state == NACD_QUIT_STATE || s.state == NACD_STATE_MAX)
    && (s.state != state ==> IsRequest(state) || state == NACD_QUIT_STATE)
    && forall act :: act in s.log && act.Sends? ==> IsFrom(act.output, state)
  }

  ghost predicate IsFrom(output: Output, state: int) {
    || (Known(state) && output == MessageOf(state))
    || (IsRequest(state) && output == MessageOf(NACD_QUIT_STATE))
  }

  lemma StepStaysNear(s: Session, ev: Event, state: int)
    requires StaysNear(s, state)
    ensures StaysNear(Step(s, ev), state)
  {
    hide MessageOf;
  }

  /** From any state at all, whatever succeeds and whatever events and replies come. */
  lemma {:induction false} EveryRunStaysNear(state: int, ok: bool, events: seq<Event>)
    ensures StaysNear(Run(Start(state, ok), events), state)
  {
    hide MessageOf;
    if events != [] {
      hide Step, StaysNear, Start;
      var front := events[..|events| - 1];
      EveryRunStaysNear(state, ok, front);
      StepStaysNear(Run(Start(state, ok), front), events[|events| - 1], state);
    }
  }

  /** A message of this type is among the acts. */
  ghost predicate Carries(log: seq<Act>, typ: int)
    requires 0 <= typ < 0x1_0000
  {
    exists act :: act in log && act.Sends? && act.output.Message? && act.output.typ == SwapBytes(typ)
  }

  /**
    A request of a given type goes out in some run, however sends succeed and
    whatever events come, exactly when the session is started with the state
    one above the type; then it goes out in every run whose first send succeeds.
   */
  lemma RequestGoesOutExactlyWhen(state: int, typ: int)
    requires NACD_HEART_BEAT_KEEPALIVE <= typ <= NACD_SEC_ASSERT_DEL
    ensures (exists ok, events :: Carries(Run(Start(state, ok), events).log, typ)) <==> state == typ + 1
    ensures state == typ + 1 ==> Carries(Start(state, true).log, typ)
  {
    forall ok, events | Carries(Run(Start(state, ok), events).log, typ) ensures state == typ + 1 {
      RequestComesFrom(state, typ, ok, events);
    }
    if state == typ + 1 {
      RequestGoesOut(state, typ);
      hide Carries, Start;
      assert Run(Start(state, true), []) == Start(state, true);
      assert Carries(Run(Start(state, true), []).log, typ);
    }
  }

  lemma RequestComesFrom(state: int, typ: int, ok: bool, events: seq<Event>)
    requires NACD_HEART_BEAT_KEEPALIVE <= typ <= NACD_SEC_ASSERT_DEL
    requires Carries(Run(Start(state, ok), events).log, typ)
    ensures state == typ + 1
  {
    EveryRunStaysNear(state, ok, events);
    hide Start, Run;
  }

  lemma RequestGoesOut(state: int, typ: int)
    requires NACD_HEART_BEAT_KEEPALIVE <= typ <= NACD_SEC_ASSERT_DEL && state == typ + 1
    ensures Carries(Start(state, true).log, typ)
  {
    assert Start(state, true).log == [Sends(MessageOf(state))];
    assert Sends(MessageOf(state)) in Start(state, true).log;
  }

  /**
    The heart-beat handler passes the message type for the state, which is
    NACD_CONNECT: whatever happens, such a session stays in that state and only
    ever connects; a delivered event releases it exactly if it is a timeout, an
    error reply or a connect that fails.
   */
  lemma HeartBeatHandlerOnlyConnects(ok: bool, events: seq<Event>, ev: Event)
    ensures NACD_HEART_BEAT_KEEPALIVE == NACD_CONNECT
    ensures var s := Run(Start(NACD_HEART_BEAT_KEEPALIVE, ok), events);
            && s.state == NACD_CONNECT
            && (forall act :: act in s.log && act.Sends? ==> act.output == Connected)
            && (Step(s, ev).freed == s.freed + 1 <==>
                  Accepts(s.armed, ev)
                  && (ev == Timeout || ev == Writable(false) || (ev.Readable? && IsError(ev.reply))))
  {
    EveryRunStaysNear(NACD_CONNECT, ok, events);
  }

  /**
    If a second connect on the same socket never succeeds, it handles at most
    two events: the second one leaves it released, and used after that exactly
    if its event is still armed.
   */
  lemma {:induction false} HeartBeatHandlerEnds(ok: bool, events: seq<Event>)
    requires Writable(true) !in events
    ensures var s := Run(Start(NACD_HEART_BEAT_KEEPALIVE, ok), events);
            && s.state == NACD_CONNECT && s.handled <= 2
            && (s.handled == 0 ==> s.armed == if ok then ReadOrTimeout else Nothing)
            && (s.handled == 1 ==> s.armed == WriteOrTimeout || s.armed == Nothing)
            && (s.handled == 2 ==> s.armed == Nothing || s.armed == Dangling)
            && (s.touched <==> s.armed == Dangling)
  {
    if events != [] {
      hide Start;
      HeartBeatHandlerEnds(ok, events[..|events| - 1]);
      assert events[|events| - 1] in events;
    } else {
      assert Start(NACD_HEART_BEAT_KEEPALIVE, ok).handled == 0;
    }
  }

  /** The password handler does the same: it sends a heart-beat and QUIT, and never the password message. */
  lemma PasswordHandlerSendsHeartBeat(ok: bool, events: seq<Event>)
    ensures NACD_USER_PASSWD_AUTH == NACD_SEND_HEART_BEAT
    ensures forall act ::
              act in Run(Start(NACD_USER_PASSWD_AUTH, ok), events).log && act.Sends? ==>
                act.output == MessageOf(NACD_SEND_HEART_BEAT) || act.output == MessageOf(NACD_QUIT_STATE)
    ensures MessageOf(NACD_SEND_USER_PASSWD) !in [MessageOf(NACD_SEND_HEART_BEAT), MessageOf(NACD_QUIT_STATE)]
  {
    EveryRunStaysNear(NACD_USER_PASSWD_AUTH, ok, events);
  }

  // ----- the code

  class NacdClientSession {
    var state: int
    var armed: Armed
    var freed: nat
    var touched: bool
    var handled: nat
    var log: seq<Act>

    ghost function View(): Session
      reads this
    {
      Session(state, armed, freed, touched, handled, log)
    }

    constructor ()
      ensures state == NACD_CONNECT && armed == Nothing && freed == 0 && !touched && handled == 0 && log == []
    {
      state, armed, freed, touched, handled, log := NACD_CONNECT, Nothing, 0, false, 0, [];
    }

    /** `nacd_send_message`, given whether the connect or send in it succeeds */
    method SendMessage(ok: bool) returns (retval: int)
      modifies this`log
      ensures retval == if !Known(state) || ok then NACD_SUCCESS
                        else if state == NACD_CONNECT then NACD_CONNECTION_SERVER else NACD_SYSTEM_ERR
      ensures View() == if retval == NACD_SUCCESS then Send(old(View())) else old(View())
    {
      if state == NACD_CONNECT {
        if !ok {
          return NACD_CONNECTION_SERVER;
        }
        log := log + [Sends(Connected)];
        return NACD_SUCCESS;
      }
      var typ, len, bytes := 0, 0, 0;
      if state == NACD_SEND_HEART_BEAT {
        typ, len, bytes := NACD_HEART_BEAT_KEEPALIVE, 4, 4;
      } else if state == NACD_SEND_USER_PASSWD {
        typ, len, bytes := NACD_USER_PASSWD_AUTH, 260, 260;
      } else if state == NACD_ADD_SEC_ASSERT {
        typ, len, bytes := NACD_SEC_ASSERT_AAD, 2052, 2052;
      } else if state == NACD_DEL_SEC_ASSERT {
        typ, len, bytes := NACD_SEC_ASSERT_DEL, 2052, 2052;
      } else if state == NACD_QUIT_STATE {
        typ, len, bytes := NACD_QUIT, 4, 4;
      } else {
        return NACD_SUCCESS;
      }
      typ := SwapBytes(typ);
      len := SwapBytes(len);
      if !ok {
        return NACD_SYSTEM_ERR;
      }
      log := log + [Sends(Message(typ, len, bytes))];
      return NACD_SUCCESS;
    }

    /** `nacd_recv_message`; the six error results are consecutive */
    method RecvMessage(reply: string) returns (retval: int)
      modifies this`log, this`state
      ensures retval == if Known(old(state)) && IsError(reply) then NACD_CONN_ERR + old(state) else NACD_SUCCESS
      ensures |reply| >= 4 && reply[..4] == "-ERR" ==>
                && (old(state) == NACD_CONNECT ==> retval == NACD_CONN_ERR)
                && (old(state) == NACD_SEND_HEART_BEAT ==> retval == NACD_HEART_BEAT_ERR)
                && (old(state) == NACD_SEND_USER_PASSWD ==> retval == NACD_USER_PASSWD_AUTH_ERR)
                && (old(state) == NACD_ADD_SEC_ASSERT ==> retval == NACD_SEC_ASSERT_ADD_ERR)
                && (old(state) == NACD_DEL_SEC_ASSERT ==> retval == NACD_SEC_ASSERT_DEL_ERR)
                && (old(state) == NACD_QUIT_STATE ==> retval == NACD_QUIT_ERR)
      ensures !("-ERR" <= reply) ==> retval == NACD_SUCCESS
      ensures log == old(log) + [Receives]
      ensures state == if retval == NACD_SUCCESS then AfterReply(old(state)) else old(state)
    {
      log := log + [Receives];
      var error := |reply| >= 4 && reply[..4] == "-ERR";
      if state == NACD_CONNECT {
        if error { return NACD_CONN_ERR; }
      } else if NACD_SEND_HEART_BEAT <= state <= NACD_DEL_SEC_ASSERT {
        if error { return NACD_CONN_ERR + state; }
        state := NACD_QUIT_STATE;
      } else if state == NACD_QUIT_STATE {
        if error { return NACD_CONN_ERR + state; }
        state := NACD_STATE_MAX;
      }
      return NACD_SUCCESS;
    }

    /** `nacd_close_session` */
    method CloseSession()
      modifies this`freed, this`armed
      ensures View() == Release(old(View()))
    {
      freed := freed + 1;
      armed := Nothing;
    }

    /** `event_set` and `event_add` on the event inside the session */
    method Arm(what: Armed)
      modifies this`armed, this`touched
      ensures armed == if freed == 0 then what else Dangling
      ensures touched == (old(touched) || freed != 0)
    {
      if freed != 0 {
        touched := true;
        armed := Dangling;
      } else {
        armed := what;
      }
    }

    /** `nacd_msg_process`, called by the event base with an event that was armed */
    method MsgProcess(ev: Event)
      requires Accepts(armed, ev) && freed == 0
      modifies this
      ensures View() == Step(old(View()), ev)
    {
      handled := handled + 1;
      match ev {
        case Timeout => CloseSession();
        case Readable(reply) =>
          var retval := RecvMessage(reply);
          if retval != NACD_SUCCESS {
            CloseSession();
          } else if state == NACD_STATE_MAX {
            CloseSession();
          } else {
            Arm(WriteOrTimeout);
          }
        case Writable(ok) =>
          var retval := SendMessage(ok);
          if retval != NACD_SUCCESS {
            CloseSession();
          }
          Arm(ReadOrTimeout);
      }
    }

    /** `nacd_open_session`; its callers ignore the result */
    method OpenSession(ok: bool) returns (retval: int)
      requires armed == Nothing && freed == 0 && !touched && handled == 0
      modifies this
      ensures armed == Nothing && freed == 0 && !touched && handled == 0 && state == NACD_CONNECT
      ensures log == old(log) + if ok then [Sends(Connected)] else []
      ensures retval == if ok then NACD_SUCCESS else NACD_CONNECTION_SERVER
    {
      state := NACD_CONNECT;
      retval := SendMessage(ok);
      if retval != NACD_SUCCESS {
        return retval;
      }
      return NACD_SUCCESS;
    }

    /** `nacd_process_task_session`, on a session that may have connected before */
    method ProcessTaskSession(nacdState: int, ok: bool) returns (retval: int)
      requires armed == Nothing && freed == 0 && !touched && handled == 0
      modifies this
      ensures View() == After(old(log), Start(nacdState, ok))
      ensures retval == NACD_INCOMPLETE <==> !Known(nacdState) || ok
    {
      state := nacdState;
      retval := SendMessage(ok);
      if retval != NACD_SUCCESS {
        return retval;
      }
      Arm(ReadOrTimeout);
      return NACD_INCOMPLETE;
    }
  }
}
