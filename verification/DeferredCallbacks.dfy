/**
  Deferred callbacks and reference counts of bufferevent.c, for a bufferevent
  made with BEV_OPT_DEFER_CALLBACKS. The user's callbacks are a script: the
  n-th callback that starts performs the n-th list of actions, which may raise
  notifications again, change the callbacks or give up references.
 */
module DeferredCallbacks {

  /** The BEV_EVENT_* bits. */
  datatype What = READING | WRITING | EOF | ERROR | TIMEOUT | CONNECTED

  /** What a callback is called with. */
  datatype Start = StartRead | StartWrite | StartEvent(what: set<What>, errno: int)

  /**
    A data callback: installed or not, pending or not. `lapsed` says that it was
    missing at some time since the last raise.
   */
  datatype Slot = Slot(installed: bool, pending: bool, lapsed: bool)

  datatype EventSlot = EventSlot(installed: bool, pending: set<What>, errno: int, lapsed: bool)

  /** The reference count, the references held by others, and how often the object was destroyed. */
  datatype Refs = Refs(count: int, owners: nat, destroyed: nat)

  /**
    The callbacks started, whether bufferevent_free was called and no callback
    installed since, and how many callbacks started in that state.
   */
  datatype Trace = Trace(log: seq<Start>, freed: bool, startsAfterFree: nat)

  /** The lapsed flags of the three callbacks. */
  datatype Lapses = Lapses(read: bool, write: bool, event: bool)

  /** `running` says that a deferred run is in progress. */
  datatype Bev = Bev(read: Slot, write: Slot, event: EventSlot, queued: bool, running: bool, refs: Refs, trace: Trace)

  /** Raises come from the backend or from anyone; the other calls from a holder of a reference. */
  datatype Action =
    | RaiseRead
    | RaiseWrite
    | RaiseEvent(what: set<What>, errno: int)
    | SetCb(r: bool, w: bool, e: bool)
    | Incref
    | Decref
    | Free

  type Script = nat -> seq<Action>

  // ----- the operations

  /** After `bufferevent_init_common`. */
  function Init(): Bev {
    Bev(Slot(false, false, true), Slot(false, false, true), EventSlot(false, {}, 0, true), false, false,
        Refs(1, 1, 0), Trace([], false, 0))
  }

  /** `SCHEDULE_DEFERRED`, unless it is queued already. */
  function Schedule(b: Bev): Bev {
    if b.queued then b else b.(refs := b.refs.(count := b.refs.count + 1), queued := true)
  }

  /** `_bufferevent_decref_and_unlock`: the last reference destroys. */
  function DropReference(refs: Refs): Refs {
    Refs(refs.count - 1, refs.owners, if refs.count - 1 == 0 then refs.destroyed + 1 else refs.destroyed)
  }

  function Install(b: Bev, r: bool, w: bool, e: bool): Bev {
    Bev(Slot(r, b.read.pending, b.read.lapsed || !r), Slot(w, b.write.pending, b.write.lapsed || !w),
        EventSlot(e, b.event.pending, b.event.errno, b.event.lapsed || !e), b.queued, b.running, b.refs,
        b.trace.(freed := b.trace.freed && !r && !w && !e))
  }

  function Perform(b: Bev, a: Action): Bev {
    match a
    case RaiseRead =>
      if b.refs.count <= 0 || !b.read.installed then b else Schedule(b.(read := Slot(true, true, false)))
    case RaiseWrite =>
      if b.refs.count <= 0 || !b.write.installed then b else Schedule(b.(write := Slot(true, true, false)))
    case RaiseEvent(what, errno) =>
      if b.refs.count <= 0 || !b.event.installed then b
      else Schedule(b.(event := EventSlot(true, b.event.pending + what, errno, false)))
    case SetCb(r, w, e) => if b.refs.owners == 0 then b else Install(b, r, w, e)
    case Incref =>
      if b.refs.owners == 0 then b
      else b.(refs := b.refs.(count := b.refs.count + 1, owners := b.refs.owners + 1))
    case Decref =>
      if b.refs.owners == 0 then b else b.(refs := DropReference(b.refs.(owners := b.refs.owners - 1)))
    case Free =>
      if b.refs.owners == 0 then b
      else
        var bare := Install(b, false, false, false);
        bare.(refs := DropReference(b.refs.(owners := b.refs.owners - 1)), trace := bare.trace.(freed := true))
  }

  function PerformAll(b: Bev, actions: seq<Action>): Bev {
    if actions == [] then b else Perform(PerformAll(b, actions[..|actions| - 1]), actions[|actions| - 1])
  }

  function Started(t: Trace, start: Start): Trace {
    Trace(t.log + [start], t.freed, if t.freed then t.startsAfterFree + 1 else t.startsAfterFree)
  }

  /** A callback starts and does what the script says. */
  function Call(b: Bev, start: Start, script: Script): Bev {
    PerformAll(b.(trace := Started(b.trace, start)), script(|b.trace.log|))
  }

  function ConnectedStage(b: Bev, script: Script): Bev {
    if CONNECTED in b.event.pending && b.event.installed then
      Call(b.(event := b.event.(pending := b.event.pending - {CONNECTED})), StartEvent({CONNECTED}, 0), script)
    else b
  }

  function ReadStage(b: Bev, script: Script): Bev {
    if b.read.pending && b.read.installed then
      Call(b.(read := b.read.(pending := false)), StartRead, script)
    else b
  }

  function WriteStage(b: Bev, script: Script): Bev {
    if b.write.pending && b.write.installed then
      Call(b.(write := b.write.(pending := false)), StartWrite, script)
    else b
  }

  function EventStage(b: Bev, script: Script): Bev {
    if b.event.pending != {} && b.event.installed then
      Call(b.(event := b.event.(pending := {}, errno := 0)), StartEvent(b.event.pending, b.event.errno), script)
    else b
  }

  function Stages(b: Bev, script: Script): Bev {
    EventStage(WriteStage(ReadStage(ConnectedStage(b, script), script), script), script)
  }

  /** The event loop takes the entry off its queue and runs it. */
  function RunDeferred(b: Bev, script: Script): Bev {
    if !b.queued then b
    else
      var done := Stages(b.(queued := false, running := true), script);
      done.(running := false, refs := DropReference(done.refs))
  }

  datatype Op = Act(a: Action) | Loop

  function Apply(b: Bev, op: Op, script: Script): Bev {
    match op
    case Act(a) => Perform(b, a)
    case Loop => RunDeferred(b, script)
  }

  function Run(ops: seq<Op>, script: Script): Bev {
    if ops == [] then Init() else Apply(Run(ops[..|ops| - 1], script), ops[|ops| - 1], script)
  }

  // ----- reference counts

  function One(b: bool): int {
    if b then 1 else 0
  }

  /** Every reference is accounted for, and destruction goes with the count reaching zero. */
  ghost predicate Counted(b: Bev) {
    && b.refs.count == b.refs.owners + One(b.queued) + One(b.running)
    && b.refs.destroyed == One(b.refs.count == 0)
  }

  /** No callback starts once they have been taken away by bufferevent_free. */
  ghost predicate Silenced(b: Bev) {
    && (b.trace.freed ==> !b.read.installed && !b.write.installed && !b.event.installed)
    && b.trace.startsAfterFree == 0
  }

  /**
    A pending notification whose callback stayed installed has a queue entry, or
    is still to be looked at by the run in progress (r, w, e say which kinds are).
   */
  ghost predicate Covered(b: Bev, r: bool, w: bool, e: bool) {
    && (!b.read.installed ==> b.read.lapsed)
    && (!b.write.installed ==> b.write.lapsed)
    && (!b.event.installed ==> b.event.lapsed)
    && (b.read.pending && !b.read.lapsed ==> b.queued || r)
    && (b.write.pending && !b.write.lapsed ==> b.queued || w)
    && (b.event.pending != {} && !b.event.lapsed ==> b.queued || e)
  }

  ghost predicate Inv(b: Bev, r: bool, w: bool, e: bool) {
    Counted(b) && Silenced(b) && Covered(b, r, w, e)
  }

  lemma PerformKeepsInv(b: Bev, a: Action, r: bool, w: bool, e: bool)
    requires Inv(b, r, w, e)
    ensures Inv(Perform(b, a), r, w, e)
    ensures Perform(b, a).running == b.running && Perform(b, a).trace.log == b.trace.log
  {
  }

  lemma {:induction false} PerformAllKeepsInv(b: Bev, actions: seq<Action>, r: bool, w: bool, e: bool)
    requires Inv(b, r, w, e)
    ensures var after := PerformAll(b, actions);
            Inv(after, r, w, e) && after.running == b.running && after.trace.log == b.trace.log
  {
    hide Perform, Inv;
    if actions != [] {
      PerformAllKeepsInv(b, actions[..|actions| - 1], r, w, e);
      PerformKeepsInv(PerformAll(b, actions[..|actions| - 1]), actions[|actions| - 1], r, w, e);
    }
  }

  ghost predicate AnyInstalled(b: Bev) {
    b.read.installed || b.write.installed || b.event.installed
  }

  lemma StartKeepsInv(b: Bev, start: Start, r: bool, w: bool, e: bool)
    requires Inv(b, r, w, e) && AnyInstalled(b)
    ensures Inv(b.(trace := Started(b.trace, start)), r, w, e)
  {
  }

  lemma CallKeepsInv(b: Bev, start: Start, script: Script, r: bool, w: bool, e: bool)
    requires Inv(b, r, w, e) && AnyInstalled(b)
    ensures var after := Call(b, start, script);
            Inv(after, r, w, e) && after.running == b.running && after.trace.log == b.trace.log + [start]
  {
    hide Inv, AnyInstalled;
    StartKeepsInv(b, start, r, w, e);
    PerformAllKeepsInv(b.(trace := Started(b.trace, start)), script(|b.trace.log|), r, w, e);
  }

  /** A stage starts at most one callback, and only a matching one. */
  ghost predicate Extends(before: Bev, after: Bev, more: seq<Start>) {
    after.running == before.running && after.trace.log == before.trace.log + more && |more| <= 1
  }

  lemma ConnectedStageKeepsInv(b: Bev, script: Script) returns (more: seq<Start>)
    requires Inv(b, true, true, true)
    ensures Inv(ConnectedStage(b, script), true, true, true)
    ensures Extends(b, ConnectedStage(b, script), more)
    ensures more == if CONNECTED in b.event.pending && b.event.installed then [StartEvent({CONNECTED}, 0)] else []
  {
    hide Call;
    more := [];
    if CONNECTED in b.event.pending && b.event.installed {
      more := [StartEvent({CONNECTED}, 0)];
      CallKeepsInv(b.(event := b.event.(pending := b.event.pending - {CONNECTED})), more[0], script, true, true, true);
    }
  }

  lemma ReadStageKeepsInv(b: Bev, script: Script) returns (more: seq<Start>)
    requires Inv(b, true, true, true)
    ensures Inv(ReadStage(b, script), false, true, true)
    ensures Extends(b, ReadStage(b, script), more)
    ensures more == if b.read.pending && b.read.installed then [StartRead] else []
  {
    hide Call;
    more := [];
    if b.read.pending && b.read.installed {
      more := [StartRead];
      CallKeepsInv(b.(read := b.read.(pending := false)), more[0], script, false, true, true);
    }
  }

  lemma WriteStageKeepsInv(b: Bev, script: Script) returns (more: seq<Start>)
    requires Inv(b, false, true, true)
    ensures Inv(WriteStage(b, script), false, false, true)
    ensures Extends(b, WriteStage(b, script), more)
    ensures more == if b.write.pending && b.write.installed then [StartWrite] else []
  {
    hide Call;
    more := [];
    if b.write.pending && b.write.installed {
      more := [StartWrite];
      CallKeepsInv(b.(write := b.write.(pending := false)), more[0], script, false, false, true);
    }
  }

  lemma EventStageKeepsInv(b: Bev, script: Script) returns (more: seq<Start>)
    requires Inv(b, false, false, true)
    ensures Inv(EventStage(b, script), false, false, false)
    ensures Extends(b, EventStage(b, script), more)
    ensures more == if b.event.pending != {} && b.event.installed
                    then [StartEvent(b.event.pending, b.event.errno)] else []
  {
    hide Call;
    more := [];
    if b.event.pending != {} && b.event.installed {
      more := [StartEvent(b.event.pending, b.event.errno)];
      CallKeepsInv(b.(event := b.event.(pending := {}, errno := 0)), more[0], script, false, false, false);
    }
  }

  /**
    One run, whatever the callbacks do: CONNECTED is told first, then reading,
    then writing, then the remaining events, each at most once, and exactly if
    it is pending and its callback installed when its turn comes.
   */
  lemma StagesKeepInv(b: Bev, script: Script)
    returns (c: seq<Start>, r: seq<Start>, w: seq<Start>, e: seq<Start>)
    requires Inv(b, true, true, true) && b.running
    ensures var after := Stages(b, script);
            Inv(after, false, false, false) && after.running && after.trace.log == b.trace.log + c + r + w + e
    ensures var b1 := ConnectedStage(b, script);
            var b2 := ReadStage(b1, script);
            var b3 := WriteStage(b2, script);
            && c == (if CONNECTED in b.event.pending && b.event.installed then [StartEvent({CONNECTED}, 0)] else [])
            && (c == [] ==> b1 == b)
            && r == (if b1.read.pending && b1.read.installed then [StartRead] else [])
            && w == (if b2.write.pending && b2.write.installed then [StartWrite] else [])
            && e == if b3.event.pending != {} && b3.event.installed then
                      [StartEvent(b3.event.pending, b3.event.errno)]
                    else []
  {
    var b1 := ConnectedStage(b, script);
    assert CONNECTED !in b.event.pending || !b.event.installed ==> b1 == b;
    hide ConnectedStage, ReadStage, WriteStage, EventStage, Inv;
    c := ConnectedStageKeepsInv(b, script);
    r := ReadStageKeepsInv(b1, script);
    var b2 := ReadStage(b1, script);
    w := WriteStageKeepsInv(b2, script);
    e := EventStageKeepsInv(WriteStage(b2, script), script);
  }

  lemma StagesHoldReference(b: Bev, script: Script)
    requires Inv(b, true, true, true) && b.running
    ensures Stages(b, script).refs.count > 0
  {
    hide Stages;
    var c, r, w, e := StagesKeepInv(b, script);
  }

  lemma RunDeferredKeepsInv(b: Bev, script: Script)
    requires Inv(b, false, false, false) && !b.running
    ensures Inv(RunDeferred(b, script), false, false, false) && !RunDeferred(b, script).running
  {
    hide Stages;
    if b.queued {
      var c, r, w, e := StagesKeepInv(b.(queued := false, running := true), script);
    }
  }

  lemma ApplyKeepsInv(b: Bev, op: Op, script: Script)
    requires Inv(b, false, false, false) && !b.running
    ensures Inv(Apply(b, op, script), false, false, false) && !Apply(b, op, script).running
  {
    hide Inv, Perform, RunDeferred;
    match op {
      case Act(a) => PerformKeepsInv(b, a, false, false, false);
      case Loop => RunDeferredKeepsInv(b, script);
    }
  }

  lemma InitHoldsInv()
    ensures Inv(Init(), false, false, false) && !Init().running
  {
  }

  lemma {:induction false} EveryHistoryKeepsInv(ops: seq<Op>, script: Script)
    ensures Inv(Run(ops, script), false, false, false) && !Run(ops, script).running
  {
    hide Inv, Apply, Init;
    if ops == [] {
      InitHoldsInv();
    } else {
      EveryHistoryKeepsInv(ops[..|ops| - 1], script);
      ApplyKeepsInv(Run(ops[..|ops| - 1], script), ops[|ops| - 1], script);
    }
  }

  /**
    At every quiescent point of every history, whatever the callbacks do: each
    reference is an owner's or the queue's; the object is destroyed once the
    count is zero and only once; a pending notification whose callback stayed
    installed is queued; and no callback ever started after bufferevent_free.
   */
  lemma QuiescentPoints(ops: seq<Op>, script: Script)
    ensures var b := Run(ops, script);
            && b.refs.count == b.refs.owners + One(b.queued)
            && b.refs.destroyed == One(b.refs.count == 0)
            && (b.read.pending && !b.read.lapsed ==> b.queued)
            && (b.write.pending && !b.write.lapsed ==> b.queued)
            && (b.event.pending != {} && !b.event.lapsed ==> b.queued)
            && b.trace.startsAfterFree == 0
  {
    EveryHistoryKeepsInv(ops, script);
  }

  // ----- the owners, and who destroys

  /** The owners after one call: only a holder of a reference can share it or give it up. */
  function OwnersAfter(owners: nat, a: Action): nat {
    if owners == 0 then 0
    else match a
      case Incref => owners + 1
      case Decref => owners - 1
      case Free => owners - 1
      case _ => owners
  }

  function OwnersAfterAll(owners: nat, actions: seq<Action>): nat {
    if actions == [] then owners
    else OwnersAfter(OwnersAfterAll(owners, actions[..|actions| - 1]), actions[|actions| - 1])
  }

  /** The actions of the callbacks number `from` up to `to`. */
  function Scripted(script: Script, from: nat, to: nat): seq<Action>
    decreases to
  {
    if to <= from then [] else Scripted(script, from, to - 1) + script(to - 1)
  }

  /** Everything done to the bufferevent in a history, by others and by its own callbacks. */
  function Performed(ops: seq<Op>, script: Script): seq<Action> {
    if ops == [] then []
    else
      var front, op := ops[..|ops| - 1], ops[|ops| - 1];
      Performed(front, script) +
      match op
      case Act(a) => [a]
      case Loop => Scripted(script, |Run(front, script).trace.log|, |Run(ops, script).trace.log|)
  }

  lemma {:induction false} OwnersAfterBoth(owners: nat, a: seq<Action>, b: seq<Action>)
    ensures OwnersAfterAll(owners, a + b) == OwnersAfterAll(OwnersAfterAll(owners, a), b)
  {
    if b == [] {
      assert a + b == a;
    } else {
      assert (a + b)[..|a + b| - 1] == a + b[..|b| - 1];
      OwnersAfterBoth(owners, a, b[..|b| - 1]);
    }
  }

  lemma PerformChangesOwners(b: Bev, a: Action)
    ensures Perform(b, a).refs.owners == OwnersAfter(b.refs.owners, a) && Perform(b, a).trace.log == b.trace.log
  {
  }

  lemma {:induction false} PerformAllChangesOwners(b: Bev, actions: seq<Action>)
    ensures var after := PerformAll(b, actions);
            after.refs.owners == OwnersAfterAll(b.refs.owners, actions) && after.trace.log == b.trace.log
  {
    hide Perform;
    if actions != [] {
      PerformAllChangesOwners(b, actions[..|actions| - 1]);
      PerformChangesOwners(PerformAll(b, actions[..|actions| - 1]), actions[|actions| - 1]);
    }
  }

  /** From b to a later state the callbacks started have done what the script says, as far as owners go. */
  ghost predicate OwnersFollow(b: Bev, after: Bev, script: Script) {
    && |b.trace.log| <= |after.trace.log|
    && after.refs.owners ==
         OwnersAfterAll(b.refs.owners, Scripted(script, |b.trace.log|, |after.trace.log|))
  }

  lemma CallChangesOwners(b: Bev, start: Start, script: Script)
    ensures OwnersFollow(b, Call(b, start, script), script)
  {
    hide PerformAll;
    var n := |b.trace.log|;
    PerformAllChangesOwners(b.(trace := Started(b.trace, start)), script(n));
    assert Scripted(script, n, n + 1) == [] + script(n) == script(n);
  }

  lemma OwnersFollowOn(a: Bev, b: Bev, c: Bev, script: Script)
    requires OwnersFollow(a, b, script) && OwnersFollow(b, c, script)
    ensures OwnersFollow(a, c, script)
  {
    hide OwnersAfterAll;
    ScriptedJoins(script, |a.trace.log|, |b.trace.log|, |c.trace.log|);
    OwnersAfterBoth(a.refs.owners, Scripted(script, |a.trace.log|, |b.trace.log|),
                    Scripted(script, |b.trace.log|, |c.trace.log|));
  }

  lemma {:induction false} ScriptedJoins(script: Script, k: nat, m: nat, n: nat)
    requires k <= m <= n
    ensures Scripted(script, k, n) == Scripted(script, k, m) + Scripted(script, m, n)
    decreases n
  {
    if m == n {
      assert Scripted(script, m, n) == [];
    } else {
      ScriptedJoins(script, k, m, n - 1);
      assert Scripted(script, k, m) + Scripted(script, m, n - 1) + script(n - 1)
          == Scripted(script, k, m) + (Scripted(script, m, n - 1) + script(n - 1));
    }
  }

  /** Each stage of a run starts a callback or does nothing. */
  lemma StagesChangeOwners(b: Bev, script: Script)
    ensures OwnersFollow(b, Stages(b, script), script)
  {
    hide Call, OwnersFollow, ConnectedStage, ReadStage, WriteStage, EventStage;
    var b1 := ConnectedStage(b, script);
    var b2 := ReadStage(b1, script);
    var b3 := WriteStage(b2, script);
    ConnectedFollows(b, script);
    ReadFollows(b1, script);
    WriteFollows(b2, script);
    EventFollows(b3, script);
    OwnersFollowOn(b, b1, b2, script);
    OwnersFollowOn(b, b2, b3, script);
    OwnersFollowOn(b, b3, EventStage(b3, script), script);
  }

  lemma SameFollows(b: Bev, script: Script)
    ensures OwnersFollow(b, b, script)
  {
  }

  lemma ConnectedFollows(b: Bev, script: Script)
    ensures OwnersFollow(b, ConnectedStage(b, script), script)
  {
    hide Call, OwnersFollow;
    SameFollows(b, script);
    var told := b.(event := b.event.(pending := b.event.pending - {CONNECTED}));
    CallChangesOwners(told, StartEvent({CONNECTED}, 0), script);
    SameOwnersFollow(b, told, Call(told, StartEvent({CONNECTED}, 0), script), script);
  }

  lemma ReadFollows(b: Bev, script: Script)
    ensures OwnersFollow(b, ReadStage(b, script), script)
  {
    hide Call, OwnersFollow;
    SameFollows(b, script);
    var told := b.(read := b.read.(pending := false));
    CallChangesOwners(told, StartRead, script);
    SameOwnersFollow(b, told, Call(told, StartRead, script), script);
  }

  lemma WriteFollows(b: Bev, script: Script)
    ensures OwnersFollow(b, WriteStage(b, script), script)
  {
    hide Call, OwnersFollow;
    SameFollows(b, script);
    var told := b.(write := b.write.(pending := false));
    CallChangesOwners(told, StartWrite, script);
    SameOwnersFollow(b, told, Call(told, StartWrite, script), script);
  }

  lemma EventFollows(b: Bev, script: Script)
    ensures OwnersFollow(b, EventStage(b, script), script)
  {
    hide Call, OwnersFollow;
    SameFollows(b, script);
    var told, start := b.(event := b.event.(pending := {}, errno := 0)), StartEvent(b.event.pending, b.event.errno);
    CallChangesOwners(told, start, script);
    SameOwnersFollow(b, told, Call(told, start, script), script);
  }

  lemma SameOwnersFollow(a: Bev, b: Bev, after: Bev, script: Script)
    requires a.refs == b.refs && a.trace == b.trace && OwnersFollow(b, after, script)
    ensures OwnersFollow(a, after, script)
  {
  }

  /**
    The owners are what the calls performed make of one owner at the start, those
    of the callbacks included; and the bufferevent is destroyed exactly when none
    is left and nothing is queued.
   */
  lemma {:induction false} DestroyedExactlyWhen(ops: seq<Op>, script: Script)
    ensures var b := Run(ops, script);
            && b.refs.owners == OwnersAfterAll(1, Performed(ops, script))
            && b.refs.destroyed == if b.refs.owners == 0 && !b.queued then 1 else 0
  {
    EveryHistoryKeepsInv(ops, script);
    if ops != [] {
      var front, op := ops[..|ops| - 1], ops[|ops| - 1];
      var was, b := Run(front, script), Run(ops, script);
      DestroyedExactlyWhen(front, script);
      ApplyChangesOwners(was, op, script);
      var more := match op case Act(a) => [a] case Loop => Scripted(script, |was.trace.log|, |b.trace.log|);
      OwnersAfterBoth(1, Performed(front, script), more);
    }
  }

  lemma ApplyChangesOwners(b: Bev, op: Op, script: Script)
    ensures var after := Apply(b, op, script);
            match op
            case Act(a) => after.refs.owners == OwnersAfterAll(b.refs.owners, [a])
            case Loop => OwnersFollow(b, after, script)
  {
    hide Stages;
    match op {
      case Act(a) =>
        PerformChangesOwners(b, a);
        assert [a][..0] == [];
        assert OwnersAfterAll(b.refs.owners, []) == b.refs.owners;
      case Loop =>
        SameFollows(b, script);
        StagesChangeOwners(b.(queued := false, running := true), script);
    }
  }

  /**
    The last owner's `bufferevent_free` destroys at once if nothing is queued;
    otherwise the next run does, without starting any callback.
   */
  lemma LastFreeDestroys(b: Bev, script: Script)
    requires Inv(b, false, false, false) && !b.running && b.refs.owners == 1
    ensures var freed := Perform(b, Free);
            && freed.refs.destroyed == (if b.queued then 0 else 1)
            && var after := RunDeferred(freed, script);
               after.refs.destroyed == 1 && after.trace.log == b.trace.log
  {
  }

  /** What was destroyed stays as it is. */
  lemma DestroyedIsFinal(b: Bev, op: Op, script: Script)
    requires Inv(b, false, false, false) && !b.running && b.refs.destroyed == 1
    ensures Apply(b, op, script) == b
  {
  }

  // ----- what is raised is delivered

  /** Nothing pending is forgotten. */
  ghost predicate KeepsPending(before: Bev, after: Bev) {
    && (before.read.pending ==> after.read.pending)
    && (before.write.pending ==> after.write.pending)
    && before.event.pending <= after.event.pending
  }

  lemma PerformKeepsPending(b: Bev, a: Action)
    ensures KeepsPending(b, Perform(b, a))
  {
  }

  lemma {:induction false} PerformAllKeepsPending(b: Bev, actions: seq<Action>)
    ensures KeepsPending(b, PerformAll(b, actions))
  {
    hide Perform;
    if actions != [] {
      PerformAllKeepsPending(b, actions[..|actions| - 1]);
      PerformKeepsPending(PerformAll(b, actions[..|actions| - 1]), actions[|actions| - 1]);
    }
  }

  lemma CallKeepsPending(b: Bev, start: Start, script: Script)
    ensures KeepsPending(b, Call(b, start, script))
  {
    hide PerformAll;
    PerformAllKeepsPending(b.(trace := Started(b.trace, start)), script(|b.trace.log|));
  }

  /** Whatever the earlier callbacks of a run do, each stage still finds what was pending when the run began. */
  lemma StagesFindPending(b: Bev, script: Script)
    ensures var b1 := ConnectedStage(b, script);
            var b2 := ReadStage(b1, script);
            var b3 := WriteStage(b2, script);
            && (b.read.pending ==> b1.read.pending)
            && (b.write.pending ==> b2.write.pending)
            && b.event.pending - {CONNECTED} <= b3.event.pending
  {
    hide Call;
    var b1 := ConnectedStage(b, script);
    var told := b.(event := b.event.(pending := b.event.pending - {CONNECTED}));
    CallKeepsPending(told, StartEvent({CONNECTED}, 0), script);
    var b2 := ReadStage(b1, script);
    CallKeepsPending(b1.(read := b1.read.(pending := false)), StartRead, script);
    CallKeepsPending(b2.(write := b2.write.(pending := false)), StartWrite, script);
  }

  /** The raise has a callback to tell. */
  predicate Raises(b: Bev, a: Action) {
    (a.RaiseRead? && b.read.installed) || (a.RaiseWrite? && b.write.installed) || (a.RaiseEvent? && b.event.installed)
  }

  /**
    The next run delivers what was raised: its callback starts exactly if it is
    installed when its turn comes, which only earlier callbacks of the run can
    change; CONNECTED comes first of all, reading first of the rest, and the
    events told at the end include all that were raised.
   */
  lemma RaiseIsDelivered(b: Bev, a: Action, script: Script)
    returns (c: seq<Start>, r: seq<Start>, w: seq<Start>, e: seq<Start>)
    requires Inv(b, false, false, false) && !b.running && b.refs.count > 0 && Raises(b, a)
    ensures RunDeferred(Perform(b, a), script).trace.log == b.trace.log + c + r + w + e
    ensures var b1 := ConnectedStage(Perform(b, a).(queued := false, running := true), script);
            var b2 := ReadStage(b1, script);
            var b3 := WriteStage(b2, script);
            && (a.RaiseRead? ==> r == if b1.read.installed then [StartRead] else [])
            && (a.RaiseRead? && CONNECTED !in b.event.pending ==> c == [] && r == [StartRead])
            && (a.RaiseWrite? ==> w == if b2.write.installed then [StartWrite] else [])
            && (a.RaiseEvent? && CONNECTED in a.what ==> c == [StartEvent({CONNECTED}, 0)])
            && (a.RaiseEvent? && b3.event.installed && a.what - {CONNECTED} != {} ==>
                  |e| == 1 && e[0].StartEvent? && a.what - {CONNECTED} <= e[0].what)
  {
    hide ConnectedStage, ReadStage, WriteStage, EventStage, Inv;
    var start := Perform(b, a).(queued := false, running := true);
    RaiseQueues(b, a);
    c, r, w, e := StagesKeepInv(start, script);
    StagesFindPending(start, script);
  }

  lemma RaiseQueues(b: Bev, a: Action)
    requires Inv(b, false, false, false) && !b.running && b.refs.count > 0 && Raises(b, a)
    ensures Perform(b, a).queued && Inv(Perform(b, a).(queued := false, running := true), true, true, true)
    ensures Perform(b, a).trace.log == b.trace.log
    ensures a.RaiseRead? ==> Perform(b, a).read.pending && Perform(b, a).read.installed
                             && Perform(b, a).event == b.event
    ensures a.RaiseWrite? ==> Perform(b, a).write.pending
    ensures a.RaiseEvent? ==> a.what <= Perform(b, a).event.pending && Perform(b, a).event.installed
  {
  }

  // ----- raises are told once, and exactly

  predicate IsRaise(a: Action) {
    a.RaiseRead? || a.RaiseWrite? || a.RaiseEvent?
  }

  /** All events raised, and the error of the last raise. */
  function EventsRaised(raises: seq<Action>): set<What> {
    if raises == [] then {}
    else
      var a := raises[|raises| - 1];
      EventsRaised(raises[..|raises| - 1]) + if a.RaiseEvent? then a.what else {}
  }

  function LastError(raises: seq<Action>): int {
    if raises == [] then 0
    else
      var a := raises[|raises| - 1];
      if a.RaiseEvent? then a.errno else LastError(raises[..|raises| - 1])
  }

  /** What the user is told of some raises, with these callbacks installed. */
  function Told(r: bool, w: bool, e: bool, raises: seq<Action>): seq<Start> {
    var events := EventsRaised(raises);
    (if e && CONNECTED in events then [StartEvent({CONNECTED}, 0)] else [])
    + (if r && RaiseRead in raises then [StartRead] else [])
    + (if w && RaiseWrite in raises then [StartWrite] else [])
    + if e && events - {CONNECTED} != {} then [StartEvent(events - {CONNECTED}, LastError(raises))] else []
  }

  /** Nothing is pending or queued, and somebody owns the bufferevent. */
  ghost predicate Quiet(b: Bev) {
    && !b.read.pending && !b.write.pending && b.event.pending == {} && !b.queued && !b.running
    && b.refs.count == b.refs.owners > 0
  }

  /** After the callbacks were set and these raises. */
  ghost predicate Gathered(was: Bev, b: Bev, r: bool, w: bool, e: bool, raises: seq<Action>) {
    && b.read.installed == r && b.write.installed == w && b.event.installed == e
    && b.read.pending == (r && RaiseRead in raises) && b.write.pending == (w && RaiseWrite in raises)
    && b.event.pending == (if e then EventsRaised(raises) else {})
    && (b.event.pending != {} ==> b.event.errno == LastError(raises))
    && !b.running && b.refs.count == b.refs.owners + One(b.queued) && b.refs.owners == was.refs.owners
    && b.trace.log == was.trace.log
    && (!b.queued ==> !b.read.pending && !b.write.pending && b.event.pending == {})
  }

  lemma RaiseGathers(was: Bev, b: Bev, r: bool, w: bool, e: bool, raises: seq<Action>, a: Action)
    requires Gathered(was, b, r, w, e, raises) && was.refs.owners > 0 && IsRaise(a)
    ensures Gathered(was, Perform(b, a), r, w, e, raises + [a])
  {
    var more := raises + [a];
    assert more[..|more| - 1] == raises;
    assert RaiseRead in more <==> RaiseRead in raises || a == RaiseRead;
    assert RaiseWrite in more <==> RaiseWrite in raises || a == RaiseWrite;
  }

  lemma {:induction false} RaisesGather(b: Bev, r: bool, w: bool, e: bool, raises: seq<Action>)
    requires Quiet(b) && forall a :: a in raises ==> IsRaise(a)
    ensures Gathered(b, PerformAll(Perform(b, SetCb(r, w, e)), raises), r, w, e, raises)
  {
    if raises != [] {
      hide Perform, Gathered;
      var front, last := raises[..|raises| - 1], raises[|raises| - 1];
      RaisesGather(b, r, w, e, front);
      RaiseGathers(b, PerformAll(Perform(b, SetCb(r, w, e)), front), r, w, e, front, last);
      assert front + [last] == raises;
    }
  }

  /**
    From a quiet state: the callbacks are set, and then anything is raised, in
    any order and as often as one likes. If the callbacks do nothing themselves,
    the next run tells exactly what was raised of the kinds installed, each kind
    once: CONNECTED, reading, writing, and all other events with the last error.
    The state is quiet again.
   */
  lemma RaisesAreToldOnce(b: Bev, r: bool, w: bool, e: bool, raises: seq<Action>, script: Script)
    requires Quiet(b) && (forall a :: a in raises ==> IsRaise(a)) && forall n :: script(n) == []
    ensures var after := RunDeferred(PerformAll(Perform(b, SetCb(r, w, e)), raises), script);
            Quiet(after) && after.trace.log == b.trace.log + Told(r, w, e, raises)
    ensures Quiet(Init())
  {
    hide Perform, PerformAll, EventsRaised, LastError, Stages, Starts;
    var raised := PerformAll(Perform(b, SetCb(r, w, e)), raises);
    RaisesGather(b, r, w, e, raises);
    var start := raised.(queued := false, running := true);
    GatheredStarts(b, raised, r, w, e, raises);
    SilentStages(start, script);
    assert b.trace.log + [] == b.trace.log;
  }

  lemma GatheredStarts(was: Bev, b: Bev, r: bool, w: bool, e: bool, raises: seq<Action>)
    requires Gathered(was, b, r, w, e, raises)
    ensures Starts(b.(queued := false, running := true)) == Told(r, w, e, raises)
    ensures !b.queued ==> Told(r, w, e, raises) == []
  {
    hide EventsRaised, LastError;
  }

  /** The state b but for the callbacks started, which are these more. */
  ghost predicate IsAfter(after: Bev, b: Bev, more: seq<Start>) {
    after.(trace := b.trace) == b && after.trace.log == b.trace.log + more
  }

  /** A callback that does nothing only leaves its trace. */
  lemma SilentCall(b: Bev, start: Start, script: Script)
    requires forall n :: script(n) == []
    ensures IsAfter(Call(b, start, script), b, [start])
  {
    assert script(|b.trace.log|) == [];
  }

  lemma SilentConnected(b: Bev, script: Script)
    requires forall n :: script(n) == []
    ensures IsAfter(ConnectedStage(b, script),
                    b.(event := b.event.(pending :=
                         if b.event.installed then b.event.pending - {CONNECTED} else b.event.pending)),
                    if b.event.installed && CONNECTED in b.event.pending then [StartEvent({CONNECTED}, 0)] else [])
  {
    hide Call;
    var told := b.(event := b.event.(pending := b.event.pending - {CONNECTED}));
    SilentCall(told, StartEvent({CONNECTED}, 0), script);
    assert CONNECTED !in b.event.pending ==> b.event.pending - {CONNECTED} == b.event.pending;
  }

  lemma SilentRead(b: Bev, script: Script)
    requires forall n :: script(n) == []
    ensures IsAfter(ReadStage(b, script), b.(read := b.read.(pending := b.read.pending && !b.read.installed)),
                    if b.read.installed && b.read.pending then [StartRead] else [])
  {
    hide Call;
    SilentCall(b.(read := b.read.(pending := false)), StartRead, script);
  }

  lemma SilentWrite(b: Bev, script: Script)
    requires forall n :: script(n) == []
    ensures IsAfter(WriteStage(b, script), b.(write := b.write.(pending := b.write.pending && !b.write.installed)),
                    if b.write.installed && b.write.pending then [StartWrite] else [])
  {
    hide Call;
    SilentCall(b.(write := b.write.(pending := false)), StartWrite, script);
  }

  lemma SilentEvent(b: Bev, script: Script)
    requires (forall n :: script(n) == []) && b.event.installed
    ensures var after := EventStage(b, script);
            && after.event.pending == {} && after.event.installed
            && IsAfter(after.(event := b.event), b,
                       if b.event.pending != {} then [StartEvent(b.event.pending, b.event.errno)] else [])
  {
    hide Call;
    var told := b.(event := b.event.(pending := {}, errno := 0));
    SilentCall(told, StartEvent(b.event.pending, b.event.errno), script);
  }

  lemma SilentNoEvent(b: Bev, script: Script)
    requires !b.event.installed
    ensures EventStage(b, script) == b
  {
  }

  /** The four stages when the callbacks do nothing. */
  lemma SilentStages(b: Bev, script: Script)
    requires forall n :: script(n) == []
    ensures var after := Stages(b, script);
            && after.refs == b.refs && after.queued == b.queued && after.running == b.running
            && (after.read.pending <==> b.read.pending && !b.read.installed)
            && (after.write.pending <==> b.write.pending && !b.write.installed)
            && after.event.pending == (if b.event.installed then {} else b.event.pending)
            && after.trace.log == b.trace.log + Starts(b)
  {
    hide ConnectedStage, ReadStage, WriteStage, EventStage;
    var b1 := ConnectedStage(b, script);
    var b2 := ReadStage(b1, script);
    var b3 := WriteStage(b2, script);
    SilentConnected(b, script);
    SilentRead(b1, script);
    SilentWrite(b2, script);
    if b.event.installed {
      SilentEvent(b3, script);
    } else {
      SilentNoEvent(b3, script);
    }
  }

  /** The callbacks of a run in which they do nothing. */
  function Starts(b: Bev): seq<Start> {
    (if b.event.installed && CONNECTED in b.event.pending then [StartEvent({CONNECTED}, 0)] else [])
    + (if b.read.installed && b.read.pending then [StartRead] else [])
    + (if b.write.installed && b.write.pending then [StartWrite] else [])
    + if b.event.installed && b.event.pending - {CONNECTED} != {} then
        [StartEvent(b.event.pending - {CONNECTED}, b.event.errno)]
      else []
  }

  // ----- the code

  class Bufferevent {
    var readcb: bool
    var writecb: bool
    var errorcb: bool
    var readcbPending: bool
    var writecbPending: bool
    var eventcbPending: set<What>
    var errnoPending: int
    var queued: bool
    var refcnt: int
    var destroyed: nat
    const script: Script
    /** The number of callbacks started so far. */
    var started: nat
    /** The references held by others. */
    var owners: nat
    ghost var running: bool
    ghost var lapsed: Lapses
    ghost var trace: Trace

    ghost predicate Valid()
      reads this
    {
      started == |trace.log|
    }

    ghost function View(): Bev
      reads this
    {
      Bev(Slot(readcb, readcbPending, lapsed.read), Slot(writecb, writecbPending, lapsed.write),
          EventSlot(errorcb, eventcbPending, errnoPending, lapsed.event), queued, running,
          Refs(refcnt, owners, destroyed), trace)
    }

    constructor (script: Script)
      ensures Valid() && View() == Init() && this.script == script
    {
      readcb, writecb, errorcb := false, false, false;
      readcbPending, writecbPending, eventcbPending, errnoPending := false, false, {}, 0;
      queued, refcnt, destroyed, started := false, 1, 0, 0;
      this.script := script;
      owners, running, trace := 1, false, Trace([], false, 0);
      lapsed := Lapses(true, true, true);
    }

    method ScheduleDeferred()
      requires !queued
      modifies this`refcnt, this`queued
      ensures View() == Schedule(old(View()))
    {
      refcnt := refcnt + 1;
      queued := true;
    }

    /** `_bufferevent_run_readcb` */
    method RunReadcb()
      requires Valid() && refcnt > 0
      modifies this
      ensures Valid() && View() == Perform(old(View()), RaiseRead)
    {
      if !readcb {
        return;
      }
      readcbPending := true;
      lapsed := lapsed.(read := false);
      if !queued {
        ScheduleDeferred();
      }
    }

    /** `_bufferevent_run_writecb` */
    method RunWritecb()
      requires Valid() && refcnt > 0
      modifies this
      ensures Valid() && View() == Perform(old(View()), RaiseWrite)
    {
      if !writecb {
        return;
      }
      writecbPending := true;
      lapsed := lapsed.(write := false);
      if !queued {
        ScheduleDeferred();
      }
    }

    /** `_bufferevent_run_eventcb` */
    method RunEventcb(what: set<What>, errno: int)
      requires Valid() && refcnt > 0
      modifies this
      ensures Valid() && View() == Perform(old(View()), RaiseEvent(what, errno))
    {
      if !errorcb {
        return;
      }
      eventcbPending := eventcbPending + what;
      errnoPending := errno;
      lapsed := lapsed.(event := false);
      if !queued {
        ScheduleDeferred();
      }
    }

    /** `bufferevent_setcb` */
    method SetCallbacks(r: bool, w: bool, e: bool)
      modifies this`readcb, this`writecb, this`errorcb, this`lapsed, this`trace
      ensures View() == Install(old(View()), r, w, e)
    {
      readcb, writecb, errorcb := r, w, e;
      lapsed := Lapses(lapsed.read || !r, lapsed.write || !w, lapsed.event || !e);
      trace := trace.(freed := trace.freed && !r && !w && !e);
    }

    /** `_bufferevent_decref_and_unlock`; what destruction does to the underlying bufferevents is in `FilterChain`. */
    method DecrefAndUnlock() returns (gone: bool)
      requires refcnt > 0
      modifies this`refcnt, this`destroyed
      ensures View() == old(View()).(refs := DropReference(old(View().refs)))
      ensures gone <==> refcnt == 0
    {
      refcnt := refcnt - 1;
      if refcnt != 0 {
        return false;
      }
      destroyed := destroyed + 1;
      return true;
    }

    /** `bufferevent_free` */
    method FreeBufferevent()
      requires Valid() && refcnt > 0 && owners > 0
      modifies this
      ensures Valid() && View() == Perform(old(View()), Free)
    {
      SetCallbacks(false, false, false);
      owners := owners - 1;
      trace := trace.(freed := true);
      var gone := DecrefAndUnlock();
    }

    /** One call from outside; calls that need a reference are made only while one is held. */
    method PerformAction(a: Action)
      requires Valid() && Inv(View(), true, true, true)
      modifies this
      ensures Valid() && View() == Perform(old(View()), a)
    {
      match a {
        case RaiseRead => if refcnt > 0 { RunReadcb(); }
        case RaiseWrite => if refcnt > 0 { RunWritecb(); }
        case RaiseEvent(what, errno) => if refcnt > 0 { RunEventcb(what, errno); }
        case SetCb(r, w, e) => if owners > 0 { SetCallbacks(r, w, e); }
        case Incref => if owners > 0 { refcnt := refcnt + 1; owners := owners + 1; }
        case Decref => if owners > 0 { owners := owners - 1; var gone := DecrefAndUnlock(); }
        case Free => if owners > 0 { FreeBufferevent(); }
      }
    }

    /** A user callback runs: it performs the next list of the script. */
    method CallBack(ghost start: Start)
      requires Valid() && Inv(View(), true, true, true) && AnyInstalled(View())
      modifies this
      ensures Valid() && View() == Call(old(View()), start, script)
    {
      hide Perform, Inv, AnyInstalled;
      var actions := script(started);
      StartKeepsInv(View(), start, true, true, true);
      started := started + 1;
      trace := Started(trace, start);
      ghost var called := View();
      for k := 0 to |actions|
        invariant Valid()
        invariant Inv(View(), true, true, true)
        invariant View() == PerformAll(called, actions[..k])
      {
        PerformKeepsInv(View(), actions[k], true, true, true);
        PerformAction(actions[k]);
        assert actions[..k + 1][..k] == actions[..k];
      }
      assert actions[..|actions|] == actions;
    }

    method TellConnected()
      requires Valid() && Inv(View(), true, true, true)
      modifies this
      ensures Valid() && View() == ConnectedStage(old(View()), script) && Inv(View(), true, true, true)
    {
      hide Call;
      ghost var more := ConnectedStageKeepsInv(View(), script);
      if CONNECTED in eventcbPending && errorcb {
        eventcbPending := eventcbPending - {CONNECTED};
        CallBack(StartEvent({CONNECTED}, 0));
      }
    }

    method TellRead()
      requires Valid() && Inv(View(), true, true, true)
      modifies this
      ensures Valid() && View() == ReadStage(old(View()), script) && Inv(View(), false, true, true)
    {
      hide Call;
      ghost var more := ReadStageKeepsInv(View(), script);
      if readcbPending && readcb {
        readcbPending := false;
        CallBack(StartRead);
      }
    }

    method TellWrite()
      requires Valid() && Inv(View(), false, true, true)
      modifies this
      ensures Valid() && View() == WriteStage(old(View()), script) && Inv(View(), false, false, true)
    {
      hide Call;
      ghost var more := WriteStageKeepsInv(View(), script);
      if writecbPending && writecb {
        writecbPending := false;
        CallBack(StartWrite);
      }
    }

    method TellEvent()
      requires Valid() && Inv(View(), false, false, true)
      modifies this
      ensures Valid() && View() == EventStage(old(View()), script) && Inv(View(), false, false, false)
    {
      hide Call;
      ghost var more := EventStageKeepsInv(View(), script);
      if eventcbPending != {} && errorcb {
        var what, err := eventcbPending, errnoPending;
        eventcbPending := {};
        errnoPending := 0;
        CallBack(StartEvent(what, err));
      }
    }

    /** `bufferevent_run_deferred_callbacks_locked`, called by the event loop after clearing `queued`. */
    method RunDeferredCallbacks()
      requires Valid() && Inv(View(), false, false, false) && !running && queued
      modifies this
      ensures Valid() && View() == RunDeferred(old(View()), script)
    {
      hide ConnectedStage, ReadStage, WriteStage, EventStage;
      queued := false;
      running := true;
      ghost var b := View();
      TellConnected();
      TellRead();
      TellWrite();
      TellEvent();
      StagesHoldReference(b, script);
      running := false;
      var gone := DecrefAndUnlock();
    }
  }
}
