/**
  Enabling, suspending and the read watermark of bufferevent.c. A backend is
  modelled by the set of directions it is working on: `enable` adds to it and
  `disable` takes away from it.
 */
module Suspension {

  /** The event bits; a `short` of events is the set of its bits. */
  datatype Event = EV_READ | EV_WRITE

  /** The BEV_SUSPEND_* bits; a `bufferevent_suspend_flags` word is the set of its bits. */
  datatype Reason = WM | BW | BW_GROUP | LOOKUP | FILT_READ

  /**
    `active` is what the backend works on. `wmHigh` is the high mark for reading;
    `wmInstalled` and `wmEnabled` describe the callback on the input buffer.
   */
  datatype Bev = Bev(enabled: set<Event>, active: set<Event>, readSuspended: set<Reason>, writeSuspended: set<Reason>,
                     connecting: bool, wmHigh: nat, wmInstalled: bool, wmEnabled: bool, inputLength: nat)

  // ----- the operations

  /** After `bufferevent_init_common`: EV_WRITE counts as enabled but the backend has not been told. */
  function Init(): Bev {
    Bev({EV_WRITE}, {}, {}, {}, false, 0, false, false, 0)
  }

  function SuspendRead(b: Bev, what: set<Reason>): Bev {
    b.(active := if b.readSuspended == {} then b.active - {EV_READ} else b.active,
       readSuspended := b.readSuspended + what)
  }

  function UnsuspendRead(b: Bev, what: set<Reason>): Bev {
    var left := b.readSuspended - what;
    b.(readSuspended := left,
       active := if left == {} && EV_READ in b.enabled then b.active + {EV_READ} else b.active)
  }

  function SuspendWrite(b: Bev, what: set<Reason>): Bev {
    b.(active := if b.writeSuspended == {} then b.active - {EV_WRITE} else b.active,
       writeSuspended := b.writeSuspended + what)
  }

  function UnsuspendWrite(b: Bev, what: set<Reason>): Bev {
    var left := b.writeSuspended - what;
    b.(writeSuspended := left,
       active := if left == {} && EV_WRITE in b.enabled then b.active + {EV_WRITE} else b.active)
  }

  function Enable(b: Bev, event: set<Event>): Bev {
    var readable := if b.readSuspended != {} then event - {EV_READ} else event;
    var impl := if b.writeSuspended != {} then readable - {EV_WRITE} else readable;
    b.(enabled := b.enabled + event, active := b.active + impl)
  }

  function Disable(b: Bev, event: set<Event>): Bev {
    b.(enabled := b.enabled - event, active := b.active - event)
  }

  function DisableHard(b: Bev, event: set<Event>): Bev {
    Disable(b, event).(connecting := false)
  }

  /** The part of `bufferevent_setwatermark` about EV_READ. */
  function SetReadWatermark(b: Bev, high: nat): Bev {
    var m := b.(wmHigh := high);
    if high != 0 then
      var on := m.(wmInstalled := true, wmEnabled := true);
      if m.inputLength > high then SuspendRead(on, {WM})
      else if m.inputLength < high then UnsuspendRead(on, {WM})
      else on
    else
      UnsuspendRead(if m.wmInstalled then m.(wmEnabled := false) else m, {WM})
  }

  function SetWatermark(b: Bev, events: set<Event>, high: nat): Bev {
    if EV_READ in events then SetReadWatermark(b, high) else b
  }

  /** The input buffer changes to a new length; its callback runs if it is enabled. */
  function InputChanged(b: Bev, length: nat): Bev {
    var m := b.(inputLength := length);
    if !m.wmEnabled then m
    else if length >= m.wmHigh then SuspendRead(m, {WM})
    else UnsuspendRead(m, {WM})
  }

  /** The watermark test of a socket's read callback: at the mark or above it nothing is read. */
  function ReadReady(b: Bev): Bev {
    if b.wmHigh != 0 && b.inputLength >= b.wmHigh then SuspendRead(b, {WM}) else b
  }

  datatype Op =
    | OpSuspendRead(what: set<Reason>)
    | OpUnsuspendRead(what: set<Reason>)
    | OpSuspendWrite(what: set<Reason>)
    | OpUnsuspendWrite(what: set<Reason>)
    | OpEnable(event: set<Event>)
    | OpDisable(event: set<Event>)
    | OpDisableHard(event: set<Event>)
    | OpReadTimeout
    | OpWriteTimeout
    | OpSetWatermark(event: set<Event>, high: nat)
    | OpInputChanged(length: nat)
    | OpReadReady

  function Apply(b: Bev, op: Op): Bev {
    match op
    case OpSuspendRead(what) => SuspendRead(b, what)
    case OpUnsuspendRead(what) => UnsuspendRead(b, what)
    case OpSuspendWrite(what) => SuspendWrite(b, what)
    case OpUnsuspendWrite(what) => UnsuspendWrite(b, what)
    case OpEnable(event) => Enable(b, event)
    case OpDisable(event) => Disable(b, event)
    case OpDisableHard(event) => DisableHard(b, event)
    case OpReadTimeout => Disable(b, {EV_READ})
    case OpWriteTimeout => Disable(b, {EV_WRITE})
    case OpSetWatermark(events, high) => SetWatermark(b, events, high)
    case OpInputChanged(length) => InputChanged(b, length)
    case OpReadReady => ReadReady(b)
  }

  function Run(ops: seq<Op>): Bev {
    if ops == [] then Init() else Apply(Run(ops[..|ops| - 1]), ops[|ops| - 1])
  }

  // ----- the backend works exactly when it should

  predicate ReadingInStep(b: Bev) {
    EV_READ in b.active <==> EV_READ in b.enabled && b.readSuspended == {}
  }

  predicate WritingAllowed(b: Bev) {
    EV_WRITE in b.active ==> EV_WRITE in b.enabled && b.writeSuspended == {}
  }

  predicate WritingInStep(b: Bev) {
    EV_WRITE in b.active <==> EV_WRITE in b.enabled && b.writeSuspended == {}
  }

  /** Suspending names at least one reason. */
  predicate NamesReason(op: Op) {
    (op.OpSuspendRead? || op.OpSuspendWrite?) ==> op.what != {}
  }

  /** The operation has something to say about writing. */
  predicate TouchesWriting(op: Op) {
    match op
    case OpSuspendWrite(_) => true
    case OpUnsuspendWrite(_) => true
    case OpEnable(event) => EV_WRITE in event
    case OpDisable(event) => EV_WRITE in event
    case OpDisableHard(event) => EV_WRITE in event
    case OpWriteTimeout => true
    case _ => false
  }

  lemma ReadingStaysInStep(b: Bev, op: Op)
    requires NamesReason(op) && ReadingInStep(b)
    ensures ReadingInStep(Apply(b, op))
  {
    if op.OpSuspendRead? {
      var why :| why in op.what;
      assert why in b.readSuspended + op.what;
    }
  }

  lemma WritingStaysInStep(b: Bev, op: Op)
    requires NamesReason(op) && WritingAllowed(b)
    ensures WritingAllowed(Apply(b, op))
    ensures WritingInStep(b) || TouchesWriting(op) ==> WritingInStep(Apply(b, op))
  {
    if op.OpSuspendWrite? {
      var why :| why in op.what;
      assert why in b.writeSuspended + op.what;
    }
  }

  /**
    Over any interleaving: reading is active exactly when it is enabled and not
    suspended; writing is active only when it is enabled and not suspended, and
    exactly then once one operation has been about writing, and not before.
   */
  lemma {:induction false} BackendInStep(ops: seq<Op>)
    requires forall op :: op in ops ==> NamesReason(op)
    ensures ReadingInStep(Run(ops)) && WritingAllowed(Run(ops))
    ensures WritingInStep(Run(ops)) <==> exists op :: op in ops && TouchesWriting(op)
  {
    hide Apply, ReadingInStep, WritingAllowed, WritingInStep, TouchesWriting, NamesReason;
    if ops == [] {
      InitInStep();
    } else {
      var front, last := ops[..|ops| - 1], ops[|ops| - 1];
      assert ops == front + [last];
      BackendInStep(front);
      ReadingStaysInStep(Run(front), last);
      WritingStaysInStep(Run(front), last);
      if !TouchesWriting(last) {
        WritingUntouched(Run(front), last);
      }
    }
  }

  /** An operation that is not about writing leaves all of it as it was. */
  lemma WritingUntouched(b: Bev, op: Op)
    requires !TouchesWriting(op)
    ensures var a := Apply(b, op);
            && (EV_WRITE in a.active <==> EV_WRITE in b.active) && (EV_WRITE in a.enabled <==> EV_WRITE in b.enabled)
            && a.writeSuspended == b.writeSuspended && WritingInStep(a) == WritingInStep(b)
  {
  }

  /** At the start writing is enabled but not active. */
  lemma InitInStep()
    ensures ReadingInStep(Run([])) && WritingAllowed(Run([])) && !WritingInStep(Run([]))
  {
  }

  /**
    A suspension that names no reason turns the backend off all the same; that breaks
    the rule exactly when reading was on.
   */
  lemma EmptySuspensionBreaks(b: Bev, what: set<Reason>)
    requires ReadingInStep(b)
    ensures ReadingInStep(SuspendRead(b, what)) <==> what != {} || EV_READ !in b.active
  {
    if what != {} {
      ReadingStaysInStep(b, OpSuspendRead(what));
    } else {
      assert b.readSuspended + what == b.readSuspended;
    }
  }

  // ----- enabling lasts until the next operation that disables

  /** The operation turns the event on or off, as a user or a timeout asks for. */
  predicate Mentions(op: Op, e: Event) {
    match op
    case OpEnable(event) => e in event
    case OpDisable(event) => e in event
    case OpDisableHard(event) => e in event
    case OpReadTimeout => e == EV_READ
    case OpWriteTimeout => e == EV_WRITE
    case _ => false
  }

  /** The last operation about the event; |ops| if there is none. */
  function LastAbout(ops: seq<Op>, e: Event): (k: nat)
    ensures k <= |ops|
    ensures k < |ops| ==> Mentions(ops[k], e)
    ensures forall j :: 0 <= j < |ops| && (k == |ops| || k < j) ==> !Mentions(ops[j], e)
  {
    if ops == [] then 0
    else if Mentions(ops[|ops| - 1], e) then |ops| - 1
    else
      var k := LastAbout(ops[..|ops| - 1], e);
      if k == |ops| - 1 then |ops| else k
  }

  lemma OnlyMentionedChanges(b: Bev, op: Op, e: Event)
    ensures e in Apply(b, op).enabled <==> if Mentions(op, e) then op.OpEnable? else e in b.enabled
  {
  }

  /**
    After any run an event is enabled exactly when the last operation about it
    was `bufferevent_enable`, or there was none and the event is EV_WRITE:
    suspending, unsuspending and watermarks never forget what was asked for.
   */
  lemma {:induction false} EnabledAsLastAsked(ops: seq<Op>, e: Event)
    ensures var k := LastAbout(ops, e);
            e in Run(ops).enabled <==> if k < |ops| then ops[k].OpEnable? else e == EV_WRITE
  {
    if ops != [] {
      hide Apply, Mentions;
      EnabledAsLastAsked(ops[..|ops| - 1], e);
      OnlyMentionedChanges(Run(ops[..|ops| - 1]), ops[|ops| - 1], e);
    }
  }

  // ----- the suspended words are exact sets of reasons

  datatype Change = Change(suspend: bool, what: set<Reason>)

  /** The calls of `bufferevent_suspend_read` and `bufferevent_unsuspend_read` that an operation makes. */
  function ReadChanges(b: Bev, op: Op): seq<Change> {
    match op
    case OpSuspendRead(what) => [Change(true, what)]
    case OpUnsuspendRead(what) => [Change(false, what)]
    case OpSetWatermark(events, high) =>
      if EV_READ !in events || (high != 0 && b.inputLength == high) then []
      else [Change(high != 0 && b.inputLength > high, {WM})]
    case OpInputChanged(length) =>
      if b.wmEnabled then [Change(length >= b.wmHigh, {WM})] else []
    case OpReadReady =>
      if b.wmHigh != 0 && b.inputLength >= b.wmHigh then [Change(true, {WM})] else []
    case _ => []
  }

  function WriteChanges(op: Op): seq<Change> {
    match op
    case OpSuspendWrite(what) => [Change(true, what)]
    case OpUnsuspendWrite(what) => [Change(false, what)]
    case _ => []
  }

  function AllReadChanges(ops: seq<Op>): seq<Change> {
    if ops == [] then []
    else AllReadChanges(ops[..|ops| - 1]) + ReadChanges(Run(ops[..|ops| - 1]), ops[|ops| - 1])
  }

  function AllWriteChanges(ops: seq<Op>): seq<Change> {
    if ops == [] then [] else AllWriteChanges(ops[..|ops| - 1]) + WriteChanges(ops[|ops| - 1])
  }

  /** The last call that named the reason suspended for it. */
  predicate LastSuspends(changes: seq<Change>, r: Reason) {
    changes != [] &&
    var last := changes[|changes| - 1];
    if r in last.what then last.suspend else LastSuspends(changes[..|changes| - 1], r)
  }

  lemma LastSuspendsAppend(changes: seq<Change>, more: seq<Change>, r: Reason)
    requires |more| <= 1
    ensures LastSuspends(changes + more, r) <==>
              if more != [] && r in more[0].what then more[0].suspend else LastSuspends(changes, r)
  {
    if more == [] {
      assert changes + more == changes;
    } else {
      assert (changes + more)[..|changes|] == changes;
    }
  }

  lemma OneOperationChangesWords(b: Bev, op: Op, r: Reason)
    ensures var more := ReadChanges(b, op);
            && |more| <= 1
            && (r in Apply(b, op).readSuspended <==>
                  if more != [] && r in more[0].what then more[0].suspend else r in b.readSuspended)
    ensures var more := WriteChanges(op);
            && |more| <= 1
            && (r in Apply(b, op).writeSuspended <==>
                  if more != [] && r in more[0].what then more[0].suspend else r in b.writeSuspended)
  {
  }

  /** After any run, a reason is in the word exactly when the last call naming it was a suspend. */
  lemma {:induction false} WordsAreReasonSets(ops: seq<Op>, r: Reason)
    ensures r in Run(ops).readSuspended <==> LastSuspends(AllReadChanges(ops), r)
    ensures r in Run(ops).writeSuspended <==> LastSuspends(AllWriteChanges(ops), r)
  {
    if ops != [] {
      hide LastSuspends, Apply, ReadChanges, WriteChanges;
      var front, op := ops[..|ops| - 1], ops[|ops| - 1];
      OneOperationChangesWords(Run(front), op, r);
      WordsAreReasonSets(front, r);
      LastSuspendsAppend(AllReadChanges(front), ReadChanges(Run(front), op), r);
      LastSuspendsAppend(AllWriteChanges(front), WriteChanges(op), r);
    }
  }

  // ----- the read watermark

  /** The code that suspends or unsuspends reading for the watermark is in operations of its own. */
  predicate LeavesWatermarkReason(op: Op) {
    (op.OpSuspendRead? || op.OpUnsuspendRead?) ==> WM !in op.what
  }

  predicate WatermarkInv(b: Bev) {
    && (b.wmHigh != 0 ==> b.wmInstalled && b.wmEnabled)
    && (b.wmHigh == 0 ==> !b.wmEnabled && WM !in b.readSuspended)
    && (b.wmHigh != 0 && b.inputLength > b.wmHigh ==> WM in b.readSuspended)
    && (b.wmHigh != 0 && b.inputLength < b.wmHigh ==> WM !in b.readSuspended)
  }

  lemma ApplyKeepsWatermarkInv(b: Bev, op: Op)
    requires LeavesWatermarkReason(op) && WatermarkInv(b)
    ensures WatermarkInv(Apply(b, op))
  {
    assert WM in b.readSuspended + {WM};
  }

  /**
    Over any interleaving, with a high mark set: input above it means reading is
    suspended for the watermark, input below it means it is not. With none set
    the callback is off and the reason is clear.
   */
  lemma {:induction false} WatermarkHolds(ops: seq<Op>)
    requires forall op :: op in ops ==> LeavesWatermarkReason(op)
    ensures WatermarkInv(Run(ops))
  {
    if ops != [] {
      hide Apply, LeavesWatermarkReason, WatermarkInv;
      var front, last := ops[..|ops| - 1], ops[|ops| - 1];
      assert ops == front + [last];
      WatermarkHolds(front);
      ApplyKeepsWatermarkInv(Run(front), last);
    }
  }

  /**
    Right after the input changed, or a socket was ready for reading, the reason
    is set exactly when the mark is reached; right after a mark was set, equality
    leaves the reason as it was.
   */
  lemma WatermarkDecides(b: Bev, length: nat, high: nat)
    ensures WatermarkInv(b) && b.wmHigh != 0 ==>
              (WM in InputChanged(b, length).readSuspended <==> length >= b.wmHigh)
    ensures high != 0 ==>
              (WM in SetReadWatermark(b, high).readSuspended <==>
                 b.inputLength > high || (b.inputLength == high && WM in b.readSuspended))
    ensures WatermarkInv(b) && b.wmHigh != 0 ==>
              (WM in ReadReady(b).readSuspended <==> b.inputLength >= b.wmHigh)
  {
    assert WM in b.readSuspended + {WM};
  }

  lemma RunOfTwo(first: Op, second: Op)
    ensures Run([first, second]) == Apply(Apply(Init(), first), second)
  {
    hide Apply;
    assert [first, second][..1] == [first] && [first][..0] == [];
    assert Run([first]) == Apply(Run([]), first);
  }

  /** At equality the reason depends on the past: two runs with the same length and mark differ in it. */
  lemma EqualityDependsOnPast(n: nat)
    requires n != 0
    ensures var filled := Run([OpSetWatermark({EV_READ}, n), OpInputChanged(n)]);
            var marked := Run([OpInputChanged(n), OpSetWatermark({EV_READ}, n)]);
            && filled.inputLength == marked.inputLength == n
            && filled.wmHigh == marked.wmHigh == n
            && WM in filled.readSuspended && WM !in marked.readSuspended
  {
    RunOfTwo(OpSetWatermark({EV_READ}, n), OpInputChanged(n));
    RunOfTwo(OpInputChanged(n), OpSetWatermark({EV_READ}, n));
  }

  /** The mark, the length and a connection attempt change only by the operations that are about them. */
  lemma OnlyTheirOwnOperations(b: Bev, op: Op)
    ensures var a := Apply(b, op);
            && a.wmHigh == (if op.OpSetWatermark? && EV_READ in op.event then op.high else b.wmHigh)
            && a.inputLength == (if op.OpInputChanged? then op.length else b.inputLength)
            && (a.connecting <==> b.connecting && !op.OpDisableHard?)
  {
  }

  /** Watermarks and input never alter another reason, the write side or what is enabled. */
  lemma WatermarkAltersNothingElse(b: Bev, op: Op)
    requires op.OpSetWatermark? || op.OpInputChanged? || op.OpReadReady?
    ensures var a := Apply(b, op);
            && a.readSuspended - {WM} == b.readSuspended - {WM}
            && a.writeSuspended == b.writeSuspended && a.enabled == b.enabled
            && a.active - {EV_READ} == b.active - {EV_READ}
  {
    var a := Apply(b, op);
    forall r | r != WM ensures r in a.readSuspended <==> r in b.readSuspended {
    }
  }

  // ----- the code

  class Bufferevent {
    var enabled: set<Event>
    var active: set<Event>
    var readSuspended: set<Reason>
    var writeSuspended: set<Reason>
    var connecting: bool
    var wmHigh: nat
    var wmInstalled: bool
    var wmEnabled: bool
    var inputLength: nat

    ghost function View(): Bev
      reads this
    {
      Bev(enabled, active, readSuspended, writeSuspended, connecting, wmHigh, wmInstalled, wmEnabled, inputLength)
    }

    constructor ()
      ensures View() == Run([])
    {
      enabled, active, readSuspended, writeSuspended := {EV_WRITE}, {}, {}, {};
      connecting, wmHigh, wmInstalled, wmEnabled, inputLength := false, 0, false, false, 0;
    }

    method BackendEnable(event: set<Event>)
      modifies this`active
      ensures active == old(active) + event
    {
      active := active + event;
    }

    method BackendDisable(event: set<Event>)
      modifies this`active
      ensures active == old(active) - event
    {
      active := active - event;
    }

    method SuspendReading(what: set<Reason>)
      modifies this`active, this`readSuspended
      ensures View() == SuspendRead(old(View()), what)
    {
      if readSuspended == {} {
        BackendDisable({EV_READ});
      }
      readSuspended := readSuspended + what;
    }

    method UnsuspendReading(what: set<Reason>)
      modifies this`active, this`readSuspended
      ensures View() == UnsuspendRead(old(View()), what)
    {
      readSuspended := readSuspended - what;
      if readSuspended == {} && EV_READ in enabled {
        BackendEnable({EV_READ});
      }
    }

    method SuspendWriting(what: set<Reason>)
      modifies this`active, this`writeSuspended
      ensures View() == SuspendWrite(old(View()), what)
    {
      if writeSuspended == {} {
        BackendDisable({EV_WRITE});
      }
      writeSuspended := writeSuspended + what;
    }

    method UnsuspendWriting(what: set<Reason>)
      modifies this`active, this`writeSuspended
      ensures View() == UnsuspendWrite(old(View()), what)
    {
      writeSuspended := writeSuspended - what;
      if writeSuspended == {} && EV_WRITE in enabled {
        BackendEnable({EV_WRITE});
      }
    }

    method EnableEvents(event: set<Event>)
      modifies this`active, this`enabled
      ensures View() == Enable(old(View()), event)
    {
      var impl := event;
      if readSuspended != {} {
        impl := impl - {EV_READ};
      }
      if writeSuspended != {} {
        impl := impl - {EV_WRITE};
      }
      enabled := enabled + event;
      if impl != {} {
        BackendEnable(impl);
      } else {
        assert active + impl == active;
      }
    }

    method DisableEvents(event: set<Event>)
      modifies this`active, this`enabled
      ensures View() == Disable(old(View()), event)
    {
      enabled := enabled - event;
      BackendDisable(event);
    }

    method DisableEventsHard(event: set<Event>)
      modifies this`active, this`enabled, this`connecting
      ensures View() == DisableHard(old(View()), event)
    {
      enabled := enabled - event;
      connecting := false;
      BackendDisable(event);
    }

    method SetWatermarks(events: set<Event>, highmark: nat)
      modifies this
      ensures View() == SetWatermark(old(View()), events, highmark)
    {
      if EV_READ in events {
        wmHigh := highmark;
        if highmark != 0 {
          if !wmInstalled {
            wmInstalled := true;
          }
          wmEnabled := true;
          if inputLength > highmark {
            SuspendReading({WM});
          } else if inputLength < highmark {
            UnsuspendReading({WM});
          }
        } else {
          if wmInstalled {
            wmEnabled := false;
          }
          UnsuspendReading({WM});
        }
      }
    }

    /** `bufferevent_inbuf_wm_cb` */
    method WatermarkCallback()
      modifies this`active, this`readSuspended
      ensures View() == if inputLength >= wmHigh then SuspendRead(old(View()), {WM})
                        else UnsuspendRead(old(View()), {WM})
    {
      if inputLength >= wmHigh {
        SuspendReading({WM});
      } else {
        UnsuspendReading({WM});
      }
    }

    /** The watermark test of `bufferevent_readcb`; it returns early with `stop`. */
    method ReadReadiness() returns (stop: bool)
      modifies this
      ensures View() == ReadReady(old(View()))
      ensures stop <==> wmHigh != 0 && inputLength >= wmHigh
    {
      if wmHigh != 0 {
        var howmuch := wmHigh - inputLength;
        if howmuch <= 0 {
          SuspendReading({WM});
          return true;
        }
      }
      return false;
    }

    /** The buffer changes its length and invokes the callback. */
    method ChangeInput(length: nat)
      modifies this
      ensures View() == InputChanged(old(View()), length)
    {
      inputLength := length;
      if wmEnabled {
        WatermarkCallback();
      }
    }

    /** `bufferevent_generic_read_timeout_cb`, without the event callback it raises */
    method ReadTimeout()
      modifies this
      ensures View() == Apply(old(View()), OpReadTimeout)
    {
      DisableEvents({EV_READ});
    }

    /** `bufferevent_generic_write_timeout_cb`, without the event callback it raises */
    method WriteTimeout()
      modifies this
      ensures View() == Apply(old(View()), OpWriteTimeout)
    {
      DisableEvents({EV_WRITE});
    }
  }
}
