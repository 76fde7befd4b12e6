/** What the service does about each control: the callbacks, the statuses that Windows is told,
    and the end of the event loop. */
module ServiceControls {
  import opened Options
  import opened ServiceHandshake

  // ----- from a control to its callback

  /** Windows delivers the control at step i. */
  predicate DeliveredAt(run: seq<State>, i: int, code: Code) {
    0 < i < |run| && run[i - 1].control == Idle && run[i].control == Locking(code)
  }

  /** At step i the handler on thread t posts the event with this id for this control. */
  predicate PostedAt(run: seq<State>, i: int, t: Thread, code: Code, id: nat) {
    0 < i < |run| && Pc(run[i - 1], t) == Locked(code) && Pc(run[i], t) == Posted(code, id)
  }

  /** The control was delivered before step i, or is the startup of the service itself. */
  ghost predicate Requested(run: seq<State>, i: int, t: Thread, code: Code) {
    if t == ServiceMain then code == Startup else exists d | 0 < d <= i :: DeliveredAt(run, d, code)
  }

  /** Up to step k the event with this id was posted for this control. */
  ghost predicate PostedFor(run: seq<State>, k: int, t: Thread, code: Code, id: nat) {
    exists i | 0 < i <= k :: PostedAt(run, i, t, code, id) && Requested(run, i, t, code)
  }

  ghost predicate EventCaused(run: seq<State>, k: int, e: Event) {
    exists code :: PostedFor(run, k, e.from, code, e.id) && e.code == EventCode(code)
  }

  ghost predicate CallCaused(run: seq<State>, k: int, id: nat, call: Callback) {
    exists t: Thread, code :: PostedFor(run, k, t, code, id) && call == CallbackOf(EventCode(code))
  }

  lemma PostedStays(run: seq<State>, k: int, k': int, t: Thread, code: Code, id: nat)
    requires PostedFor(run, k, t, code, id) && k <= k'
    ensures PostedFor(run, k', t, code, id)
  {
    var i :| 0 < i <= k && PostedAt(run, i, t, code, id) && Requested(run, i, t, code);
    assert 0 < i <= k';
  }

  ghost predicate CausesInv(run: seq<State>, k: int)
    requires 0 <= k < |run|
  {
    var s := run[k];
    && (s.startup.Locking? || s.startup.Locked? ==> Requested(run, k, ServiceMain, s.startup.code))
    && (s.control.Locking? || s.control.Locked? ==> Requested(run, k, Dispatcher, s.control.code))
    && (forall e | e in InWork(s) :: EventCaused(run, k, e))
    && |s.past.calls| == s.past.handled
    && (forall id | 0 <= id < |s.past.calls| :: CallCaused(run, k, id, s.past.calls[id]))
  }

  // ----- what one step adds

  /** What a step of a handler leaves alone. */
  predicate HandlerFrame(s: State, s': State, t: Thread) {
    && s'.main == s.main && s'.past.calls == s.past.calls && s'.past.handled == s.past.handled
    && s'.quitting == s.quitting && s'.past.started == s.past.started
    && (if t == ServiceMain then s'.control == s.control else s'.startup == s.startup)
  }

  lemma SetStatusFrame(s: State, to: Option<Status>)
    ensures HandlerFrame(s, SetStatus(s, to), ServiceMain) && HandlerFrame(s, SetStatus(s, to), Dispatcher)
    ensures SetStatus(s, to).queue == s.queue
  {}

  lemma PostFrame(s: State, t: Thread, code: Code)
    ensures HandlerFrame(s, Post(s, t, code), ServiceMain) && HandlerFrame(s, Post(s, t, code), Dispatcher)
  {}

  lemma PostingStep(s: State, t: Thread)
    requires Posting(s, t)
    ensures HandlerFrame(s, HandlerStep(s, t), t) && Pc(HandlerStep(s, t), t) == Posted(Pc(s, t).code, s.past.posted)
  {
    var code := Pc(s, t).code;
    SetStatusFrame(s, StatusBefore(code));
    PostFrame(SetStatus(s, StatusBefore(code)), t, code);
    hide SetStatus, StatusBefore, Post;
  }

  lemma ReportingStep(s: State, t: Thread)
    requires Pc(s, t).Relocked? || Pc(s, t).Reporting?
    ensures HandlerFrame(s, HandlerStep(s, t), t) && HandlerStep(s, t).queue == s.queue
    ensures Pc(HandlerStep(s, t), t) == if Pc(s, t).Relocked? then Reporting else Idle
  {
    SetStatusFrame(s, StatusAfter(if Pc(s, t).Relocked? then Pc(s, t).code else Other));
    SetStatusFrame(s, Some(s.status));
    hide SetStatus, StatusAfter;
  }

  lemma SetPcFrame(s: State, t: Thread, pc: HandlerPc, owner: Option<Thread>)
    ensures var s' := SetPc(s, t, pc).(owner := owner); HandlerFrame(s, s', t) && s'.queue == s.queue && Pc(s', t) == pc
  {}

  lemma QuietStep(s: State, t: Thread)
    requires HandlerCanStep(s, t) && !Posting(s, t) && !Pc(s, t).Relocked? && !Pc(s, t).Reporting?
    ensures HandlerFrame(s, HandlerStep(s, t), t) && HandlerStep(s, t).queue == s.queue
    ensures !Pc(HandlerStep(s, t), t).Locking?
    ensures Pc(HandlerStep(s, t), t).Locked? ==> Pc(s, t) == Locking(Pc(HandlerStep(s, t), t).code)
  {
    var pc := Pc(s, t);
    match pc {
      case Locking(code) => SetPcFrame(s, t, Locked(code), Some(t));
      case Locked(_) => SetPcFrame(s, t, Reporting, None);
      case Posted(code, id) => SetPcFrame(s, t, Waiting(code, id), None);
      case Woken(code, id) => SetPcFrame(s, t, Relocked(code, id), Some(t));
    }
    hide Post, SetStatus, StatusBefore, StatusAfter, SetPc, Pc, HandlerFrame;
  }

  lemma HandlerMoves(s: State, t: Thread)
    requires HandlerCanStep(s, t)
    ensures HandlerFrame(s, HandlerStep(s, t), t)
    ensures !Pc(HandlerStep(s, t), t).Locking?
    ensures Pc(HandlerStep(s, t), t).Locked? ==> Pc(s, t) == Locking(Pc(HandlerStep(s, t), t).code)
    ensures !Posting(s, t) ==> HandlerStep(s, t).queue == s.queue
  {
    hide HandlerStep, HandlerFrame;
    if Posting(s, t) {
      PostingStep(s, t);
    } else if Pc(s, t).Relocked? || Pc(s, t).Reporting? {
      ReportingStep(s, t);
    } else {
      QuietStep(s, t);
    }
  }

  lemma WorkAdded(s: State, a: Action)
    requires Inv(s) && Enabled(s, a)
    ensures forall e | e in InWork(Step(s, a)) && e !in InWork(s) ::
              && a.Handle? && Pc(s, a.t).Locked? && Pc(Step(s, a), a.t) == Posted(Pc(s, a.t).code, s.past.posted)
              && e == Event(s.past.posted, a.t, EventCode(Pc(s, a.t).code))
  {
    if a.Handle? {
      if Posting(s, a.t) {
        PostWork(s, a.t);
        PostingStep(s, a.t);
      } else {
        HandlerMoves(s, a.t);
      }
      hide Inv, HandlerStep, Post;
    } else {
      WorkShrinks(s, a);
    }
  }

  lemma WorkShrinks(s: State, a: Action)
    requires Inv(s) && Enabled(s, a) && !a.Handle?
    ensures forall e | e in InWork(Step(s, a)) :: e in InWork(s)
  {
    if a.Main? {
      TakenFromWork(s, a.ok);
    } else {
      OutsideLeavesWork(s, a);
    }
    hide Inv, InWork, MainStep;
  }

  lemma TakenFromWork(s: State, ok: bool)
    requires MainCanStep(s, ok)
    ensures forall e | e in InWork(MainStep(s, ok)) :: e in InWork(s)
  {
    if s.main.Looping? && ok {
      assert [s.queue[0]] + s.queue[1..] == s.queue;
    } else {
      KeptOrDropped(s, MainStep(s, ok));
      hide InWork;
    }
  }

  lemma KeptOrDropped(s: State, s': State)
    requires s'.queue == s.queue
    requires s'.main.Handling? || s'.main.Acknowledging? ==> s.main.Handling? && s'.main.e == s.main.e
    ensures forall e | e in InWork(s') :: e in InWork(s)
  {}

  lemma OutsideLeavesWork(s: State, a: Action)
    requires Enabled(s, a) && !a.Handle? && !a.Main?
    ensures InWork(Step(s, a)) == InWork(s)
  {
    hide InWork, HandlerStep, HandlerCanStep, MainStep, MainCanStep, Wake;
    SameWork(s, Step(s, a));
  }

  lemma SameWork(s: State, s': State)
    requires s'.main == s.main && s'.queue == s.queue
    ensures InWork(s') == InWork(s)
  {}

  lemma CallsAdded(s: State, a: Action)
    requires Inv(s) && Enabled(s, a)
    ensures var s' := Step(s, a);
            if s.main.Handling? && a.Main? then
              && s'.past.calls == s.past.calls + [CallbackOf(s.main.e.code)] && s'.past.handled == s.past.handled + 1
              && s.main.e in InWork(s) && s.main.e.id == s.past.handled
            else s'.past.calls == s.past.calls && s'.past.handled == s.past.handled
  {
    if a.Main? && s.main.Handling? {
      InHand(s);
    } else if a.Handle? {
      HandlerMoves(s, a.t);
    }
    hide Inv, HandlerStep, HandlerCanStep, InWork, CallbackOf;
  }

  lemma InHand(s: State)
    requires Inv(s) && s.main.Handling?
    ensures s.main.e in InWork(s) && s.main.e.id == s.past.handled
  {
    assert InWork(s)[0] == s.main.e;
    hide LockInv, CodeInv, InWorkOf, FirstInv, WokenInv, NotPostedInv, StartupInv, StartInv;
  }

  /** A handler gets to its lock only from its start, which a control makes on the dispatcher
      thread. */
  lemma HandlerStarts(s: State, a: Action, t: Thread)
    requires Inv(s) && Enabled(s, a)
    requires Pc(Step(s, a), t).Locking? || Pc(Step(s, a), t).Locked?
    ensures var pc, code := Pc(s, t), Pc(Step(s, a), t).code;
            || pc == Locking(code) || pc == Locked(code)
            || (pc == Idle && Pc(Step(s, a), t) == Locking(code) && (t == ServiceMain ==> code == Startup))
  {
    if a.Handle? {
      hide Inv, HandlerStep, HandlerCanStep;
      HandlerMoves(s, a.t);
    } else {
      StartsOutside(s, a, t);
    }
  }

  lemma StartsOutside(s: State, a: Action, t: Thread)
    requires Inv(s) && Enabled(s, a) && !a.Handle?
    requires Pc(Step(s, a), t).Locking? || Pc(Step(s, a), t).Locked?
    ensures var pc, code := Pc(s, t), Pc(Step(s, a), t).code;
            || pc == Locking(code) || pc == Locked(code)
            || (pc == Idle && Pc(Step(s, a), t) == Locking(code) && (t == ServiceMain ==> code == Startup))
  {
    assert s.service.Registering? ==> s.startup == Idle by {
      assert StartInv(s);
    }
    hide Inv, InWork, CallbackOf;
    if a.Main? {
      MainMoves(s, a.ok);
      hide MainStep, MainCanStep;
    } else {
      hide MainStep, MainCanStep, HandlerStep;
    }
  }

  lemma MainMoves(s: State, ok: bool)
    requires MainCanStep(s, ok)
    ensures MainStep(s, ok).startup == s.startup || (s.startup.Waiting? && MainStep(s, ok).startup.Woken?)
    ensures MainStep(s, ok).control == s.control || (s.control.Waiting? && MainStep(s, ok).control.Woken?)
  {
    WakeMoves(s.startup);
    WakeMoves(s.control);
    hide CallbackOf, Wake;
  }

  lemma WakeMoves(pc: HandlerPc)
    ensures Wake(pc) == pc || (pc.Waiting? && Wake(pc).Woken?)
  {}

  // ----- over a run

  lemma RequestedStays(run: seq<State>, k: int, t: Thread, code: Code)
    requires 0 < k && Requested(run, k - 1, t, code)
    ensures Requested(run, k, t, code)
  {
    if t == Dispatcher {
      var d :| 0 < d <= k - 1 && DeliveredAt(run, d, code);
      assert 0 < d <= k;
    }
  }

  lemma HandlerRequested(run: seq<State>, k: int, a: Action, t: Thread)
    requires 0 < k < |run| && Inv(run[k - 1]) && Follows(run[k - 1], a, run[k]) && CausesInv(run, k - 1)
    requires Pc(run[k], t).Locking? || Pc(run[k], t).Locked?
    ensures Requested(run, k, t, Pc(run[k], t).code)
  {
    hide Inv, Step, Enabled;
    HandlerStarts(run[k - 1], a, t);
    var code := Pc(run[k], t).code;
    if Pc(run[k - 1], t) != Idle {
      RequestedStays(run, k, t, code);
    } else if t == Dispatcher {
      assert DeliveredAt(run, k, code);
    }
  }

  lemma EventStillCaused(run: seq<State>, k: int, a: Action, e: Event)
    requires 0 < k < |run| && Inv(run[k - 1]) && Follows(run[k - 1], a, run[k]) && CausesInv(run, k - 1)
    requires e in InWork(run[k])
    ensures EventCaused(run, k, e)
  {
    var s := run[k - 1];
    hide Inv, Step, Enabled, InWork, EventCode;
    if e in InWork(s) {
      var code :| PostedFor(run, k - 1, e.from, code, e.id) && e.code == EventCode(code);
      PostedStays(run, k - 1, k, e.from, code, e.id);
    } else {
      WorkAdded(s, a);
      var code := Pc(s, a.t).code;
      RequestedStays(run, k, a.t, code);
      assert PostedAt(run, k, a.t, code, e.id);
      assert PostedFor(run, k, e.from, code, e.id);
    }
  }

  lemma CallStillCaused(run: seq<State>, k: int, a: Action, id: nat)
    requires 0 < k < |run| && Inv(run[k - 1]) && Follows(run[k - 1], a, run[k]) && CausesInv(run, k - 1)
    requires id < |run[k].past.calls|
    ensures CallCaused(run, k, id, run[k].past.calls[id])
  {
    var s := run[k - 1];
    hide Inv, Step, Enabled, InWork, EventCode, CallbackOf, EventCaused, CallCaused;
    CallsAdded(s, a);
    if id < |s.past.calls| {
      assert CallCaused(run, k - 1, id, s.past.calls[id]);
      CallCausedStays(run, k, id, s.past.calls[id]);
    } else {
      assert EventCaused(run, k - 1, s.main.e);
      EventToCall(run, k, s.main.e);
    }
  }

  lemma CallCausedStays(run: seq<State>, k: int, id: nat, call: Callback)
    requires CallCaused(run, k - 1, id, call)
    ensures CallCaused(run, k, id, call)
  {
    hide PostedFor, EventCode, CallbackOf;
    var t: Thread, code :| PostedFor(run, k - 1, t, code, id) && call == CallbackOf(EventCode(code));
    PostedStays(run, k - 1, k, t, code, id);
  }

  lemma EventToCall(run: seq<State>, k: int, e: Event)
    requires EventCaused(run, k - 1, e)
    ensures CallCaused(run, k, e.id, CallbackOf(e.code))
  {
    hide PostedFor, EventCode, CallbackOf;
    var code :| PostedFor(run, k - 1, e.from, code, e.id) && e.code == EventCode(code);
    PostedStays(run, k - 1, k, e.from, code, e.id);
  }

  lemma CausesStep(run: seq<State>, k: int, a: Action)
    requires 0 < k < |run| && Inv(run[k - 1]) && Follows(run[k - 1], a, run[k]) && CausesInv(run, k - 1)
    ensures CausesInv(run, k)
  {
    CallsCounted(run, k, a);
    hide Inv, Step, Enabled, Follows, InWork, EventCaused, CallCaused, Requested;
    forall t: Thread | Pc(run[k], t).Locking? || Pc(run[k], t).Locked? ensures Requested(run, k, t, Pc(run[k], t).code) {
      HandlerRequested(run, k, a, t);
    }
    assert run[k].startup == Pc(run[k], ServiceMain) && run[k].control == Pc(run[k], Dispatcher);
    forall e | e in InWork(run[k]) ensures EventCaused(run, k, e) {
      EventStillCaused(run, k, a, e);
    }
    forall id | 0 <= id < |run[k].past.calls| ensures CallCaused(run, k, id, run[k].past.calls[id]) {
      CallStillCaused(run, k, a, id);
    }
  }

  lemma CallsCounted(run: seq<State>, k: int, a: Action)
    requires 0 < k < |run| && Inv(run[k - 1]) && Follows(run[k - 1], a, run[k]) && CausesInv(run, k - 1)
    ensures |run[k].past.calls| == run[k].past.handled
  {
    hide Inv, Step, Enabled, InWork, EventCaused, CallCaused, Requested;
    CallsAdded(run[k - 1], a);
  }

  lemma {:induction false} RunCauses(run: seq<State>, k: int)
    requires IsRun(run) && 0 <= k < |run|
    ensures CausesInv(run, k)
    decreases k
  {
    hide CausesInv, Inv, Follows;
    if k == 0 {
      StartCauses(run);
    } else {
      RunCauses(run, k - 1);
      RunKeepsInv(run, k - 1);
      assert Next(run[k - 1], run[k]);
      var a :| Follows(run[k - 1], a, run[k]);
      CausesStep(run, k, a);
    }
  }

  lemma StartCauses(run: seq<State>)
    requires IsRun(run)
    ensures CausesInv(run, 0)
  {}

  // ----- every event is handled with its own callback

  /** A posted event is still in work, or its callback is the one with its number. */
  predicate Settled(s: State, t: Thread, code: Code, id: nat) {
    if id < s.past.handled then id < |s.past.calls| && s.past.calls[id] == CallbackOf(EventCode(code))
    else Event(id, t, EventCode(code)) in InWork(s)
  }

  lemma WorkKept(s: State, a: Action, e: Event)
    requires Inv(s) && Enabled(s, a) && e in InWork(s) && e.id >= s.past.handled
    ensures e in InWork(Step(s, a))
  {
    if a.Main? {
      MainKeepsWork(s, a.ok, e);
    } else if a.Handle? {
      if Posting(s, a.t) {
        PostWork(s, a.t);
      } else {
        HandlerMoves(s, a.t);
        SameWork(s, HandlerStep(s, a.t));
      }
    } else {
      OutsideLeavesWork(s, a);
    }
    hide Inv, InWork, HandlerStep, MainStep;
  }

  lemma MainKeepsWork(s: State, ok: bool, e: Event)
    requires Inv(s) && MainCanStep(s, ok) && e in InWork(s) && e.id >= s.past.handled
    ensures e in InWork(MainStep(s, ok))
  {
    if s.main.Looping? && ok {
      assert [s.queue[0]] + s.queue[1..] == s.queue;
    } else if s.main.Acknowledging? {
      Acknowledged(s);
      assert InWork(s) == [s.main.e] + s.queue;
    }
    hide LockInv, CodeInv, InWorkOf, FirstInv, WokenInv, NotPostedInv, StartupInv, StartInv, CallbackOf, Wake;
  }

  lemma Acknowledged(s: State)
    requires Inv(s) && s.main.Acknowledging?
    ensures s.main.e.id == s.past.handled - 1
  {
    assert InWork(s)[0] == s.main.e;
    hide LockInv, CodeInv, InWorkOf, FirstInv, WokenInv, NotPostedInv, StartupInv, StartInv;
  }

  lemma HandledIsOwn(s: State, t: Thread, code: Code, id: nat)
    requires Inv(s) && s.main.Handling? && Event(id, t, EventCode(code)) in InWork(s) && id == s.past.handled
    ensures s.main.e.code == EventCode(code)
  {
    var w := InWork(s);
    var i :| 0 <= i < |w| && w[i] == Event(id, t, EventCode(code));
    assert w[0] == s.main.e && w[i].id == s.past.posted - |w| + i;
    hide LockInv, CodeInv, InWorkOf, FirstInv, WokenInv, NotPostedInv, StartupInv, StartInv, EventCode;
  }

  lemma SettledStays(s: State, a: Action, t: Thread, code: Code, id: nat)
    requires Inv(s) && Enabled(s, a) && |s.past.calls| == s.past.handled && Settled(s, t, code, id)
    ensures Settled(Step(s, a), t, code, id)
  {
    hide Inv, Enabled, Step, InWork, EventCode, CallbackOf;
    CallsAdded(s, a);
    if id >= s.past.handled {
      WorkKept(s, a, Event(id, t, EventCode(code)));
      if s.main.Handling? && a.Main? && id == s.past.handled {
        HandledIsOwn(s, t, code, id);
      }
    }
  }

  /** The step of a run to state k. */
  lemma StepTo(run: seq<State>, k: int) returns (a: Action)
    requires IsRun(run) && 0 < k < |run|
    ensures Inv(run[k - 1]) && Enabled(run[k - 1], a) && run[k] == Step(run[k - 1], a)
    ensures |run[k - 1].past.calls| == run[k - 1].past.handled
  {
    hide Inv, Step, Enabled, InWork, Requested, EventCaused, CallCaused;
    RunKeepsInv(run, k - 1);
    RunCauses(run, k - 1);
    assert Next(run[k - 1], run[k]);
    a :| Follows(run[k - 1], a, run[k]);
  }

  lemma {:induction false} PostedIsSettled(run: seq<State>, i: int, k: int, t: Thread, code: Code, id: nat)
    requires IsRun(run) && 0 < i <= k < |run| && PostedAt(run, i, t, code, id)
    ensures Settled(run[k], t, code, id)
    decreases k
  {
    hide Inv, Step, Enabled, Settled, IsRun;
    var a := StepTo(run, k);
    if i < k {
      PostedIsSettled(run, i, k - 1, t, code, id);
      SettledStays(run[k - 1], a, t, code, id);
    } else {
      JustPosted(run[k - 1], a, t, code, id);
    }
  }

  lemma JustPosted(s: State, a: Action, t: Thread, code: Code, id: nat)
    requires Inv(s) && Enabled(s, a) && Pc(s, t) == Locked(code) && Pc(Step(s, a), t) == Posted(code, id)
    ensures Settled(Step(s, a), t, code, id)
  {
    OnlyHandlerPosts(s, a, t);
    PostWork(s, t);
    PostingStep(s, t);
    QueueNumbers(s);
    hide Inv, InWork, HandlerStep, CallbackOf, EventCode;
  }

  lemma QueueNumbers(s: State)
    requires Inv(s)
    ensures s.past.handled <= s.past.posted
  {}

  lemma OnlyHandlerPosts(s: State, a: Action, t: Thread)
    requires Inv(s) && Enabled(s, a) && Pc(s, t).Locked? && Pc(Step(s, a), t).Posted?
    ensures a == Handle(t) && Posting(s, t)
  {
    if a.Handle? {
      HandlerMoves(s, a.t);
      hide Inv, Post, SetStatus;
    } else {
      hide Inv, InWork, CallbackOf;
    }
  }

  // ----- which callback each control leads to

  /** The callback a control asks for. */
  predicate AsksFor(code: Code, call: Callback) {
    || (code == Startup && call == CallStart)
    || ((code == Stop || code == Shutdown) && call == CallStop)
    || (code == Pause && call == CallPause)
    || (code == Continue && call == CallResume)
    || (code.Command? && call == CallProcessCommand(code.n))
  }

  lemma PostsItsCode(run: seq<State>, i: int, t: Thread, code: Code, id: nat)
    requires IsRun(run) && 0 < i < |run| && PostedAt(run, i, t, code, id)
    ensures AsksFor(code, CallbackOf(EventCode(code)))
  {
    assert Posts(code) by {
      hide Inv, Step, Enabled, IsRun;
      var a := StepTo(run, i);
      OnlyHandlerPosts(run[i - 1], a, t);
    }
    hide IsRun, Pc;
  }

  /** Every callback is that of a control that was delivered, posted with this number and not
      posted again; callbacks are made in the order of posting. */
  lemma CallbacksInOrder(run: seq<State>, k: int, id: nat) returns (t: Thread, code: Code)
    requires IsRun(run) && 0 <= k < |run| && id < |run[k].past.calls|
    ensures PostedFor(run, k, t, code, id) && AsksFor(code, run[k].past.calls[id])
  {
    RunCauses(run, k);
    hide IsRun, InWork, EventCaused;
    assert CallCaused(run, k, id, run[k].past.calls[id]);
    t, code :| PostedFor(run, k, t, code, id) && run[k].past.calls[id] == CallbackOf(EventCode(code));
    var i :| 0 < i <= k && PostedAt(run, i, t, code, id) && Requested(run, i, t, code);
    PostsItsCode(run, i, t, code, id);
  }

  /** And every control posted leads to its callback: that is the one with the number of its
      event, as soon as so many callbacks have returned. */
  lemma CallbackMade(run: seq<State>, i: int, k: int, t: Thread, code: Code, id: nat)
    requires IsRun(run) && 0 < i <= k < |run| && PostedAt(run, i, t, code, id)
    ensures |run[k].past.calls| == run[k].past.handled
    ensures if id < run[k].past.handled then AsksFor(code, run[k].past.calls[id])
            else exists e | e in InWork(run[k]) :: e.id == id && e.from == t
  {
    hide IsRun, Requested, EventCaused, CallCaused, PostedAt;
    RunCauses(run, k);
    PostedIsSettled(run, i, k, t, code, id);
    PostsItsCode(run, i, t, code, id);
  }

  // ----- the end of the event loop

  predicate QuitInv(s: State) {
    && (s.quitting <==> CallStop in s.past.calls)
    && (s.past.started <==> CallStart in s.past.calls)
    && (s.main.Exited? ==> s.quitting)
    && (s.main.Acknowledging? ==> s.past.calls != [] && s.past.calls[|s.past.calls| - 1] == CallbackOf(s.main.e.code))
  }

  lemma QuitStep(s: State, a: Action)
    requires Enabled(s, a) && QuitInv(s)
    ensures QuitInv(Step(s, a))
  {
    if a.Handle? {
      HandlerMoves(s, a.t);
      SameQuits(s, HandlerStep(s, a.t));
      hide QuitInv, HandlerStep, HandlerCanStep;
    } else if a.Main? {
      MainQuits(s, a.ok);
      hide QuitInv, MainStep;
    } else {
      hide QuitInv;
      OutsideQuits(s, a);
    }
  }

  lemma OutsideQuits(s: State, a: Action)
    requires Enabled(s, a) && QuitInv(s) && !a.Handle? && !a.Main?
    ensures QuitInv(Step(s, a))
  {
    hide QuitInv, HandlerStep, HandlerCanStep, MainStep, MainCanStep, Wake;
    if a.Service? {
      ServiceQuits(s, a.ok);
      hide ServiceStep, ServiceCanStep;
    } else {
      hide ServiceStep, ServiceCanStep;
      SameQuits(s, Step(s, a));
    }
  }

  lemma ServiceQuits(s: State, ok: bool)
    requires ServiceCanStep(s) && QuitInv(s)
    ensures QuitInv(ServiceStep(s, ok))
  {
    hide QuitInv;
    SameQuits(s, ServiceStep(s, ok));
  }

  lemma SameQuits(s: State, s': State)
    requires QuitInv(s) && s'.main == s.main && s'.past.calls == s.past.calls
    requires s'.quitting == s.quitting && s'.past.started == s.past.started
    ensures QuitInv(s')
  {}

  lemma MainQuits(s: State, ok: bool)
    requires MainCanStep(s, ok) && QuitInv(s)
    ensures QuitInv(MainStep(s, ok))
  {
    hide QuitInv, MainStep, MainCanStep;
    if s.main.Handling? {
      HandlingQuits(s, ok);
    } else if s.main.Looping? || s.main.Acknowledging? {
      LoopingQuits(s, ok);
    } else {
      Preparing(s, ok);
      PrepareLeaves(s, ok);
      LoopQuits(s, MainStep(s, ok));
    }
  }

  lemma LoopingQuits(s: State, ok: bool)
    requires MainCanStep(s, ok) && QuitInv(s) && (s.main.Looping? || s.main.Acknowledging?)
    ensures QuitInv(MainStep(s, ok))
  {
    hide QuitInv, Wake;
    LoopQuits(s, MainStep(s, ok));
  }

  lemma Preparing(s: State, ok: bool)
    requires MainCanStep(s, ok) && !s.main.Handling? && !s.main.Looping? && !s.main.Acknowledging?
    ensures !Ready(s)
  {}

  lemma HandlingQuits(s: State, ok: bool)
    requires s.main.Handling? && QuitInv(s)
    ensures QuitInv(MainStep(s, ok))
  {
    hide QuitInv, CallbackOf, Wake;
    CallQuits(s, MainStep(s, ok));
  }

  lemma CallQuits(s: State, s': State)
    requires QuitInv(s) && s.main.Handling? && s'.main == Acknowledging(s.main.e)
    requires s'.quitting == (s.quitting || s.main.e.code == Stop)
    requires s'.past.started == (s.past.started || s.main.e.code == Startup)
    requires s'.past.calls == s.past.calls + [CallbackOf(s.main.e.code)]
    ensures QuitInv(s')
  {
    var call := CallbackOf(s.main.e.code);
    assert forall c :: c in s'.past.calls <==> c in s.past.calls || c == call;
  }

  lemma LoopQuits(s: State, s': State)
    requires QuitInv(s) && s'.quitting == s.quitting && s'.past.started == s.past.started && s'.past.calls == s.past.calls
    requires !s'.main.Acknowledging? && (s'.main.Exited? ==> s.quitting)
    ensures QuitInv(s')
  {}

  lemma {:induction false} RunQuits(run: seq<State>, k: int)
    requires IsRun(run) && 0 <= k < |run|
    ensures QuitInv(run[k])
    decreases k
  {
    hide *;
    if k == 0 {
      StartQuits(run);
    } else {
      var a := StepTo(run, k);
      RunQuits(run, k - 1);
      QuitStep(run[k - 1], a);
    }
  }

  lemma StartQuits(run: seq<State>)
    requires IsRun(run)
    ensures QuitInv(run[0])
  {}

  /** quit() has been called if and only if a stop or shutdown control was delivered, its event
      posted, and that event's callback has returned; and the event loop ends in no other way. */
  lemma QuitsExactly(run: seq<State>, k: int)
    requires IsRun(run) && 0 <= k < |run|
    ensures run[k].quitting <==>
              exists code, id: nat :: PostedFor(run, k, Dispatcher, code, id) && (code == Stop || code == Shutdown) && id < run[k].past.handled
    ensures run[k].main.Exited? ==> run[k].quitting
  {
    hide IsRun, PostedFor;
    RunQuits(run, k);
    if run[k].quitting {
      var code, id := StopBehindQuit(run, k);
    }
    if code, id: nat :| PostedFor(run, k, Dispatcher, code, id) && (code == Stop || code == Shutdown) && id < run[k].past.handled {
      QuitBehindStop(run, k, code, id);
    }
  }

  lemma StopBehindQuit(run: seq<State>, k: int) returns (code: Code, id: nat)
    requires IsRun(run) && 0 <= k < |run| && CallStop in run[k].past.calls
    ensures PostedFor(run, k, Dispatcher, code, id) && (code == Stop || code == Shutdown) && id < run[k].past.handled
  {
    hide IsRun, InWork, EventCaused, CallCaused;
    RunCauses(run, k);
    var calls := run[k].past.calls;
    id :| 0 <= id < |calls| && calls[id] == CallStop;
    var t;
    t, code := CallbacksInOrder(run, k, id);
    assert t == Dispatcher;
  }

  lemma QuitBehindStop(run: seq<State>, k: int, code: Code, id: nat)
    requires IsRun(run) && 0 <= k < |run| && PostedFor(run, k, Dispatcher, code, id)
    requires (code == Stop || code == Shutdown) && id < run[k].past.handled
    ensures CallStop in run[k].past.calls
  {
    hide IsRun, Requested;
    var i :| 0 < i <= k && PostedAt(run, i, Dispatcher, code, id) && Requested(run, i, Dispatcher, code);
    CallbackMade(run, i, k, Dispatcher, code, id);
  }

  /** So a loop that was told to end was told so by Windows. */
  lemma EndsOnlyByStop(run: seq<State>, k: int) returns (d: int, code: Code)
    requires IsRun(run) && 0 <= k < |run| && (run[k].quitting || run[k].main.Exited?)
    ensures DeliveredAt(run, d, code) && d <= k && (code == Stop || code == Shutdown)
  {
    hide IsRun;
    QuitsExactly(run, k);
    var c, id: nat :| PostedFor(run, k, Dispatcher, c, id) && (c == Stop || c == Shutdown) && id < run[k].past.handled;
    var i :| 0 < i <= k && PostedAt(run, i, Dispatcher, c, id) && Requested(run, i, Dispatcher, c);
    d :| 0 < d <= i && DeliveredAt(run, d, c);
    code := c;
  }

  // ----- a stop always ends it

  /** quit() was called, or a stop event is still to be handled. */
  predicate StopDue(s: State) {
    s.quitting || (exists e | e in s.queue :: e.code == Stop) || (s.main.Handling? && s.main.e.code == Stop)
  }

  lemma StopDueStays(s: State, a: Action)
    requires Inv(s) && Enabled(s, a) && Ready(s) && StopDue(s)
    ensures Ready(Step(s, a)) && StopDue(Step(s, a))
  {
    if a.Main? {
      if s.main.Looping? && a.ok {
        assert forall e | e in s.queue :: e == s.queue[0] || e in s.queue[1..];
      }
      hide Inv, CallbackOf, Wake;
    } else if a.Handle? {
      HandlerMoves(s, a.t);
      if Posting(s, a.t) {
        PostedBehind(s, a.t);
      }
      hide Inv, HandlerStep, HandlerCanStep;
    } else {
      hide Inv;
    }
  }

  lemma PostedBehind(s: State, t: Thread)
    requires Posting(s, t)
    ensures forall e | e in s.queue :: e in HandlerStep(s, t).queue
  {
    SetStatusFrame(s, StatusBefore(Pc(s, t).code));
    hide SetStatus, StatusBefore;
  }

  /** A handler that waits with a stop or a shutdown has its event on the way. */
  lemma StopIsDue(s: State)
    requires Reachable(s) && s.control.Waiting? && (s.control.code == Stop || s.control.code == Shutdown)
    ensures Ready(s) && StopDue(s)
  {
    var run :| IsRun(run) && run[|run| - 1] == s;
    RunQuits(run, |run| - 1);
    ReachableKeepsInv(s);
    hide IsRun, CallbackOf;
    var own := Event(s.control.id, Dispatcher, Stop);
    assert InWorkOf(s, Dispatcher) && own in InWork(s);
    if s.main.Acknowledging? && s.main.e == own {
      assert CallbackOf(Stop) == CallStop by { StopCallback(); }
    }
  }

  lemma StopCallback()
    ensures CallbackOf(Stop) == CallStop
  {}

  ghost predicate AtRest(s: State) {
    forall a :: Internal(a) ==> !Enabled(s, a)
  }

  /** A run of the program itself, without new controls and spurious wakeups. */
  ghost predicate InternalRun(run: seq<State>, actions: seq<Action>) {
    && |run| == |actions| + 1 && Reachable(run[0])
    && forall i | 0 <= i < |actions| :: Internal(actions[i]) && Follows(run[i], actions[i], run[i + 1])
  }

  lemma {:induction false} StopDueInRun(run: seq<State>, actions: seq<Action>, i: nat)
    requires InternalRun(run, actions) && i < |run| && Ready(run[0]) && StopDue(run[0])
    ensures Reachable(run[i]) && Ready(run[i]) && StopDue(run[i])
  {
    if i > 0 {
      StopDueInRun(run, actions, i - 1);
      assert Follows(run[i - 1], actions[i - 1], run[i - 1 + 1]);
      hide Reachable, Inv, Step, Enabled, Ready, StopDue;
      ReachableKeepsInv(run[i - 1]);
      StopDueStays(run[i - 1], actions[i - 1]);
      var t := NextOf(run[i - 1], actions[i - 1]);
    }
  }

  lemma RestHasEnded(s: State)
    requires Reachable(s) && AtRest(s) && Ready(s) && StopDue(s)
    ensures s.main.Exited?
  {
    if !s.main.Exited? {
      NoDeadlock(s);
      assert s.main.Looping? && s.queue == [];
      assert Internal(Main(false)) && Enabled(s, Main(false));
    }
  }

  /** From every state in which the control handler waits with a stop or a shutdown, whatever
      else is going on, the program comes to the end of its event loop: however it goes on
      without new controls, when it rests the loop has ended. */
  lemma StopEnds(run: seq<State>, actions: seq<Action>)
    requires InternalRun(run, actions) && AtRest(run[|actions|])
    requires run[0].control.Waiting? && (run[0].control.code == Stop || run[0].control.code == Shutdown)
    ensures run[|actions|].main.Exited?
  {
    hide Reachable, AtRest, StopDue, Ready;
    StopIsDue(run[0]);
    StopDueInRun(run, actions, |actions|);
    RestHasEnded(run[|actions|]);
  }

  lemma InternalRunFrom(s: State, a: Action, rest: seq<State>, more: seq<Action>)
    requires Reachable(s) && Internal(a) && InternalRun(rest, more) && Follows(s, a, rest[0])
    ensures InternalRun([s] + rest, [a] + more)
  {
    hide Reachable, Internal, Follows;
    var run, actions := [s] + rest, [a] + more;
    forall i | 0 <= i < |actions| ensures Internal(actions[i]) && Follows(run[i], actions[i], run[i + 1]) {
      if i > 0 {
        assert Follows(rest[i - 1], more[i - 1], rest[i - 1 + 1]);
      }
    }
  }

  /** And it does come to rest. */
  lemma {:induction false} ComesToRest(s: State) returns (run: seq<State>, actions: seq<Action>)
    requires Reachable(s)
    ensures InternalRun(run, actions) && run[0] == s && AtRest(run[|actions|])
    decreases Work(s)
  {
    hide Reachable, Inv, Step, Enabled, Work;
    if AtRest(s) {
      run, actions := [s], [];
    } else {
      var a :| Internal(a) && Enabled(s, a);
      hide AtRest, InternalRun;
      ReachableKeepsInv(s);
      StepWorks(s, a);
      var t := NextOf(s, a);
      var rest, more := ComesToRest(t);
      InternalRunFrom(s, a, rest, more);
      run, actions := [s] + rest, [a] + more;
      EndOf(s, a, rest, more);
    }
  }

  lemma EndOf(s: State, a: Action, rest: seq<State>, more: seq<Action>)
    requires InternalRun(rest, more)
    ensures ([s] + rest)[|[a] + more|] == rest[|more|]
  {}

  // ----- one control from its delivery to its answer

  /** The service is up, and nothing is in work. */
  ghost predicate Quiet(s: State) {
    && Reachable(s) && s.dispatcher.Serving? && s.registered
    && s.main.Looping? && s.queue == [] && s.startup == Idle && s.control == Idle
  }

  /** What Windows is told about a control, the last of it when the handler returns. */
  function Told(code: Code, status: Status): seq<Status> {
    match code
    case Startup => [StartPending, Running, Running]
    case Stop => [StopPending, StopPending]
    case Pause => [PausePending, Paused, Paused]
    case Continue => [ContinuePending, Running, Running]
    case _ => if status == Stopped then [] else [status]
  }

  /** The handler on thread t has the mutex, and nothing else is in work. */
  ghost predicate HandlerAlone(s: State, t: Thread) {
    && Reachable(s) && s.main.Looping? && s.queue == [] && s.owner == Some(t) && Pc(s, t).Locked?
    && (if t == ServiceMain then s.control == Idle else s.startup == Idle)
  }

  lemma EventSent(s: State, t: Thread) returns (s': State)
    requires HandlerAlone(s, t) && Posts(Pc(s, t).code)
    ensures Reachable(s') && s'.main.Looping? && s'.owner == None
    ensures var code := Pc(s, t).code;
            && Pc(s', t) == Waiting(code, s.past.posted) && s'.queue == [Event(s.past.posted, t, EventCode(code))]
            && s'.past.calls == s.past.calls && s'.quitting == s.quitting
            && s'.past.reported == s.past.reported + (match StatusBefore(code) case Some(x) => [x] case None => [])
            && s'.status == (match StatusBefore(code) case Some(x) => x case None => s.status)
            && (if t == ServiceMain then s'.control == Idle else s'.startup == Idle)
  {
    NoPostBeforeHandler(s, t);
    hide Reachable, Inv, InWork, EventCode;
    s' := NextOf(s, Handle(t));
    s' := NextOf(s', Handle(t));
  }

  /** The event is handled, and its acknowledgement wakes the handler. */
  lemma EventReturned(s: State, t: Thread) returns (s': State)
    requires Reachable(s) && s.main.Looping? && s.owner == None && Pc(s, t).Waiting? && |s.queue| == 1
    requires if t == ServiceMain then s.control == Idle else s.startup == Idle
    ensures Reachable(s') && s'.main.Looping? && s'.owner == None && s'.queue == []
    ensures Pc(s', t) == Woken(Pc(s, t).code, Pc(s, t).id)
    ensures s'.past.calls == s.past.calls + [CallbackOf(s.queue[0].code)]
    ensures s'.quitting == (s.quitting || s.queue[0].code == Stop)
    ensures s'.past.reported == s.past.reported && s'.status == s.status
    ensures if t == ServiceMain then s'.control == Idle else s'.startup == Idle
  {
    hide Reachable, CallbackOf;
    s' := NextOf(s, Main(true));
    s' := NextOf(s', Main(true));
    s' := NextOf(s', Main(true));
  }

  /** The handler takes the mutex again and reports what was done. */
  lemma HandlerFinishes(s: State, t: Thread) returns (s': State)
    requires Reachable(s) && s.owner == None && Pc(s, t).Woken?
    requires if t == ServiceMain then s.control == Idle else s.startup == Idle
    ensures Reachable(s') && Pc(s', t) == Reporting && s'.main == s.main && s'.queue == s.queue
    ensures s'.past.calls == s.past.calls && s'.quitting == s.quitting
    ensures var after := StatusAfter(Pc(s, t).code);
            && s'.past.reported == s.past.reported + (match after case Some(x) => [x] case None => [])
            && s'.status == (match after case Some(x) => x case None => s.status)
    ensures if t == ServiceMain then s'.control == Idle else s'.startup == Idle
  {
    hide Reachable;
    s' := NextOf(s, Handle(t));
    s' := NextOf(s', Handle(t));
  }

  /** And returns, with the status once more. */
  lemma HandlerReturns(s: State, t: Thread) returns (s': State)
    requires Reachable(s) && Pc(s, t) == Reporting
    requires if t == ServiceMain then s.control == Idle else s.startup == Idle
    ensures Reachable(s') && Pc(s', t) == Idle && s'.main == s.main && s'.queue == s.queue
    ensures s'.past.calls == s.past.calls && s'.quitting == s.quitting
    ensures s'.past.reported == s.past.reported + if s.status == Stopped then [] else [s.status]
    ensures if t == ServiceMain then s'.control == Idle else s'.startup == Idle
  {
    hide Reachable;
    s' := NextOf(s, Handle(t));
  }

  lemma EventAnswered(s: State, t: Thread) returns (s': State)
    requires HandlerAlone(s, t) && Posts(Pc(s, t).code)
    ensures Reachable(s') && s'.main.Looping? && s'.queue == [] && s'.startup == Idle && s'.control == Idle
    ensures var code := Pc(s, t).code;
            && s'.past.reported == s.past.reported + Told(code, s.status)
            && (exists call :: s'.past.calls == s.past.calls + [call] && AsksFor(code, call))
            && (s'.quitting <==> s.quitting || code == Stop || code == Shutdown)
  {
    var code := Pc(s, t).code;
    s' := EventSent(s, t);
    s' := EventReturned(s', t);
    var call := CallbackOf(EventCode(code));
    s' := HandlerFinishes(s', t);
    s' := HandlerReturns(s', t);
    hide Reachable, HandlerAlone;
    assert s'.past.calls == s.past.calls + [call] && AsksFor(code, call);
  }

  /** Every control delivered while nothing else is in work is answered as follows: the
      callback it asks for, if any, is made, once; Windows is told of the change, pending and
      done, and of the status in the end; and the program is told to quit exactly by a stop or
      a shutdown. */
  lemma ControlServed(s: State, code: Code) returns (t: State)
    requires Quiet(s) && code != Startup
    ensures Reachable(t) && t.main.Looping? && t.queue == [] && t.startup == Idle && t.control == Idle
    ensures t.past.reported == s.past.reported + Told(code, s.status)
    ensures code.Interrogate? || code.Other? ==> t.past.calls == s.past.calls
    ensures !code.Interrogate? && !code.Other? ==> exists call :: t.past.calls == s.past.calls + [call] && AsksFor(code, call)
    ensures t.quitting <==> s.quitting || code == Stop || code == Shutdown
  {
    ReachableKeepsInv(s);
    assert s.owner == None by { Unowned(s); }
    hide Reachable, Inv;
    t := NextOf(s, Deliver(code));
    t := NextOf(t, Handle(Dispatcher));
    if Posts(code) {
      assert HandlerAlone(t, Dispatcher);
      t := EventAnswered(t, Dispatcher);
    } else {
      t := NextOf(t, Handle(Dispatcher));
      t := NextOf(t, Handle(Dispatcher));
    }
  }

  lemma Unowned(s: State)
    requires Inv(s) && !HoldsMutex(s.startup) && !HoldsMutex(s.control)
    ensures s.owner == None
  {
    match s.owner
    case None =>
    case Some(t) => TwoThreads(t);
  }

  lemma TwoThreads(t: Thread)
    ensures t == ServiceMain || t == Dispatcher
  {}

  /** The startup of the service likewise, when no control gets in front of it. */
  lemma StartupServed(s: State) returns (t: State)
    requires Reachable(s) && s.startup == Locking(Startup)
    requires s.main.Looping? && s.queue == [] && s.control == Idle
    ensures Reachable(t) && t.main.Looping? && t.queue == [] && t.startup == Idle && t.control == Idle
    ensures t.past.reported == s.past.reported + [StartPending, Running, Running]
    ensures t.past.calls == s.past.calls + [CallStart]
    ensures t.quitting == s.quitting
  {
    ReachableKeepsInv(s);
    assert s.owner == None by { Unowned(s); }
    hide Reachable, Inv;
    t := NextOf(s, Handle(ServiceMain));
    assert HandlerAlone(t, ServiceMain);
    t := EventAnswered(t, ServiceMain);
  }
}
