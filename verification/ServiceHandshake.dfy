/** How a Windows service is started and controlled: the main thread, the thread that
    Windows makes for serviceMain, and the dispatcher thread, which also runs the control
    handler. They meet at two semaphores, a mutex with a condition, and the event queue of
    the main thread. One step is one operation on these. */
module ServiceHandshake {
  import opened Options

  /** The two threads that run the control handler. */
  datatype Thread = ServiceMain | Dispatcher

  datatype Code = Startup | Stop | Pause | Continue | Interrogate | Shutdown | Command(n: nat) | Other

  datatype Status = Stopped | StartPending | StopPending | PausePending | ContinuePending | Running | Paused

  datatype Event = Event(id: nat, from: Thread, code: Code)

  datatype MainPc =
    | Begin | TryingSemaphore | CheckingCall | CreatingApplication | ReleasingSemaphore2
    | Looping | Handling(e: Event) | Acknowledging(e: Event)
    | Exited | GaveUp

  datatype ServicePc =
    | NotCalled | TakingArgs | ReleasingSemaphore | AcquiringSemaphore2 | Registering | InHandler | Returned

  datatype DispatcherPc = NotRunning | Calling | Serving | Failing | Finished

  /** The control handler; the id is that of the event it has posted. */
  datatype HandlerPc =
    | Idle
    | Locking(code: Code)
    | Locked(code: Code)
    | Posted(code: Code, id: nat)
    | Waiting(code: Code, id: nat)
    | Woken(code: Code, id: nat)
    | Relocked(code: Code, id: nat)
    | Reporting

  datatype State = State(
    main: MainPc, service: ServicePc, dispatcher: DispatcherPc,
    startup: HandlerPc, control: HandlerPc,      // the handler on each of the two threads
    startSemaphore: nat, startSemaphore2: nat,
    success: bool,                               // HandlerThread::success
    args: bool,                                  // serviceArgs have been received
    controllerHandler: bool,                     // it exists
    registered: bool,                            // the control handler, with Windows
    owner: Option<Thread>,                       // of the mutex
    queue: seq<Event>,
    status: Status,
    quitting: bool,                              // quit() was called
    past: History)

  /** Whether the startup event was posted, and whether another event was then in work. */
  datatype StartupPost = NotPosted | InFront | Behind

  /** The callbacks of handleCustomEvent; none for an event of another type. */
  datatype Callback = CallStart | CallStop | CallPause | CallResume | CallProcessCommand(n: nat) | CallNothing

  /** What has happened so far. */
  datatype History = History(
    posted: nat, handled: nat,                   // events posted; events whose callback has returned
    firstBy: Option<Thread>,                     // who posted the first event
    startupPost: StartupPost,
    started: bool,                               // start() has returned
    reported: seq<Status>,                       // to Windows
    calls: seq<Callback>,                        // of QtServiceBase, by the event loop
    spurious: bool)                              // a wait ended without wakeAll

  /** ok chooses the outcome of what can fail, time out or be left undone. */
  datatype Action =
    | Main(ok: bool)
    | Service(ok: bool)
    | Dispatch(ok: bool)
    | Deliver(code: Code)        // Windows hands a control to the dispatcher
    | Handle(t: Thread)
    | WakeUp(t: Thread)          // a spurious wakeup

  function Initial(): State {
    State(Begin, NotCalled, NotRunning, Idle, Idle, 0, 0, true, false, false, false, None, [], Stopped, false,
          History(0, 0, None, NotPosted, false, [], [], false))
  }

  function Pc(s: State, t: Thread): HandlerPc {
    if t == ServiceMain then s.startup else s.control
  }

  function SetPc(s: State, t: Thread, pc: HandlerPc): State {
    if t == ServiceMain then s.(startup := pc) else s.(control := pc)
  }

  /** The events not yet acknowledged, in the order of posting. */
  function InWork(s: State): seq<Event> {
    (if s.main.Handling? || s.main.Acknowledging? then [s.main.e] else []) + s.queue
  }

  // ----- the control handler

  predicate Posts(code: Code) { !code.Interrogate? && !code.Other? }

  function EventCode(code: Code): Code { if code == Shutdown then Stop else code }

  function SetStatus(s: State, to: Option<Status>): State {
    match to
    case None => s
    case Some(status) => s.(status := status, past := s.past.(reported := s.past.reported + [status]))
  }

  /** What is reported before the event is posted, and after its acknowledgement. */
  function StatusBefore(code: Code): Option<Status> {
    match code
    case Startup => Some(StartPending)
    case Stop => Some(StopPending)
    case Pause => Some(PausePending)
    case Continue => Some(ContinuePending)
    case _ => None
  }

  function StatusAfter(code: Code): Option<Status> {
    match code
    case Startup => Some(Running)
    case Pause => Some(Paused)
    case Continue => Some(Running)
    case _ => None
  }

  predicate HandlerCanStep(s: State, t: Thread) {
    match Pc(s, t)
    case Idle => false
    case Waiting(_, _) => false
    case Locking(_) => s.owner == None
    case Woken(_, _) => s.owner == None
    case _ => true
  }

  function Post(s: State, t: Thread, code: Code): State {
    s.(queue := if s.controllerHandler then s.queue + [Event(s.past.posted, t, EventCode(code))] else s.queue,
       past := s.past.(
         posted := s.past.posted + 1,
         firstBy := if s.past.posted == 0 then Some(t) else s.past.firstBy,
         startupPost :=
           if t == Dispatcher then s.past.startupPost else if InWork(s) == [] then InFront else Behind))
  }

  function HandlerStep(s: State, t: Thread): State
    requires HandlerCanStep(s, t)
  {
    match Pc(s, t)
    case Locking(code) => SetPc(s, t, Locked(code)).(owner := Some(t))
    case Locked(code) =>
      if Posts(code) then SetPc(Post(SetStatus(s, StatusBefore(code)), t, code), t, Posted(code, s.past.posted))
      else SetPc(s, t, Reporting).(owner := None)
    case Posted(code, id) => SetPc(s, t, Waiting(code, id)).(owner := None)
    case Woken(code, id) => SetPc(s, t, Relocked(code, id)).(owner := Some(t))
    case Relocked(code, id) => SetPc(SetStatus(s, StatusAfter(code)), t, Reporting).(owner := None)
    case Reporting => SetPc(if s.status == Stopped then s else SetStatus(s, Some(s.status)), t, Idle)
  }

  function Wake(pc: HandlerPc): HandlerPc {
    if pc.Waiting? then Woken(pc.code, pc.id) else pc
  }

  // ----- the three threads

  function CallbackOf(code: Code): Callback {
    match code
    case Startup => CallStart
    case Stop => CallStop
    case Pause => CallPause
    case Continue => CallResume
    case Command(n) => CallProcessCommand(n)
    case _ => CallNothing
  }

  predicate MainCanStep(s: State, ok: bool) {
    match s.main
    case TryingSemaphore => ok ==> s.startSemaphore > 0
    case Looping => if ok then s.queue != [] else s.quitting
    case Acknowledging(_) => s.owner == None
    case Exited => false
    case GaveUp => false
    case _ => true
  }

  /** QtServiceBasePrivate::start up to the end of executeApplication, and handleCustomEvent. */
  function MainStep(s: State, ok: bool): State
    requires MainCanStep(s, ok)
  {
    match s.main
    case Begin => s.(main := TryingSemaphore, dispatcher := Calling)
    case TryingSemaphore =>
      if ok then s.(main := CheckingCall, startSemaphore := s.startSemaphore - 1) else s.(main := GaveUp)
    case CheckingCall => s.(main := if s.success then CreatingApplication else GaveUp)
    case CreatingApplication =>
      if ok then s.(main := ReleasingSemaphore2, controllerHandler := true) else s.(main := GaveUp)
    case ReleasingSemaphore2 => s.(main := Looping, startSemaphore2 := s.startSemaphore2 + 1)
    case Looping => if ok then s.(main := Handling(s.queue[0]), queue := s.queue[1..]) else s.(main := Exited)
    case Handling(e) =>
      s.(main := Acknowledging(e), quitting := s.quitting || e.code == Stop,
         past := s.past.(
           handled := s.past.handled + 1,
           started := s.past.started || e.code == Startup,
           calls := s.past.calls + [CallbackOf(e.code)]))
    case Acknowledging(e) => s.(main := Looping, startup := Wake(s.startup), control := Wake(s.control))
  }

  predicate ServiceCanStep(s: State) {
    match s.service
    case NotCalled => false
    case AcquiringSemaphore2 => s.startSemaphore2 > 0
    case InHandler => s.startup == Idle
    case Returned => false
    case _ => true
  }

  /** serviceMain */
  function ServiceStep(s: State, ok: bool): State
    requires ServiceCanStep(s)
  {
    match s.service
    case TakingArgs => s.(service := ReleasingSemaphore, args := true)
    case ReleasingSemaphore => s.(service := AcquiringSemaphore2, startSemaphore := s.startSemaphore + 1)
    case AcquiringSemaphore2 => s.(service := Registering, startSemaphore2 := s.startSemaphore2 - 1)
    case Registering =>
      if ok then s.(service := InHandler, registered := true, startup := Locking(Startup)) else s.(service := Returned)
    case InHandler => s.(service := Returned)
  }

  /** HandlerThread::run: StartServiceCtrlDispatcher fails, or calls serviceMain and serves. */
  function DispatcherStep(s: State, ok: bool): State
    requires s.dispatcher.Calling? || s.dispatcher.Failing?
  {
    if s.dispatcher.Calling? then
      if ok then s.(dispatcher := Serving, service := TakingArgs) else s.(dispatcher := Failing, success := false)
    else s.(dispatcher := Finished, startSemaphore := s.startSemaphore + 1)
  }

  predicate Enabled(s: State, a: Action) {
    match a
    case Main(ok) => MainCanStep(s, ok)
    case Service(_) => ServiceCanStep(s)
    case Dispatch(_) => s.dispatcher.Calling? || s.dispatcher.Failing?
    case Deliver(code) => s.dispatcher.Serving? && s.registered && s.control == Idle && code != Startup
    case Handle(t) => HandlerCanStep(s, t)
    case WakeUp(t) => Pc(s, t).Waiting?
  }

  function Step(s: State, a: Action): State
    requires Enabled(s, a)
  {
    match a
    case Main(ok) => MainStep(s, ok)
    case Service(ok) => ServiceStep(s, ok)
    case Dispatch(ok) => DispatcherStep(s, ok)
    case Deliver(code) => s.(control := Locking(code))
    case Handle(t) => HandlerStep(s, t)
    case WakeUp(t) => SetPc(s, t, Wake(Pc(s, t))).(past := s.past.(spurious := true))
  }

  predicate Follows(s: State, a: Action, t: State) {
    Enabled(s, a) && t == Step(s, a)
  }

  ghost predicate Next(s: State, t: State) {
    exists a :: Follows(s, a, t)
  }

  /** Every interleaving of the threads. */
  ghost predicate IsRun(run: seq<State>) {
    && run != [] && run[0] == Initial()
    && forall i | 0 < i < |run| :: Next(run[i - 1], run[i])
  }

  ghost predicate Reachable(s: State) {
    exists run :: IsRun(run) && run[|run| - 1] == s
  }

  // ----- invariants

  /** The event loop runs or has run. */
  predicate Ready(s: State) {
    s.main.Looping? || s.main.Handling? || s.main.Acknowledging? || s.main.Exited?
  }

  predicate StartInv(s: State) {
    && (s.service.Registering? || s.service.InHandler? || s.service.Returned? || s.startSemaphore2 > 0 ==> Ready(s))
    && (s.controllerHandler <==> s.main.ReleasingSemaphore2? || Ready(s))
    && (s.registered ==> s.service.InHandler? || s.service.Returned?)
    && (s.service.InHandler? ==> s.registered)
    && (s.startup != Idle ==> s.service.InHandler?)
    && (s.control != Idle ==> s.registered && s.dispatcher.Serving?)
    && (s.dispatcher.NotRunning? <==> s.main.Begin?)
    && (s.dispatcher.Serving? <==> !s.service.NotCalled?)
    && (s.success <==> !s.dispatcher.Failing? && !s.dispatcher.Finished?)
    && (s.args <==> !s.service.NotCalled? && !s.service.TakingArgs?)
    && ((s.startSemaphore > 0 || s.main.CheckingCall?) && s.success ==> s.args)
    && (s.main.CreatingApplication? || s.main.ReleasingSemaphore2? || Ready(s) ==> s.success && s.args)
  }

  predicate HoldsMutex(pc: HandlerPc) {
    pc.Locked? || pc.Posted? || pc.Relocked?
  }

  predicate LockInv(s: State) {
    && (HoldsMutex(s.startup) <==> s.owner == Some(ServiceMain))
    && (HoldsMutex(s.control) <==> s.owner == Some(Dispatcher))
  }

  predicate CodeInv(s: State) {
    && (s.startup != Idle && !s.startup.Reporting? ==> s.startup.code == Startup)
    && (s.control != Idle && !s.control.Reporting? ==> s.control.code != Startup)
  }

  /** Consecutive ids up to the last one posted. */
  predicate Consecutive(es: seq<Event>, posted: nat) {
    forall i | 0 <= i < |es| :: es[i].id == posted - |es| + i
  }

  predicate QueueInv(s: State) {
    && s.past.posted == s.past.handled + |s.queue| + (if s.main.Handling? then 1 else 0)
    && Consecutive(InWork(s), s.past.posted)
    && (s.past.posted > 0 ==> s.controllerHandler)
    && (s.main.Acknowledging? ==> s.past.handled > 0)
  }

  predicate InWorkOf(s: State, t: Thread) {
    var pc := Pc(s, t);
    pc.Posted? || pc.Waiting? ==> Event(pc.id, t, EventCode(pc.code)) in InWork(s)
  }

  predicate FirstInv(s: State) {
    && (s.past.posted == 0 <==> s.past.firstBy == None)
    && (s.past.firstBy == Some(ServiceMain) && s.past.handled > 0 ==> s.past.started)
    && (s.past.firstBy == Some(ServiceMain) && s.past.handled == 0 ==> InWork(s) != [] && InWork(s)[0].code == Startup)
  }

  /** Until the startup event is posted there is none, and start() is not called. */
  predicate NotPostedInv(s: State) {
    && (s.startup.Locking? || s.startup.Locked? || s.service.Registering? || !s.registered ==> s.past.startupPost.NotPosted?)
    && (s.past.startupPost.NotPosted? ==>
          !s.startup.Posted? && !s.startup.Waiting? && !s.past.started && forall e | e in InWork(s) :: e.code != Startup)
  }

  /** While the startup handler waits: which event comes first, and whether start() has
      returned. */
  predicate StartupInv(s: State) {
    s.startup.Posted? || s.startup.Waiting? ==>
      && InWork(s) != []
      && (s.past.startupPost.InFront? <==> InWork(s)[0].id == s.startup.id)
      && (s.past.started <==> s.main.Acknowledging? && InWork(s)[0].id == s.startup.id)
      && (forall e | e in InWork(s) :: e.code == Startup <==> e.id == s.startup.id)
  }

  predicate HasWoken(s: State) {
    s.startup.Woken? || s.startup.Relocked? || s.control.Woken? || s.control.Relocked?
    || s.status == Running || Running in s.past.reported
  }

  predicate WokenInv(s: State) {
    HasWoken(s) ==> s.past.handled > 0 || s.past.spurious
  }

  ghost predicate Inv(s: State) {
    && StartInv(s) && LockInv(s) && CodeInv(s) && QueueInv(s)
    && InWorkOf(s, ServiceMain) && InWorkOf(s, Dispatcher)
    && FirstInv(s) && WokenInv(s) && NotPostedInv(s) && StartupInv(s)
  }

  lemma InitialInv()
    ensures Inv(Initial())
  {}

  // ----- each step keeps the invariant

  lemma Untouched(s: State, s': State)
    requires QueueInv(s) && FirstInv(s)
    requires s'.queue == s.queue && s'.main == s.main && s'.controllerHandler == s.controllerHandler
    requires s'.past.posted == s.past.posted && s'.past.handled == s.past.handled
    requires s'.past.firstBy == s.past.firstBy && s'.past.started == s.past.started
    ensures QueueInv(s') && FirstInv(s') && InWork(s') == InWork(s)
  {}

  lemma ConsecutiveNext(es: seq<Event>, posted: nat, e: Event)
    requires Consecutive(es, posted) && e.id == posted
    ensures Consecutive(es + [e], posted + 1)
  {}

  lemma PrepareKeeps(s: State, ok: bool)
    requires Inv(s) && MainCanStep(s, ok) && !Ready(s)
    ensures Inv(MainStep(s, ok))
  {
    assert InWork(s) == s.queue == InWork(MainStep(s, ok));
  }

  lemma TakeKeeps(s: State, ok: bool)
    requires Inv(s) && MainCanStep(s, ok) && s.main.Looping?
    ensures Inv(MainStep(s, ok))
  {
    if ok {
      assert [s.queue[0]] + s.queue[1..] == s.queue;
    }
    assert InWork(s) == InWork(MainStep(s, ok));
  }

  lemma CallKeeps(s: State, ok: bool)
    requires Inv(s) && MainCanStep(s, ok) && s.main.Handling?
    ensures Inv(MainStep(s, ok))
  {
    assert InWork(s) == InWork(MainStep(s, ok));
  }

  lemma AcknowledgeKeeps(s: State, ok: bool)
    requires Inv(s) && MainCanStep(s, ok) && s.main.Acknowledging?
    ensures Inv(MainStep(s, ok))
  {
    assert InWork(s)[1..] == InWork(MainStep(s, ok));
  }

  lemma ServiceKeeps(s: State, ok: bool)
    requires Inv(s) && ServiceCanStep(s)
    ensures Inv(ServiceStep(s, ok))
  {
    Untouched(s, ServiceStep(s, ok));
  }

  lemma DispatcherKeeps(s: State, ok: bool)
    requires Inv(s) && (s.dispatcher.Calling? || s.dispatcher.Failing?)
    ensures Inv(DispatcherStep(s, ok))
  {
    Untouched(s, DispatcherStep(s, ok));
  }

  predicate Posting(s: State, t: Thread) {
    Pc(s, t).Locked? && Posts(Pc(s, t).code)
  }

  lemma PostKeeps(s: State, t: Thread)
    requires Inv(s) && HandlerCanStep(s, t) && Posting(s, t)
    ensures Inv(HandlerStep(s, t))
  {
    PostKeepsQueue(s, t);
    PostKeepsFirst(s, t);
    PostKeepsNotPosted(s, t);
    if t == ServiceMain {
      StartupPosted(s);
    } else {
      ControlPosted(s);
    }
    PostKeepsWork(s, t);
    PostKeepsRest(s, t);
  }

  lemma PostWork(s: State, t: Thread)
    requires Inv(s) && HandlerCanStep(s, t) && Posting(s, t)
    ensures InWork(HandlerStep(s, t)) == InWork(s) + [Event(s.past.posted, t, EventCode(Pc(s, t).code))]
  {}

  lemma PostCounts(s: State, t: Thread)
    requires Inv(s) && HandlerCanStep(s, t) && Posting(s, t)
    ensures var s' := HandlerStep(s, t);
            && s'.main == s.main && s'.controllerHandler && |s'.queue| == |s.queue| + 1
            && s'.past.posted == s.past.posted + 1 && s'.past.handled == s.past.handled
  {}

  lemma PostKeepsQueue(s: State, t: Thread)
    requires Inv(s) && HandlerCanStep(s, t) && Posting(s, t)
    ensures QueueInv(HandlerStep(s, t))
  {
    var s' := HandlerStep(s, t);
    PostWork(s, t);
    PostCounts(s, t);
    ConsecutiveNext(InWork(s), s.past.posted, Event(s.past.posted, t, EventCode(Pc(s, t).code)));
    assert Consecutive(InWork(s'), s'.past.posted);
  }

  lemma PostKeepsFirst(s: State, t: Thread)
    requires Inv(s) && HandlerCanStep(s, t) && Posting(s, t)
    ensures FirstInv(HandlerStep(s, t))
  {
    PostWork(s, t);
  }

  lemma PostKeepsNotPosted(s: State, t: Thread)
    requires Inv(s) && HandlerCanStep(s, t) && Posting(s, t)
    ensures NotPostedInv(HandlerStep(s, t))
  {
    PostWork(s, t);
  }

  lemma StartupPosted(s: State)
    requires Inv(s) && HandlerCanStep(s, ServiceMain) && Posting(s, ServiceMain)
    ensures StartupInv(HandlerStep(s, ServiceMain))
  {
    PostWork(s, ServiceMain);
  }

  lemma ControlPosted(s: State)
    requires Inv(s) && HandlerCanStep(s, Dispatcher) && Posting(s, Dispatcher)
    ensures StartupInv(HandlerStep(s, Dispatcher))
  {
    PostWork(s, Dispatcher);
  }

  lemma PostKeepsWork(s: State, t: Thread)
    requires Inv(s) && HandlerCanStep(s, t) && Posting(s, t)
    ensures InWorkOf(HandlerStep(s, t), ServiceMain) && InWorkOf(HandlerStep(s, t), Dispatcher)
  {
    PostWork(s, t);
  }

  lemma PostKeepsRest(s: State, t: Thread)
    requires Inv(s) && HandlerCanStep(s, t) && Posting(s, t)
    ensures var s' := HandlerStep(s, t); StartInv(s') && LockInv(s') && CodeInv(s') && WokenInv(s')
  {}

  lemma AcquireKeeps(s: State, t: Thread)
    requires Inv(s) && HandlerCanStep(s, t) && (Pc(s, t).Locking? || Pc(s, t).Woken?)
    ensures Inv(HandlerStep(s, t))
  {
    Untouched(s, HandlerStep(s, t));
  }

  lemma WaitKeeps(s: State, t: Thread)
    requires Inv(s) && HandlerCanStep(s, t) && !Posting(s, t) && (Pc(s, t).Locked? || Pc(s, t).Posted?)
    ensures Inv(HandlerStep(s, t))
  {
    Untouched(s, HandlerStep(s, t));
  }

  lemma FinishKeeps(s: State, t: Thread)
    requires Inv(s) && HandlerCanStep(s, t) && Pc(s, t).Relocked?
    ensures Inv(HandlerStep(s, t))
  {
    Untouched(s, HandlerStep(s, t));
  }

  lemma ReportKeepsWoken(s: State, t: Thread)
    requires WokenInv(s) && HandlerCanStep(s, t) && Pc(s, t).Reporting?
    ensures WokenInv(HandlerStep(s, t))
  {}

  lemma ReportKeepsStart(s: State, t: Thread)
    requires Inv(s) && HandlerCanStep(s, t) && Pc(s, t).Reporting?
    ensures StartInv(HandlerStep(s, t)) && LockInv(HandlerStep(s, t)) && CodeInv(HandlerStep(s, t))
  {
    hide QueueInv, InWorkOf, FirstInv, WokenInv, NotPostedInv, StartupInv;
  }

  lemma ReportKeepsWork(s: State, t: Thread)
    requires Inv(s) && HandlerCanStep(s, t) && Pc(s, t).Reporting?
    ensures InWorkOf(HandlerStep(s, t), ServiceMain) && InWorkOf(HandlerStep(s, t), Dispatcher)
  {
    Untouched(s, HandlerStep(s, t));
    hide StartInv, LockInv, CodeInv, WokenInv, NotPostedInv, StartupInv, InWork;
  }

  lemma ReportKeepsStartup(s: State, t: Thread)
    requires Inv(s) && HandlerCanStep(s, t) && Pc(s, t).Reporting?
    ensures NotPostedInv(HandlerStep(s, t)) && StartupInv(HandlerStep(s, t))
  {
    Untouched(s, HandlerStep(s, t));
  }

  lemma ReportKeeps(s: State, t: Thread)
    requires Inv(s) && HandlerCanStep(s, t) && Pc(s, t).Reporting?
    ensures Inv(HandlerStep(s, t))
  {
    ReportKeepsWoken(s, t);
    ReportKeepsStart(s, t);
    ReportKeepsWork(s, t);
    ReportKeepsStartup(s, t);
    Untouched(s, HandlerStep(s, t));
  }

  lemma HandlerKeeps(s: State, t: Thread)
    requires Inv(s) && HandlerCanStep(s, t)
    ensures Inv(HandlerStep(s, t))
  {
    if Posting(s, t) {
      PostKeeps(s, t);
    } else if Pc(s, t).Locking? || Pc(s, t).Woken? {
      AcquireKeeps(s, t);
    } else if Pc(s, t).Relocked? {
      FinishKeeps(s, t);
    } else if Pc(s, t).Reporting? {
      ReportKeeps(s, t);
    } else {
      WaitKeeps(s, t);
    }
  }

  lemma MainKeeps(s: State, ok: bool)
    requires Inv(s) && MainCanStep(s, ok)
    ensures Inv(MainStep(s, ok))
  {
    if !Ready(s) {
      PrepareKeeps(s, ok);
    } else if s.main.Looping? {
      TakeKeeps(s, ok);
    } else if s.main.Handling? {
      CallKeeps(s, ok);
    } else {
      AcknowledgeKeeps(s, ok);
    }
  }

  lemma DeliverKeeps(s: State, code: Code)
    requires Inv(s) && Enabled(s, Deliver(code))
    ensures Inv(Step(s, Deliver(code)))
  {
    Untouched(s, Step(s, Deliver(code)));
  }

  lemma WakeUpKeeps(s: State, t: Thread)
    requires Inv(s) && Enabled(s, WakeUp(t))
    ensures Inv(Step(s, WakeUp(t)))
  {
    Untouched(s, Step(s, WakeUp(t)));
  }

  lemma StepKeepsInv(s: State, a: Action)
    requires Inv(s) && Enabled(s, a)
    ensures Inv(Step(s, a))
  {
    match a
    case Main(ok) => MainKeeps(s, ok);
    case Service(ok) => ServiceKeeps(s, ok);
    case Dispatch(ok) => DispatcherKeeps(s, ok);
    case Handle(t) => HandlerKeeps(s, t);
    case Deliver(code) => DeliverKeeps(s, code);
    case WakeUp(t) => WakeUpKeeps(s, t);
  }

  lemma NextKeepsInv(s: State, t: State)
    requires Inv(s) && Next(s, t)
    ensures Inv(t)
  {
    var a :| Follows(s, a, t);
    StepKeepsInv(s, a);
  }

  lemma {:induction false} RunKeepsInv(run: seq<State>, k: nat)
    requires IsRun(run) && k < |run|
    ensures Inv(run[k])
  {
    if k == 0 {
      InitialInv();
    } else {
      RunKeepsInv(run, k - 1);
      NextKeepsInv(run[k - 1], run[k]);
    }
  }

  lemma ReachableKeepsInv(s: State)
    requires Reachable(s)
    ensures Inv(s)
  {
    var run :| IsRun(run) && run[|run| - 1] == s;
    RunKeepsInv(run, |run| - 1);
  }

  // ----- what holds in every interleaving

  /** serviceMain's arguments are there before the application is created, and a failed
      dispatcher call ends start() instead. */
  lemma ArgsBeforeApplication(s: State)
    requires Reachable(s)
    ensures s.main.CreatingApplication? || s.controllerHandler ==> s.args && s.success
    ensures s.registered ==> s.controllerHandler
  {
    ReachableKeepsInv(s);
  }

  /** No event is posted before the object it is posted to exists, so none is dropped. */
  lemma NoPostBeforeHandler(s: State, t: Thread)
    requires Reachable(s) && Posting(s, t)
    ensures s.controllerHandler
    ensures Enabled(s, Handle(t))
    ensures Step(s, Handle(t)).queue == s.queue + [Event(s.past.posted, t, EventCode(Pc(s, t).code))]
  {
    ReachableKeepsInv(s);
  }

  /** Events are handled in the order in which they were posted, each of them once: those
      still to be handled are the last ones posted, without a gap. */
  lemma HandledInOrder(s: State)
    requires Reachable(s)
    ensures s.past.posted == s.past.handled + |s.queue| + if s.main.Handling? then 1 else 0
    ensures s.main.Handling? ==> s.main.e.id == s.past.handled
    ensures forall i | 0 <= i < |s.queue| :: s.queue[i].id == s.past.posted - |s.queue| + i
  {
    ReachableKeepsInv(s);
    forall i | 0 <= i < |s.queue| ensures s.queue[i].id == s.past.posted - |s.queue| + i {
      assert s.queue[i] == InWork(s)[|InWork(s)| - |s.queue| + i];
    }
    if s.main.Handling? {
      assert InWork(s)[0] == s.main.e;
    }
  }

  /** No lost wakeup: a handler that waits has its own event in the queue, or being handled,
      or handled but not yet acknowledged. */
  lemma NoLostWakeup(s: State, t: Thread)
    requires Reachable(s) && Pc(s, t).Waiting?
    ensures Event(Pc(s, t).id, t, EventCode(Pc(s, t).code)) in InWork(s)
    ensures s.owner != Some(t)
  {
    ReachableKeepsInv(s);
  }

  /** If the startup event is the first event of all and no wait ends spuriously, Windows is
      told that the service runs only after start() has returned. */
  lemma RunningMeansStarted(s: State)
    requires Reachable(s) && !s.past.spurious && s.past.firstBy == Some(ServiceMain)
    requires s.status == Running || Running in s.past.reported
    ensures s.past.started
  {
    ReachableKeepsInv(s);
  }

  /** The acknowledgement that wakes the startup handler comes after start() if and only if
      no control was in work when the startup event was posted. */
  lemma WokenAfterStart(s: State, ok: bool)
    requires Reachable(s) && s.startup.Waiting? && s.main.Acknowledging? && Enabled(s, Main(ok))
    ensures Step(s, Main(ok)).startup.Woken?
    ensures Step(s, Main(ok)).past.started <==> s.past.startupPost.InFront?
  {
    ReachableKeepsInv(s);
  }

  /** The same for every handler: when an acknowledgement wakes it, its own callback has
      returned if and only if it is the handler's own event that is acknowledged. */
  lemma WokenByOwnEvent(s: State, t: Thread, ok: bool)
    requires Reachable(s) && Pc(s, t).Waiting? && s.main.Acknowledging? && Enabled(s, Main(ok))
    ensures Pc(Step(s, Main(ok)), t).Woken?
    ensures Pc(s, t).id < s.past.handled <==> s.main.e == Event(Pc(s, t).id, t, EventCode(Pc(s, t).code))
  {
    ReachableKeepsInv(s);
    var own := Event(Pc(s, t).id, t, EventCode(Pc(s, t).code));
    var i :| 0 <= i < |InWork(s)| && InWork(s)[i] == own;
    assert InWork(s)[0] == s.main.e;
    assert own.id == s.past.posted - |InWork(s)| + i;
  }

  // ----- what Windows is told

  predicate PendingFor(pending: Status, done: Status) {
    || (done == Running && (pending == StartPending || pending == ContinuePending))
    || (done == Paused && pending == PausePending)
  }

  /** Running and Paused are only reported after the change was announced as pending. */
  predicate Announced(reported: seq<Status>) {
    forall i | 0 <= i < |reported| && (reported[i] == Running || reported[i] == Paused) ::
      exists j | 0 <= j < i :: PendingFor(reported[j], reported[i])
  }

  lemma AnnouncedNext(reported: seq<Status>, status: Status)
    requires Announced(reported)
    requires status == Running || status == Paused ==> exists j | 0 <= j < |reported| :: PendingFor(reported[j], status)
    ensures Announced(reported + [status])
  {
    var next := reported + [status];
    forall i | 0 <= i < |next| && (next[i] == Running || next[i] == Paused)
      ensures exists j | 0 <= j < i :: PendingFor(next[j], next[i])
    {
      if i < |reported| {
        var j :| 0 <= j < i && PendingFor(reported[j], reported[i]);
        assert PendingFor(next[j], next[i]);
      } else {
        var j :| 0 <= j < |reported| && PendingFor(reported[j], status);
        assert PendingFor(next[j], next[i]);
      }
    }
  }

  predicate Pending(pc: HandlerPc) {
    pc.Posted? || pc.Waiting? || pc.Woken? || pc.Relocked?
  }

  /** A handler that has posted its event has announced the change. */
  predicate HasAnnounced(s: State, t: Thread) {
    Pending(Pc(s, t)) && StatusBefore(Pc(s, t).code).Some? ==> StatusBefore(Pc(s, t).code).value in s.past.reported
  }

  predicate ReportInv(s: State) {
    && Announced(s.past.reported)
    && HasAnnounced(s, ServiceMain) && HasAnnounced(s, Dispatcher)
    && (s.status != Stopped ==> s.status in s.past.reported)
  }

  predicate SamePending(pc: HandlerPc, pc': HandlerPc) {
    Pending(pc') ==> Pending(pc) && pc'.code == pc.code
  }

  lemma ReportsKept(s: State, s': State)
    requires ReportInv(s) && s'.past.reported == s.past.reported && s'.status == s.status
    requires SamePending(s.startup, s'.startup) && SamePending(s.control, s'.control)
    ensures ReportInv(s')
  {}

  lemma PrepareLeaves(s: State, ok: bool)
    requires MainCanStep(s, ok) && !Ready(s)
    ensures var s' := MainStep(s, ok);
            && s'.startup == s.startup && s'.control == s.control && s'.status == s.status && s'.past == s.past
            && s'.quitting == s.quitting && !s'.main.Acknowledging? && !s'.main.Exited?
  {}

  lemma PrepareReports(s: State, ok: bool)
    requires ReportInv(s) && MainCanStep(s, ok) && !Ready(s)
    ensures ReportInv(MainStep(s, ok))
  {
    hide ReportInv, MainStep;
    PrepareLeaves(s, ok);
    ReportsKept(s, MainStep(s, ok));
  }

  lemma LoopReports(s: State, ok: bool)
    requires ReportInv(s) && MainCanStep(s, ok) && (s.main.Looping? || s.main.Handling?)
    ensures ReportInv(MainStep(s, ok))
  {
    hide ReportInv;
    ReportsKept(s, MainStep(s, ok));
  }

  lemma WakeReports(s: State, ok: bool)
    requires ReportInv(s) && MainCanStep(s, ok) && s.main.Acknowledging?
    ensures ReportInv(MainStep(s, ok))
  {
    hide ReportInv;
    assert SamePending(s.startup, Wake(s.startup)) && SamePending(s.control, Wake(s.control));
    ReportsKept(s, MainStep(s, ok));
  }

  lemma MainReports(s: State, ok: bool)
    requires ReportInv(s) && MainCanStep(s, ok)
    ensures ReportInv(MainStep(s, ok))
  {
    hide ReportInv, MainStep;
    if !Ready(s) {
      PrepareReports(s, ok);
    } else if s.main.Acknowledging? {
      WakeReports(s, ok);
    } else {
      LoopReports(s, ok);
    }
  }

  lemma ServiceReports(s: State, ok: bool)
    requires ReportInv(s) && ServiceCanStep(s)
    ensures ReportInv(ServiceStep(s, ok))
  {
    hide ReportInv;
    ReportsKept(s, ServiceStep(s, ok));
  }

  lemma OutsideReports(s: State, a: Action)
    requires ReportInv(s) && Enabled(s, a) && (a.Dispatch? || a.Deliver? || a.WakeUp?)
    ensures ReportInv(Step(s, a))
  {
    hide ReportInv;
    ReportsKept(s, Step(s, a));
  }

  lemma ReportedNext(s: State, status: Option<Status>)
    requires ReportInv(s)
    requires status == Some(Running) || status == Some(Paused) ==> exists j | 0 <= j < |s.past.reported| :: PendingFor(s.past.reported[j], status.value)
    ensures ReportInv(SetStatus(s, status))
    ensures status.Some? ==> status.value in SetStatus(s, status).past.reported
  {
    hide Announced;
    if status.Some? {
      AnnouncedNext(s.past.reported, status.value);
    }
  }

  lemma PostReports(s: State, t: Thread)
    requires ReportInv(s) && HandlerCanStep(s, t) && Posting(s, t)
    ensures ReportInv(HandlerStep(s, t))
  {
    var code := Pc(s, t).code;
    ReportedNext(s, StatusBefore(code));
    var s' := SetStatus(s, StatusBefore(code));
    hide Announced, InWork, EventCode, StatusAfter, StatusBefore, SetStatus, PendingFor;
    PostedReports(s', t, code, s.past.posted);
  }

  lemma PostedReports(s: State, t: Thread, code: Code, id: nat)
    requires ReportInv(s)
    requires StatusBefore(code).Some? ==> StatusBefore(code).value in s.past.reported
    ensures ReportInv(SetPc(Post(s, t, code), t, Posted(code, id)))
  {
    hide Announced, InWork, EventCode, StatusBefore;
  }

  lemma FinishReports(s: State, t: Thread)
    requires ReportInv(s) && HandlerCanStep(s, t) && Pc(s, t).Relocked?
    ensures ReportInv(HandlerStep(s, t))
  {
    hide Announced;
    var before, after := StatusBefore(Pc(s, t).code), StatusAfter(Pc(s, t).code);
    if after.Some? {
      assert PendingFor(before.value, after.value);
      var j :| 0 <= j < |s.past.reported| && s.past.reported[j] == before.value;
      AnnouncedNext(s.past.reported, after.value);
    }
  }

  lemma RepeatReports(s: State, t: Thread)
    requires ReportInv(s) && HandlerCanStep(s, t) && Pc(s, t).Reporting?
    ensures ReportInv(HandlerStep(s, t))
  {
    if s.status != Stopped {
      var r := s.past.reported;
      var i :| 0 <= i < |r| && r[i] == s.status;
      if s.status == Running || s.status == Paused {
        var j :| 0 <= j < i && PendingFor(r[j], r[i]);
        assert PendingFor(r[j], s.status);
      }
      AnnouncedNext(r, s.status);
    }
  }

  lemma AcquireReports(s: State, t: Thread)
    requires ReportInv(s) && HandlerCanStep(s, t) && (Pc(s, t).Locking? || Pc(s, t).Woken?)
    ensures ReportInv(HandlerStep(s, t))
  {
    hide ReportInv;
    ReportsKept(s, HandlerStep(s, t));
  }

  lemma WaitReports(s: State, t: Thread)
    requires ReportInv(s) && HandlerCanStep(s, t) && !Posting(s, t) && (Pc(s, t).Locked? || Pc(s, t).Posted?)
    ensures ReportInv(HandlerStep(s, t))
  {
    hide ReportInv;
    ReportsKept(s, HandlerStep(s, t));
  }

  lemma HandlerReports(s: State, t: Thread)
    requires ReportInv(s) && HandlerCanStep(s, t)
    ensures ReportInv(HandlerStep(s, t))
  {
    hide ReportInv, HandlerStep;
    if Posting(s, t) {
      PostReports(s, t);
    } else if Pc(s, t).Relocked? {
      FinishReports(s, t);
    } else if Pc(s, t).Reporting? {
      RepeatReports(s, t);
    } else if Pc(s, t).Locking? || Pc(s, t).Woken? {
      AcquireReports(s, t);
    } else {
      WaitReports(s, t);
    }
  }

  lemma NextReports(s: State, s': State)
    requires ReportInv(s) && Next(s, s')
    ensures ReportInv(s')
  {
    var a :| Follows(s, a, s');
    match a
    case Handle(t) => HandlerReports(s, t);
    case Main(ok) => MainReports(s, ok);
    case Service(ok) => ServiceReports(s, ok);
    case _ => OutsideReports(s, a);
  }

  lemma {:induction false} RunReports(run: seq<State>, k: nat)
    requires IsRun(run) && k < |run|
    ensures ReportInv(run[k])
  {
    if k > 0 {
      RunReports(run, k - 1);
      NextReports(run[k - 1], run[k]);
    }
  }

  /** In every interleaving, and even when a handler is woken too early, each change is
      announced as pending before it is reported as done. */
  lemma PendingBeforeDone(s: State)
    requires Reachable(s)
    ensures Announced(s.past.reported)
  {
    var run :| IsRun(run) && run[|run| - 1] == s;
    RunReports(run, |run| - 1);
  }

  // ----- what goes wrong behind a control

  lemma NextOf(s: State, a: Action) returns (t: State)
    requires Reachable(s) && Enabled(s, a)
    ensures Reachable(t) && t == Step(s, a)
  {
    t := Step(s, a);
    var run :| IsRun(run) && run[|run| - 1] == s;
    assert Follows(s, a, t);
    assert Next(s, t);
    assert IsRun(run + [t]);
    assert (run + [t])[|run + [t]| - 1] == t;
  }

  lemma InitialReachable()
    ensures Reachable(Initial())
  {
    var run := [Initial()];
    assert IsRun(run) && run[|run| - 1] == Initial();
  }

  /** The startup handler waits behind a control, and the event loop still runs. */
  ghost predicate WaitsBehind(s: State) {
    Reachable(s) && s.startup.Waiting? && s.past.startupPost.Behind? && !s.main.Exited?
  }

  /** The control handler does not keep the mutex. */
  lemma {:induction false} MutexFreed(s: State) returns (t: State)
    requires WaitsBehind(s)
    ensures WaitsBehind(t) && t.owner == None && t.past.spurious == s.past.spurious
  {
    t := s;
    ReachableKeepsInv(s);
    assert !HoldsMutex(s.startup);
    hide Reachable, StartInv, QueueInv, InWorkOf, FirstInv, WokenInv, NotPostedInv, StartupInv;
    if s.owner.Some? {
      assert s.owner.value.ServiceMain? || s.owner.value.Dispatcher?;
      assert HoldsMutex(s.control);
      t := NextOf(s, Handle(Dispatcher));
      if t.owner != None {
        t := NextOf(t, Handle(Dispatcher));
      }
    }
  }

  /** The event in work is then the control, whose acknowledgement wakes both handlers. */
  lemma ControlAcknowledged(s: State) returns (t: State)
    requires WaitsBehind(s) && s.owner == None
    ensures Reachable(t) && t.startup == Woken(Startup, s.startup.id) && t.owner == None
    ensures !t.past.started && t.past.spurious == s.past.spurious
  {
    t := s;
    ReachableKeepsInv(s);
    InFrontIsControl(s);
    hide Reachable, Inv;
    if t.main.Looping? {
      t := NextOf(t, Main(true));
    }
    if t.main.Handling? {
      t := NextOf(t, Main(true));
    }
    t := NextOf(t, Main(true));
  }

  lemma InFrontIsControl(s: State)
    requires Inv(s) && s.startup.Waiting? && s.past.startupPost.Behind? && !s.main.Exited?
    ensures s.startup.code == Startup && !s.past.started
    ensures s.main.Looping? || s.main.Handling? || s.main.Acknowledging?
    ensures s.main.Looping? ==> s.queue != [] && s.queue[0].code != Startup
    ensures s.main.Handling? ==> s.main.e.code != Startup
  {
    assert Ready(s) && InWork(s)[0] in InWork(s);
  }

  /** Whenever the startup handler waits behind a control, and the event loop has not ended,
      the service can be reported as running before start() is even called. */
  lemma EarlyRunning(s: State) returns (t: State)
    requires Reachable(s) && s.startup.Waiting? && s.past.startupPost.Behind? && !s.main.Exited?
    ensures Reachable(t) && t.status == Running && !t.past.started && t.past.spurious == s.past.spurious
  {
    hide Reachable;
    t := MutexFreed(s);
    t := ControlAcknowledged(t);
    t := NextOf(t, Handle(ServiceMain));
    t := NextOf(t, Handle(ServiceMain));
  }

  /** The event loop waits, and serviceMain may go on. */
  function Prepared(): State {
    State(Looping, AcquiringSemaphore2, Serving, Idle, Idle, 0, 1, true, true, true, false, None, [], Stopped, false,
          History(0, 0, None, NotPosted, false, [], [], false))
  }

  lemma PreparedReachable()
    ensures Reachable(Prepared())
  {
    InitialReachable();
    hide Reachable;
    var s := NextOf(Initial(), Main(true));
    s := NextOf(s, Dispatch(true));
    s := NextOf(s, Service(true));
    s := NextOf(s, Service(true));
    s := NextOf(s, Main(true));
    s := NextOf(s, Main(true));
    s := NextOf(s, Main(true));
    s := NextOf(s, Main(true));
    assert s == Prepared();
  }

  /** And a control that arrives as soon as the handler is registered gets in front. */
  lemma ControlInFront(code: Code) returns (s: State)
    requires Posts(code) && code != Startup
    ensures Reachable(s) && s.startup.Waiting? && s.past.startupPost.Behind? && !s.past.spurious
    ensures s.main.Looping? && s.queue != [] && s.owner == None
  {
    hide Reachable;
    s := ControlWaits(code);
    s := NextOf(s, Handle(ServiceMain));
    s := NextOf(s, Handle(ServiceMain));
    s := NextOf(s, Handle(ServiceMain));
  }

  lemma ControlWaits(code: Code) returns (s: State)
    requires Posts(code) && code != Startup
    ensures Reachable(s) && s.startup == Locking(Startup) && s.controllerHandler && !s.past.spurious
    ensures s.main.Looping? && s.queue != [] && s.owner == None
  {
    PreparedReachable();
    hide Reachable;
    s := NextOf(Prepared(), Service(true));
    s := NextOf(s, Service(true));
    s := NextOf(s, Deliver(code));
    s := NextOf(s, Handle(Dispatcher));
    s := NextOf(s, Handle(Dispatcher));
    s := NextOf(s, Handle(Dispatcher));
  }

  // ----- nothing hangs

  /** The steps of the program itself: all but a new control and a spurious wakeup. */
  predicate Internal(a: Action) {
    !a.Deliver? && !a.WakeUp?
  }

  function HandlerWork(pc: HandlerPc): nat {
    match pc
    case Idle => 0
    case Locking(_) => 10
    case Locked(_) => 9
    case Posted(_, _) => 5
    case Waiting(_, _) => 4
    case Woken(_, _) => 3
    case Relocked(_, _) => 2
    case Reporting => 1
  }

  function MainWork(pc: MainPc): nat {
    match pc
    case Begin => 30
    case TryingSemaphore => 6
    case CheckingCall => 5
    case CreatingApplication => 4
    case ReleasingSemaphore2 => 3
    case Looping => 1
    case Handling(_) => 3
    case Acknowledging(_) => 2
    case _ => 0
  }

  function ServiceWork(pc: ServicePc): nat {
    match pc
    case NotCalled => 0
    case TakingArgs => 16
    case ReleasingSemaphore => 15
    case AcquiringSemaphore2 => 14
    case Registering => 13
    case InHandler => 1
    case Returned => 0
  }

  function DispatcherWork(pc: DispatcherPc): nat {
    match pc
    case NotRunning => 0
    case Calling => 20
    case Failing => 1
    case _ => 0
  }

  /** What is left to do. */
  function Work(s: State): nat {
    MainWork(s.main) + ServiceWork(s.service) + DispatcherWork(s.dispatcher)
    + HandlerWork(s.startup) + HandlerWork(s.control) + 3 * |s.queue|
  }

  lemma PrepareWorks(s: State, ok: bool)
    requires MainCanStep(s, ok) && !Ready(s) && (s.main.Begin? ==> s.dispatcher.NotRunning?)
    ensures Work(MainStep(s, ok)) < Work(s)
  {}

  lemma LoopWorks(s: State, ok: bool)
    requires MainCanStep(s, ok) && Ready(s)
    ensures Work(MainStep(s, ok)) < Work(s)
  {}

  lemma ServiceWorks(s: State, ok: bool)
    requires ServiceCanStep(s) && (s.service.Registering? ==> s.startup.Idle?)
    ensures Work(ServiceStep(s, ok)) < Work(s)
  {}

  lemma DispatcherWorks(s: State, ok: bool)
    requires (s.dispatcher.Calling? && s.service.NotCalled?) || s.dispatcher.Failing?
    ensures Work(DispatcherStep(s, ok)) < Work(s)
  {}

  lemma StatusOnly(s: State, to: Option<Status>)
    ensures var s' := SetStatus(s, to);
            && s'.main == s.main && s'.service == s.service && s'.dispatcher == s.dispatcher
            && s'.startup == s.startup && s'.control == s.control && s'.queue == s.queue
  {}

  lemma PostOnly(s: State, t: Thread, code: Code)
    ensures var s' := Post(s, t, code);
            && s'.main == s.main && s'.service == s.service && s'.dispatcher == s.dispatcher
            && s'.startup == s.startup && s'.control == s.control && |s'.queue| <= |s.queue| + 1
  {}

  lemma PostMoves(s: State, t: Thread)
    requires Posting(s, t)
    ensures Work(HandlerStep(s, t)) < Work(s)
  {
    var code := Pc(s, t).code;
    StatusOnly(s, StatusBefore(code));
    PostOnly(SetStatus(s, StatusBefore(code)), t, code);
    hide SetStatus, StatusBefore, Post, InWork;
  }

  lemma StatusMoves(s: State, t: Thread)
    requires Pc(s, t).Relocked? || Pc(s, t).Reporting?
    ensures Work(HandlerStep(s, t)) < Work(s)
  {
    StatusOnly(s, StatusAfter(if Pc(s, t).Relocked? then Pc(s, t).code else Other));
    StatusOnly(s, Some(s.status));
  }

  lemma QuietMoves(s: State, t: Thread)
    requires HandlerCanStep(s, t) && !Posting(s, t) && !Pc(s, t).Relocked? && !Pc(s, t).Reporting?
    ensures Work(HandlerStep(s, t)) < Work(s)
  {}

  lemma HandlerWorks(s: State, t: Thread)
    requires HandlerCanStep(s, t)
    ensures Work(HandlerStep(s, t)) < Work(s)
  {
    if Posting(s, t) {
      PostMoves(s, t);
    } else if Pc(s, t).Relocked? || Pc(s, t).Reporting? {
      StatusMoves(s, t);
    } else {
      QuietMoves(s, t);
    }
  }

  lemma StepWorks(s: State, a: Action)
    requires Inv(s) && Enabled(s, a) && Internal(a)
    ensures Work(Step(s, a)) < Work(s)
  {
    match a
    case Main(ok) => if Ready(s) { LoopWorks(s, ok); } else { PrepareWorks(s, ok); }
    case Service(ok) => ServiceWorks(s, ok);
    case Dispatch(ok) => DispatcherWorks(s, ok);
    case Handle(t) => HandlerWorks(s, t);
  }

  /** Without new controls every run comes to rest. */
  lemma {:induction false} RunsEnd(run: seq<State>, actions: seq<Action>)
    requires |run| == |actions| + 1 && Reachable(run[0])
    requires forall i | 0 <= i < |actions| :: Internal(actions[i]) && Follows(run[i], actions[i], run[i + 1])
    ensures |actions| + Work(run[|actions|]) <= Work(run[0])
  {
    if actions != [] {
      assert Follows(run[0], actions[0], run[0 + 1]);
      ReachableKeepsInv(run[0]);
      StepWorks(run[0], actions[0]);
      var t := NextOf(run[0], actions[0]);
      RunsEnd(run[1..], actions[1..]);
    }
  }

  lemma OwnerCanStep(s: State)
    requires LockInv(s)
    ensures s.owner != None ==> HandlerCanStep(s, ServiceMain) || HandlerCanStep(s, Dispatcher)
  {
    match s.owner
    case None =>
    case Some(t) =>
      if t == ServiceMain {
        assert HoldsMutex(s.startup);
      } else {
        assert HoldsMutex(s.control);
      }
  }

  /** And while the event loop runs it rests only when every handler has returned and every
      event has been handled: as long as something is left to do, some thread can go on. */
  lemma NoDeadlock(s: State)
    requires Reachable(s) && Ready(s) && !s.main.Exited?
    ensures s.startup != Idle || s.control != Idle || s.queue != [] || !s.main.Looping? ==>
              exists a :: Internal(a) && Enabled(s, a)
  {
    ReachableKeepsInv(s);
    OwnerCanStep(s);
    if s.startup != Idle || s.control != Idle || s.queue != [] || !s.main.Looping? {
      if HandlerCanStep(s, ServiceMain) {
        assert Internal(Handle(ServiceMain)) && Enabled(s, Handle(ServiceMain));
      } else if HandlerCanStep(s, Dispatcher) {
        assert Internal(Handle(Dispatcher)) && Enabled(s, Handle(Dispatcher));
      } else {
        assert s.main.Looping? ==> InWork(s) == s.queue;
        assert Internal(Main(true)) && Enabled(s, Main(true));
      }
    }
  }
}
