/** QtLockedFile on Windows as a state machine: N processes, each with one instance
    for the same file, where every Win32 call is one atomic step. */
module LockMachine {
  import opened NamedMutexes

  datatype Mode = NoLock | ReadLock | WriteLock

  /** What unlock() was called for. */
  datatype After =
    | ReturnUnlocked   // by the caller, or by lock(NoLock)
    | ThenLock         // by lock(), to drop the lock held in another mode
    | ThenFail         // by lock(), to clean up after a failed multi-wait
    | ThenDestroy      // by the destructor

  /** Control points: the next Win32 call of the process. */
  datatype Pc =
    | Idle                      // between calls
    | CreateW                   // wmutex = getMutexHandle(-1, true)
    | WaitW                     // waitMutex(wmutex, block)
    | ROpen(idx: nat)           // rmutex = getMutexHandle(idx, false)
    | RTry(idx: nat)            // waitMutex(rmutex, false)
    | RSkip(idx: nat)           // CloseHandle(rmutex), try the next slot
    | RCreate(idx: nat)         // rmutex = getMutexHandle(idx, true)
    | RWaitNew(idx: nat)        // waitMutex(rmutex, false) on the slot just created
    | RFail                     // CloseHandle(rmutex); rmutex = 0
    | RDone(ok: bool)           // ReleaseMutex(wmutex)
    | WOpen(i: nat)             // mutex = getMutexHandle(i, false)
    | WWaitAll                  // WaitForMultipleObjects
    | UReleaseR(after: After)   // ReleaseMutex(rmutex)
    | UCloseR(after: After)     // CloseHandle(rmutex); rmutex = 0
    | URelease(k: nat, after: After)  // ReleaseMutex(rmutexes[k])
    | UClose(k: nat, after: After)    // CloseHandle(rmutexes[k])
    | UReleaseW(after: After)   // rmutexes.clear(); ReleaseMutex(wmutex)
    | DCloseW                   // the destructor's CloseHandle(wmutex)

  /** The last completed call and what it returned. */
  datatype Answer = NoCall | Locked(req: Mode, ret: bool) | Unlocked(ret: bool)

  const NULL := -2   // a null mutex handle

  /** One process: the fields of its QtLockedFile, its control point and the arguments of
      the call in progress; and the existing slots that it failed to open in a scan since it
      last obtained the writer mutex. */
  datatype Proc = Proc(
    isOpen: bool, mode: Mode, wmutex: bool, rmutex: int, rmutexes: seq<int>,
    pc: Pc, req: Mode, block: bool, answer: Answer, missed: set<int>)

  datatype World = World(kernel: Kernel, procs: seq<Proc>)

  /** What the scheduler and the environment decide at a step. */
  datatype Choice =
    | Continue                             // the pending Win32 call returns normally
    | ApiError                             // CreateMutex or a wait reports failure
    | LateAbandoned                        // multi-wait returns WAIT_ABANDONED_0 + i, i > 0
    | CallLock(mode: Mode, block: bool)
    | CallUnlock
    | CallDestroy
    | Crash(isOpen: bool)                  // the process dies; a new one starts

  function Fresh(isOpen: bool): Proc {
    Proc(isOpen, NoLock, false, NULL, [], Idle, NoLock, false, NoCall, {})
  }

  // ----- the code between two Win32 calls

  function RequestW(pr: Proc): Proc {
    pr.(pc := if pr.wmutex then WaitW else CreateW)
  }

  function Finish(pr: Proc, after: After): Proc {
    match after
    case ReturnUnlocked => pr.(pc := Idle, answer := Unlocked(true))
    case ThenLock => RequestW(pr)
    case ThenFail => pr.(pc := Idle, answer := Locked(pr.req, false))
    case ThenDestroy => if pr.wmutex then pr.(pc := DCloseW) else Fresh(pr.isOpen)
  }

  /** unlock() up to its first Win32 call. */
  function BeginUnlock(pr: Proc, after: After): Proc {
    match pr.mode
    case NoLock => Finish(pr, after)
    case ReadLock => pr.(pc := UReleaseR(after))
    case WriteLock => pr.(pc := if pr.rmutexes == [] then UReleaseW(after) else URelease(0, after))
  }

  /** lock(mode, block) up to its first Win32 call. */
  function BeginLock(pr: Proc, mode: Mode, block: bool): Proc {
    if !pr.isOpen then pr.(answer := Locked(mode, false))
    else if mode == NoLock then BeginUnlock(pr, ReturnUnlocked)
    else if mode == pr.mode then pr.(answer := Locked(mode, true))
    else
      var pr' := pr.(req := mode, block := block);
      if pr.mode != NoLock then BeginUnlock(pr', ThenLock) else RequestW(pr')
  }

  function HaveW(pr: Proc): Proc {
    pr.(pc := if pr.req == ReadLock then ROpen(0) else WOpen(0), missed := {})
  }

  function Granted(pr: Proc): Proc {
    pr.(pc := Idle, mode := pr.req, answer := Locked(pr.req, true))
  }

  function Refused(pr: Proc): Proc {
    pr.(pc := Idle, answer := Locked(pr.req, false))
  }

  /** m_lock_mode = WriteLock; unlock(); return false */
  function CleanUp(pr: Proc): Proc {
    BeginUnlock(pr.(mode := WriteLock), ThenFail)
  }

  function AfterScan(pr: Proc): Proc {
    if pr.rmutexes == [] then Granted(pr) else pr.(pc := WWaitAll)
  }

  // ----- one step

  /** Whether choice c is possible for process p: every control point can continue,
      except that a blocking wait can only continue once its mutexes are available. */
  predicate Enabled(w: World, p: Pid, c: Choice) {
    && p < |w.procs|
    && var pr := w.procs[p];
       match c
       case Crash(_) => true
       case CallLock(_, _) => pr.pc.Idle?
       case CallUnlock => pr.pc.Idle?
       case CallDestroy => pr.pc.Idle?
       case ApiError => pr.pc.CreateW? || pr.pc.WaitW? || pr.pc.RTry? || pr.pc.RCreate? || pr.pc.RWaitNew? || pr.pc.WWaitAll?
       case LateAbandoned =>
         && pr.pc.WWaitAll?
         && AllAvailable(w.kernel, p, pr.rmutexes)
         && (exists n | n in pr.rmutexes :: n in w.kernel.abandoned)
       case Continue =>
         && !pr.pc.Idle?
         && (pr.pc.WaitW? && pr.block ==> Available(w.kernel, p, WRITER))
         && (pr.pc.WWaitAll? && pr.block ==> AllAvailable(w.kernel, p, pr.rmutexes))
  }

  /** The pending Win32 call of p returns. */
  function Perform(k: Kernel, p: Pid, pr: Proc, c: Choice): (Kernel, Proc)
    requires !pr.pc.Idle?
  {
    match pr.pc
    case CreateW =>
      if c.ApiError? then (k, Refused(pr))
      else (OpenHandle(k, p, WRITER), pr.(wmutex := true, pc := WaitW))
    case WaitW =>
      if !c.ApiError? && Available(k, p, WRITER) then (Acquire(k, p, WRITER), HaveW(pr))
      else (k, Refused(pr))
    case ROpen(idx) =>
      if idx >= MAX_READERS then (k, pr.(rmutex := NULL, pc := RDone(false)))
      else if Exists(k, idx) then (OpenHandle(k, p, idx), pr.(rmutex := idx, pc := RTry(idx)))
      else (k, pr.(rmutex := NULL, pc := RCreate(idx)))
    case RTry(idx) =>
      if !c.ApiError? && Available(k, p, pr.rmutex) then (Acquire(k, p, pr.rmutex), pr.(pc := RDone(true)))
      else (k, pr.(pc := RSkip(idx)))
    case RSkip(idx) => (CloseHandle(k, p, pr.rmutex), pr.(pc := ROpen(idx + 1)))
    case RCreate(idx) =>
      if c.ApiError? then (k, pr.(rmutex := NULL, pc := RDone(false)))
      else (OpenHandle(k, p, idx), pr.(rmutex := idx, pc := RWaitNew(idx)))
    case RWaitNew(idx) =>
      if !c.ApiError? && Available(k, p, pr.rmutex) then (Acquire(k, p, pr.rmutex), pr.(pc := RDone(true)))
      else (k, pr.(pc := RFail))
    case RFail => (CloseHandle(k, p, pr.rmutex), pr.(rmutex := NULL, pc := RDone(false)))
    case RDone(ok) => (Release(k, p, WRITER), if ok then Granted(pr) else Refused(pr))
    case WOpen(i) =>
      if i >= MAX_READERS then (k, AfterScan(pr))
      else if Exists(k, i) then (OpenHandle(k, p, i), pr.(rmutexes := pr.rmutexes + [i], pc := WOpen(i + 1)))
      else (k, pr.(pc := WOpen(i + 1)))
    case WWaitAll =>
      if c.Continue? && AllAvailable(k, p, pr.rmutexes) then (AcquireAll(k, p, pr.rmutexes), Granted(pr))
      else if c.LateAbandoned? then (AcquireAll(k, p, pr.rmutexes), CleanUp(pr))
      else (k, CleanUp(pr))
    case UReleaseR(after) => (Release(k, p, pr.rmutex), pr.(pc := UCloseR(after)))
    case UCloseR(after) => (CloseHandle(k, p, pr.rmutex), Finish(pr.(rmutex := NULL, mode := NoLock), after))
    case URelease(i, after) =>
      (if i < |pr.rmutexes| then Release(k, p, pr.rmutexes[i]) else k, pr.(pc := UClose(i, after)))
    case UClose(i, after) =>
      (if i < |pr.rmutexes| then CloseHandle(k, p, pr.rmutexes[i]) else k,
       pr.(pc := if i + 1 < |pr.rmutexes| then URelease(i + 1, after) else UReleaseW(after)))
    case UReleaseW(after) => (Release(k, p, WRITER), Finish(pr.(rmutexes := [], mode := NoLock), after))
    case DCloseW => (CloseHandle(k, p, WRITER), Fresh(pr.isOpen))
  }

  function Step(w: World, p: Pid, c: Choice): World
    requires Enabled(w, p, c)
  {
    var pr := w.procs[p];
    match c
    case Crash(isOpen) => World(Kill(w.kernel, p), w.procs[p := Fresh(isOpen)])
    case CallLock(mode, block) => w.(procs := w.procs[p := BeginLock(pr, mode, block)])
    case CallUnlock =>
      w.(procs := w.procs[p := if pr.isOpen then BeginUnlock(pr, ReturnUnlocked) else pr.(answer := Unlocked(false))])
    case CallDestroy =>
      w.(procs := w.procs[p := if pr.isOpen then BeginUnlock(pr, ThenDestroy) else Finish(pr, ThenDestroy)])
    case _ =>
      var (k, pr') := Perform(w.kernel, p, pr, c);
      World(k, w.procs[p := pr'])
  }

  predicate Initial(w: World) {
    w.kernel == Kernel(map[], {}, {}) && forall p | 0 <= p < |w.procs| :: w.procs[p] == Fresh(w.procs[p].isOpen)
  }

  /** A run: every schedule of calls, Win32 returns, failures and crashes. */
  datatype Event = Event(pid: Pid, choice: Choice)

  ghost predicate Run(ws: seq<World>, es: seq<Event>) {
    && |ws| == |es| + 1
    && Initial(ws[0])
    && forall i | 0 <= i < |es| ::
         Enabled(ws[i], es[i].pid, es[i].choice) && ws[i + 1] == Step(ws[i], es[i].pid, es[i].choice)
  }

  /** w is the last state of some run of n steps. */
  ghost predicate ReachableIn(n: nat, w: World) {
    if n == 0 then Initial(w)
    else exists v, e: Event :: ReachableIn(n - 1, v) && Enabled(v, e.pid, e.choice) && w == Step(v, e.pid, e.choice)
  }
}
