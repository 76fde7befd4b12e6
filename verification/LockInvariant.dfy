/** What every step of the lock keeps. */
module LockInvariant {
  import opened NamedMutexes
  import opened LockMachine

  ghost predicate Owns(k: Kernel, p: Pid, n: int) {
    n in k.owner && k.owner[n] == p
  }

  predicate IsSlot(n: int) {
    0 <= n < MAX_READERS
  }

  /** The slots collected by a scan: increasing, hence distinct. */
  ghost predicate IsScan(s: seq<int>) {
    && (forall i | 0 <= i < |s| :: IsSlot(s[i]))
    && (forall i, j | 0 <= i < j < |s| :: s[i] < s[j])
  }

  // ----- what a process may hold, read off its control point

  ghost predicate HasSlotHandle(pr: Proc, n: int) {
    match pr.pc
    case Idle => if pr.mode.ReadLock? then n == pr.rmutex else n in pr.rmutexes
    case RTry(_) => n == pr.rmutex
    case RSkip(_) => n == pr.rmutex
    case RWaitNew(_) => n == pr.rmutex
    case RFail => n == pr.rmutex
    case RDone(ok) => ok && n == pr.rmutex
    case UReleaseR(_) => n == pr.rmutex
    case UCloseR(_) => n == pr.rmutex
    case WOpen(_) => n in pr.rmutexes
    case WWaitAll => n in pr.rmutexes
    case URelease(k, _) => k <= |pr.rmutexes| && n in pr.rmutexes[k..]
    case UClose(k, _) => k <= |pr.rmutexes| && n in pr.rmutexes[k..]
    case _ => false
  }

  ghost predicate HasHandle(pr: Proc, n: int) {
    (n == WRITER && pr.wmutex) || HasSlotHandle(pr, n)
  }

  ghost predicate MayOwn(pr: Proc, n: int) {
    match pr.pc
    case Idle =>
      (match pr.mode
       case NoLock => false
       case ReadLock => n == pr.rmutex
       case WriteLock => n == WRITER || n in pr.rmutexes)
    case CreateW => false
    case WaitW => false
    case DCloseW => false
    case UCloseR(_) => false
    case UReleaseR(_) => n == pr.rmutex
    case RDone(ok) => n == WRITER || (ok && n == pr.rmutex)
    case URelease(k, _) => n == WRITER || (k <= |pr.rmutexes| && n in pr.rmutexes[k..])
    case UClose(k, _) => n == WRITER || (k + 1 <= |pr.rmutexes| && n in pr.rmutexes[k + 1..])
    case _ => n == WRITER
  }

  /** While cleaning up after a failed multi-wait the reader mutexes need not be owned. */
  ghost predicate MustOwn(pr: Proc, n: int) {
    && MayOwn(pr, n)
    && (n == WRITER || !((pr.pc.URelease? || pr.pc.UClose?) && pr.pc.after == ThenFail))
  }

  // ----- the fields of one process

  ghost predicate AfterShape(pr: Proc, after: After) {
    && (after == ThenLock ==> pr.req != NoLock)
    && (after == ThenFail ==> pr.req == WriteLock && pr.mode == WriteLock)
  }

  /** What the caller may rely on between calls: the documented results of lock and unlock. */
  ghost predicate AnswerHolds(pr: Proc) {
    match pr.answer
    case NoCall => pr.mode == NoLock
    case Locked(req, ret) =>
      if req == NoLock then !pr.isOpen && !ret
      else (ret <==> pr.mode == req) && (!ret ==> pr.mode == NoLock)
    case Unlocked(ret) => pr.mode == NoLock && (ret <==> pr.isOpen)
  }

  ghost predicate Shape(pr: Proc) {
    && (pr.wmutex ==> pr.isOpen)
    && (pr.mode != NoLock ==> pr.wmutex)
    && (!pr.pc.Idle? ==> pr.isOpen)
    && match pr.pc
       case Idle =>
         && AnswerHolds(pr)
         && (pr.mode == WriteLock ==> IsScan(pr.rmutexes))
         && (pr.mode != WriteLock ==> pr.rmutexes == [])
         && (pr.mode == ReadLock ==> IsSlot(pr.rmutex))
       case UReleaseR(after) => pr.mode == ReadLock && pr.rmutexes == [] && IsSlot(pr.rmutex) && AfterShape(pr, after)
       case UCloseR(after) => pr.mode == ReadLock && pr.rmutexes == [] && IsSlot(pr.rmutex) && AfterShape(pr, after)
       case URelease(k, after) => pr.mode == WriteLock && IsScan(pr.rmutexes) && k < |pr.rmutexes| && AfterShape(pr, after)
       case UClose(k, after) => pr.mode == WriteLock && IsScan(pr.rmutexes) && k < |pr.rmutexes| && AfterShape(pr, after)
       case UReleaseW(after) => pr.mode == WriteLock && IsScan(pr.rmutexes) && AfterShape(pr, after)
       case WOpen(i) =>
         && pr.mode == NoLock && pr.wmutex && pr.req == WriteLock
         && i <= MAX_READERS && IsScan(pr.rmutexes) && (forall n | n in pr.rmutexes :: n < i)
       case WWaitAll => pr.mode == NoLock && pr.wmutex && pr.req == WriteLock && IsScan(pr.rmutexes) && pr.rmutexes != []
       case CreateW => pr.mode == NoLock && pr.rmutexes == [] && pr.req != NoLock && !pr.wmutex
       case WaitW => pr.mode == NoLock && pr.rmutexes == [] && pr.req != NoLock && pr.wmutex
       case DCloseW => pr.mode == NoLock && pr.rmutexes == [] && pr.wmutex
       case ROpen(idx) => ReaderShape(pr) && idx <= MAX_READERS
       case RTry(idx) => ReaderShape(pr) && IsSlot(idx) && pr.rmutex == idx
       case RSkip(idx) => ReaderShape(pr) && IsSlot(idx) && pr.rmutex == idx
       case RCreate(idx) => ReaderShape(pr) && IsSlot(idx)
       case RWaitNew(idx) => ReaderShape(pr) && IsSlot(idx) && pr.rmutex == idx
       case RFail => ReaderShape(pr) && IsSlot(pr.rmutex)
       case RDone(ok) => ReaderShape(pr) && (ok ==> IsSlot(pr.rmutex))
  }

  ghost predicate ReaderShape(pr: Proc) {
    pr.mode == NoLock && pr.wmutex && pr.req == ReadLock && pr.rmutexes == []
  }

  // ----- the process among the others

  /** What p has learned about the reader mutexes while it owns the writer mutex: which of
      them are owned, apart from those that it missed. */
  ghost predicate Knows(k: Kernel, p: Pid, pr: Proc) {
    match pr.pc
    case Idle => pr.mode == WriteLock ==> forall n | n in k.owner && 0 <= n :: k.owner[n] == p || n in pr.missed
    case WOpen(i) => forall n | n in k.owner && 0 <= n < i :: n in pr.rmutexes || n in pr.missed
    case WWaitAll => forall n | n in k.owner && 0 <= n :: n in pr.rmutexes || n in pr.missed
    case _ => true
  }

  ghost predicate ProcInv(k: Kernel, p: Pid, pr: Proc) {
    && Shape(pr)
    && (forall n :: (p, n) in k.handles <==> HasHandle(pr, n))
    && (forall n :: Owns(k, p, n) ==> MayOwn(pr, n))
    && (forall n :: MustOwn(pr, n) ==> Owns(k, p, n))
    && Knows(k, p, pr)
  }

  ghost predicate BaseInv(w: World) {
    && (forall p | 0 <= p < |w.procs| :: ProcInv(w.kernel, p, w.procs[p]))
    && (forall n | n in w.kernel.owner :: w.kernel.owner[n] < |w.procs|)
    && (forall h | h in w.kernel.handles :: h.0 < |w.procs|)
  }

  // ----- every step keeps it

  /** What a step of p does to the kernel, as the other processes see it: their own
      handles and mutexes are untouched, and p gains a reader mutex or a handle to one
      only while it owns the writer mutex. */
  ghost predicate Rely(k: Kernel, k': Kernel, p: Pid) {
    && (forall q: Pid, n: int | q != p :: (q, n) in k.handles <==> (q, n) in k'.handles)
    && (forall q: Pid, n: int | q != p :: Owns(k, q, n) <==> Owns(k', q, n))
    && (forall n | 0 <= n && Owns(k', p, n) :: Owns(k, p, n) || Owns(k, p, WRITER))
    && (forall n | 0 <= n && (p, n) in k'.handles :: (p, n) in k.handles || Owns(k, p, WRITER))
  }

  lemma OthersKeep(k: Kernel, k': Kernel, p: Pid, q: Pid, pr: Proc)
    requires p != q && ProcInv(k, q, pr) && Rely(k, k', p)
    ensures ProcInv(k', q, pr)
  {
    forall n ensures Owns(k', q, n) ==> MayOwn(pr, n) {
      assert Owns(k, q, n) <==> Owns(k', q, n);
    }
    forall n ensures MustOwn(pr, n) ==> Owns(k', q, n) {
      assert Owns(k, q, n) <==> Owns(k', q, n);
    }
    if MustOwn(pr, WRITER) {
      assert Owns(k, q, WRITER) && !Owns(k, p, WRITER);
      forall n | n in k'.owner && 0 <= n ensures n in k.owner && k.owner[n] == k'.owner[n] {
        var r := k'.owner[n];
        assert Owns(k', r, n);
        assert Owns(k, r, n);
      }
    }
  }

  lemma OwnerHasHandle(w: World, p: Pid, n: int)
    requires BaseInv(w) && Owns(w.kernel, p, n)
    ensures p < |w.procs| && (p, n) in w.kernel.handles && Exists(w.kernel, n)
    ensures n == WRITER || IsSlot(n)
  {
    var pr := w.procs[p];
    assert ProcInv(w.kernel, p, pr);
    assert MayOwn(pr, n);
    if pr.pc.UClose? {
      var k := pr.pc.k;
      assert pr.rmutexes[k..] == [pr.rmutexes[k]] + pr.rmutexes[k + 1..];
    }
    assert HasHandle(pr, n);
    assert (p, n) in w.kernel.handles;
  }

  // ----- who owns what after each kernel call

  lemma CloseOwners(w: World, p: Pid, n: int)
    requires BaseInv(w) && !Owns(w.kernel, p, n)
    ensures forall q: Pid, m: int :: Owns(CloseHandle(w.kernel, p, n), q, m) <==> Owns(w.kernel, q, m)
  {
    var k' := CloseHandle(w.kernel, p, n);
    forall q: Pid, m: int ensures Owns(k', q, m) <==> Owns(w.kernel, q, m) {
      if Owns(w.kernel, q, m) && m == n {
        OwnerHasHandle(w, q, m);
        assert (q, n) in w.kernel.handles - {(p, n)};
      }
    }
  }

  lemma OpenOwners(k: Kernel, p: Pid, n: int)
    ensures forall q: Pid, m: int :: Owns(OpenHandle(k, p, n), q, m) <==> Owns(k, q, m)
  {}

  lemma AcquireOwners(k: Kernel, p: Pid, n: int)
    requires Available(k, p, n)
    ensures forall q: Pid, m: int :: Owns(Acquire(k, p, n), q, m) <==> Owns(k, q, m) || (q == p && m == n)
  {}

  lemma AcquireAllOwners(k: Kernel, p: Pid, ns: seq<int>)
    requires AllAvailable(k, p, ns)
    ensures forall q: Pid, m: int :: Owns(AcquireAll(k, p, ns), q, m) <==> Owns(k, q, m) || (q == p && m in ns)
  {}

  lemma ReleaseOwners(k: Kernel, p: Pid, n: int)
    ensures forall q: Pid, m: int :: Owns(Release(k, p, n), q, m) <==> Owns(k, q, m) && !(q == p && m == n)
  {}

  // ----- every step keeps the invariant of the process that takes it

  ghost predicate Good(k: Kernel, k': Kernel, p: Pid, pr': Proc) {
    ProcInv(k', p, pr') && Rely(k, k', p)
  }

  ghost predicate GoodStep(w: World, p: Pid, c: Choice)
    requires Enabled(w, p, c)
  {
    Good(w.kernel, Step(w, p, c).kernel, p, Step(w, p, c).procs[p])
  }

  /** A process holding nothing, about to return or to ask for the writer mutex. */
  ghost predicate Empty(k: Kernel, p: Pid, pr: Proc) {
    && pr.isOpen && pr.mode == NoLock && pr.rmutexes == []
    && (forall n :: (p, n) in k.handles <==> n == WRITER && pr.wmutex)
    && (forall n :: !Owns(k, p, n))
  }

  lemma FinishKeeps(k: Kernel, p: Pid, pr: Proc, after: After)
    requires Empty(k, p, pr)
    requires after == ThenLock ==> pr.req != NoLock
    requires after == ThenFail ==> pr.req == WriteLock
    ensures ProcInv(k, p, Finish(pr, after))
  {}

  lemma BeginUnlockKeeps(k: Kernel, p: Pid, pr: Proc, after: After)
    requires pr.pc.Idle? && pr.isOpen && ProcInv(k, p, pr)
    requires after != ThenFail
    requires after == ThenLock ==> pr.req != NoLock
    ensures ProcInv(k, p, BeginUnlock(pr, after))
  {
    if pr.mode == NoLock {
      FinishKeeps(k, p, pr, after);
    } else {
      LeaveKeeps(k, p, pr, after);
    }
  }

  lemma LeaveKeeps(k: Kernel, p: Pid, pr: Proc, after: After)
    requires pr.pc.Idle? && pr.isOpen && pr.mode != NoLock && ProcInv(k, p, pr)
    requires after != ThenFail
    requires after == ThenLock ==> pr.req != NoLock
    ensures ProcInv(k, p, BeginUnlock(pr, after))
  {
    hide IsScan;
    assert pr.rmutexes[0..] == pr.rmutexes;
  }

  lemma LockCallKeeps(k: Kernel, p: Pid, pr: Proc, mode: Mode, block: bool)
    requires pr.pc.Idle? && ProcInv(k, p, pr)
    ensures ProcInv(k, p, BeginLock(pr, mode, block))
  {
    if pr.isOpen && mode == NoLock {
      BeginUnlockKeeps(k, p, pr, ReturnUnlocked);
    } else if pr.isOpen && mode != pr.mode {
      var pr' := pr.(req := mode, block := block);
      if pr.mode == NoLock {
        FinishKeeps(k, p, pr', ThenLock);
      } else {
        BeginUnlockKeeps(k, p, pr', ThenLock);
      }
    }
  }

  lemma CallKeeps(w: World, p: Pid, c: Choice)
    requires BaseInv(w) && Enabled(w, p, c) && (c.CallLock? || c.CallUnlock? || c.CallDestroy?)
    ensures GoodStep(w, p, c)
  {
    var pr := w.procs[p];
    assert ProcInv(w.kernel, p, pr);
    if c.CallLock? {
      LockCallKeeps(w.kernel, p, pr, c.mode, c.block);
    } else if pr.isOpen {
      BeginUnlockKeeps(w.kernel, p, pr, if c.CallDestroy? then ThenDestroy else ReturnUnlocked);
    }
  }

  lemma CreateKeeps(w: World, p: Pid, c: Choice)
    requires BaseInv(w) && Enabled(w, p, c) && (c.Continue? || c.ApiError?)
    requires w.procs[p].pc.CreateW?
    ensures GoodStep(w, p, c)
  {
    var k, pr := w.kernel, w.procs[p];
    assert ProcInv(k, p, pr);
    OpenOwners(k, p, WRITER);
  }

  lemma OpenKeeps(w: World, p: Pid, c: Choice)
    requires BaseInv(w) && Enabled(w, p, c) && (c.Continue? || c.ApiError?)
    requires w.procs[p].pc.ROpen? || w.procs[p].pc.RCreate?
    ensures GoodStep(w, p, c)
  {
    var k, pr := w.kernel, w.procs[p];
    assert ProcInv(k, p, pr);
    hide IsScan;
    OpenOwners(k, p, pr.pc.idx);
  }

  lemma ScanExtends(s: seq<int>, i: int)
    requires IsScan(s) && IsSlot(i) && forall n | n in s :: n < i
    ensures IsScan(s + [i])
  {
    forall j | 0 <= j < |s| ensures s[j] < i {
      assert s[j] in s;
    }
  }

  lemma ScanKeeps(w: World, p: Pid, c: Choice)
    requires BaseInv(w) && Enabled(w, p, c) && (c.Continue? || c.ApiError?)
    requires w.procs[p].pc.WOpen?
    ensures GoodStep(w, p, c)
  {
    var k, pr := w.kernel, w.procs[p];
    assert ProcInv(k, p, pr);
    var i, k' := pr.pc.i, Step(w, p, c).kernel;
    OpenOwners(k, p, i);
    if i < MAX_READERS {
      ScanExtends(pr.rmutexes, i);
    }
    forall n | n in k'.owner && 0 <= n <= i && n < MAX_READERS
      ensures n in Step(w, p, c).procs[p].rmutexes || n in pr.missed
    {
      if n == i {
        OwnerHasHandle(w, k.owner[n], n);
      }
    }
    forall n | n in k.owner && 0 <= n ensures n < MAX_READERS {
      OwnerHasHandle(w, k.owner[n], n);
    }
  }

  lemma ReaderWaitKeeps(w: World, p: Pid, c: Choice)
    requires BaseInv(w) && Enabled(w, p, c) && (c.Continue? || c.ApiError?)
    requires w.procs[p].pc.RTry? || w.procs[p].pc.RWaitNew?
    ensures GoodStep(w, p, c)
  {
    var k, pr := w.kernel, w.procs[p];
    assert ProcInv(k, p, pr);
    if Available(k, p, pr.rmutex) {
      AcquireOwners(k, p, pr.rmutex);
    }
  }

  lemma WriterWaitKeeps(w: World, p: Pid, c: Choice)
    requires BaseInv(w) && Enabled(w, p, c) && (c.Continue? || c.ApiError?)
    requires w.procs[p].pc.WaitW?
    ensures GoodStep(w, p, c)
  {
    var k, pr := w.kernel, w.procs[p];
    assert ProcInv(k, p, pr);
    if Available(k, p, WRITER) {
      AcquireOwners(k, p, WRITER);
    }
  }

  /** The multi-wait fails, or reports failure although it got everything. */
  lemma CleanUpKeeps(k: Kernel, k': Kernel, p: Pid, pr: Proc)
    requires ProcInv(k, p, pr) && pr.pc.WWaitAll?
    requires k'.handles == k.handles
    requires forall q: Pid, m: int :: Owns(k', q, m) ==> Owns(k, q, m) || (q == p && m in pr.rmutexes)
    requires forall q: Pid, m: int :: Owns(k, q, m) ==> Owns(k', q, m)
    ensures Good(k, k', p, CleanUp(pr))
  {
    assert pr.rmutexes[0..] == pr.rmutexes;
  }

  lemma MultiWaitGranted(k: Kernel, k': Kernel, p: Pid, pr: Proc)
    requires ProcInv(k, p, pr) && pr.pc.WWaitAll?
    requires k'.handles == k.handles
    requires forall q: Pid, m: int :: Owns(k', q, m) <==> Owns(k, q, m) || (q == p && m in pr.rmutexes)
    ensures Good(k, k', p, Granted(pr))
  {
    forall n | n in k'.owner && 0 <= n ensures k'.owner[n] == p || n in pr.missed {
      var q := k'.owner[n];
      assert Owns(k', q, n);
      assert q != p ==> Owns(k, q, n) && (n in pr.rmutexes || n in pr.missed);
      assert q != p && n in pr.rmutexes ==> Owns(k', p, n);
    }
  }

  lemma MultiWaitKeeps(w: World, p: Pid, c: Choice)
    requires BaseInv(w) && Enabled(w, p, c) && (c.Continue? || c.ApiError? || c.LateAbandoned?)
    requires w.procs[p].pc.WWaitAll?
    ensures GoodStep(w, p, c)
  {
    var k, pr := w.kernel, w.procs[p];
    assert ProcInv(k, p, pr);
    if AllAvailable(k, p, pr.rmutexes) {
      AcquireAllOwners(k, p, pr.rmutexes);
    }
    if c.Continue? && AllAvailable(k, p, pr.rmutexes) {
      MultiWaitGranted(k, AcquireAll(k, p, pr.rmutexes), p, pr);
    } else {
      CleanUpKeeps(k, if c.LateAbandoned? then AcquireAll(k, p, pr.rmutexes) else k, p, pr);
    }
  }

  lemma CloseKeeps(w: World, p: Pid, c: Choice)
    requires BaseInv(w) && Enabled(w, p, c) && (c.Continue? || c.ApiError?)
    requires w.procs[p].pc.RSkip? || w.procs[p].pc.RFail? || w.procs[p].pc.DCloseW?
    ensures GoodStep(w, p, c)
  {
    var k, pr := w.kernel, w.procs[p];
    assert ProcInv(k, p, pr);
    CloseOwners(w, p, if pr.pc.DCloseW? then WRITER else pr.rmutex);
  }

  lemma ReleaseKeeps(w: World, p: Pid, c: Choice)
    requires BaseInv(w) && Enabled(w, p, c) && (c.Continue?)
    requires w.procs[p].pc.RDone? || w.procs[p].pc.UReleaseR?
    ensures GoodStep(w, p, c)
  {
    var k, pr := w.kernel, w.procs[p];
    assert ProcInv(k, p, pr);
    ReleaseOwners(k, p, if pr.pc.RDone? then WRITER else pr.rmutex);
  }

  lemma ReaderUnlockKeeps(w: World, p: Pid, c: Choice)
    requires BaseInv(w) && Enabled(w, p, c) && (c.Continue?)
    requires w.procs[p].pc.UCloseR?
    ensures GoodStep(w, p, c)
  {
    var k, pr := w.kernel, w.procs[p];
    assert ProcInv(k, p, pr);
    CloseOwners(w, p, pr.rmutex);
    FinishKeeps(Step(w, p, c).kernel, p, pr.(rmutex := NULL, mode := NoLock), pr.pc.after);
  }

  lemma WriterUnlockKeeps(w: World, p: Pid, c: Choice)
    requires BaseInv(w) && Enabled(w, p, c) && (c.Continue?)
    requires w.procs[p].pc.UReleaseW?
    ensures GoodStep(w, p, c)
  {
    var k, pr := w.kernel, w.procs[p];
    assert ProcInv(k, p, pr);
    ReleaseOwners(k, p, WRITER);
    FinishKeeps(Step(w, p, c).kernel, p, pr.(rmutexes := [], mode := NoLock), pr.pc.after);
  }

  lemma SlotReleaseKeeps(w: World, p: Pid, c: Choice)
    requires BaseInv(w) && Enabled(w, p, c) && (c.Continue?)
    requires w.procs[p].pc.URelease?
    ensures GoodStep(w, p, c)
  {
    var k, pr := w.kernel, w.procs[p];
    assert ProcInv(k, p, pr);
    var i := pr.pc.k;
    assert pr.rmutexes[i..] == [pr.rmutexes[i]] + pr.rmutexes[i + 1..];
    assert pr.rmutexes[i] !in pr.rmutexes[i + 1..];
    ReleaseOwners(k, p, pr.rmutexes[i]);
  }

  lemma SlotClosed(k: Kernel, k': Kernel, p: Pid, pr: Proc, i: nat, pr': Proc)
    requires ProcInv(k, p, pr) && pr.pc.UClose? && pr.pc.k == i
    requires k'.handles == k.handles - {(p, pr.rmutexes[i])}
    requires forall q: Pid, m: int :: Owns(k', q, m) <==> Owns(k, q, m)
    requires pr' == pr.(pc := if i + 1 < |pr.rmutexes| then URelease(i + 1, pr.pc.after) else UReleaseW(pr.pc.after))
    ensures Good(k, k', p, pr')
  {
    SlotsLeft(pr, i, pr');
    assert Shape(pr');
  }

  lemma SlotsLeft(pr: Proc, i: nat, pr': Proc)
    requires Shape(pr) && pr.pc.UClose? && pr.pc.k == i
    requires pr' == pr.(pc := if i + 1 < |pr.rmutexes| then URelease(i + 1, pr.pc.after) else UReleaseW(pr.pc.after))
    ensures forall n :: HasHandle(pr', n) <==> HasHandle(pr, n) && n != pr.rmutexes[i]
    ensures forall n :: MayOwn(pr', n) <==> MayOwn(pr, n)
    ensures forall n :: MustOwn(pr', n) <==> MustOwn(pr, n)
  {
    DistinctRest(pr.rmutexes, i);
    hide IsScan;
  }

  lemma DistinctRest(s: seq<int>, i: nat)
    requires IsScan(s) && i < |s|
    ensures forall n :: n in s[i..] && n != s[i] <==> n in s[i + 1..]
  {
    assert s[i] !in s[i + 1..];
    assert s[i..] == [s[i]] + s[i + 1..];
  }

  lemma SlotCloseKeeps(w: World, p: Pid, c: Choice)
    requires BaseInv(w) && Enabled(w, p, c) && (c.Continue?)
    requires w.procs[p].pc.UClose?
    ensures GoodStep(w, p, c)
  {
    var k, pr := w.kernel, w.procs[p];
    assert ProcInv(k, p, pr);
    var i := pr.pc.k;
    CloseOwners(w, p, pr.rmutexes[i]);
    SlotClosed(k, Step(w, p, c).kernel, p, pr, i, Step(w, p, c).procs[p]);
  }

  lemma CrashKeeps(w: World, p: Pid, c: Choice)
    requires BaseInv(w) && Enabled(w, p, c) && c.Crash?
    ensures GoodStep(w, p, c)
  {
    var k' := Kill(w.kernel, p);
    forall q: Pid, n: int | q != p && Owns(w.kernel, q, n) ensures Owns(k', q, n) {
      OwnerHasHandle(w, q, n);
      assert (q, n) in k'.handles;
    }
  }

  lemma StepIsGood(w: World, p: Pid, c: Choice)
    requires BaseInv(w) && Enabled(w, p, c)
    ensures GoodStep(w, p, c)
  {
    var pc := w.procs[p].pc;
    if c.Crash? { CrashKeeps(w, p, c); }
    else if c.CallLock? || c.CallUnlock? || c.CallDestroy? { CallKeeps(w, p, c); }
    else {
      match pc
      case CreateW => CreateKeeps(w, p, c);
      case ROpen(_) => OpenKeeps(w, p, c);
      case RCreate(_) => OpenKeeps(w, p, c);
      case WOpen(_) => ScanKeeps(w, p, c);
      case RTry(_) => ReaderWaitKeeps(w, p, c);
      case RWaitNew(_) => ReaderWaitKeeps(w, p, c);
      case WaitW => WriterWaitKeeps(w, p, c);
      case WWaitAll => MultiWaitKeeps(w, p, c);
      case RSkip(_) => CloseKeeps(w, p, c);
      case RFail => CloseKeeps(w, p, c);
      case DCloseW => CloseKeeps(w, p, c);
      case RDone(_) => ReleaseKeeps(w, p, c);
      case UReleaseR(_) => ReleaseKeeps(w, p, c);
      case UCloseR(_) => ReaderUnlockKeeps(w, p, c);
      case UReleaseW(_) => WriterUnlockKeeps(w, p, c);
      case URelease(_, _) => SlotReleaseKeeps(w, p, c);
      case UClose(_, _) => SlotCloseKeeps(w, p, c);
    }
  }

  lemma StepKeepsBase(w: World, p: Pid, c: Choice)
    requires BaseInv(w) && Enabled(w, p, c)
    ensures BaseInv(Step(w, p, c))
  {
    StepIsGood(w, p, c);
    StepLeavesOthers(w, p, c);
    GoodKeepsBase(w, Step(w, p, c), p);
  }

  lemma StepLeavesOthers(w: World, p: Pid, c: Choice)
    requires Enabled(w, p, c)
    ensures Step(w, p, c).procs == w.procs[p := Step(w, p, c).procs[p]]
  {}

  lemma GoodKeepsBase(w: World, w': World, p: Pid)
    requires BaseInv(w) && p < |w.procs| && p < |w'.procs|
    requires w'.procs == w.procs[p := w'.procs[p]]
    requires Good(w.kernel, w'.kernel, p, w'.procs[p])
    ensures BaseInv(w')
  {
    forall q | 0 <= q < |w'.procs| ensures ProcInv(w'.kernel, q, w'.procs[q]) {
      if q != p {
        OthersKeep(w.kernel, w'.kernel, p, q, w.procs[q]);
      }
    }
    forall n | n in w'.kernel.owner ensures w'.kernel.owner[n] < |w'.procs| {
      var q := w'.kernel.owner[n];
      assert Owns(w'.kernel, q, n);
      assert q != p ==> Owns(w.kernel, q, n);
    }
    forall h | h in w'.kernel.handles ensures h.0 < |w'.procs| {
      var q, n := h.0, h.1;
      assert h == (q, n);
      assert q != p ==> (q, n) in w.kernel.handles && (q, n).0 < |w.procs|;
    }
  }

  // ----- nothing is missed unless opening an existing slot fails

  ghost predicate NoneMissed(w: World) {
    forall p | 0 <= p < |w.procs| :: w.procs[p].missed == {}
  }

  ghost predicate Inv(w: World) {
    BaseInv(w) && NoneMissed(w)
  }

  lemma UnlockMissed(pr: Proc, after: After)
    ensures BeginUnlock(pr, after).missed == pr.missed || BeginUnlock(pr, after).missed == {}
    ensures Finish(pr, after).missed == pr.missed || Finish(pr, after).missed == {}
  {}

  lemma CallMissed(k: Kernel, p: Pid, pr: Proc, c: Choice)
    requires !pr.pc.Idle?
    ensures Perform(k, p, pr, c).1.missed == pr.missed || Perform(k, p, pr, c).1.missed == {}
  {
    hide OpenHandle, CloseHandle, Acquire, Release, AcquireAll, Exists, Available, AllAvailable, BeginUnlock, Finish;
    match pr.pc
    case WWaitAll => UnlockMissed(pr.(mode := WriteLock), ThenFail);
    case UCloseR(after) => UnlockMissed(pr.(rmutex := NULL, mode := NoLock), after);
    case UReleaseW(after) => UnlockMissed(pr.(rmutexes := [], mode := NoLock), after);
    case _ =>
  }

  lemma StepMissed(w: World, p: Pid, c: Choice)
    requires Enabled(w, p, c)
    ensures Step(w, p, c).procs[p].missed == w.procs[p].missed || Step(w, p, c).procs[p].missed == {}
  {
    hide Perform, BeginUnlock, Finish;
    var pr := w.procs[p];
    match c
    case Crash(_) =>
    case CallLock(mode, block) =>
      UnlockMissed(pr, ReturnUnlocked);
      UnlockMissed(pr.(req := mode, block := block), ThenLock);
    case CallUnlock => UnlockMissed(pr, ReturnUnlocked);
    case CallDestroy => UnlockMissed(pr, ThenDestroy);
    case _ => CallMissed(w.kernel, p, pr, c);
  }

  lemma StepKeepsInv(w: World, p: Pid, c: Choice)
    requires Inv(w) && Enabled(w, p, c)
    ensures Inv(Step(w, p, c))
  {
    hide BaseInv, Step;
    StepKeepsBase(w, p, c);
    StepMissed(w, p, c);
    StepLeavesOthers(w, p, c);
  }

  // ----- the slot a reader creates

  /** A slot that was not found is not there, and once created nobody else has it. */
  ghost predicate SlotKnown(k: Kernel, p: Pid, pr: Proc) {
    match pr.pc
    case RCreate(idx) => forall q: Pid :: (q, idx) !in k.handles
    case RWaitNew(idx) => forall q: Pid :: (q, idx) in k.handles ==> q == p
    case _ => true
  }

  ghost predicate SlotInv(w: World) {
    forall p | 0 <= p < |w.procs| :: SlotKnown(w.kernel, p, w.procs[p])
  }

  lemma OwnSlotKnown(w: World, p: Pid, c: Choice)
    requires Inv(w) && SlotInv(w) && Enabled(w, p, c)
    ensures SlotKnown(Step(w, p, c).kernel, p, Step(w, p, c).procs[p])
  {
    var k, pr, w' := w.kernel, w.procs[p], Step(w, p, c);
    assert ProcInv(k, p, pr) && SlotKnown(k, p, pr);
    if w'.procs[p].pc.RCreate? {
      var idx := w'.procs[p].pc.idx;
      forall q: Pid ensures (q, idx) !in w'.kernel.handles {
        assert (q, idx) in k.handles ==> Exists(k, (q, idx).1);
      }
    }
  }

  lemma OtherSlotKnown(w: World, p: Pid, c: Choice, q: Pid)
    requires Inv(w) && SlotInv(w) && Enabled(w, p, c) && q < |w.procs| && q != p
    ensures SlotKnown(Step(w, p, c).kernel, q, w.procs[q])
  {
    var k, k', pr := w.kernel, Step(w, p, c).kernel, w.procs[q];
    StepIsGood(w, p, c);
    assert ProcInv(k, q, pr) && SlotKnown(k, q, pr);
    if pr.pc.RCreate? || pr.pc.RWaitNew? {
      assert MustOwn(pr, WRITER) && !Owns(k, p, WRITER);
      forall r: Pid ensures (r, pr.pc.idx) in k'.handles ==> (r, pr.pc.idx) in k.handles {}
    }
  }

  lemma StepKeepsSlots(w: World, p: Pid, c: Choice)
    requires Inv(w) && SlotInv(w) && Enabled(w, p, c)
    ensures SlotInv(Step(w, p, c))
  {
    var w' := Step(w, p, c);
    StepLeavesOthers(w, p, c);
    forall q | 0 <= q < |w'.procs| ensures SlotKnown(w'.kernel, q, w'.procs[q]) {
      if q == p {
        OwnSlotKnown(w, p, c);
      } else {
        OtherSlotKnown(w, p, c, q);
      }
    }
  }

  lemma InitialInv(w: World)
    requires Initial(w)
    ensures Inv(w) && SlotInv(w)
  {}

  /** Every state of every run satisfies the invariant. */
  lemma {:induction false} RunKeepsInv(ws: seq<World>, es: seq<Event>, i: nat)
    requires Run(ws, es) && i < |ws|
    ensures Inv(ws[i]) && SlotInv(ws[i]) && |ws[i].procs| == |ws[0].procs|
  {
    if i == 0 {
      InitialInv(ws[0]);
    } else {
      RunKeepsInv(ws, es, i - 1);
      StepKeepsInv(ws[i - 1], es[i - 1].pid, es[i - 1].choice);
      StepKeepsSlots(ws[i - 1], es[i - 1].pid, es[i - 1].choice);
    }
  }

  lemma {:induction false} ReachableKeepsInv(n: nat, w: World)
    requires ReachableIn(n, w)
    ensures Inv(w) && SlotInv(w)
  {
    if n == 0 {
      InitialInv(w);
    } else {
      hide Inv, SlotInv, Step;
      var v, e: Event :| ReachableIn(n - 1, v) && Enabled(v, e.pid, e.choice) && w == Step(v, e.pid, e.choice);
      ReachableKeepsInv(n - 1, v);
      StepKeepsInv(v, e.pid, e.choice);
      StepKeepsSlots(v, e.pid, e.choice);
    }
  }
}
