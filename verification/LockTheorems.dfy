/** The contract of QtLockedFile over every run of the lock machine. */
module LockTheorems {
  import opened NamedMutexes
  import opened LockMachine
  import opened LockInvariant

  /** p is between a successful lock(m) and the start of its unlock(). */
  predicate Holds(w: World, p: Pid, m: Mode) {
    p < |w.procs| && w.procs[p].pc.Idle? && w.procs[p].mode == m
  }

  // ----- mutual exclusion

  lemma HolderOwns(w: World, p: Pid)
    requires BaseInv(w)
    ensures Holds(w, p, WriteLock) ==>
      && Owns(w.kernel, p, WRITER)
      && forall n | n in w.kernel.owner :: w.kernel.owner[n] == p || n < 0 || n in w.procs[p].missed
    ensures Holds(w, p, ReadLock) ==> IsSlot(w.procs[p].rmutex) && Owns(w.kernel, p, w.procs[p].rmutex)
  {
    if p < |w.procs| {
      var pr := w.procs[p];
      assert ProcInv(w.kernel, p, pr);
      assert Holds(w, p, WriteLock) ==> MustOwn(pr, WRITER);
      assert Holds(w, p, ReadLock) ==> MustOwn(pr, pr.rmutex);
    }
  }

  lemma WriterExcludes(w: World, p: Pid, q: Pid)
    requires Inv(w) && Holds(w, p, WriteLock) && p != q
    ensures !Holds(w, q, WriteLock) && !Holds(w, q, ReadLock)
  {
    HolderOwns(w, p);
    HolderOwns(w, q);
  }

  /** A write lock and any other lock never exist at the same time, in any interleaving. */
  lemma MutualExclusion(ws: seq<World>, es: seq<Event>, i: nat, p: Pid, q: Pid)
    requires Run(ws, es) && i < |ws|
    requires p != q && Holds(ws[i], p, WriteLock)
    ensures !Holds(ws[i], q, WriteLock) && !Holds(ws[i], q, ReadLock)
  {
    RunKeepsInv(ws, es, i);
    WriterExcludes(ws[i], p, q);
  }

  // ----- reader slots

  /** Concurrent readers own pairwise different slots. */
  lemma ReadersOwnDistinctSlots(w: World, p: Pid, q: Pid)
    requires Inv(w) && Holds(w, p, ReadLock) && Holds(w, q, ReadLock)
    ensures IsSlot(w.procs[p].rmutex) && Owns(w.kernel, p, w.procs[p].rmutex)
    ensures p != q ==> w.procs[p].rmutex != w.procs[q].rmutex
  {
    HolderOwns(w, p);
    HolderOwns(w, q);
  }

  function Readers(w: World): set<Pid> {
    set p | 0 <= p < |w.procs| && Holds(w, p, ReadLock)
  }

  function Writers(w: World): set<Pid> {
    set p | 0 <= p < |w.procs| && Holds(w, p, WriteLock)
  }

  lemma {:induction false} CountSlots(w: World, ps: set<Pid>, free: set<int>)
    requires Inv(w) && ps <= Readers(w)
    requires forall p | p in ps :: w.procs[p].rmutex in free
    ensures |ps| <= |free|
    decreases |ps|
  {
    if ps != {} {
      var p :| p in ps;
      var slot := w.procs[p].rmutex;
      forall q | q in ps - {p} ensures w.procs[q].rmutex in free - {slot} {
        ReadersOwnDistinctSlots(w, p, q);
      }
      CountSlots(w, ps - {p}, free - {slot});
    }
  }

  function Slots(n: nat): set<int> {
    set i | 0 <= i < n && IsSlot(i)
  }

  lemma {:induction false} SlotCount(n: nat)
    requires n <= MAX_READERS
    ensures |Slots(n)| == n
  {
    if n > 0 {
      SlotCount(n - 1);
      assert Slots(n) == Slots(n - 1) + {n - 1};
    }
  }

  /** The slot p is about to keep is not the slot of any reader, so there are fewer
      than 64 of them. */
  lemma ReadersBelowLimit(w: World, p: Pid)
    requires Inv(w) && p < |w.procs| && w.procs[p].pc == RDone(true)
    ensures |Readers(w)| < 64
  {
    var slot := w.procs[p].rmutex;
    assert IsSlot(slot) && Owns(w.kernel, p, slot) by {
      assert ProcInv(w.kernel, p, w.procs[p]);
      assert MustOwn(w.procs[p], slot);
    }
    var all := Slots(MAX_READERS);
    forall q | q in Readers(w) ensures w.procs[q].rmutex in all - {slot} {
      HolderOwns(w, q);
    }
    SlotCount(MAX_READERS);
    CountSlots(w, Readers(w), all - {slot});
  }

  /** When the scan is over, the writer has collected the slot of every reader, also of
      one that is just about to release it, however the slots are spread. */
  lemma ScanCollectsReaders(w: World, p: Pid, q: Pid)
    requires Inv(w) && p < |w.procs| && q < |w.procs|
    requires w.procs[p].pc.WWaitAll? || w.procs[p].pc == WOpen(MAX_READERS)
    requires Holds(w, q, ReadLock) || w.procs[q].pc.UReleaseR?
    ensures w.procs[q].rmutex in w.procs[p].rmutexes
  {
    assert ProcInv(w.kernel, p, w.procs[p]) && ProcInv(w.kernel, q, w.procs[q]);
    assert MustOwn(w.procs[q], w.procs[q].rmutex);
  }

  lemma {:induction false} ScanAtLeast(s: seq<int>, i: nat)
    requires IsScan(s) && i < |s|
    ensures s[i] >= i
  {
    if i > 0 {
      ScanAtLeast(s, i - 1);
    }
  }

  /** The multi-wait is never given more than MAXIMUM_WAIT_OBJECTS handles. */
  lemma ScanFitsMultiWait(s: seq<int>)
    requires IsScan(s)
    ensures |s| <= MAX_READERS <= 64
  {
    if s != [] {
      ScanAtLeast(s, |s| - 1);
    }
  }

  /** The non-blocking wait on a slot that was just created always succeeds. */
  lemma NewSlotIsFree(w: World, p: Pid, idx: nat)
    requires Inv(w) && SlotInv(w) && p < |w.procs| && w.procs[p].pc == RWaitNew(idx)
    ensures Step(w, p, Continue).procs[p].pc == RDone(true)
    ensures Owns(Step(w, p, Continue).kernel, p, idx)
  {
    assert ProcInv(w.kernel, p, w.procs[p]) && SlotKnown(w.kernel, p, w.procs[p]);
    if idx in w.kernel.owner {
      OwnerHasHandle(w, w.kernel.owner[idx], idx);
    }
  }

  /** No process ever waits for a mutex that it owns already, so the recursion count
      of the mutexes plays no role; and a write scan starts with no slots collected. */
  lemma WaitsAreNotRecursive(w: World, p: Pid)
    requires Inv(w) && p < |w.procs|
    ensures w.procs[p].pc.WaitW? ==> !Owns(w.kernel, p, WRITER) && w.procs[p].rmutexes == []
    ensures w.procs[p].pc.RTry? || w.procs[p].pc.RWaitNew? ==> !Owns(w.kernel, p, w.procs[p].rmutex)
    ensures w.procs[p].pc.WWaitAll? ==> forall n | n in w.procs[p].rmutexes :: !Owns(w.kernel, p, n)
  {
    assert ProcInv(w.kernel, p, w.procs[p]);
  }

  // ----- refinement of the documented lock

  /** The documented lock: up to 64 readers, or one writer. */
  datatype RwLock = RwLock(readers: set<Pid>, writers: set<Pid>)

  function View(w: World): RwLock {
    RwLock(Readers(w), Writers(w))
  }

  ghost predicate SpecNext(a: RwLock, b: RwLock, p: Pid) {
    || b == a
    || (p !in a.readers && a.writers == {} && |a.readers| < 64 && b == a.(readers := a.readers + {p}))
    || (a.readers == {} && a.writers == {} && b == a.(writers := {p}))
    || (p in a.readers && b == a.(readers := a.readers - {p}))
    || (p in a.writers && b == a.(writers := a.writers - {p}))
  }

  lemma ViewOfStep(w: World, p: Pid, c: Choice)
    requires Enabled(w, p, c)
    ensures var w' := Step(w, p, c);
            && Readers(w') - {p} == Readers(w) - {p} && (p in Readers(w') <==> Holds(w', p, ReadLock))
            && Writers(w') - {p} == Writers(w) - {p} && (p in Writers(w') <==> Holds(w', p, WriteLock))
  {}

  lemma WriterAlone(w: World, p: Pid)
    requires Inv(w) && Holds(w, p, WriteLock)
    ensures View(w) == RwLock({}, {p})
  {
    forall q: Pid | q != p ensures q !in Readers(w) && q !in Writers(w) {
      WriterExcludes(w, p, q);
    }
    assert p in Writers(w) && p !in Readers(w);
    assert Writers(w) == {p};
  }

  lemma ReaderWithoutWriter(w: World, p: Pid)
    requires Inv(w) && Holds(w, p, ReadLock)
    ensures Writers(w) == {}
  {
    forall q | q in Writers(w) ensures false {
      WriterExcludes(w, q, p);
    }
  }

  /** A lock is granted only at the end of a lock call, in the mode that was asked for. */
  lemma GrantFromLock(w: World, p: Pid, c: Choice, m: Mode)
    requires Inv(w) && Enabled(w, p, c) && m != NoLock
    requires Holds(Step(w, p, c), p, m) && !Holds(w, p, m)
    ensures !Holds(w, p, ReadLock) && !Holds(w, p, WriteLock)
    ensures m == ReadLock ==> w.procs[p].pc == RDone(true)
  {
    assert ProcInv(w.kernel, p, w.procs[p]);
  }

  /** Every step of every process is a step of the documented lock: acquire when the
      holders permit it, release, or no change. */
  lemma StepRefinesSpec(w: World, p: Pid, c: Choice)
    requires Inv(w) && Enabled(w, p, c)
    ensures SpecNext(View(w), View(Step(w, p, c)), p)
  {
    var w' := Step(w, p, c);
    var a, b := View(w), View(w');
    assert Inv(w') by { StepKeepsInv(w, p, c); }
    assert
      && b.readers - {p} == a.readers - {p} && (p in b.readers <==> Holds(w', p, ReadLock)) && (p in a.readers <==> Holds(w, p, ReadLock))
      && b.writers - {p} == a.writers - {p} && (p in b.writers <==> Holds(w', p, WriteLock)) && (p in a.writers <==> Holds(w, p, WriteLock))
    by { ViewOfStep(w, p, c); }
    SetFacts(a.readers, b.readers, p);
    SetFacts(a.writers, b.writers, p);
    if Holds(w', p, WriteLock) && !Holds(w, p, WriteLock) {
      WriterAlone(w', p);
      GrantFromLock(w, p, c, WriteLock);
    } else if Holds(w', p, ReadLock) && !Holds(w, p, ReadLock) {
      GrantFromLock(w, p, c, ReadLock);
      ReadersBelowLimit(w, p);
      ReaderWithoutWriter(w', p);
    }
  }

  lemma SetFacts(a: set<Pid>, b: set<Pid>, p: Pid)
    requires a - {p} == b - {p}
    ensures (p in a <==> p in b) ==> a == b
    ensures p in b && p !in a ==> b == a + {p}
    ensures p !in b && p in a ==> b == a - {p}
  {
    assert forall x | x != p :: x in a - {p} <==> x in a;
    assert forall x | x != p :: x in b - {p} <==> x in b;
  }

  /** Every run of the lock, seen through its holders, is a run of the documented lock. */
  lemma RunRefinesSpec(ws: seq<World>, es: seq<Event>)
    requires Run(ws, es)
    ensures View(ws[0]) == RwLock({}, {})
    ensures forall i | 0 <= i < |es| :: SpecNext(View(ws[i]), View(ws[i + 1]), es[i].pid)
  {
    forall i | 0 <= i < |es| ensures SpecNext(View(ws[i]), View(ws[i + 1]), es[i].pid) {
      RunKeepsInv(ws, es, i);
      StepRefinesSpec(ws[i], es[i].pid, es[i].choice);
    }
  }

  // ----- what a call returns

  /** p is inside lock(m), m != NoLock. */
  ghost predicate InLock(pr: Proc, m: Mode) {
    && pr.req == m
    && !pr.pc.Idle? && !pr.pc.DCloseW?
    && (pr.pc.UReleaseR? || pr.pc.UCloseR? || pr.pc.URelease? || pr.pc.UClose? || pr.pc.UReleaseW? ==>
          pr.pc.after == ThenLock || pr.pc.after == ThenFail)
  }

  ghost predicate LockGoesOn(pr: Proc, m: Mode) {
    InLock(pr, m) || (pr.pc.Idle? && pr.answer.Locked? && pr.answer.req == m)
  }

  lemma UnlockGoesOn(pr: Proc, after: After, m: Mode)
    requires pr.req == m && (after == ThenLock || after == ThenFail)
    ensures pr.mode == NoLock || !pr.pc.Idle? ==> LockGoesOn(Finish(pr, after), m)
    ensures pr.mode != NoLock ==> LockGoesOn(BeginUnlock(pr, after), m)
  {}

  lemma CallGoesOn(k: Kernel, p: Pid, pr: Proc, c: Choice, m: Mode)
    requires Shape(pr) && InLock(pr, m)
    ensures LockGoesOn(Perform(k, p, pr, c).1, m)
  {
    hide OpenHandle, CloseHandle, Acquire, Release, AcquireAll, Exists, Available, AllAvailable;
    match pr.pc
    case WWaitAll => UnlockGoesOn(pr.(mode := WriteLock), ThenFail, m);
    case UCloseR(after) => UnlockGoesOn(pr.(rmutex := NULL, mode := NoLock), after, m);
    case UReleaseW(after) => UnlockGoesOn(pr.(rmutexes := [], mode := NoLock), after, m);
    case _ =>
  }

  lemma InLockStep(w: World, p: Pid, q: Pid, c: Choice, m: Mode)
    requires Inv(w) && Enabled(w, q, c) && p < |w.procs| && !(q == p && c.Crash?)
    requires InLock(w.procs[p], m)
    ensures LockGoesOn(Step(w, q, c).procs[p], m)
  {
    assert ProcInv(w.kernel, p, w.procs[p]);
    if p == q {
      CallGoesOn(w.kernel, p, w.procs[p], c, m);
    } else {
      StepLeavesOthers(w, q, c);
    }
  }

  lemma LockStarts(w: World, p: Pid, c: Choice)
    requires Inv(w) && Enabled(w, p, c) && c.CallLock? && c.mode != NoLock
    ensures LockGoesOn(Step(w, p, c).procs[p], c.mode)
  {
    assert ProcInv(w.kernel, p, w.procs[p]);
  }

  /** Event i is p's call of lock(m), and p has neither returned nor died before state j. */
  ghost predicate Calls(ws: seq<World>, es: seq<Event>, i: nat, j: nat, p: Pid, m: Mode) {
    && Run(ws, es) && i < j < |ws| && m != NoLock
    && es[i].pid == p && es[i].choice.CallLock? && es[i].choice.mode == m
    && (forall t | i < t < j :: p < |ws[t].procs| && !ws[t].procs[p].pc.Idle? && !(es[t].pid == p && es[t].choice.Crash?))
  }

  lemma {:induction false} LockStaysInLock(ws: seq<World>, es: seq<Event>, i: nat, j: nat, p: Pid, m: Mode)
    requires Calls(ws, es, i, j, p, m)
    ensures p < |ws[j].procs|
    ensures LockGoesOn(ws[j].procs[p], m)
  {
    RunKeepsInv(ws, es, j - 1);
    if i < j - 1 {
      LockStaysInLock(ws, es, i, j - 1, p, m);
      InLockStep(ws[j - 1], p, es[j - 1].pid, es[j - 1].choice, m);
    } else {
      LockStarts(ws[i], p, es[i].choice);
    }
  }

  /** lock(m) called at i and returned at j: it returns true exactly when p then holds
      the lock in mode m; when it returns false p holds no lock, owns no mutex, has
      collected no slots and keeps no handle but the one of the writer mutex. */
  lemma LockContract(ws: seq<World>, es: seq<Event>, i: nat, j: nat, p: Pid, m: Mode)
    requires Calls(ws, es, i, j, p, m)
    requires p < |ws[j].procs| && ws[j].procs[p].pc.Idle?
    ensures ws[j].procs[p].answer.Locked? && ws[j].procs[p].answer.req == m
    ensures ws[j].procs[p].answer.ret <==> Holds(ws[j], p, m)
    ensures !ws[j].procs[p].answer.ret ==> HoldsNothing(ws[j], p)
  {
    LockStaysInLock(ws, es, i, j, p, m);
    RunKeepsInv(ws, es, j);
    assert ProcInv(ws[j].kernel, p, ws[j].procs[p]);
  }

  ghost predicate HoldsNothing(w: World, p: Pid)
    requires p < |w.procs|
  {
    && w.procs[p].mode == NoLock && w.procs[p].rmutexes == []
    && (forall n :: !Owns(w.kernel, p, n))
    && (forall n :: (p, n) in w.kernel.handles ==> n == WRITER)
  }

  // ----- no deadlock, and every call ends

  ghost predicate Waiting(pr: Proc) {
    pr.block && (pr.pc.WaitW? || pr.pc.WWaitAll?)
  }

  /** p sits in a blocking wait that cannot succeed now. */
  ghost predicate Blocked(w: World, p: Pid) {
    p < |w.procs| && Waiting(w.procs[p]) && !Enabled(w, p, Continue)
  }

  ghost predicate WaitsFor(w: World, p: Pid, q: Pid) {
    && p < |w.procs| && q < |w.procs| && p != q
    && ((w.procs[p].pc.WaitW? && Owns(w.kernel, q, WRITER))
        || (w.procs[p].pc.WWaitAll? && exists n :: n in w.procs[p].rmutexes && Owns(w.kernel, q, n)))
  }

  lemma BlockedWaitsFor(w: World, p: Pid) returns (q: Pid)
    requires Inv(w) && Blocked(w, p)
    ensures WaitsFor(w, p, q)
    ensures Blocked(w, q) ==> w.procs[p].pc.WaitW? && w.procs[q].pc.WWaitAll?
  {
    var k, pr := w.kernel, w.procs[p];
    assert ProcInv(k, p, pr);
    var n := if pr.pc.WaitW? then WRITER else var m :| m in pr.rmutexes && !Available(k, p, m); m;
    q := k.owner[n];
    assert Owns(k, q, n);
    assert ProcInv(k, q, w.procs[q]);
    assert MayOwn(w.procs[q], n);
  }

  /** Wherever a process is blocked, the chain of processes it waits for ends after at
      most two hops at a process that is not blocked: one that can continue its call, or
      one that sits between calls with a lock it may release. */
  lemma NoDeadlock(w: World, p: Pid) returns (q: Pid)
    requires Inv(w) && Blocked(w, p)
    ensures q != p && q < |w.procs| && !Blocked(w, q)
    ensures Enabled(w, q, Continue) || Holds(w, q, ReadLock) || Holds(w, q, WriteLock)
    ensures WaitsFor(w, p, q) || exists r :: WaitsFor(w, p, r) && WaitsFor(w, r, q)
  {
    q := BlockedWaitsFor(w, p);
    if Blocked(w, q) {
      var r := q;
      q := BlockedWaitsFor(w, r);
      assert WaitsFor(w, p, r) && WaitsFor(w, r, q);
    }
    assert ProcInv(w.kernel, q, w.procs[q]);
  }

  /** Bounds the Win32 calls that are left in the call in progress. */
  function Rank(pr: Proc): nat {
    match pr.pc
    case Idle => 0
    case DCloseW => 1
    case CreateW => 300
    case WaitW => 299
    case ROpen(idx) => if idx <= MAX_READERS then 3 * (MAX_READERS - idx) + 10 else 0
    case RTry(idx) => if idx <= MAX_READERS then 3 * (MAX_READERS - idx) + 9 else 0
    case RSkip(idx) => if idx <= MAX_READERS then 3 * (MAX_READERS - idx) + 8 else 0
    case RCreate(_) => 7
    case RWaitNew(_) => 6
    case RFail => 5
    case RDone(_) => 4
    case WOpen(i) => if i <= MAX_READERS then 141 + MAX_READERS - i else 0
    case WWaitAll => 140
    case UReleaseR(after) => Rest(after) + 2
    case UCloseR(after) => Rest(after) + 1
    case URelease(k, after) => if k <= |pr.rmutexes| then Rest(after) + 2 * (|pr.rmutexes| - k) + 2 else 0
    case UClose(k, after) => if k <= |pr.rmutexes| then Rest(after) + 2 * (|pr.rmutexes| - k) + 1 else 0
    case UReleaseW(after) => Rest(after) + 1
  }

  function Rest(after: After): nat {
    match after
    case ThenLock => 301
    case _ => 2
  }

  const CALL_BOUND := 431

  lemma RankBounded(pr: Proc)
    requires Shape(pr)
    ensures Rank(pr) <= CALL_BOUND
    ensures pr.pc.WWaitAll? ==> |pr.rmutexes| <= MAX_READERS
  {
    if pr.pc.WWaitAll? || pr.pc.URelease? || pr.pc.UClose? {
      ScanFitsMultiWait(pr.rmutexes);
    }
  }

  lemma ReaderComesCloser(k: Kernel, p: Pid, pr: Proc, c: Choice)
    requires Shape(pr)
    requires pr.pc.ROpen? || pr.pc.RTry? || pr.pc.RSkip? || pr.pc.RCreate? || pr.pc.RWaitNew? || pr.pc.RFail? || pr.pc.RDone?
    ensures Rank(Perform(k, p, pr, c).1) < Rank(pr)
  {
    hide OpenHandle, CloseHandle, Acquire, Release, Exists, Available;
  }

  lemma WriterComesCloser(k: Kernel, p: Pid, pr: Proc, c: Choice)
    requires Shape(pr)
    requires pr.pc.CreateW? || pr.pc.WaitW? || pr.pc.WOpen? || pr.pc.WWaitAll? || pr.pc.DCloseW?
    ensures Rank(Perform(k, p, pr, c).1) < Rank(pr)
  {
    RankBounded(pr);
    hide OpenHandle, CloseHandle, Acquire, AcquireAll, Exists, Available, AllAvailable;
  }

  lemma LockingComesCloser(w: World, p: Pid, c: Choice)
    requires Inv(w) && Enabled(w, p, c) && !c.Crash?
    requires var pc := w.procs[p].pc; !pc.Idle? && !pc.UReleaseR? && !pc.UCloseR? && !pc.URelease? && !pc.UClose? && !pc.UReleaseW?
    ensures Rank(Step(w, p, c).procs[p]) < Rank(w.procs[p])
  {
    var k, pr := w.kernel, w.procs[p];
    assert Shape(pr) by {
      assert ProcInv(k, p, pr);
    }
    hide Inv, Shape, Rank, Perform;
    if pr.pc.CreateW? || pr.pc.WaitW? || pr.pc.WOpen? || pr.pc.WWaitAll? || pr.pc.DCloseW? {
      WriterComesCloser(k, p, pr, c);
    } else {
      ReaderComesCloser(k, p, pr, c);
    }
  }

  lemma UnlockingComesCloser(w: World, p: Pid, c: Choice)
    requires Inv(w) && Enabled(w, p, c) && !c.Crash?
    requires var pc := w.procs[p].pc; pc.UReleaseR? || pc.UCloseR? || pc.URelease? || pc.UClose? || pc.UReleaseW?
    ensures Rank(Step(w, p, c).procs[p]) < Rank(w.procs[p])
  {
    assert Shape(w.procs[p]) by {
      assert ProcInv(w.kernel, p, w.procs[p]);
    }
    hide Inv, OpenHandle, CloseHandle, Acquire, Release, AcquireAll, Exists, Available, AllAvailable;
  }

  /** Every call ends after a bounded number of steps of its own process: no step of a
      call in progress can be taken without coming closer to its end. */
  lemma CallsEnd(w: World, p: Pid, c: Choice)
    requires Inv(w) && Enabled(w, p, c)
    ensures Rank(w.procs[p]) <= CALL_BOUND
    ensures c.Continue? || c.ApiError? || c.LateAbandoned? ==> Rank(Step(w, p, c).procs[p]) < Rank(w.procs[p])
  {
    var pr := w.procs[p];
    assert ProcInv(w.kernel, p, pr);
    RankBounded(pr);
    if c.Continue? || c.ApiError? || c.LateAbandoned? {
      if pr.pc.UReleaseR? || pr.pc.UCloseR? || pr.pc.URelease? || pr.pc.UClose? || pr.pc.UReleaseW? {
        UnlockingComesCloser(w, p, c);
      } else {
        LockingComesCloser(w, p, c);
      }
    }
  }
}
