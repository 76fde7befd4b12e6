/** lock() and unlock() of QtLockedFile and isClient() of QtLocalPeer in the form of the
    source: objects with their fields and loops over the slots. Every Win32 call is a
    step of the lock machine, before which the other processes may take any number of
    steps, so the results hold under every interleaving. */
module LockedFile {
  import opened NamedMutexes
  import opened LockMachine
  import opened LockInvariant
  import opened LockTheorems

  /** The machine the processes share; its state is the last one of some run. */
  class Machine {
    var w: World
    var others: seq<Event>     // what the other processes will do, in this order
    const reliable: bool       // whether every Win32 call reports success when it can
    ghost var age: nat         // the number of steps since the start

    ghost predicate Valid() reads this {
      ReachableIn(age, w)
    }

    constructor (start: World, others: seq<Event>, reliable: bool)
      requires Initial(start)
      ensures Valid() && w == start && this.others == others && this.reliable == reliable
    {
      w, this.others, this.reliable, age := start, others, reliable, 0;
    }

    lemma ValidInv()
      requires Valid()
      ensures Inv(w) && SlotInv(w)
    {
      ReachableKeepsInv(age, w);
    }

    method Take(p: Pid, c: Choice)
      requires Valid() && Enabled(w, p, c)
      modifies this
      ensures Valid() && w == Step(old(w), p, c) && others == old(others)
    {
      ghost var e := Event(p, c);
      assert ReachableIn(age, w) && Enabled(w, e.pid, e.choice);
      w, age := Step(w, p, c), age + 1;
    }

    /** The next scheduled step of another process, if it is possible. */
    method TakeOther(me: Pid)
      requires Valid() && others != [] && me < |w.procs|
      modifies this
      ensures Valid() && others == old(others)[1..]
      ensures me < |w.procs| && w.procs[me] == old(w.procs[me])
    {
      var e := others[0];
      if e.pid != me && Enabled(w, e.pid, e.choice) {
        Take(e.pid, e.choice);
      }
      others := others[1..];
    }

    method RunOthers(me: Pid)
      requires Valid() && me < |w.procs|
      modifies this
      ensures Valid()
      ensures me < |w.procs| && w.procs[me] == old(w.procs[me])
      ensures old(others) == [] ==> others == [] && w == old(w)
    {
      var n: nat := *;
      while n > 0 && others != []
        invariant Valid()
        invariant me < |w.procs| && w.procs[me] == old(w.procs[me])
        invariant old(others) == [] ==> others == [] && w == old(w)
      {
        TakeOther(me);
        n := n - 1;
      }
    }

    /** A Win32 call of process me that does not block; at is the state it finds. */
    method Syscall(me: Pid, c: Choice) returns (at: World)
      requires Valid() && Enabled(w, me, c) && !Waiting(w.procs[me]) && !c.LateAbandoned?
      modifies this
      ensures Valid()
      ensures Inv(at) && SlotInv(at) && Enabled(at, me, c) && at.procs[me] == old(w.procs[me]) && w == Step(at, me, c)
      ensures old(others) == [] ==> others == [] && at == old(w)
    {
      RunOthers(me);
      at := w;
      ValidInv();
      Take(me, c);
    }

    /** A wait of process me: true when it got what it waited for. A blocking wait may
        outlast the schedule, which leaves the process waiting. */
    method Wait(me: Pid) returns (got: bool, stuck: bool, at: World)
      requires Valid() && me < |w.procs| && (w.procs[me].pc.WaitW? || w.procs[me].pc.WWaitAll?)
      modifies this
      ensures Valid()
      ensures Inv(at) && me < |at.procs| && at.procs[me] == old(w.procs[me])
      ensures stuck ==> !got && w == at && Blocked(w, me)
      ensures !stuck ==> exists c :: Enabled(at, me, c) && w == Step(at, me, c) && (c.Continue? || c.ApiError? || c.LateAbandoned?)
                                     && (got <==> c.Continue? && WaitSucceeds(at, me)) && (reliable ==> c.Continue?)
      ensures old(others) == [] ==> others == [] && at == old(w)
    {
      RunOthers(me);
      while !Enabled(w, me, Continue) && others != []
        invariant Valid()
        invariant me < |w.procs| && w.procs[me] == old(w.procs[me])
        invariant old(others) == [] ==> others == [] && w == old(w)
        decreases |others|
      {
        TakeOther(me);
      }
      at := w;
      ValidInv();
      var c: Choice := *;
      if reliable || !Enabled(w, me, c) || !(c.ApiError? || c.LateAbandoned?) {
        c := Continue;
      }
      stuck := !Enabled(w, me, c);
      got := c.Continue? && WaitSucceeds(w, me);
      if !stuck {
        Take(me, c);
      }
    }

    // ----- the Win32 calls of lock(), with what each tells its caller

    /** The schedule is over, Win32 calls do not fail, and the others are between calls. */
    ghost predicate Undisturbed(me: Pid) reads this {
      others == [] && reliable && Quiet(w, me)
    }

    method Call(me: Pid, mayFail: bool) returns (at: World, failed: bool)
      requires Valid() && Enabled(w, me, Continue) && !Waiting(w.procs[me])
      requires mayFail ==> Enabled(w, me, ApiError)
      modifies this
      ensures Valid() && Inv(at) && SlotInv(at) && me < |at.procs| && at.procs[me] == old(w.procs[me])
      ensures var c := if failed then ApiError else Continue; Enabled(at, me, c) && w == Step(at, me, c)
      ensures failed ==> mayFail && !reliable
      ensures old(Undisturbed(me)) ==> Undisturbed(me) && at == old(w) && SameOthers(at, w, me)
    {
      failed := *;
      failed := failed && mayFail && !reliable;
      at := Syscall(me, if failed then ApiError else Continue);
    }

    method OpenReaderSlot(me: Pid, idx: nat) returns (found: bool)
      requires Valid() && me < |w.procs| && w.procs[me].pc == ROpen(idx) && idx < MAX_READERS
      modifies this
      ensures Valid() && me < |w.procs|
      ensures w.procs[me] == if found then old(w.procs[me]).(rmutex := idx, pc := RTry(idx)) else old(w.procs[me]).(rmutex := NULL, pc := RCreate(idx))
      ensures old(Undisturbed(me)) ==> Undisturbed(me) && SameOthers(old(w), w, me) && (!found ==> !SlotTaken(old(w), me, idx))
    {
      var at, _ := Call(me, false);
      found := Exists(at.kernel, idx);
      assert ProcInv(at.kernel, me, at.procs[me]);
      assert MustOwn(at.procs[me], WRITER);
      if old(Undisturbed(me)) { QuietSlot(at, me, idx); }
    }

    method TryReaderSlot(me: Pid, idx: nat) returns (got: bool)
      requires Valid() && me < |w.procs| && w.procs[me].pc == RTry(idx) && idx < MAX_READERS
      modifies this
      ensures Valid() && me < |w.procs|
      ensures w.procs[me] == old(w.procs[me]).(pc := if got then RDone(true) else RSkip(idx))
      ensures old(Undisturbed(me)) ==> Undisturbed(me) && SameOthers(old(w), w, me) && (got <==> !SlotTaken(old(w), me, idx))
    {
      var at, failed := Call(me, true);
      got := !failed && Available(at.kernel, me, at.procs[me].rmutex);
      assert ProcInv(at.kernel, me, at.procs[me]);
      assert MustOwn(at.procs[me], WRITER);
      if old(Undisturbed(me)) { QuietSlot(at, me, idx); }
    }

    method SkipReaderSlot(me: Pid, idx: nat)
      requires Valid() && me < |w.procs| && w.procs[me].pc == RSkip(idx)
      modifies this
      ensures Valid() && me < |w.procs| && w.procs[me] == old(w.procs[me]).(pc := ROpen(idx + 1))
      ensures old(Undisturbed(me)) ==> Undisturbed(me) && SameOthers(old(w), w, me)
    {
      var _, _ := Call(me, false);
    }

    method CreateReaderSlot(me: Pid, idx: nat) returns (created: bool)
      requires Valid() && me < |w.procs| && w.procs[me].pc == RCreate(idx)
      modifies this
      ensures Valid() && me < |w.procs|
      ensures w.procs[me] == if created then old(w.procs[me]).(rmutex := idx, pc := RWaitNew(idx)) else old(w.procs[me]).(rmutex := NULL, pc := RDone(false))
      ensures reliable ==> created
      ensures old(Undisturbed(me)) ==> Undisturbed(me) && SameOthers(old(w), w, me)
    {
      var _, failed := Call(me, true);
      created := !failed;
    }

    method TryNewSlot(me: Pid, idx: nat) returns (got: bool)
      requires Valid() && me < |w.procs| && w.procs[me].pc == RWaitNew(idx)
      modifies this
      ensures Valid() && me < |w.procs|
      ensures w.procs[me] == old(w.procs[me]).(pc := if got then RDone(true) else RFail)
      ensures reliable ==> got
      ensures old(Undisturbed(me)) ==> Undisturbed(me) && SameOthers(old(w), w, me)
    {
      var at, failed := Call(me, true);
      NewSlotIsFree(at, me, idx);
      got := !failed;
    }

    method DropNewSlot(me: Pid)
      requires Valid() && me < |w.procs| && w.procs[me].pc == RFail
      modifies this
      ensures Valid() && me < |w.procs| && w.procs[me] == old(w.procs[me]).(rmutex := NULL, pc := RDone(false))
      ensures old(Undisturbed(me)) ==> Undisturbed(me) && SameOthers(old(w), w, me)
    {
      var _, _ := Call(me, false);
    }

    method TooManyReaders(me: Pid)
      requires Valid() && me < |w.procs| && w.procs[me].pc == ROpen(MAX_READERS)
      modifies this
      ensures Valid() && me < |w.procs| && w.procs[me] == old(w.procs[me]).(rmutex := NULL, pc := RDone(false))
      ensures old(Undisturbed(me)) ==> Undisturbed(me) && SameOthers(old(w), w, me)
    {
      var _, _ := Call(me, false);
    }

    method FinishReader(me: Pid, ok: bool)
      requires Valid() && me < |w.procs| && w.procs[me].pc == RDone(ok)
      modifies this
      ensures Valid() && me < |w.procs| && w.procs[me] == if ok then Granted(old(w.procs[me])) else Refused(old(w.procs[me]))
      ensures old(Undisturbed(me)) ==> Undisturbed(me) && SameOthers(old(w), w, me)
    {
      var _, _ := Call(me, false);
    }

    method CreateWriterMutex(me: Pid) returns (created: bool)
      requires Valid() && me < |w.procs| && w.procs[me].pc == CreateW
      modifies this
      ensures Valid() && me < |w.procs|
      ensures w.procs[me] == if created then old(w.procs[me]).(wmutex := true, pc := WaitW) else Refused(old(w.procs[me]))
      ensures reliable ==> created
      ensures old(Undisturbed(me)) ==> Undisturbed(me) && SameOthers(old(w), w, me)
    {
      var _, failed := Call(me, true);
      created := !failed;
    }

    method WaitForWriterMutex(me: Pid) returns (got: bool, stuck: bool)
      requires Valid() && me < |w.procs| && w.procs[me].pc == WaitW
      modifies this
      ensures Valid() && me < |w.procs|
      ensures w.procs[me] == if stuck then old(w.procs[me]) else if got then HaveW(old(w.procs[me])) else Refused(old(w.procs[me]))
      ensures stuck ==> !got && Blocked(w, me)
      ensures old(Undisturbed(me)) ==> Undisturbed(me) && SameOthers(old(w), w, me)
      ensures old(Undisturbed(me)) ==> (got <==> !WriterElsewhere(old(w), me)) && (stuck <==> !got && old(w.procs[me].block))
    {
      var at;
      got, stuck, at := Wait(me);
      assert ProcInv(at.kernel, me, at.procs[me]);
      if old(Undisturbed(me)) { QuietWriter(at, me); }
    }

    method OpenSlotForWriter(me: Pid, i: nat) returns (found: bool)
      requires Valid() && me < |w.procs| && w.procs[me].pc == WOpen(i) && i < MAX_READERS
      modifies this
      ensures Valid() && me < |w.procs|
      ensures w.procs[me] == old(w.procs[me]).(rmutexes := if found then old(w.procs[me].rmutexes) + [i] else old(w.procs[me].rmutexes), pc := WOpen(i + 1))
      ensures old(Undisturbed(me)) ==> Undisturbed(me) && SameOthers(old(w), w, me)
    {
      var at, _ := Call(me, false);
      found := Exists(at.kernel, i);
    }

    method FinishScan(me: Pid)
      requires Valid() && me < |w.procs| && w.procs[me].pc == WOpen(MAX_READERS)
      modifies this
      ensures Valid() && me < |w.procs| && w.procs[me] == AfterScan(old(w.procs[me]))
      ensures old(Undisturbed(me)) ==> Undisturbed(me) && SameOthers(old(w), w, me)
    {
      var _, _ := Call(me, false);
    }

    method WaitForReaderMutexes(me: Pid) returns (got: bool, stuck: bool)
      requires Valid() && me < |w.procs| && w.procs[me].pc == WWaitAll
      modifies this
      ensures Valid() && me < |w.procs|
      ensures w.procs[me] == if stuck then old(w.procs[me]) else if got then Granted(old(w.procs[me])) else CleanUp(old(w.procs[me]))
      ensures stuck ==> !got && Blocked(w, me)
      ensures old(Undisturbed(me)) ==> Undisturbed(me) && SameOthers(old(w), w, me)
      ensures old(Undisturbed(me)) ==> (got <==> !ReaderElsewhere(old(w), me)) && (stuck <==> !got && old(w.procs[me].block))
    {
      var at;
      got, stuck, at := Wait(me);
      if old(Undisturbed(me)) { QuietReaders(at, me); }
    }
  }

  predicate WaitSucceeds(w: World, me: Pid)
    requires me < |w.procs|
  {
    if w.procs[me].pc.WaitW? then Available(w.kernel, me, WRITER) else AllAvailable(w.kernel, me, w.procs[me].rmutexes)
  }

  /** Whether the call returned, or still waits when the schedule has run out. */
  datatype Outcome = Returned(ok: bool) | StillWaiting

  class QtLockedFile {
    const m: Machine
    const me: Pid
    const isOpen: bool
    var wmutex: bool
    var rmutex: int
    var rmutexes: seq<int>
    var lockMode: Mode

    constructor (m: Machine, me: Pid)
      requires m.Valid() && me < |m.w.procs| && m.w.procs[me] == Fresh(m.w.procs[me].isOpen)
      ensures this.m == m && this.me == me && At(Idle) && lockMode == NoLock
    {
      this.m, this.me, isOpen := m, me, m.w.procs[me].isOpen;
      wmutex, rmutex, rmutexes, lockMode := false, NULL, [], NoLock;
    }

    /** The process stands at control point pc with the fields of this object. */
    ghost predicate At(pc: Pc) reads this, m {
      && m.Valid()
      && me < |m.w.procs|
      && var pr := m.w.procs[me];
         && pr.pc == pc && pr.isOpen == isOpen && pr.wmutex == wmutex
         && pr.rmutex == rmutex && pr.rmutexes == rmutexes && pr.mode == lockMode
    }

    ghost predicate InCall(req: Mode, block: bool)
      requires me < |m.w.procs|
      reads this, m
    {
      m.w.procs[me].req == req && m.w.procs[me].block == block
    }

    ghost predicate AtUnlock(after: After) reads this, m {
      match lockMode
      case NoLock => false
      case ReadLock => At(UReleaseR(after))
      case WriteLock => At(if rmutexes == [] then UReleaseW(after) else URelease(0, after))
    }

    /** One Win32 call of unlock(); what it does to the process does not depend on the others. */
    method UnlockCall()
      requires m.Valid() && me < |m.w.procs| && Unlocking(m.w.procs[me].pc)
      modifies m
      ensures m.Valid() && me < |m.w.procs|
      ensures m.w.procs[me] == AfterUnlockCall(old(m.w.procs[me]))
      ensures old(m.others) == [] ==> m.others == [] && SameOthers(old(m.w), m.w, me)
    {
      hide Inv, SlotInv, Step, AfterUnlockCall;
      UnlockStep(m.w, me);
      var at := m.Syscall(me, Continue);
      UnlockStep(at, me);
      StepLeavesOthers(at, me, Continue);
    }

    /** unlock() of a locked file, from its first Win32 call on. */
    method ReleaseLock(after: After)
      requires AtUnlock(after) && after != ThenDestroy && wmutex
      modifies this, m
      ensures Released(after, old(m.w.procs[me].req), old(m.w.procs[me].block))
      ensures old(m.others) == [] ==> m.others == [] && SameOthers(old(m.w), m.w, me)
    {
      if lockMode == ReadLock {
        ReleaseReader(after);
      } else {
        ReleaseWriter(after);
      }
    }

    /** Everything is released and the process stands where unlock() was to lead. */
    ghost predicate Released(after: After, req: Mode, block: bool) reads this, m {
      && lockMode == NoLock && rmutexes == [] && wmutex
      && At(if after == ThenLock then WaitW else Idle)
      && InCall(req, block)
      && (after != ThenLock ==> m.w.procs[me].answer == if after == ThenFail then Locked(req, false) else Unlocked(true))
    }

    method ReleaseReader(after: After)
      requires At(UReleaseR(after)) && after != ThenDestroy && wmutex && lockMode == ReadLock
      modifies this, m
      ensures Released(after, old(m.w.procs[me].req), old(m.w.procs[me].block))
      ensures old(m.others) == [] ==> m.others == [] && SameOthers(old(m.w), m.w, me)
    {
      assert rmutexes == [] by {
        m.ValidInv();
        assert ProcInv(m.w.kernel, me, m.w.procs[me]);
      }
      UnlockCall();
      UnlockCall();
      rmutex := NULL;
      lockMode := NoLock;
    }

    method ReleaseSlot(i: nat, after: After)
      requires i < |rmutexes| && At(URelease(i, after))
      modifies m
      ensures At(if i + 1 < |rmutexes| then URelease(i + 1, after) else UReleaseW(after))
      ensures InCall(old(m.w.procs[me].req), old(m.w.procs[me].block))
      ensures old(m.others) == [] ==> m.others == [] && SameOthers(old(m.w), m.w, me)
    {
      UnlockCall();
      UnlockCall();
    }

    method ReleaseWriter(after: After)
      requires lockMode == WriteLock && AtUnlock(after) && after != ThenDestroy && wmutex
      modifies this, m
      ensures Released(after, old(m.w.procs[me].req), old(m.w.procs[me].block))
      ensures old(m.others) == [] ==> m.others == [] && SameOthers(old(m.w), m.w, me)
    {
      ghost var w0 := m.w;
      var i := 0;
      while i < |rmutexes|
        invariant lockMode == WriteLock && wmutex && i <= |rmutexes|
        invariant At(if i < |rmutexes| then URelease(i, after) else UReleaseW(after))
        invariant InCall(w0.procs[me].req, w0.procs[me].block)
        invariant rmutexes == old(rmutexes)
        invariant old(m.others) == [] ==> m.others == [] && SameOthers(w0, m.w, me)
      {
        ReleaseSlot(i, after);
        i := i + 1;
      }
      UnlockCall();
      rmutexes := [];
      lockMode := NoLock;
    }

    /** One round of the reader's search: open slot idx and try it. */
    method TrySlot(idx: nat) returns (found: bool, busy: bool)
      requires At(ROpen(idx)) && idx < MAX_READERS
      modifies this, m
      ensures lockMode == old(lockMode) && wmutex == old(wmutex) && rmutexes == old(rmutexes)
      ensures At(if busy then ROpen(idx + 1) else if found then RDone(true) else RCreate(idx))
      ensures m.w.procs[me].req == old(m.w.procs[me].req)
      ensures old(m.Undisturbed(me)) ==> m.Undisturbed(me) && SameOthers(old(m.w), m.w, me) && (busy <==> SlotTaken(old(m.w), me, idx))
    {
      found := m.OpenReaderSlot(me, idx);
      busy := false;
      if !found {
        rmutex := NULL;
      } else {
        rmutex := idx;
        var got := m.TryReaderSlot(me, idx);
        if !got {
          busy := true;
          m.SkipReaderSlot(me, idx);
        }
      }
    }

    /** The reader's search for the first slot that is missing or free. */
    method FindSlot() returns (idx: nat, found: bool)
      requires At(ROpen(0)) && lockMode == NoLock
      modifies this, m
      ensures idx <= MAX_READERS && (idx == MAX_READERS ==> !found)
      ensures At(if idx == MAX_READERS then ROpen(idx) else if found then RDone(true) else RCreate(idx))
      ensures m.w.procs[me].req == old(m.w.procs[me].req)
      ensures lockMode == NoLock && wmutex == old(wmutex) && rmutexes == old(rmutexes)
      ensures old(m.Undisturbed(me)) ==> m.Undisturbed(me) && SameOthers(old(m.w), m.w, me)
      ensures old(m.Undisturbed(me)) ==> (forall s | 0 <= s < idx :: SlotTaken(old(m.w), me, s)) && (idx < MAX_READERS ==> !SlotTaken(old(m.w), me, idx))
    {
      ghost var w0 := m.w;
      idx := 0;
      while idx < MAX_READERS
        invariant idx <= MAX_READERS && lockMode == NoLock && wmutex == old(wmutex) && rmutexes == old(rmutexes)
        invariant At(ROpen(idx)) && m.w.procs[me].req == w0.procs[me].req
        invariant old(m.Undisturbed(me)) ==> m.Undisturbed(me) && SameOthers(w0, m.w, me)
        invariant old(m.Undisturbed(me)) ==> forall s | 0 <= s < idx :: SlotTaken(w0, me, s)
      {
        if old(m.Undisturbed(me)) { SameElsewhere(w0, m.w, me); }
        var busy;
        found, busy := TrySlot(idx);
        if !busy {
          return;
        }
        idx := idx + 1;
      }
      found := false;
    }

    /** The reader branch of lock(). */
    method AcquireReader() returns (ok: bool)
      requires At(ROpen(0)) && lockMode == NoLock && m.w.procs[me].req == ReadLock
      modifies this, m
      ensures At(Idle) && m.w.procs[me].answer == Locked(ReadLock, ok)
      ensures lockMode == if ok then ReadLock else NoLock
      ensures wmutex == old(wmutex) && rmutexes == old(rmutexes)
      ensures old(m.Undisturbed(me)) ==> m.Undisturbed(me) && SameOthers(old(m.w), m.w, me)
      ensures old(m.Undisturbed(me)) ==> (ok <==> exists s :: IsSlot(s) && !SlotTaken(old(m.w), me, s))
    {
      var idx, found := FindSlot();
      ok := KeepSlot(idx, found);
      if ok {
        lockMode := ReadLock;
      }
    }

    /** The reader branch after its search. */
    method KeepSlot(idx: nat, found: bool) returns (ok: bool)
      requires idx <= MAX_READERS && (idx == MAX_READERS ==> !found)
      requires At(if idx == MAX_READERS then ROpen(idx) else if found then RDone(true) else RCreate(idx))
      requires lockMode == NoLock && m.w.procs[me].req == ReadLock
      modifies this`rmutex, m
      ensures m.Valid() && me < |m.w.procs| && m.w.procs[me].answer == Locked(ReadLock, ok)
      ensures m.w.procs[me].pc == Idle && m.w.procs[me].isOpen == isOpen && m.w.procs[me].wmutex == wmutex
      ensures m.w.procs[me].rmutex == rmutex && m.w.procs[me].rmutexes == rmutexes
      ensures m.w.procs[me].mode == if ok then ReadLock else NoLock
      ensures ok ==> idx < MAX_READERS
      ensures m.reliable && idx < MAX_READERS ==> ok
      ensures old(m.Undisturbed(me)) ==> m.Undisturbed(me) && SameOthers(old(m.w), m.w, me)
    {
      ok := true;
      if idx >= MAX_READERS {
        m.TooManyReaders(me);
        rmutex, ok := NULL, false;
      } else if !found {
        ok := AddSlot(idx);
      }
      m.FinishReader(me, ok);
    }

    method AddSlot(idx: nat) returns (ok: bool)
      requires At(RCreate(idx))
      modifies this`rmutex, m
      ensures At(RDone(ok)) && m.w.procs[me].req == old(m.w.procs[me].req)
      ensures m.reliable ==> ok
      ensures old(m.Undisturbed(me)) ==> m.Undisturbed(me) && SameOthers(old(m.w), m.w, me)
    {
      ok := m.CreateReaderSlot(me, idx);
      rmutex := if ok then idx else NULL;
      if ok {
        ok := m.TryNewSlot(me, idx);
        if !ok {
          m.DropNewSlot(me);
          rmutex := NULL;
        }
      }
    }

    /** The scan of the writer branch: open every slot there is. */
    method ScanSlots()
      requires At(WOpen(0)) && lockMode == NoLock && rmutexes == []
      modifies this, m
      ensures At(WOpen(MAX_READERS)) && lockMode == NoLock && wmutex == old(wmutex)
      ensures InCall(old(m.w.procs[me].req), old(m.w.procs[me].block))
      ensures old(m.Undisturbed(me)) ==> m.Undisturbed(me) && SameOthers(old(m.w), m.w, me)
    {
      for i := 0 to MAX_READERS
        invariant At(WOpen(i)) && lockMode == NoLock && wmutex == old(wmutex)
        invariant InCall(old(m.w.procs[me].req), old(m.w.procs[me].block))
        invariant old(m.Undisturbed(me)) ==> m.Undisturbed(me) && SameOthers(old(m.w), m.w, me)
      {
        var found := m.OpenSlotForWriter(me, i);
        if found {
          rmutexes := rmutexes + [i];
        }
      }
    }

    /** The writer branch of lock(). */
    method AcquireWriter() returns (r: Outcome)
      requires At(WOpen(0)) && lockMode == NoLock && rmutexes == [] && wmutex && m.w.procs[me].req == WriteLock
      modifies this, m
      ensures r.StillWaiting? ==> Blocked(m.w, me) && old(m.w.procs[me].block)
      ensures r.Returned? ==> At(Idle) && m.w.procs[me].answer == Locked(WriteLock, r.ok)
      ensures old(m.Undisturbed(me)) ==> r == WriterOutcome(old(m.w), me, old(m.w.procs[me].block))
    {
      ghost var w0 := m.w;
      ScanSlots();
      if old(m.Undisturbed(me)) { SameElsewhere(w0, m.w, me); }
      r := WaitForReaders();
    }

    /** The writer branch after its scan. */
    method WaitForReaders() returns (r: Outcome)
      requires At(WOpen(MAX_READERS)) && lockMode == NoLock && wmutex && m.w.procs[me].req == WriteLock
      modifies this, m
      ensures r.StillWaiting? ==> Blocked(m.w, me) && old(m.w.procs[me].block)
      ensures r.Returned? ==> At(Idle) && m.w.procs[me].answer == Locked(WriteLock, r.ok)
      ensures old(m.Undisturbed(me)) ==> r == WriterOutcome(old(m.w), me, old(m.w.procs[me].block))
    {
      ghost var w0 := m.w;
      assert NobodyMissed() by { MissedNobody(); }
      m.FinishScan(me);
      if rmutexes != [] {
        if old(m.Undisturbed(me)) { SameElsewhere(w0, m.w, me); }
        var got, stuck := m.WaitForReaderMutexes(me);
        if stuck {
          return StillWaiting;
        }
        if !got {
          lockMode := WriteLock;
          ReleaseLock(ThenFail);
          return Returned(false);
        }
      }
      lockMode := WriteLock;
      return Returned(true);
    }

    ghost predicate NobodyMissed() reads this, m {
      m.Undisturbed(me) && rmutexes == [] ==> !ReaderElsewhere(m.w, me)
    }

    lemma MissedNobody()
      requires At(WOpen(MAX_READERS))
      ensures NobodyMissed()
    {
      m.ValidInv();
      if ReaderElsewhere(m.w, me) {
        var q: Pid :| q != me && Holds(m.w, q, ReadLock);
        ScanCollectsReaders(m.w, me, q);
      }
    }

    /** lock(mode, block). The results hold under every interference; when there is none,
        the last clause says exactly which calls succeed. */
    method Lock(mode: Mode, block: bool) returns (r: Outcome)
      requires At(Idle)
      modifies this, m
      ensures r.Returned? ==> At(Idle)
      ensures r.Returned? && mode != NoLock ==> (r.ok <==> lockMode == mode) && (r.ok <==> Holds(m.w, me, mode))
      ensures r.Returned? && mode != NoLock && !r.ok ==> lockMode == NoLock && HoldsNothing(m.w, me)
      ensures r.StillWaiting? ==> block && Blocked(m.w, me)
      ensures mode == NoLock ==> r == Returned(isOpen) && lockMode == NoLock
      ensures mode != NoLock && isOpen && mode == old(lockMode) ==> r == Returned(true) && lockMode == mode
      ensures old(m.Undisturbed(me)) && isOpen && mode != NoLock && mode != old(lockMode) ==> r == ExpectedOutcome(old(m.w), me, mode, block)
    {
      m.ValidInv();
      assert ProcInv(m.w.kernel, me, m.w.procs[me]);
      if mode == NoLock {
        var ok := Unlock();
        return Returned(ok);
      }
      r := Acquire(mode, block);
      if r.Returned? {
        m.ValidInv();
        assert ProcInv(m.w.kernel, me, m.w.procs[me]);
      }
    }

    method Acquire(mode: Mode, block: bool) returns (r: Outcome)
      requires At(Idle) && mode != NoLock
      requires lockMode != NoLock ==> wmutex && isOpen
      requires lockMode != WriteLock ==> rmutexes == []
      modifies this, m
      ensures r.Returned? ==> At(Idle) && m.w.procs[me].answer == Locked(mode, r.ok)
      ensures r.StillWaiting? ==> block && Blocked(m.w, me)
      ensures isOpen && mode == old(lockMode) ==> r == Returned(true) && lockMode == mode
      ensures old(m.Undisturbed(me)) && isOpen && mode != old(lockMode) ==> r == ExpectedOutcome(old(m.w), me, mode, block)
    {
      ghost var w0 := m.w;
      m.Take(me, CallLock(mode, block));
      if !isOpen {
        return Returned(false);
      }
      if mode == lockMode {
        return Returned(true);
      }
      var ready := GetReady();
      if !ready {
        return Returned(false);
      }
      if old(m.Undisturbed(me)) { SameElsewhere(w0, m.w, me); }
      r := AcquireFromWait(mode);
    }

    /** lock() from its wait for the writer mutex on. */
    method AcquireFromWait(mode: Mode) returns (r: Outcome)
      requires At(WaitW) && mode != NoLock && m.w.procs[me].req == mode
      requires lockMode == NoLock && rmutexes == [] && wmutex
      modifies this, m
      ensures r.Returned? ==> At(Idle) && m.w.procs[me].answer == Locked(mode, r.ok)
      ensures r.StillWaiting? ==> Blocked(m.w, me) && old(m.w.procs[me].block)
      ensures old(m.Undisturbed(me)) ==> r == ExpectedOutcome(old(m.w), me, mode, old(m.w.procs[me].block))
    {
      ghost var w0 := m.w;
      var got, stuck := GetWriterMutex();
      if stuck {
        return StillWaiting;
      }
      if !got {
        return Returned(false);
      }
      if old(m.Undisturbed(me)) { SameElsewhere(w0, m.w, me); }
      if mode == ReadLock {
        var ok := AcquireReader();
        r := Returned(ok);
      } else {
        r := AcquireWriter();
      }
    }

    /** lock() up to its wait for the writer mutex: a lock held in another mode is released
        first, and the writer mutex is created unless the object has it already. */
    method GetReady() returns (ready: bool)
      requires if lockMode != NoLock then AtUnlock(ThenLock) && wmutex else At(if wmutex then WaitW else CreateW) && rmutexes == []
      modifies this, m
      ensures At(if ready then WaitW else Idle) && InCall(old(m.w.procs[me].req), old(m.w.procs[me].block))
      ensures lockMode == NoLock && rmutexes == [] && (ready ==> wmutex)
      ensures !ready ==> m.w.procs[me].answer == Locked(m.w.procs[me].req, false)
      ensures m.reliable ==> ready
      ensures old(m.Undisturbed(me)) ==> m.Undisturbed(me) && SameOthers(old(m.w), m.w, me)
    {
      ready := true;
      if lockMode != NoLock {
        ReleaseLock(ThenLock);
      } else if !wmutex {
        ready := m.CreateWriterMutex(me);
        wmutex := ready;
      }
    }

    /** The wait for the writer mutex. */
    method GetWriterMutex() returns (got: bool, stuck: bool)
      requires At(WaitW)
      modifies this, m
      ensures lockMode == old(lockMode) && rmutexes == old(rmutexes) && wmutex == old(wmutex)
      ensures At(if stuck then WaitW else if !got then Idle else if old(m.w.procs[me].req) == ReadLock then ROpen(0) else WOpen(0))
      ensures InCall(old(m.w.procs[me].req), old(m.w.procs[me].block))
      ensures stuck ==> !got && Blocked(m.w, me)
      ensures !got && !stuck ==> m.w.procs[me].answer == Locked(m.w.procs[me].req, false)
      ensures old(m.Undisturbed(me)) ==> m.Undisturbed(me) && SameOthers(old(m.w), m.w, me)
      ensures old(m.Undisturbed(me)) ==> (got <==> !WriterElsewhere(old(m.w), me)) && (stuck <==> !got && m.w.procs[me].block)
    {
      got, stuck := m.WaitForWriterMutex(me);
    }

    /** unlock() */
    method Unlock() returns (ok: bool)
      requires At(Idle)
      modifies this, m
      ensures At(Idle) && lockMode == NoLock && (ok <==> isOpen)
      ensures HoldsNothing(m.w, me)
      ensures old(m.Undisturbed(me)) ==> m.Undisturbed(me) && SameOthers(old(m.w), m.w, me)
    {
      m.ValidInv();
      IdleFields(m.w, me);
      m.Take(me, CallUnlock);
      hide Inv, SlotInv, HoldsNothing;
      if isOpen && lockMode != NoLock {
        ReleaseLock(ReturnUnlocked);
      }
      ok := isOpen;
      m.ValidInv();
      IdleFields(m.w, me);
    }
  }

  lemma IdleFields(w: World, p: Pid)
    requires Inv(w) && p < |w.procs| && w.procs[p].pc.Idle?
    ensures w.procs[p].mode != NoLock ==> w.procs[p].isOpen && w.procs[p].wmutex
    ensures w.procs[p].mode == NoLock ==> HoldsNothing(w, p)
  {
    assert ProcInv(w.kernel, p, w.procs[p]);
  }

  ghost predicate Quiet(w: World, me: Pid) {
    forall q: Pid | q < |w.procs| && q != me :: w.procs[q].pc.Idle?
  }

  ghost predicate WriterElsewhere(w: World, me: Pid) {
    exists q: Pid :: q != me && Holds(w, q, WriteLock)
  }

  ghost predicate SlotTaken(w: World, me: Pid, n: int) {
    exists q: Pid :: q != me && Holds(w, q, ReadLock) && w.procs[q].rmutex == n
  }

  ghost predicate ReaderElsewhere(w: World, me: Pid) {
    exists q: Pid :: q != me && Holds(w, q, ReadLock)
  }

  lemma SameElsewhere(w: World, w': World, me: Pid)
    requires SameOthers(w, w', me)
    ensures ReaderElsewhere(w, me) <==> ReaderElsewhere(w', me)
    ensures WriterElsewhere(w, me) <==> WriterElsewhere(w', me)
    ensures forall n :: SlotTaken(w, me, n) <==> SlotTaken(w', me, n)
  {
    forall q: Pid, m: Mode | q != me ensures Holds(w, q, m) <==> Holds(w', q, m) {}
  }

  lemma QuietReaders(w: World, me: Pid)
    requires Inv(w) && Quiet(w, me) && me < |w.procs| && w.procs[me].pc.WWaitAll?
    ensures AllAvailable(w.kernel, me, w.procs[me].rmutexes) <==> !ReaderElsewhere(w, me)
  {
    var pr := w.procs[me];
    assert ProcInv(w.kernel, me, pr);
    assert MustOwn(pr, WRITER);
    if !AllAvailable(w.kernel, me, pr.rmutexes) {
      var n :| n in pr.rmutexes && !Available(w.kernel, me, n);
      QuietSlot(w, me, n);
      var q: Pid :| q != me && Holds(w, q, ReadLock) && w.procs[q].rmutex == n;
    }
    if ReaderElsewhere(w, me) {
      var q: Pid :| q != me && Holds(w, q, ReadLock);
      HolderOwns(w, q);
      ScanCollectsReaders(w, me, q);
    }
  }

  lemma QuietWriter(w: World, me: Pid)
    requires Inv(w) && Quiet(w, me) && me < |w.procs| && !Owns(w.kernel, me, WRITER)
    ensures Available(w.kernel, me, WRITER) <==> !WriterElsewhere(w, me)
  {
    if WRITER in w.kernel.owner {
      var q := w.kernel.owner[WRITER];
      assert Owns(w.kernel, q, WRITER);
      assert ProcInv(w.kernel, q, w.procs[q]);
      assert Holds(w, q, WriteLock);
    }
    if WriterElsewhere(w, me) {
      var q: Pid :| q != me && Holds(w, q, WriteLock);
      HolderOwns(w, q);
    }
  }

  lemma QuietSlot(w: World, me: Pid, n: int)
    requires Inv(w) && Quiet(w, me) && me < |w.procs| && IsSlot(n)
    requires Owns(w.kernel, me, WRITER) && !Owns(w.kernel, me, n)
    ensures Available(w.kernel, me, n) <==> !SlotTaken(w, me, n)
    ensures SlotTaken(w, me, n) ==> Exists(w.kernel, n)
  {
    if n in w.kernel.owner {
      var q := w.kernel.owner[n];
      assert Owns(w.kernel, q, n);
      OwnerHasHandle(w, q, n);
      assert ProcInv(w.kernel, q, w.procs[q]);
      HolderOwns(w, q);
      assert Holds(w, q, ReadLock) && w.procs[q].rmutex == n;
    }
    if SlotTaken(w, me, n) {
      var q: Pid :| q != me && Holds(w, q, ReadLock) && w.procs[q].rmutex == n;
      HolderOwns(w, q);
      OwnerHasHandle(w, q, n);
    }
  }

  ghost function WriterOutcome(w: World, me: Pid, block: bool): Outcome {
    if !ReaderElsewhere(w, me) then Returned(true) else if block then StillWaiting else Returned(false)
  }

  /** What lock(mode, block) must come to when the other processes keep still. */
  ghost function ExpectedOutcome(w: World, me: Pid, mode: Mode, block: bool): Outcome {
    if WriterElsewhere(w, me) || (mode == WriteLock && ReaderElsewhere(w, me)) then
      if block then StillWaiting else Returned(false)
    else
      Returned(mode == WriteLock || exists s :: 0 <= s < 64 && !SlotTaken(w, me, s))
  }

  function ReadersBelow(w: World, me: Pid, n: int): set<Pid> {
    set q | q in Readers(w) && q != me && w.procs[q].rmutex < n
  }

  lemma SetGrows(a: set<Pid>, b: set<Pid>)
    requires a <= b
    ensures |a| <= |b|
  {
    assert |b - a| == |b| - |a|;
  }

  lemma {:induction false} TakenByReaders(w: World, me: Pid, n: nat)
    requires forall s | 0 <= s < n :: SlotTaken(w, me, s)
    ensures |ReadersBelow(w, me, n)| >= n
  {
    if n > 0 {
      TakenByReaders(w, me, n - 1);
      assert SlotTaken(w, me, n - 1);
      var q: Pid :| q != me && Holds(w, q, ReadLock) && w.procs[q].rmutex == n - 1;
      var fewer, more := ReadersBelow(w, me, n - 1), ReadersBelow(w, me, n);
      assert q !in fewer && q in more && fewer <= more;
      hide ReadersBelow, SlotTaken, Holds;
      SetGrows(fewer + {q}, more);
    }
  }

  lemma RoomIfFree(w: World, me: Pid, s: int)
    requires Inv(w) && 0 <= s < 64 && !SlotTaken(w, me, s)
    ensures |Readers(w) - {me}| < 64
  {
    var others, all := Readers(w) - {me}, Slots(64);
    forall q | q in others ensures w.procs[q].rmutex in all - {s} {
      HolderOwns(w, q);
    }
    hide Inv, Readers;
    SlotCount(64);
    CountSlots(w, others, all - {s});
  }

  /** Some slot is free if and only if fewer than 64 others hold a read lock: that is when a
      read lock is granted while the others keep still. */
  lemma RoomForReader(w: World, me: Pid)
    requires Inv(w)
    ensures (exists s :: 0 <= s < 64 && !SlotTaken(w, me, s)) <==> |Readers(w) - {me}| < 64
  {
    hide Inv, SlotTaken;
    if s :| 0 <= s < 64 && !SlotTaken(w, me, s) {
      RoomIfFree(w, me, s);
    } else {
      TakenByReaders(w, me, 64);
      SetGrows(ReadersBelow(w, me, 64), Readers(w) - {me});
    }
  }

  predicate Unlocking(pc: Pc) {
    pc.UReleaseR? || pc.UCloseR? || pc.URelease? || pc.UClose? || pc.UReleaseW?
  }

  ghost function AfterUnlockCall(pr: Proc): Proc
    requires Unlocking(pr.pc)
  {
    match pr.pc
    case UReleaseR(after) => pr.(pc := UCloseR(after))
    case UCloseR(after) => Finish(pr.(rmutex := NULL, mode := NoLock), after)
    case URelease(i, after) => pr.(pc := UClose(i, after))
    case UClose(i, after) => pr.(pc := if i + 1 < |pr.rmutexes| then URelease(i + 1, after) else UReleaseW(after))
    case UReleaseW(after) => Finish(pr.(rmutexes := [], mode := NoLock), after)
  }

  lemma UnlockStep(w: World, p: Pid)
    requires p < |w.procs| && Unlocking(w.procs[p].pc)
    ensures Enabled(w, p, Continue) && Step(w, p, Continue).procs[p] == AfterUnlockCall(w.procs[p])
  {
    hide Release, CloseHandle, Finish;
  }

  ghost predicate SameOthers(w: World, w': World, me: Pid) {
    |w'.procs| == |w.procs| && forall q: Pid | q < |w.procs| && q != me :: w'.procs[q] == w.procs[q]
  }
}
