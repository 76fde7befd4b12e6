/** QtLocalPeer elects the single running instance by a write lock on its lock file. */
module LocalPeer {
  import opened NamedMutexes
  import opened LockMachine
  import opened LockInvariant
  import opened LockTheorems
  import opened LockedFile

  class QtLocalPeer {
    const lockFile: QtLockedFile

    constructor (lockFile: QtLockedFile)
      ensures this.lockFile == lockFile
    {
      this.lockFile := lockFile;
    }

    method IsClient() returns (client: bool)
      requires lockFile.At(Idle)
      modifies lockFile, lockFile.m
      ensures lockFile.At(Idle)
      ensures client <==> lockFile.lockMode == NoLock
      ensures !client ==> lockFile.lockMode == (if old(lockFile.lockMode) == NoLock then WriteLock else old(lockFile.lockMode))
      ensures !client ==> Holds(lockFile.m.w, lockFile.me, lockFile.lockMode)
      ensures old(lockFile.m.Undisturbed(lockFile.me)) && lockFile.isOpen && old(lockFile.lockMode) == NoLock ==>
                (client <==> old(WriterElsewhere(lockFile.m.w, lockFile.me) || ReaderElsewhere(lockFile.m.w, lockFile.me)))
    {
      if lockFile.lockMode != NoLock {
        return false;
      }
      var r := lockFile.Lock(WriteLock, false);
      client := !r.ok;
    }
  }

  /** p uses its lock file through QtLocalPeer only: isClient() and the destructor. */
  ghost predicate IsPeer(es: seq<Event>, p: Pid) {
    forall t | 0 <= t < |es| && es[t].pid == p :: !es[t].choice.CallUnlock? && (es[t].choice.CallLock? ==> es[t].choice.mode == WriteLock)
  }

  /** p has neither died nor entered its destructor between states t and i. */
  ghost predicate Alive(es: seq<Event>, p: Pid, t: nat, i: nat) {
    forall s | t <= s < i && s < |es| && es[s].pid == p :: !es[s].choice.Crash? && !es[s].choice.CallDestroy?
  }

  /** isClient() returns false in this state: the shortcut on isLocked() applies, which is
      also the case right after its lock() call has returned true. */
  ghost predicate IsPrimary(w: World, p: Pid) {
    p < |w.procs| && w.procs[p].pc.Idle? && w.procs[p].mode != NoLock
  }

  ghost predicate NeverReads(pr: Proc) {
    pr.mode != ReadLock && pr.req != ReadLock
  }

  lemma UnlockNeverReads(pr: Proc, after: After)
    requires NeverReads(pr)
    ensures NeverReads(BeginUnlock(pr, after)) && NeverReads(Finish(pr, after))
  {}

  lemma AskNeverReads(k: Kernel, p: Pid, pr: Proc, c: Choice)
    requires NeverReads(pr)
    requires pr.pc.CreateW? || pr.pc.WaitW? || pr.pc.WOpen? || pr.pc.WWaitAll? || pr.pc.DCloseW?
    ensures NeverReads(Perform(k, p, pr, c).1)
  {
    hide OpenHandle, CloseHandle, Acquire, AcquireAll, Exists, Available, AllAvailable, CleanUp;
    CleanUpNeverReads(pr);
  }

  lemma CleanUpNeverReads(pr: Proc)
    requires NeverReads(pr)
    ensures NeverReads(CleanUp(pr))
  {
    UnlockNeverReads(pr.(mode := WriteLock), ThenFail);
  }

  lemma SearchNeverReads(k: Kernel, p: Pid, pr: Proc, c: Choice)
    requires NeverReads(pr)
    requires pr.pc.ROpen? || pr.pc.RTry? || pr.pc.RSkip? || pr.pc.RCreate? || pr.pc.RWaitNew? || pr.pc.RFail? || pr.pc.RDone?
    ensures NeverReads(Perform(k, p, pr, c).1)
  {
    hide OpenHandle, CloseHandle, Acquire, Release, Exists, Available;
  }

  lemma ReleaseNeverReads(k: Kernel, p: Pid, pr: Proc, c: Choice)
    requires NeverReads(pr)
    requires pr.pc.UReleaseR? || pr.pc.UCloseR? || pr.pc.URelease? || pr.pc.UClose? || pr.pc.UReleaseW?
    ensures NeverReads(Perform(k, p, pr, c).1)
  {
    hide CloseHandle, Release;
    if pr.pc.UCloseR? {
      UnlockNeverReads(pr.(rmutex := NULL, mode := NoLock), pr.pc.after);
    } else if pr.pc.UReleaseW? {
      UnlockNeverReads(pr.(rmutexes := [], mode := NoLock), pr.pc.after);
    }
  }

  lemma CallNeverReads(k: Kernel, p: Pid, pr: Proc, c: Choice)
    requires NeverReads(pr) && !pr.pc.Idle?
    ensures NeverReads(Perform(k, p, pr, c).1)
  {
    hide Perform, NeverReads;
    if pr.pc.UReleaseR? || pr.pc.UCloseR? || pr.pc.URelease? || pr.pc.UClose? || pr.pc.UReleaseW? {
      ReleaseNeverReads(k, p, pr, c);
    } else if pr.pc.CreateW? || pr.pc.WaitW? || pr.pc.WOpen? || pr.pc.WWaitAll? || pr.pc.DCloseW? {
      AskNeverReads(k, p, pr, c);
    } else {
      SearchNeverReads(k, p, pr, c);
    }
  }

  lemma NeverReadsStep(w: World, p: Pid, c: Choice)
    requires Enabled(w, p, c) && NeverReads(w.procs[p])
    requires !c.CallUnlock? && (c.CallLock? ==> c.mode == WriteLock)
    ensures NeverReads(Step(w, p, c).procs[p])
  {
    var pr := w.procs[p];
    match c
    case Crash(_) =>
    case CallLock(mode, block) => UnlockNeverReads(pr.(req := mode, block := block), ThenLock);
    case CallDestroy => UnlockNeverReads(pr, ThenDestroy);
    case _ => CallNeverReads(w.kernel, p, pr, c);
  }

  lemma {:induction false} PeersNeverRead(ws: seq<World>, es: seq<Event>, p: Pid, i: nat)
    requires Run(ws, es) && IsPeer(es, p) && i < |ws| && p < |ws[i].procs|
    ensures NeverReads(ws[i].procs[p])
  {
    if i > 0 {
      PeersNeverRead(ws, es, p, i - 1);
      if es[i - 1].pid == p {
        NeverReadsStep(ws[i - 1], p, es[i - 1].choice);
      }
    }
  }

  lemma PrimaryStep(w: World, p: Pid, q: Pid, c: Choice)
    requires Inv(w) && Enabled(w, q, c) && Holds(w, p, WriteLock)
    requires q == p ==> !c.Crash? && !c.CallDestroy? && !c.CallUnlock? && (c.CallLock? ==> c.mode == WriteLock)
    ensures Holds(Step(w, q, c), p, WriteLock)
  {
    assert ProcInv(w.kernel, p, w.procs[p]);
    StepLeavesOthers(w, q, c);
  }

  lemma StaysOneStep(ws: seq<World>, es: seq<Event>, p: Pid, i: nat)
    requires Run(ws, es) && IsPeer(es, p) && i < |es| && Holds(ws[i], p, WriteLock)
    requires es[i].pid == p ==> !es[i].choice.Crash? && !es[i].choice.CallDestroy?
    ensures Holds(ws[i + 1], p, WriteLock)
  {
    hide Inv, Holds, Step, Enabled, Initial;
    RunKeepsInv(ws, es, i);
    PrimaryStep(ws[i], p, es[i].pid, es[i].choice);
  }

  lemma IsWriter(ws: seq<World>, es: seq<Event>, p: Pid, t: nat)
    requires Run(ws, es) && IsPeer(es, p) && t < |ws| && IsPrimary(ws[t], p)
    ensures Holds(ws[t], p, WriteLock)
  {
    hide Run, IsPeer;
    PeersNeverRead(ws, es, p, t);
  }

  lemma {:induction false} PrimaryStays(ws: seq<World>, es: seq<Event>, p: Pid, t: nat, i: nat)
    requires Run(ws, es) && IsPeer(es, p) && t <= i < |ws| && Alive(es, p, t, i)
    requires IsPrimary(ws[t], p)
    ensures Holds(ws[i], p, WriteLock)
  {
    if t == i {
      IsWriter(ws, es, p, t);
    } else {
      hide Holds, IsPrimary, Step, Enabled, Initial, IsPeer;
      assert |ws| == |es| + 1;
      PrimaryStays(ws, es, p, t, i - 1);
      StaysOneStep(ws, es, p, i - 1);
    }
  }

  /** At most one live process has had isClient() return false, whatever else happens to
      the lock file and however the processes interleave. */
  lemma SingleInstance(ws: seq<World>, es: seq<Event>, p: Pid, tp: nat, q: Pid, tq: nat, i: nat)
    requires Run(ws, es) && i < |ws| && IsPeer(es, p) && IsPeer(es, q)
    requires tp <= i && IsPrimary(ws[tp], p) && Alive(es, p, tp, i)
    requires tq <= i && IsPrimary(ws[tq], q) && Alive(es, q, tq, i)
    ensures p == q
  {
    PrimaryStays(ws, es, p, tp, i);
    PrimaryStays(ws, es, q, tq, i);
    if p != q {
      MutualExclusion(ws, es, i, p, q);
    }
  }
}
