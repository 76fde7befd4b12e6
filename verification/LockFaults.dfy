/** OpenMutex can also fail for a mutex that exists, and getMutexHandle then answers as if it
    did not. In the search of a reader that is harmless; in the scan of a writer it is harmless
    exactly where no reader has the slot. */
module LockFaults {
  import opened NamedMutexes
  import opened LockMachine
  import opened LockInvariant
  import opened LockTheorems

  datatype Move =
    | Usual(e: Event)
    | OpenFails(p: Pid)   // the mutex exists, yet the handle is null

  /** p is about to open a slot that exists. */
  predicate OpensSlot(w: World, p: Pid) {
    && p < |w.procs|
    && match w.procs[p].pc
       case ROpen(idx) => idx < MAX_READERS && Exists(w.kernel, idx)
       case WOpen(i) => i < MAX_READERS && Exists(w.kernel, i)
       case _ => false
  }

  predicate Possible(w: World, m: Move) {
    match m
    case Usual(e) => Enabled(w, e.pid, e.choice)
    case OpenFails(p) => OpensSlot(w, p)
  }

  function After(w: World, m: Move): World
    requires Possible(w, m)
  {
    match m
    case Usual(e) => Step(w, e.pid, e.choice)
    case OpenFails(p) =>
      var pr := w.procs[p];
      w.(procs := w.procs[p :=
        if pr.pc.ROpen? then pr.(rmutex := NULL, pc := RCreate(pr.pc.idx))
        else pr.(missed := pr.missed + {pr.pc.i}, pc := WOpen(pr.pc.i + 1))])
  }

  ghost predicate Leads(v: World, m: Move, w: World) {
    Possible(v, m) && w == After(v, m)
  }

  /** w is reached in n steps, at any of which an existing slot may fail to open. */
  ghost predicate ReachedIn(n: nat, w: World) {
    if n == 0 then Initial(w) else exists v, m :: ReachedIn(n - 1, v) && Leads(v, m, w)
  }

  // ----- what is kept

  /** A reader that takes an existing slot for a missing one tries to create it, and then
      waits for it like any other. */
  lemma ReaderFaultKeepsInv(w: World, p: Pid)
    requires Inv(w) && OpensSlot(w, p) && w.procs[p].pc.ROpen?
    ensures Inv(After(w, OpenFails(p)))
  {
    FaultKeepsBase(w, p);
  }

  lemma FaultKeepsBase(w: World, p: Pid)
    requires BaseInv(w) && OpensSlot(w, p)
    ensures BaseInv(After(w, OpenFails(p)))
  {
    assert ProcInv(w.kernel, p, w.procs[p]);
    GoodKeepsBase(w, After(w, OpenFails(p)), p);
  }

  lemma {:induction false} ReachedKeepsBase(n: nat, w: World)
    requires ReachedIn(n, w)
    ensures BaseInv(w)
  {
    if n == 0 {
      InitialInv(w);
    } else {
      hide BaseInv, Step, Enabled, OpensSlot;
      var v, m :| ReachedIn(n - 1, v) && Leads(v, m, w);
      ReachedKeepsBase(n - 1, v);
      match m
      case Usual(e) => StepKeepsBase(v, e.pid, e.choice);
      case OpenFails(p) => FaultKeepsBase(v, p);
    }
  }

  /** A process misses a slot in no other way than by failing to open it in its scan. */
  lemma MissedByFault(w: World, m: Move, p: Pid, i: int)
    requires Possible(w, m) && p < |w.procs| && i !in w.procs[p].missed
    ensures i in After(w, m).procs[p].missed <==> m == OpenFails(p) && w.procs[p].pc.WOpen? && w.procs[p].pc.i == i
  {
    if m.Usual? {
      StepMissed(w, m.e.pid, m.e.choice);
      StepLeavesOthers(w, m.e.pid, m.e.choice);
    }
  }

  // ----- the exact condition

  /** p missed the slot that q holds. */
  predicate Missed(w: World, p: Pid, q: Pid) {
    p < |w.procs| && Holds(w, q, ReadLock) && w.procs[q].rmutex in w.procs[p].missed
  }

  /** Whatever opens fail: beside a writer there is no other writer, and a reader exactly
      where its slot is one that the writer's scan missed. */
  lemma ExclusionExactly(n: nat, w: World, p: Pid, q: Pid)
    requires ReachedIn(n, w) && p != q && Holds(w, p, WriteLock)
    ensures !Holds(w, q, WriteLock)
    ensures Holds(w, q, ReadLock) <==> Missed(w, p, q)
  {
    ReachedKeepsBase(n, w);
    HolderOwns(w, p);
    HolderOwns(w, q);
  }

  /** Locks exclude each other if and only if the scan of no writer missed the slot of a
      reader. */
  lemma ExclusionUnlessMissed(n: nat, w: World)
    requires ReachedIn(n, w)
    ensures (forall p, q | p != q && Holds(w, p, WriteLock) :: !Holds(w, q, WriteLock) && !Holds(w, q, ReadLock))
       <==> (forall p, q | Holds(w, p, WriteLock) :: !Missed(w, p, q))
  {
    forall p, q | p != q && Holds(w, p, WriteLock)
      ensures !Holds(w, q, WriteLock) && (Holds(w, q, ReadLock) <==> Missed(w, p, q))
    {
      ExclusionExactly(n, w, p, q);
    }
  }

  // ----- one missed slot

  lemma Takes(n: nat, w: World, m: Move) returns (w': World)
    requires ReachedIn(n, w) && Possible(w, m)
    ensures w' == After(w, m) && ReachedIn(n + 1, w')
  {
    w' := After(w, m);
    assert Leads(w, m, w');
  }

  lemma Continues(n: nat, w: World, p: Pid) returns (w': World)
    requires ReachedIn(n, w) && Enabled(w, p, Continue)
    ensures w' == Step(w, p, Continue) && ReachedIn(n + 1, w')
  {
    hide ReachedIn;
    w' := Takes(n, w, Usual(Event(p, Continue)));
  }

  /** Process 0 is a reader with slot 0, and nobody else has a handle. */
  predicate OneReader(w: World) {
    && |w.procs| == 2
    && w.kernel == Kernel(map[0 := 0], {}, {(0, WRITER), (0, 0)})
    && w.procs[0].pc.Idle? && w.procs[0].mode == ReadLock
  }

  /** Process 0 has asked for a read lock and is about to create slot 0. */
  function Creating(): World {
    World(Kernel(map[WRITER := 0], {}, {(0, WRITER)}),
          [Proc(true, NoLock, true, NULL, [], RCreate(0), ReadLock, true, NoCall, {}), Fresh(true)])
  }

  lemma Starts(w: World)
    requires Initial(w)
    ensures ReachedIn(0, w)
  {}

  lemma ReaderSearches()
    ensures ReachedIn(4, Creating())
  {
    hide ReachedIn;
    var w := World(Kernel(map[], {}, {}), [Fresh(true), Fresh(true)]);
    Starts(w);
    w := Takes(0, w, Usual(Event(0, CallLock(ReadLock, true))));
    w := Continues(1, w, 0);
    w := Continues(2, w, 0);
    assert !Exists(w.kernel, 0);
    w := Continues(3, w, 0);
    assert w == Creating();
  }

  lemma ReaderLocks() returns (w: World)
    ensures ReachedIn(7, w) && OneReader(w) && w.procs[1] == Fresh(true)
  {
    hide ReachedIn;
    ReaderSearches();
    w := Continues(4, Creating(), 0);
    w := Continues(5, w, 0);
    w := Continues(6, w, 0);
  }

  /** Process 1 scans; the reader's slot is behind it, and no other slot exists. */
  predicate ScansPast(w: World, i: nat) {
    && |w.procs| == 2 && w.procs[0].pc.Idle? && w.procs[0].mode == ReadLock
    && w.procs[1].pc == WOpen(i) && w.procs[1].req == WriteLock && w.procs[1].rmutexes == [] && w.procs[1].missed == {0}
    && forall h | h in w.kernel.handles :: h.1 == WRITER || h.1 == 0
  }

  lemma WriterMisses() returns (w: World)
    ensures ReachedIn(11, w) && ScansPast(w, 1)
  {
    hide ReachedIn;
    w := ReaderLocks();
    w := Takes(7, w, Usual(Event(1, CallLock(WriteLock, false))));
    w := Continues(8, w, 1);
    w := Continues(9, w, 1);
    assert (0, 0) in w.kernel.handles && (0, 0).1 == 0;
    w := Takes(10, w, OpenFails(1));
  }

  lemma {:induction false} ScanEnds(n: nat, w: World, i: nat) returns (w': World)
    requires ReachedIn(n, w) && ScansPast(w, i) && 1 <= i <= MAX_READERS
    ensures ReachedIn(n + MAX_READERS - i, w') && ScansPast(w', MAX_READERS)
    decreases MAX_READERS - i
  {
    hide ReachedIn;
    w' := w;
    if i < MAX_READERS {
      assert !Exists(w.kernel, i);
      w' := Continues(n, w, 1);
      w' := ScanEnds(n + 1, w', i + 1);
    }
  }

  /** With one missed slot a writer and a reader can hold the lock together. */
  lemma MissedSlotBreaksExclusion() returns (n: nat, w: World)
    ensures ReachedIn(n, w) && Holds(w, 1, WriteLock) && Holds(w, 0, ReadLock)
    ensures w.procs[1].missed == {0}
  {
    hide ReachedIn;
    w := WriterMisses();
    w := ScanEnds(11, w, 1);
    n := 11 + MAX_READERS - 1;
    w := Continues(n, w, 1);
    n := n + 1;
  }
}
