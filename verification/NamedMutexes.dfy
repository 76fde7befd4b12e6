/** The part of the Win32 mutex API that the lock is built on.

    One file gives rise to one writer mutex and up to MAX_READERS reader mutexes;
    a mutex is identified here by the index passed to getMutexHandle, so WRITER is
    the writer mutex and 0 .. MAX_READERS - 1 are the reader mutexes.

    A mutex object exists exactly while some process has a handle to it. */
module NamedMutexes {
  type Pid = nat

  const WRITER := -1
  const MAX_READERS := 64

  datatype Kernel = Kernel(
    owner: map<int, Pid>,        // the mutexes that are owned, and by which process
    abandoned: set<int>,         // mutexes whose last owner died while owning them
    handles: set<(Pid, int)>)    // the open handles

  /** OpenMutex succeeds exactly when the object exists. */
  predicate Exists(k: Kernel, n: int) {
    exists h <- k.handles :: h.1 == n
  }

  /** A wait on n by p succeeds: nobody owns it, or p itself does (mutexes are recursive). */
  predicate Available(k: Kernel, p: Pid, n: int) {
    n !in k.owner || k.owner[n] == p
  }

  function OpenHandle(k: Kernel, p: Pid, n: int): Kernel {
    k.(handles := k.handles + {(p, n)})
  }

  function CloseHandle(k: Kernel, p: Pid, n: int): Kernel {
    var k' := k.(handles := k.handles - {(p, n)});
    if Exists(k', n) then k' else k'.(owner := k.owner - {n}, abandoned := k.abandoned - {n})
  }

  function Acquire(k: Kernel, p: Pid, n: int): Kernel {
    k.(owner := k.owner[n := p], abandoned := k.abandoned - {n})
  }

  /** ReleaseMutex by a process that does not own the mutex is an error without effect. */
  function Release(k: Kernel, p: Pid, n: int): Kernel {
    if n in k.owner && k.owner[n] == p then k.(owner := k.owner - {n}) else k
  }

  /** WaitForMultipleObjects with bWaitAll: all of the mutexes or none. */
  function AcquireAll(k: Kernel, p: Pid, ns: seq<int>): Kernel {
    k.(owner := k.owner + (map n | n in ns :: p), abandoned := k.abandoned - (set n | n in ns))
  }

  predicate AllAvailable(k: Kernel, p: Pid, ns: seq<int>) {
    forall n | n in ns :: Available(k, p, n)
  }

  /** The process dies: its handles are closed and what it owned is abandoned. */
  function Kill(k: Kernel, p: Pid): Kernel {
    var left := set h | h in k.handles && h.0 != p;
    var alive := set h | h in left :: h.1;
    var owner := map n | n in k.owner && k.owner[n] != p && n in alive :: k.owner[n];
    var abandoned := set n | n in alive && (n in k.abandoned || (n in k.owner && k.owner[n] == p));
    Kernel(owner, abandoned, left)
  }
}
