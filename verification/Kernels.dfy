/** Threads, ready lists and locks with priority donation, as one transition system.  A
    step runs from one point where a thread switch is possible to the next. */
module Kernels {
  import opened Common
  import opened Schedulers
  import Semaphores

  type Lid = nat
  type Sem = Semaphores.Sem

  datatype Status = Running | Ready | Blocked

  /** Where a thread stands with respect to locks.
      Waiting: inside the lock's P, asleep or about to retest.
      Taken: through P, but not yet recorded as the lock's owner.
      Elsewhere: asleep on something other than a lock. */
  datatype Pc = Free | Waiting(l: Lid) | Taken(l: Lid) | Elsewhere

  /** `base` is the priority the thread was created with; the code has no such field. */
  datatype Thread = Thread(status: Status, priority: int, priorityTemp: int, base: int, pc: Pc)

  datatype Lock = Lock(sem: Sem, lockerThread: Option<Tid>)

  /** `fault` records an access outside the array of ready lists. */
  datatype Kernel = Kernel(threads: map<Tid, Thread>, locks: seq<Lock>, ready: ReadyLists, current: Tid, fault: bool)

  // ----- The code's routines, on values -----

  function SetPriority(th: Thread, p: int): Thread {
    th.(priority := if p > PRIORITY_SIZE then PRIORITY_SIZE else if p < 0 then 0 else p)
  }

  function SetPriorityTemp(th: Thread, p: int): Thread {
    th.(priorityTemp := if th.priorityTemp == -1 then th.priority else th.priorityTemp, priority := p)
  }

  predicate InRange(p: int) { 0 <= p < PRIORITY_SIZE }

  function ReadyToRun(k: Kernel, t: Tid): Kernel
    requires t in k.threads && |k.ready| == PRIORITY_SIZE
  {
    var th := k.threads[t].(status := Ready);
    var k1 := k.(threads := k.threads[t := th]);
    if InRange(th.priority) then k1.(ready := Enqueue(k.ready, t, th.priority)) else k1.(fault := true)
  }

  /** Dispatching the head of the list at priority `p`. */
  function RunHead(k: Kernel, p: nat): Kernel
    requires p < |k.ready| && k.ready[p] != [] && k.ready[p][0] in k.threads
  {
    var n := k.ready[p][0];
    k.(ready := Dequeue(k.ready, p), threads := k.threads[n := k.threads[n].(status := Running)], current := n)
  }

  /** The donation block of Acquire. */
  function Donate(k: Kernel, l: Lid): Kernel
    requires l < |k.locks| && k.current in k.threads && |k.ready| == PRIORITY_SIZE
    requires k.locks[l].lockerThread.Some? ==> k.locks[l].lockerThread.value in k.threads
  {
    match k.locks[l].lockerThread
    case None => k
    case Some(o) =>
      var po, pc := k.threads[o].priority, k.threads[k.current].priority;
      if pc <= po then k
      else
        var k1 := k.(threads := k.threads[o := SetPriorityTemp(k.threads[o], pc)]);
        if !InRange(po) then k1.(fault := true)
        else if o !in k.ready[po] then k1
        else if !InRange(pc) then k1.(fault := true)
        else k1.(ready := Enqueue(k.ready[po := Without(k.ready[po], o)], o, pc))
  }

  /** One pass of the lock's P by the running thread. */
  function PassP(k: Kernel, l: Lid): Kernel
    requires l < |k.locks| && k.current in k.threads
  {
    var t, lock := k.current, k.locks[l];
    var th := k.threads[t];
    var th' := if lock.sem.value > 0 then th.(pc := Taken(l)) else th.(status := Blocked, pc := Waiting(l));
    k.(locks := k.locks[l := lock.(sem := Semaphores.Attempt(lock.sem, t))], threads := k.threads[t := th'])
  }

  /** Release up to its V: restore the priority, forget the owner, wake one waiter. */
  function ReleaseLock(k: Kernel, l: Lid): Kernel
    requires l < |k.locks| && k.current in k.threads && |k.ready| == PRIORITY_SIZE
    requires k.locks[l].sem.queue != [] ==> k.locks[l].sem.queue[0] in k.threads
  {
    var th := k.threads[k.current];
    var th' := if th.priorityTemp != -1 then SetPriorityTemp(SetPriority(th, th.priorityTemp), -1) else th;
    var lock := k.locks[l];
    var k1 := k.(threads := k.threads[k.current := th'],
                 locks := k.locks[l := Lock(Semaphores.Post(lock.sem), None)]);
    match Semaphores.Woken(lock.sem)
    case None => k1
    case Some(u) => ReadyToRun(k1, u)
  }

  // ----- Steps -----

  /** Acquire, Retest, Record and Release are the running thread's passage through a lock.
      Yield is voluntary or forced by the timer.  Block and Wake stand for every other
      semaphore, and Wake for interrupt handlers too.  Dispatch is the loop of Sleep. */
  datatype Step =
    | Acquire(l: Lid)
    | Retest
    | Record
    | Release(l: Lid)
    | Yield
    | Block
    | Wake(t: Tid)
    | Dispatch
    | Fork(t: Tid, p: int)

  predicate Runs(k: Kernel, pc: Pc) {
    k.current in k.threads && k.threads[k.current].status == Running && k.threads[k.current].pc == pc
  }

  predicate Wellformed(k: Kernel) {
    && |k.ready| == PRIORITY_SIZE
    && k.current in k.threads
    && (forall p, i :: 0 <= p < PRIORITY_SIZE && 0 <= i < |k.ready[p]| ==> k.ready[p][i] in k.threads)
    && (forall l :: 0 <= l < |k.locks| ==>
          && (k.locks[l].lockerThread.Some? ==> k.locks[l].lockerThread.value in k.threads)
          && (forall i :: 0 <= i < |k.locks[l].sem.queue| ==> k.locks[l].sem.queue[i] in k.threads))
  }

  /** Acquire and Release include the assertions of the code as guards. */
  predicate Enabled(k: Kernel, step: Step) {
    && !k.fault && Wellformed(k)
    && match step
       case Acquire(l) => l < |k.locks| && Runs(k, Free) && k.locks[l].lockerThread != Some(k.current)
       case Retest => k.threads[k.current].status == Running && k.threads[k.current].pc.Waiting? &&
                      k.threads[k.current].pc.l < |k.locks|
       case Record => k.threads[k.current].status == Running && k.threads[k.current].pc.Taken? &&
                      k.threads[k.current].pc.l < |k.locks|
       case Release(l) => l < |k.locks| && Runs(k, Free) && k.locks[l].lockerThread == Some(k.current)
       case Yield => k.threads[k.current].status == Running && !k.threads[k.current].pc.Waiting?
       case Block => Runs(k, Free)
       case Wake(t) => t in k.threads && k.threads[t].pc == Elsewhere
       case Dispatch => k.threads[k.current].status != Running && Highest(k.ready, PRIORITY_SIZE).Some?
       case Fork(t, p) => t !in k.threads
  }

  function Next(k: Kernel, step: Step): Kernel
    requires Enabled(k, step)
  {
    var t, th := k.current, k.threads[k.current];
    match step
    case Acquire(l) => var k1 := Donate(k, l); if k1.fault then k1 else PassP(k1, l)
    case Retest => PassP(k, th.pc.l)
    case Record =>
      var l := th.pc.l;
      k.(locks := k.locks[l := k.locks[l].(lockerThread := Some(t))], threads := k.threads[t := th.(pc := Free)])
    case Release(l) => ReleaseLock(k, l)
    case Yield =>
      (match Highest(k.ready, PRIORITY_SIZE)
       case None => k
       case Some(p) => ReadyToRun(RunHead(k, p), t))
    case Block => k.(threads := k.threads[t := th.(status := Blocked, pc := Elsewhere)])
    case Wake(u) => ReadyToRun(k.(threads := k.threads[u := k.threads[u].(pc := Free)]), u)
    case Dispatch => RunHead(k, Highest(k.ready, PRIORITY_SIZE).value)
    case Fork(u, p) => ReadyToRun(k.(threads := k.threads[u := Thread(Ready, p, -1, p, Free)]), u)
  }
}
