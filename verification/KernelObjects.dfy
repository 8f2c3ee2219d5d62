/** The kernel's routines as the code runs them, on objects: ready lists and semaphore queues are
    linked lists, locks own semaphores.  Each routine carries out exactly one step of the
    transition system, whatever the heap looks like. */
module KernelObjects {
  import opened Common
  import opened Schedulers
  import opened Kernels
  import opened KernelProofs

  class LockObject {
    const s: Semaphores.Semaphore
    var lockerThread: Option<Tid>
    ghost var Repr: set<object>

    ghost predicate Valid()
      reads this, Repr
      ensures Valid() ==> this in Repr
    {
      this in Repr && s in Repr && s.Repr <= Repr && this !in s.Repr && s.Valid()
    }

    ghost function View(): Lock
      reads this, s, s.queue
    {
      Lock(s.View(), lockerThread)
    }

    constructor ()
      ensures Valid() && fresh(Repr) && View() == Lock(Semaphores.Sem(1, []), None)
    {
      var sem := new Semaphores.Semaphore(1);
      s, lockerThread, Repr := sem, None, {this} + sem.Repr;
    }

    method SetLocker(locker: Option<Tid>)
      requires Valid()
      modifies this`lockerThread
      ensures Valid() && View() == old(View()).(lockerThread := locker)
    {
      lockerThread := locker;
    }

    method TryP(currentThread: Tid) returns (taken: bool)
      requires Valid()
      modifies Repr
      ensures Valid() && fresh(Repr - old(Repr)) && (taken <==> old(View()).sem.value > 0)
      ensures View() == old(View()).(sem := Semaphores.Attempt(old(View()).sem, currentThread))
    {
      taken := s.TryP(currentThread);
      Repr := Repr + s.Repr;
    }

    method V() returns (thread: Option<Tid>)
      requires Valid()
      modifies Repr
      ensures Valid() && Repr == old(Repr) && thread == Semaphores.Woken(old(View()).sem)
      ensures View() == old(View()).(sem := Semaphores.Post(old(View()).sem))
    {
      thread := s.V();
    }
  }

  class KernelObject {
    const scheduler: Scheduler
    const locks: seq<LockObject>
    var threads: map<Tid, Thread>
    var currentThread: Tid
    /** Set instead of an access outside the array of ready lists. */
    var fault: bool
    /** What the locks hold. */
    ghost var lockStates: seq<Lock>
    /** The scheduler and the locks with everything they own; not the kernel itself. */
    ghost var Repr: set<object>

    ghost predicate Valid()
      reads this`lockStates, this`Repr, Repr
    {
      && this !in Repr && SchedulerOk() && |lockStates| == |locks|
      && (forall l :: 0 <= l < |locks| ==> LockTied(l))
      && (forall l, m :: 0 <= l < m < |locks| ==> Apart(l, m))
    }

    ghost predicate SchedulerOk()
      reads this`Repr, Repr
    {
      scheduler in Repr && scheduler.Repr <= Repr && scheduler.Valid()
    }

    /** A lock shares nothing with the scheduler and holds what `lockStates` says. */
    ghost predicate LockTied(l: nat)
      requires l < |locks| == |lockStates|
      reads this`lockStates, this`Repr, Repr
    {
      && scheduler in Repr && locks[l] in Repr && locks[l].Repr <= Repr && locks[l].Repr !! scheduler.Repr
      && locks[l].Valid() && lockStates[l] == locks[l].View()
    }

    ghost predicate Apart(l: nat, m: nat)
      requires l < |locks| && m < |locks|
      reads this`Repr, Repr
    {
      locks[l] in Repr && locks[m] in Repr && locks[l].Repr !! locks[m].Repr
    }

    ghost function View(): (k: Kernel)
      reads this, scheduler
    {
      Kernel(threads, lockStates, scheduler.ready, currentThread, fault)
    }

    /** One thread is running, nothing is locked. */
    constructor (lockCount: nat, priority: int)
      requires InRange(priority)
      ensures Valid() && fresh(Repr)
      ensures View() == Init(lockCount, priority) && Inv(View())
    {
      var sched := new Scheduler();
      var objects, repr := NewLocks(lockCount);
      scheduler, locks := sched, objects;
      lockStates, Repr := seq(lockCount, _ => Lock(Semaphores.Sem(1, []), None)), sched.Repr + repr;
      threads := map[0 := Thread(Running, priority, -1, priority, Free)];
      currentThread, fault := 0, false;
      new;
      InitInv(lockCount, priority);
    }

    static method NewLocks(n: nat) returns (locks: seq<LockObject>, ghost repr: set<object>)
      ensures |locks| == n && fresh(repr)
      ensures forall l :: 0 <= l < n ==>
                locks[l] in repr && locks[l].Repr <= repr && locks[l].Valid() &&
                locks[l].View() == Lock(Semaphores.Sem(1, []), None)
      ensures forall l, m :: 0 <= l < m < n ==> locks[l].Repr !! locks[m].Repr
    {
      locks, repr := [], {};
      for i := 0 to n
        invariant |locks| == i && fresh(repr)
        invariant forall l :: 0 <= l < i ==>
                    locks[l] in repr && locks[l].Repr <= repr && locks[l].Valid() &&
                    locks[l].View() == Lock(Semaphores.Sem(1, []), None)
        invariant forall l, m :: 0 <= l < m < i ==> locks[l].Repr !! locks[m].Repr
      {
        var lock := new LockObject();
        locks, repr := locks + [lock], repr + lock.Repr;
      }
    }

    // ----- Bookkeeping -----

    /** After a change of the scheduler alone. */
    ghost method SchedulerChanged()
      requires this !in Repr && |lockStates| == |locks| && this !in scheduler.Repr && scheduler.Valid()
      requires forall l :: 0 <= l < |locks| ==> LockTied(l)
      requires forall l, m :: 0 <= l < m < |locks| ==> Apart(l, m)
      modifies this`Repr
      ensures Valid() && Repr == old(Repr) + scheduler.Repr
    {
      Repr := Repr + scheduler.Repr;
      forall l | 0 <= l < |locks| ensures LockTied(l) {
        assert old(LockTied(l));
      }
      forall l, m | 0 <= l < m < |locks| ensures Apart(l, m) {
        assert old(Apart(l, m));
      }
    }

    /** Two different locks share nothing. */
    lemma Separate(l: nat, m: nat)
      requires Valid() && l < |locks| && m < |locks| && l != m
      ensures LockTied(m) && locks[l].Repr !! locks[m].Repr && locks[m] in locks[m].Repr
    {
      assert LockTied(m);
      assert if l < m then Apart(l, m) else Apart(m, l);
    }

    /** After a change of one lock alone. */
    ghost method LockChanged(l: nat)
      requires this !in Repr && SchedulerOk() && |lockStates| == |locks| && l < |locks|
      requires locks[l] in Repr && locks[l].Valid() && this !in locks[l].Repr && locks[l].Repr !! scheduler.Repr
      requires forall m :: 0 <= m < |locks| && m != l ==> LockTied(m) && locks[m].Repr !! locks[l].Repr
      requires forall m, n :: 0 <= m < n < |locks| && m != l && n != l ==> Apart(m, n)
      modifies this`Repr, this`lockStates
      ensures Valid() && Repr == old(Repr) + locks[l].Repr && lockStates == old(lockStates)[l := locks[l].View()]
    {
      Repr, lockStates := Repr + locks[l].Repr, lockStates[l := locks[l].View()];
      forall m | 0 <= m < |locks| ensures LockTied(m) {
        assert m != l ==> old(LockTied(m));
      }
      forall m, n | 0 <= m < n < |locks| ensures Apart(m, n) {
        assert m != l && n != l ==> old(Apart(m, n));
      }
    }

    // ----- Scheduler -----

    /** Puts a thread at the end of a ready list. */
    method Enlist(t: Tid, priority: int)
      requires Valid() && InRange(priority)
      modifies this`Repr, scheduler.Repr
      ensures Valid() && fresh(Repr - old(Repr)) && fresh(scheduler.Repr - old(scheduler.Repr))
      ensures lockStates == old(lockStates)
      ensures scheduler.ready == Enqueue(old(scheduler.ready), t, priority)
    {
      scheduler.AddToPriorityList(t, priority);
      forall l | 0 <= l < |locks| ensures LockTied(l) {
        assert old(LockTied(l));
      }
      forall l, m | 0 <= l < m < |locks| ensures Apart(l, m) {
        assert old(Apart(l, m)) && old(LockTied(l)) && old(LockTied(m));
      }
      SchedulerChanged();
    }

    /** Takes a thread out of a ready list. */
    method Delist(t: Tid, priority: int)
      requires Valid() && InRange(priority)
      modifies this`Repr, scheduler.Repr
      ensures Valid() && fresh(Repr - old(Repr)) && fresh(scheduler.Repr - old(scheduler.Repr))
      ensures lockStates == old(lockStates)
      ensures scheduler.ready == old(scheduler.ready)[priority := Without(old(scheduler.ready)[priority], t)]
    {
      scheduler.RemoveFromPriorityList(t, priority);
      forall l | 0 <= l < |locks| ensures LockTied(l) {
        assert old(LockTied(l));
      }
      forall l, m | 0 <= l < m < |locks| ensures Apart(l, m) {
        assert old(Apart(l, m)) && old(LockTied(l)) && old(LockTied(m));
      }
      SchedulerChanged();
    }

    /** Takes the thread to run next out of its ready list. */
    method TakeNext() returns (next: Option<Tid>)
      requires Valid()
      modifies this`Repr, scheduler.Repr
      ensures Valid() && fresh(Repr - old(Repr)) && fresh(scheduler.Repr - old(scheduler.Repr))
      ensures lockStates == old(lockStates)
      ensures match Highest(old(scheduler.ready), PRIORITY_SIZE)
              case None => next == None && scheduler.ready == old(scheduler.ready)
              case Some(p) =>
                next == Some(old(scheduler.ready)[p][0]) && scheduler.ready == Dequeue(old(scheduler.ready), p)
    {
      next := scheduler.FindNextToRun();
      forall l | 0 <= l < |locks| ensures LockTied(l) {
        assert old(LockTied(l));
      }
      forall l, m | 0 <= l < m < |locks| ensures Apart(l, m) {
        assert old(Apart(l, m)) && old(LockTied(l)) && old(LockTied(m));
      }
      SchedulerChanged();
    }

    method ReadyToRun(t: Tid)
      requires Valid() && t in threads
      modifies this, scheduler.Repr
      ensures Valid() && fresh(Repr - old(Repr))
      ensures View() == Kernels.ReadyToRun(old(View()), t)
    {
      SetStatus(t, Ready);
      var priority := threads[t].priority;
      if !InRange(priority) {
        fault := true;
        return;
      }
      Enlist(t, priority);
    }

    method Run(nextThread: Tid)
      requires nextThread in threads
      modifies this`threads, this`currentThread
      ensures currentThread == nextThread
      ensures threads == old(threads)[nextThread := old(threads[nextThread]).(status := Running)]
    {
      currentThread := nextThread;
      SetStatus(nextThread, Running);
    }

    method Yield()
      requires Valid() && Enabled(View(), Step.Yield) && NotListed(View(), currentThread)
      modifies this, Repr
      ensures Valid() && fresh(Repr - old(Repr))
      ensures View() == Next(old(View()), Step.Yield)
    {
      var self := currentThread;
      var next := TakeNext();
      if next.Some? {
        ReadyToRun(self);
        Run(next.value);
      }
    }

    /** The end of Sleep, once some thread is ready. */
    method Dispatch()
      requires Valid() && Enabled(View(), Step.Dispatch)
      modifies this, Repr
      ensures Valid() && fresh(Repr - old(Repr))
      ensures View() == Next(old(View()), Step.Dispatch)
    {
      var next := TakeNext();
      Run(next.value);
    }

    // ----- Thread -----

    method SetPriority(t: Tid, p: int)
      requires t in threads
      modifies this`threads
      ensures threads == old(threads)[t := Kernels.SetPriority(old(threads[t]), p)]
    {
      if p > PRIORITY_SIZE {
        threads := threads[t := threads[t].(priority := PRIORITY_SIZE)];
      } else if p < 0 {
        threads := threads[t := threads[t].(priority := 0)];
      } else {
        threads := threads[t := threads[t].(priority := p)];
      }
    }

    method SetPriorityTemp(t: Tid, p: int)
      requires t in threads
      modifies this`threads
      ensures threads == old(threads)[t := Kernels.SetPriorityTemp(old(threads[t]), p)]
    {
      if threads[t].priorityTemp == -1 {
        threads := threads[t := threads[t].(priorityTemp := threads[t].priority)];
      }
      threads := threads[t := threads[t].(priority := p)];
    }

    method SetStatus(t: Tid, status: Status)
      requires t in threads
      modifies this`threads
      ensures threads == old(threads)[t := old(threads[t]).(status := status)]
    {
      threads := threads[t := threads[t].(status := status)];
    }

    // ----- Lock -----

    /** Acquire up to its first switch: donation, then one pass of P. */
    method Acquire(l: Lid)
      requires Valid() && Enabled(View(), Step.Acquire(l))
      modifies this, Repr
      ensures Valid() && fresh(Repr - old(Repr))
      ensures View() == Next(old(View()), Step.Acquire(l))
    {
      Donate(l);
      if !fault {
        assert LockTied(l);
        TryP(l);
      }
    }

    method Donate(l: Lid)
      requires Valid() && Wellformed(View()) && l < |locks| && !fault
      modifies this, scheduler.Repr
      ensures Valid() && fresh(Repr - old(Repr))
      ensures View() == Kernels.Donate(old(View()), l)
    {
      assert LockTied(l);
      if locks[l].lockerThread.None? {
        return;
      }
      var locker := locks[l].lockerThread.value;
      var priorityLocker, priorityCurrent := threads[locker].priority, threads[currentThread].priority;
      if priorityCurrent <= priorityLocker {
        return;
      }
      SetPriorityTemp(locker, priorityCurrent);
      if !InRange(priorityLocker) {
        fault := true;
        return;
      }
      var ready := scheduler.IsReady(locker, priorityLocker);
      if ready {
        if !InRange(priorityCurrent) {
          fault := true;
          return;
        }
        Delist(locker, priorityLocker);
        Enlist(locker, priorityCurrent);
      }
    }

    /** One pass of the loop of P by the running thread. */
    method TryP(l: Lid)
      requires Valid() && l < |locks| && currentThread in threads
      modifies this, locks[l].Repr
      ensures Valid() && fresh(Repr - old(Repr))
      ensures View() == PassP(old(View()), l)
    {
      assert LockTied(l);
      var th := threads[currentThread];
      var taken := TakeUnit(l);
      if taken {
        threads := threads[currentThread := th.(pc := Taken(l))];
      } else {
        threads := threads[currentThread := th.(status := Blocked, pc := Waiting(l))];
      }
    }

    /** The lock's semaphore is tested by the running thread. */
    method TakeUnit(l: Lid) returns (taken: bool)
      requires Valid() && l < |locks|
      modifies this`Repr, this`lockStates, locks[l].Repr
      ensures Valid() && fresh(Repr - old(Repr)) && scheduler.ready == old(scheduler.ready)
      ensures taken <==> old(lockStates)[l].sem.value > 0
      ensures lockStates == old(lockStates)[l := old(lockStates)[l].(
                sem := Semaphores.Attempt(old(lockStates)[l].sem, currentThread))]
    {
      assert LockTied(l);
      forall m | 0 <= m < |locks| && m != l { Separate(l, m); }
      taken := locks[l].TryP(currentThread);
      forall m | 0 <= m < |locks| && m != l ensures LockTied(m) && locks[m].Repr !! locks[l].Repr {
        assert old(LockTied(m));
      }
      forall m, n | 0 <= m < n < |locks| && m != l && n != l ensures Apart(m, n) {
        assert old(Apart(m, n)) && old(LockTied(m)) && old(LockTied(n));
      }
      LockChanged(l);
    }

    /** The lock's semaphore is posted. */
    method GiveUnit(l: Lid) returns (thread: Option<Tid>)
      requires Valid() && l < |locks|
      modifies this`Repr, this`lockStates, locks[l].Repr
      ensures Valid() && fresh(Repr - old(Repr)) && scheduler.ready == old(scheduler.ready)
      ensures thread == Semaphores.Woken(old(lockStates)[l].sem)
      ensures lockStates == old(lockStates)[l := old(lockStates)[l].(sem := Semaphores.Post(old(lockStates)[l].sem))]
    {
      assert LockTied(l);
      forall m | 0 <= m < |locks| && m != l { Separate(l, m); }
      thread := locks[l].V();
      forall m | 0 <= m < |locks| && m != l ensures LockTied(m) && locks[m].Repr !! locks[l].Repr {
        assert old(LockTied(m));
      }
      forall m, n | 0 <= m < n < |locks| && m != l && n != l ensures Apart(m, n) {
        assert old(Apart(m, n)) && old(LockTied(m)) && old(LockTied(n));
      }
      LockChanged(l);
    }

    method SetLocker(l: Lid, locker: Option<Tid>)
      requires Valid() && l < |locks|
      modifies this`Repr, this`lockStates, locks[l].Repr
      ensures Valid() && fresh(Repr - old(Repr)) && scheduler.ready == old(scheduler.ready)
      ensures lockStates == old(lockStates)[l := old(lockStates)[l].(lockerThread := locker)]
    {
      assert LockTied(l);
      forall m | 0 <= m < |locks| && m != l { Separate(l, m); }
      locks[l].SetLocker(locker);
      forall m | 0 <= m < |locks| && m != l ensures LockTied(m) && locks[m].Repr !! locks[l].Repr {
        assert old(LockTied(m));
      }
      forall m, n | 0 <= m < n < |locks| && m != l && n != l ensures Apart(m, n) {
        assert old(Apart(m, n)) && old(LockTied(m)) && old(LockTied(n));
      }
      LockChanged(l);
    }

    /** The end of Acquire. */
    method Record()
      requires Valid() && Enabled(View(), Step.Record)
      modifies this, Repr
      ensures Valid() && fresh(Repr - old(Repr))
      ensures View() == Next(old(View()), Step.Record)
    {
      var l := threads[currentThread].pc.l;
      assert LockTied(l);
      SetLocker(l, Some(currentThread));
      threads := threads[currentThread := threads[currentThread].(pc := Free)];
    }

    method Release(l: Lid)
      requires Valid() && Enabled(View(), Step.Release(l))
      modifies this, Repr
      ensures Valid() && fresh(Repr - old(Repr))
      ensures View() == Next(old(View()), Step.Release(l))
    {
      assert LockTied(l);
      RestorePriority(locks[l].lockerThread.value);
      SetLocker(l, None);
      V(l);
    }

    /** What Release does to the priority of a thread that received a donation. */
    method RestorePriority(locker: Tid)
      requires locker in threads
      modifies this`threads
      ensures var th := old(threads[locker]);
              threads == if th.priorityTemp == -1 then old(threads)
                         else old(threads)[locker := Kernels.SetPriorityTemp(Kernels.SetPriority(th, th.priorityTemp), -1)]
    {
      if threads[locker].priorityTemp != -1 {
        var priorityTemp := threads[locker].priorityTemp;
        SetPriority(locker, priorityTemp);
        SetPriorityTemp(locker, -1);
      }
    }

    method V(l: Lid)
      requires Valid() && l < |locks|
      requires forall i :: 0 <= i < |lockStates[l].sem.queue| ==> lockStates[l].sem.queue[i] in threads
      modifies this, Repr
      ensures Valid() && fresh(Repr - old(Repr))
      ensures var k := old(View());
              var k1 := k.(locks := k.locks[l := k.locks[l].(sem := Semaphores.Post(k.locks[l].sem))]);
              View() == match Semaphores.Woken(k.locks[l].sem) case None => k1 case Some(u) => Kernels.ReadyToRun(k1, u)
    {
      assert LockTied(l);
      var thread := GiveUnit(l);
      if thread.Some? {
        ReadyToRun(thread.value);
      }
    }

    // ----- Every step -----

    /** Any step, by the routine that carries it out.  Starting from a state that satisfies the
        invariant, the objects follow the transition system and keep it, short of a fault. */
    method Perform(step: Step)
      requires Valid() && Inv(View()) && Enabled(View(), step)
      modifies this, Repr
      ensures Valid() && fresh(Repr - old(Repr)) && View() == Next(old(View()), step)
      ensures !fault ==> Inv(View())
    {
      StepKeepsInv(View(), step);
      match step
      case Acquire(l) => Acquire(l);
      case Retest => Retest();
      case Record => Record();
      case Release(l) => Release(l);
      case Yield =>
        RunningNotListed(View());
        Yield();
      case Block => threads := threads[currentThread := threads[currentThread].(status := Blocked, pc := Elsewhere)];
      case Wake(t) => Wake(t);
      case Dispatch => Dispatch();
      case Fork(t, p) => Fork(t, p);
    }

    method Retest()
      requires Valid() && Enabled(View(), Step.Retest)
      modifies this, Repr
      ensures Valid() && fresh(Repr - old(Repr)) && View() == Next(old(View()), Step.Retest)
    {
      assert LockTied(threads[currentThread].pc.l);
      TryP(threads[currentThread].pc.l);
    }

    method Wake(t: Tid)
      requires Valid() && Enabled(View(), Step.Wake(t))
      modifies this, Repr
      ensures Valid() && fresh(Repr - old(Repr)) && View() == Next(old(View()), Step.Wake(t))
    {
      threads := threads[t := threads[t].(pc := Free)];
      ReadyToRun(t);
    }

    method Fork(t: Tid, p: int)
      requires Valid() && Enabled(View(), Step.Fork(t, p))
      modifies this, Repr
      ensures Valid() && fresh(Repr - old(Repr)) && View() == Next(old(View()), Step.Fork(t, p))
    {
      threads := threads[t := Thread(Ready, p, -1, p, Free)];
      ReadyToRun(t);
    }
  }

  /** Whole runs: any run of the transition system is what the objects do, step by step, from a
      new kernel on; so whatever holds on every run holds of the linked lists. */
  method Replay(lockCount: nat, priority: int, steps: seq<Step>, ghost run: seq<Kernel>) returns (kernel: KernelObject)
    requires IsRun(lockCount, priority, run, steps)
    ensures fresh(kernel) && kernel.Valid() && kernel.View() == run[|steps|]
  {
    kernel := new KernelObject(lockCount, priority);
    for i := 0 to |steps|
      invariant fresh(kernel) && fresh(kernel.Repr) && kernel.Valid() && kernel.View() == run[i]
    {
      RunKeepsInv(lockCount, priority, run, steps, i);
      kernel.Perform(steps[i]);
    }
  }

  ghost predicate NotListed(k: Kernel, t: Tid) {
    forall p :: 0 <= p < |k.ready| ==> t !in k.ready[p]
  }

  lemma RunningNotListed(k: Kernel)
    requires Inv(k) && k.threads[k.current].status == Running
    ensures NotListed(k, k.current)
  {
    forall p | 0 <= p < |k.ready| ensures k.current !in k.ready[p] {
      SchedMember(k.threads, k.ready, k.current, p);
    }
  }
}
