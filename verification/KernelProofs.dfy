/** What every run of the kernel keeps: scheduling, mutual exclusion, and exactly when
    priority donation is undone. */
module KernelProofs {
  import opened Common
  import opened Schedulers
  import opened Kernels

  type Threads = map<Tid, Thread>

  // ----- Scheduling -----

  ghost predicate Listed(threads: Threads, ready: ReadyLists, p: nat)
    requires p < |ready|
  {
    && Distinct(ready[p])
    && forall t :: t in ready[p] <==> t in threads && threads[t].status == Ready && threads[t].priority == p
  }

  /** Each READY thread is in exactly one list, once, at its current priority, and nothing
      else is in any list. */
  ghost predicate Sched(threads: Threads, ready: ReadyLists) {
    && |ready| == PRIORITY_SIZE
    && (forall p :: 0 <= p < PRIORITY_SIZE ==> Listed(threads, ready, p))
    && (forall t :: t in threads && threads[t].status == Ready ==> InRange(threads[t].priority))
  }

  ghost predicate OneRunning(k: Kernel) {
    && k.current in k.threads
    && forall t :: t in k.threads && k.threads[t].status == Running ==> t == k.current
  }

  /** Replacing a thread that is not READY, before and after, leaves the lists right. */
  lemma SchedReplace(threads: Threads, ready: ReadyLists, t: Tid, th: Thread)
    requires Sched(threads, ready)
    requires t in threads ==> threads[t].status != Ready
    requires th.status != Ready
    ensures Sched(threads[t := th], ready)
  {
    var threads' := threads[t := th];
    forall p | 0 <= p < PRIORITY_SIZE ensures Listed(threads', ready, p) {
      assert Listed(threads, ready, p);
    }
  }

  lemma SchedEnqueue(threads: Threads, ready: ReadyLists, t: Tid, th: Thread)
    requires Sched(threads, ready)
    requires t in threads ==> threads[t].status != Ready
    requires th.status == Ready && InRange(th.priority)
    ensures Sched(threads[t := th], Enqueue(ready, t, th.priority))
  {
    var threads', ready' := threads[t := th], Enqueue(ready, t, th.priority);
    forall p | 0 <= p < PRIORITY_SIZE ensures Listed(threads', ready', p) {
      assert Listed(threads, ready, p);
    }
  }

  lemma SchedDequeue(threads: Threads, ready: ReadyLists, p: nat, th: Thread)
    requires Sched(threads, ready) && p < PRIORITY_SIZE && ready[p] != []
    requires th.status != Ready
    ensures ready[p][0] in threads && threads[ready[p][0]].status == Ready
    ensures Sched(threads[ready[p][0] := th], Dequeue(ready, p))
  {
    var n, ready' := ready[p][0], Dequeue(ready, p);
    assert Listed(threads, ready, p);
    assert n in ready[p];
    assert ready[p] == [n] + ready'[p];
    var threads' := threads[n := th];
    forall q | 0 <= q < PRIORITY_SIZE ensures Listed(threads', ready', q) {
      assert Listed(threads, ready, q);
      if q == p {
        assert n !in ready'[p];
        assert forall u :: u in ready[p] <==> u == n || u in ready'[p];
      }
    }
  }

  /** Donation to a READY thread moves it between lists. */
  lemma SchedRaise(threads: Threads, ready: ReadyLists, o: Tid, th: Thread)
    requires Sched(threads, ready) && o in threads && threads[o].status == Ready
    requires th.status == Ready && InRange(th.priority) && th.priority != threads[o].priority
    ensures var po := threads[o].priority;
            Sched(threads[o := th], Enqueue(ready[po := Without(ready[po], o)], o, th.priority))
  {
    var po := threads[o].priority;
    var ready1 := ready[po := Without(ready[po], o)];
    var ready' := Enqueue(ready1, o, th.priority);
    assert Listed(threads, ready, po);
    WithoutContents(ready[po], o);
    var threads' := threads[o := th];
    forall p | 0 <= p < PRIORITY_SIZE ensures Listed(threads', ready', p) {
      assert Listed(threads, ready, p);
      if p == th.priority {
        assert ready'[p] == ready[p] + [o];
        assert o !in ready[p];
      }
    }
  }

  lemma SchedMember(threads: Threads, ready: ReadyLists, t: Tid, p: nat)
    requires Sched(threads, ready) && p < PRIORITY_SIZE
    ensures t in ready[p] <==> t in threads && threads[t].status == Ready && threads[t].priority == p
  {
    assert Listed(threads, ready, p);
  }

  // ----- Locks -----

  /** Threads past the lock's P and not yet at its V. */
  ghost function Holders(threads: Threads, lock: Lock, l: Lid): set<Tid> {
    set t | t in threads && (threads[t].pc == Taken(l) || lock.lockerThread == Some(t))
  }

  ghost predicate Sleeps(threads: Threads, t: Tid, l: Lid) {
    t in threads && threads[t].status == Blocked && threads[t].pc == Waiting(l)
  }

  ghost predicate Retesting(threads: Threads, t: Tid, l: Lid) {
    t in threads && threads[t].status != Blocked && threads[t].pc == Waiting(l)
  }

  /** One unit in all: free, or held by one thread that is the recorded owner or about to
      be.  The queue holds exactly the sleepers, and when the unit is free while some
      sleep, a woken thread is about to retest. */
  ghost predicate LockOk(threads: Threads, lock: Lock, l: Lid) {
    && (lock.sem.value == 1 ==> Holders(threads, lock, l) == {})
    && (lock.sem.value != 1 ==> lock.sem.value == 0 && exists h :: Holders(threads, lock, l) == {h})
    && (forall t: Tid :: lock.lockerThread == Some(t) ==> t in threads && threads[t].pc != Taken(l) && threads[t].pc != Waiting(l))
    && Distinct(lock.sem.queue)
    && (forall t: Tid :: t in lock.sem.queue <==> Sleeps(threads, t, l))
    && (lock.sem.value == 1 && lock.sem.queue != [] ==> exists t :: Retesting(threads, t, l))
  }

  /** How a lock sees a thread. */
  ghost predicate SameForLock(a: Thread, b: Thread, l: Lid) {
    && (a.pc == Taken(l) <==> b.pc == Taken(l))
    && (a.pc == Waiting(l) <==> b.pc == Waiting(l))
    && (a.pc == Waiting(l) ==> (a.status == Blocked <==> b.status == Blocked))
  }

  lemma LockFrame(threads: Threads, lock: Lock, l: Lid, t: Tid, th: Thread)
    requires LockOk(threads, lock, l)
    requires t in threads ==> SameForLock(threads[t], th, l)
    requires t !in threads ==> th.pc != Taken(l) && th.pc != Waiting(l)
    ensures LockOk(threads[t := th], lock, l)
  {
    var threads' := threads[t := th];
    assert Holders(threads', lock, l) == Holders(threads, lock, l);
    assert forall u :: Sleeps(threads', u, l) <==> Sleeps(threads, u, l);
    assert forall u :: Retesting(threads, u, l) ==> Retesting(threads', u, l);
  }

  // ----- Priorities -----

  /** What the code does guarantee of priorities, in every run: priorityTemp is unset and the
      priority is the base one, or priorityTemp holds the base priority. */
  ghost predicate Prio(th: Thread) {
    && InRange(th.base) && -1 <= th.priority < PRIORITY_SIZE
    && ((th.priorityTemp == -1 && th.priority == th.base) || th.priorityTemp == th.base)
  }

  ghost predicate PcOk(k: Kernel, th: Thread) {
    && (th.pc == Elsewhere ==> th.status == Blocked)
    && (th.status == Blocked ==> th.pc == Elsewhere || th.pc.Waiting?)
    && (th.pc.Waiting? || th.pc.Taken? ==> th.pc.l < |k.locks|)
  }

  ghost predicate Inv(k: Kernel) {
    && Sched(k.threads, k.ready)
    && OneRunning(k)
    && (forall t :: t in k.threads ==> Prio(k.threads[t]) && PcOk(k, k.threads[t]))
    && (forall l :: 0 <= l < |k.locks| ==> LockOk(k.threads, k.locks[l], l))
  }

  /** References are never dangling, so that part of a step's guard never blocks it. */
  lemma InvWellformed(k: Kernel)
    requires Inv(k)
    ensures Wellformed(k)
  {
    forall p, i | 0 <= p < PRIORITY_SIZE && 0 <= i < |k.ready[p]| ensures k.ready[p][i] in k.threads {
      SchedMember(k.threads, k.ready, k.ready[p][i], p);
    }
    forall l | 0 <= l < |k.locks|
      ensures k.locks[l].lockerThread.Some? ==> k.locks[l].lockerThread.value in k.threads
      ensures forall i :: 0 <= i < |k.locks[l].sem.queue| ==> k.locks[l].sem.queue[i] in k.threads
    {
      assert LockOk(k.threads, k.locks[l], l);
      var q := k.locks[l].sem.queue;
      forall i | 0 <= i < |q| ensures q[i] in k.threads {
        assert q[i] in q;
        assert Sleeps(k.threads, q[i], l);
      }
    }
  }

  // ----- Steps keep the invariant, short of a fault -----

  /** A change to one thread that no lock can see. */
  lemma LocksFrame(k: Kernel, t: Tid, th: Thread)
    requires Inv(k)
    requires forall l :: 0 <= l < |k.locks| ==>
               if t in k.threads then SameForLock(k.threads[t], th, l) else th.pc != Taken(l) && th.pc != Waiting(l)
    ensures forall l :: 0 <= l < |k.locks| ==> LockOk(k.threads[t := th], k.locks[l], l)
  {
    var threads' := k.threads[t := th];
    forall l | 0 <= l < |k.locks| ensures LockOk(threads', k.locks[l], l) {
      assert LockOk(k.threads, k.locks[l], l);
      LockFrame(k.threads, k.locks[l], l, t, th);
    }
  }

  lemma DonateKeepsInv(k: Kernel, l: Lid)
    requires Inv(k) && Enabled(k, Acquire(l))
    ensures var k' := Donate(k, l);
            && k'.locks == k.locks && k'.current == k.current && k'.threads.Keys == k.threads.Keys
            && k'.threads[k.current] == k.threads[k.current]
            && (!k'.fault ==> Inv(k'))
  {
    var k' := Donate(k, l);
    if k'.threads != k.threads && !k'.fault {
      var o := k.locks[l].lockerThread.value;
      var th, th' := k.threads[o], k'.threads[o];
      assert Prio(th) && Prio(k.threads[k.current]) && PcOk(k, th);
      LocksFrame(k, o, th');
      SchedMember(k.threads, k.ready, o, th.priority);
      if th.status == Ready {
        SchedRaise(k.threads, k.ready, o, th');
      } else {
        SchedReplace(k.threads, k.ready, o, th');
      }
    }
  }

  lemma PassPLockOk(threads: Threads, lock: Lock, l: Lid, t: Tid, th': Thread)
    requires LockOk(threads, lock, l) && t in threads && lock.lockerThread != Some(t)
    requires threads[t].status == Running && (threads[t].pc == Free || threads[t].pc == Waiting(l))
    requires th' == if lock.sem.value > 0 then threads[t].(pc := Taken(l))
                    else threads[t].(status := Blocked, pc := Waiting(l))
    ensures LockOk(threads[t := th'], lock.(sem := Semaphores.Attempt(lock.sem, t)), l)
  {
    var lock' := lock.(sem := Semaphores.Attempt(lock.sem, t));
    var threads' := threads[t := th'];
    if lock.sem.value > 0 {
      assert Holders(threads', lock', l) == {t};
      assert forall u :: Sleeps(threads', u, l) <==> Sleeps(threads, u, l);
    } else {
      assert Holders(threads', lock', l) == Holders(threads, lock, l);
      assert forall u :: Sleeps(threads', u, l) <==> Sleeps(threads, u, l) || u == t;
      assert !Sleeps(threads, t, l);
    }
  }

  lemma PassPKeepsInv(k: Kernel, l: Lid)
    requires Inv(k) && l < |k.locks|
    requires Runs(k, Free) || Runs(k, Waiting(l))
    requires k.locks[l].lockerThread != Some(k.current)
    ensures Inv(PassP(k, l))
  {
    var t, k' := k.current, PassP(k, l);
    var th' := k'.threads[t];
    assert Prio(k.threads[t]) && PcOk(k, k.threads[t]);
    SchedReplace(k.threads, k.ready, t, th');
    forall j | 0 <= j < |k'.locks| ensures LockOk(k'.threads, k'.locks[j], j) {
      assert LockOk(k.threads, k.locks[j], j);
      if j == l {
        PassPLockOk(k.threads, k.locks[l], l, t, th');
      } else {
        LockFrame(k.threads, k.locks[j], j, t, th');
      }
    }
  }

  /** A thread inside Acquire is not the recorded owner. */
  lemma WaiterIsNotOwner(k: Kernel, t: Tid, l: Lid)
    requires Inv(k) && t in k.threads && l < |k.locks|
    requires k.threads[t].pc == Taken(l)
    ensures Holders(k.threads, k.locks[l], l) == {t} && k.locks[l].sem.value == 0 && k.locks[l].lockerThread == None
  {
    var lock := k.locks[l];
    assert LockOk(k.threads, lock, l);
    assert t in Holders(k.threads, lock, l);
    assert forall o: Tid :: lock.lockerThread == Some(o) ==> o in Holders(k.threads, lock, l);
  }

  lemma RecordKeepsInv(k: Kernel)
    requires Inv(k) && Enabled(k, Record)
    ensures Inv(Next(k, Record))
  {
    var t, k' := k.current, Next(k, Record);
    var l, th' := k.threads[t].pc.l, k'.threads[t];
    assert Prio(k.threads[t]) && PcOk(k, k.threads[t]);
    SchedReplace(k.threads, k.ready, t, th');
    WaiterIsNotOwner(k, t, l);
    forall j | 0 <= j < |k'.locks| ensures LockOk(k'.threads, k'.locks[j], j) {
      assert LockOk(k.threads, k.locks[j], j);
      if j == l {
        assert Holders(k'.threads, k'.locks[l], l) == {t};
        assert forall u :: Sleeps(k'.threads, u, l) <==> Sleeps(k.threads, u, l);
      } else {
        LockFrame(k.threads, k.locks[j], j, t, th');
      }
    }
  }

  lemma ReleaseLockOk(threads: Threads, lock: Lock, l: Lid, t: Tid, th': Thread)
    requires LockOk(threads, lock, l) && t in threads && lock.lockerThread == Some(t)
    requires threads[t].pc == Free == th'.pc
    ensures var lock' := Lock(Semaphores.Post(lock.sem), None);
            var threads1 := threads[t := th'];
            match Semaphores.Woken(lock.sem)
            case None => LockOk(threads1, lock', l)
            case Some(u) => u in threads1 && u != t && LockOk(threads1[u := threads1[u].(status := Ready)], lock', l)
  {
    var lock', threads1 := Lock(Semaphores.Post(lock.sem), None), threads[t := th'];
    assert t in Holders(threads, lock, l);
    assert forall v :: v in threads && threads[v].pc == Taken(l) ==> v in Holders(threads, lock, l);
    assert forall u :: Sleeps(threads1, u, l) <==> Sleeps(threads, u, l);
    if lock.sem.queue == [] {
      assert Holders(threads1, lock', l) == {};
    } else {
      var q, u := lock.sem.queue, lock.sem.queue[0];
      assert u in q && Sleeps(threads, u, l);
      var threads2 := threads1[u := threads1[u].(status := Ready)];
      assert Holders(threads2, lock', l) == {};
      assert q == [u] + q[1..];
      assert forall v :: v in q <==> v == u || v in q[1..];
      assert u !in q[1..];
      assert forall v :: Sleeps(threads2, v, l) <==> Sleeps(threads, v, l) && v != u;
      assert Retesting(threads2, u, l);
    }
  }

  lemma ReleaseLocksOk(k: Kernel, l: Lid)
    requires Inv(k) && Enabled(k, Release(l))
    ensures var k' := Next(k, Release(l));
            |k'.locks| == |k.locks| && forall j :: 0 <= j < |k'.locks| ==> LockOk(k'.threads, k'.locks[j], j)
  {
    var t, k' := k.current, Next(k, Release(l));
    var lock := k.locks[l];
    var th := k.threads[t];
    var th' := if th.priorityTemp != -1 then SetPriorityTemp(SetPriority(th, th.priorityTemp), -1) else th;
    forall j | 0 <= j < |k'.locks| ensures LockOk(k'.threads, k'.locks[j], j) {
      assert LockOk(k.threads, k.locks[j], j);
      if j == l {
        ReleaseLockOk(k.threads, lock, l, t, th');
      } else {
        LockFrame(k.threads, k.locks[j], j, t, th');
        if lock.sem.queue != [] {
          var u := lock.sem.queue[0];
          assert LockOk(k.threads, lock, l) && u in lock.sem.queue && Sleeps(k.threads, u, l);
          var threads1 := k.threads[t := th'];
          LockFrame(threads1, k.locks[j], j, u, threads1[u].(status := Ready));
        }
      }
    }
  }

  lemma ReleaseKeepsInv(k: Kernel, l: Lid)
    requires Inv(k) && Enabled(k, Release(l))
    ensures var k' := Next(k, Release(l)); !k'.fault ==> Inv(k')
  {
    var t, k' := k.current, Next(k, Release(l));
    var lock := k.locks[l];
    assert Prio(k.threads[t]) && PcOk(k, k.threads[t]);
    ReleaseLocksOk(k, l);
    if lock.sem.queue != [] {
      var u := lock.sem.queue[0];
      assert LockOk(k.threads, lock, l) && u in lock.sem.queue && Sleeps(k.threads, u, l);
      assert Prio(k.threads[u]) && PcOk(k, k.threads[u]);
    }
    if !k'.fault {
      ReleaseSched(k, l);
    }
  }

  lemma ReleaseSched(k: Kernel, l: Lid)
    requires Inv(k) && Enabled(k, Release(l)) && !Next(k, Release(l)).fault
    ensures Sched(Next(k, Release(l)).threads, Next(k, Release(l)).ready)
  {
    var t, lock, th := k.current, k.locks[l], k.threads[k.current];
    var th' := if th.priorityTemp != -1 then SetPriorityTemp(SetPriority(th, th.priorityTemp), -1) else th;
    SchedReplace(k.threads, k.ready, t, th');
    if lock.sem.queue != [] {
      var u := lock.sem.queue[0];
      assert LockOk(k.threads, lock, l) && u in lock.sem.queue && Sleeps(k.threads, u, l);
      var threads1 := k.threads[t := th'];
      SchedEnqueue(threads1, k.ready, u, threads1[u].(status := Ready));
    }
  }

  /** Making a thread READY that no lock sees differently for it. */
  lemma ReadyKeepsInv(k: Kernel, t: Tid, th: Thread)
    requires Inv(k) && |k.ready| == PRIORITY_SIZE
    requires t in k.threads ==> k.threads[t].status != Ready && k.threads[t].pc != Elsewhere
                                && !k.threads[t].pc.Waiting? && th == k.threads[t]
    requires t !in k.threads ==> th.pc == Free && th.priority == th.base && th.priorityTemp == -1
    ensures var k' := ReadyToRun(k.(threads := k.threads[t := th]), t);
            !k'.fault ==> k.fault || Inv(k')
  {
    var k' := ReadyToRun(k.(threads := k.threads[t := th]), t);
    if !k'.fault {
      var th' := th.(status := Ready);
      if t in k.threads {
        assert Prio(k.threads[t]) && PcOk(k, k.threads[t]);
      }
      SchedEnqueue(k.threads, k.ready, t, th');
      LocksFrame(k, t, th');
      assert k'.threads == k.threads[t := th'];
      assert Prio(th');
    }
  }

  lemma RunHeadKeepsInv(k: Kernel, p: nat)
    requires Inv(k) && p < PRIORITY_SIZE && k.ready[p] != [] && k.ready[p][0] in k.threads
    requires k.threads[k.current].status != Running
    ensures Inv(RunHead(k, p))
  {
    var n := k.ready[p][0];
    var th' := k.threads[n].(status := Running);
    assert Prio(k.threads[n]) && PcOk(k, k.threads[n]);
    SchedMember(k.threads, k.ready, n, p);
    SchedDequeue(k.threads, k.ready, p, th');
    LocksFrame(k, n, th');
  }

  lemma EnqueueDequeueCommute(ready: ReadyLists, t: Tid, q: nat, p: nat)
    requires p < |ready| && q < |ready| && ready[p] != []
    ensures Enqueue(ready, t, q)[p] != []
    ensures Enqueue(Dequeue(ready, p), t, q) == Dequeue(Enqueue(ready, t, q), p)
  {
    if p == q {
      assert (ready[p] + [t])[1..] == ready[p][1..] + [t];
    }
  }

  lemma YieldKeepsInv(k: Kernel)
    requires Inv(k) && Enabled(k, Yield)
    ensures var k' := Next(k, Yield); !k'.fault ==> Inv(k')
  {
    var t, k' := k.current, Next(k, Yield);
    var th := k.threads[t];
    var h := Highest(k.ready, PRIORITY_SIZE);
    if h.Some? && !k'.fault {
      var p := h.value;
      var n := k.ready[p][0];
      SchedMember(k.threads, k.ready, n, p);
      assert PcOk(k, th) && k.threads[t := th] == k.threads;
      var k1 := ReadyToRun(k, t);
      ReadyKeepsInv(k, t, th);
      assert k1.ready[p][0] == n;
      RunHeadKeepsInv(k1, p);
      EnqueueDequeueCommute(k.ready, t, th.priority, p);
      assert k'.threads == RunHead(k1, p).threads;
      assert k' == RunHead(k1, p);
    }
  }

  lemma BlockKeepsInv(k: Kernel)
    requires Inv(k) && Enabled(k, Block)
    ensures Inv(Next(k, Block))
  {
    var t := k.current;
    var th' := k.threads[t].(status := Blocked, pc := Elsewhere);
    assert Prio(k.threads[t]);
    SchedReplace(k.threads, k.ready, t, th');
    LocksFrame(k, t, th');
  }

  lemma WakeKeepsInv(k: Kernel, t: Tid)
    requires Inv(k) && Enabled(k, Wake(t))
    ensures var k' := Next(k, Wake(t)); !k'.fault ==> Inv(k')
  {
    var k' := Next(k, Wake(t));
    var th' := k.threads[t].(status := Ready, pc := Free);
    assert Prio(k.threads[t]) && PcOk(k, k.threads[t]);
    if !k'.fault {
      SchedEnqueue(k.threads, k.ready, t, th');
      LocksFrame(k, t, th');
      assert k'.threads == k.threads[t := th'];
    }
  }

  /** Every step from a good state leads to a good state or to a fault. */
  lemma StepKeepsInv(k: Kernel, step: Step)
    requires Inv(k) && Enabled(k, step)
    ensures var k' := Next(k, step); !k'.fault ==> Inv(k')
  {
    match step
    case Acquire(l) =>
      DonateKeepsInv(k, l);
      if !Donate(k, l).fault { PassPKeepsInv(Donate(k, l), l); }
    case Retest =>
      var l := k.threads[k.current].pc.l;
      assert LockOk(k.threads, k.locks[l], l);
      PassPKeepsInv(k, l);
    case Record => RecordKeepsInv(k);
    case Release(l) => ReleaseKeepsInv(k, l);
    case Yield => YieldKeepsInv(k);
    case Block => BlockKeepsInv(k);
    case Wake(t) => WakeKeepsInv(k, t);
    case Dispatch => RunHeadKeepsInv(k, Highest(k.ready, PRIORITY_SIZE).value);
    case Fork(t, p) => ReadyKeepsInv(k, t, Thread(Ready, p, -1, p, Free));
  }

  // ----- Runs -----

  function Init(locks: nat, p: int): Kernel {
    Kernel(map[0 := Thread(Running, p, -1, p, Free)], seq(locks, _ => Lock(Semaphores.Sem(1, []), None)),
           seq(PRIORITY_SIZE, _ => []), 0, false)
  }

  ghost predicate IsRun(locks: nat, p: int, run: seq<Kernel>, steps: seq<Step>) {
    && InRange(p)
    && |run| == |steps| + 1
    && run[0] == Init(locks, p)
    && forall i :: 0 <= i < |steps| ==> Enabled(run[i], steps[i]) && run[i + 1] == Next(run[i], steps[i])
  }

  lemma InitInv(locks: nat, p: int)
    requires InRange(p)
    ensures Inv(Init(locks, p))
  {
    var k := Init(locks, p);
    forall l | 0 <= l < |k.locks| ensures LockOk(k.threads, k.locks[l], l) {
      assert Holders(k.threads, k.locks[l], l) == {};
    }
  }

  lemma {:induction false} RunKeepsInv(locks: nat, p: int, run: seq<Kernel>, steps: seq<Step>, i: nat)
    requires IsRun(locks, p, run, steps) && i < |run|
    ensures !run[i].fault ==> Inv(run[i])
  {
    if i == 0 {
      InitInv(locks, p);
    } else {
      RunKeepsInv(locks, p, run, steps, i - 1);
      assert run[i - 1 + 1] == Next(run[i - 1], steps[i - 1]);
      StepKeepsInv(run[i - 1], steps[i - 1]);
    }
  }

  /** Mutual exclusion, although ownership is recorded only after P returns: on every run the
      lock's value plus the number of threads between P and V is one, and the recorded
      owner, if any, is that thread. */
  lemma MutualExclusion(locks: nat, p: int, run: seq<Kernel>, steps: seq<Step>, i: nat, l: Lid)
    requires IsRun(locks, p, run, steps) && i < |run| && !run[i].fault && l < |run[i].locks|
    ensures var lock := run[i].locks[l];
            && lock.sem.value + |Holders(run[i].threads, lock, l)| == 1
            && (lock.lockerThread.Some? ==> Holders(run[i].threads, lock, l) == {lock.lockerThread.value})
  {
    RunKeepsInv(locks, p, run, steps, i);
    var k, lock := run[i], run[i].locks[l];
    assert LockOk(k.threads, lock, l);
    assert forall o: Tid :: lock.lockerThread == Some(o) ==> o in Holders(k.threads, lock, l);
  }

  /** Scheduling, on every run: lists hold exactly the READY threads, once, at their current
      priority, and at most the current thread runs. */
  lemma SchedulingIsExact(locks: nat, p: int, run: seq<Kernel>, steps: seq<Step>, i: nat)
    requires IsRun(locks, p, run, steps) && i < |run| && !run[i].fault
    ensures Sched(run[i].threads, run[i].ready) && OneRunning(run[i])
  {
    RunKeepsInv(locks, p, run, steps, i);
  }

  ghost predicate SomeReady(k: Kernel) {
    exists t :: t in k.threads && k.threads[t].status == Ready
  }

  /** Whenever the processor changes hands it goes to a READY thread that no READY thread
      outranks, the first in its list; and it does change hands if some thread is READY. */
  lemma HighestRuns(locks: nat, p: int, run: seq<Kernel>, steps: seq<Step>, i: nat)
    requires IsRun(locks, p, run, steps) && i < |steps|
    requires steps[i].Dispatch? || (steps[i].Yield? && SomeReady(run[i]))
    ensures var k, n := run[i], run[i + 1].current;
            && n in k.threads && k.threads[n].status == Ready && InRange(k.threads[n].priority)
            && |k.ready| == PRIORITY_SIZE && k.ready[k.threads[n].priority] != []
            && k.ready[k.threads[n].priority][0] == n
            && forall t :: t in k.threads && k.threads[t].status == Ready ==> k.threads[t].priority <= k.threads[n].priority
  {
    var k := run[i];
    assert run[i + 1] == Next(k, steps[i]);
    RunKeepsInv(locks, p, run, steps, i);
    forall t | t in k.threads && k.threads[t].status == Ready
      ensures InRange(k.threads[t].priority) && t in k.ready[k.threads[t].priority]
    {
      SchedMember(k.threads, k.ready, t, k.threads[t].priority);
    }
    var h := Highest(k.ready, PRIORITY_SIZE).value;
    assert k.ready[h][0] in k.ready[h];
    SchedMember(k.threads, k.ready, k.ready[h][0], h);
  }

  // ----- Donation -----

  /** The claim: a thread is at its base priority with nothing saved, or it owns a lock, has
      its base priority saved and runs strictly above it. */
  ghost predicate Undone(k: Kernel, t: Tid)
    requires t in k.threads
  {
    var th := k.threads[t];
    || (th.priorityTemp == -1 && th.priority == th.base)
    || (th.priorityTemp == th.base && th.priority > th.base && Owner(k, t))
  }

  ghost predicate Owner(k: Kernel, t: Tid) {
    exists l :: 0 <= l < |k.locks| && k.locks[l].lockerThread == Some(t)
  }

  ghost predicate AllUndone(k: Kernel) {
    forall t :: t in k.threads ==> Undone(k, t)
  }

  /** The branch of Release that fails: the releasing thread had received a donation. */
  predicate DonatedRelease(k: Kernel, step: Step) {
    step.Release? && k.current in k.threads && k.threads[k.current].priorityTemp != -1
  }

  /** Release restores the base priority exactly when no donation was received.  Otherwise it
      leaves the releasing thread at priority -1, with its base priority still saved. */
  lemma ReleaseEffect(k: Kernel, l: Lid)
    requires Inv(k) && Enabled(k, Release(l))
    ensures var th, th' := k.threads[k.current], Next(k, Release(l)).threads[k.current];
            && k.current in Next(k, Release(l)).threads
            && (th'.priority == th.base <==> th.priorityTemp == -1)
            && (th.priorityTemp != -1 ==> th'.priority == -1 && th'.priorityTemp == th.base)
            && th'.base == th.base
  {
    var t, lock := k.current, k.locks[l];
    assert Prio(k.threads[t]) && LockOk(k.threads, lock, l);
    if lock.sem.queue != [] {
      assert lock.sem.queue[0] in lock.sem.queue && Sleeps(k.threads, lock.sem.queue[0], l);
    }
  }

  /** What donation achieves: the owner of the lock is raised to the acquirer's priority if that
      is higher, nobody else changes, and an owner that is READY ends up in the list of its new
      priority, once, and in no other. */
  lemma DonationEffect(k: Kernel, l: Lid)
    requires Inv(k) && Enabled(k, Acquire(l)) && !Donate(k, l).fault && k.locks[l].lockerThread.Some?
    ensures var k', o := Donate(k, l), k.locks[l].lockerThread.value;
            && o in k'.threads && k'.threads.Keys == k.threads.Keys
            && k'.threads[o].priority == Max(k.threads[o].priority, k.threads[k.current].priority)
            && k'.threads[o].base == k.threads[o].base
            && (forall t :: t in k.threads && t != o ==> k'.threads[t] == k.threads[t])
            && Sched(k'.threads, k'.ready)
            && (forall p :: 0 <= p < PRIORITY_SIZE ==>
                  (o in k'.ready[p] <==> k.threads[o].status == Ready && p == k'.threads[o].priority))
  {
    DonateKeepsInv(k, l);
    var k', o := Donate(k, l), k.locks[l].lockerThread.value;
    forall p | 0 <= p < PRIORITY_SIZE
      ensures o in k'.ready[p] <==> k.threads[o].status == Ready && p == k'.threads[o].priority
    {
      SchedMember(k'.threads, k'.ready, o, p);
    }
  }

  function Max(a: int, b: int): int { if a < b then b else a }

  /** setPriority stores the admissible number that is nearest to the one asked for, PRIORITY_SIZE
      itself included, and nothing else. */
  lemma SetPriorityNearest(th: Thread, p: int)
    ensures var th' := SetPriority(th, p);
            && 0 <= th'.priority <= PRIORITY_SIZE && th' == th.(priority := th'.priority)
            && forall q :: 0 <= q <= PRIORITY_SIZE ==> Distance(th'.priority, p) <= Distance(q, p)
  {
  }

  function Distance(a: int, b: int): nat { if a < b then b - a else a - b }

  /** A thread after receiving donations one after the other. */
  function Donations(th: Thread, ps: seq<int>): Thread {
    if ps == [] then th else SetPriorityTemp(Donations(th, ps[..|ps| - 1]), ps[|ps| - 1])
  }

  /** However many donations a thread receives, the priority saved is the one it had before the
      first.  Setting the saved priority back would restore the thread; what Release does after
      that leaves it at priority -1 instead. */
  lemma {:induction false} SavedOnce(th: Thread, ps: seq<int>)
    requires th.priorityTemp == -1 && InRange(th.priority) && ps != []
    ensures var th' := Donations(th, ps);
            && th'.priorityTemp == th.priority && th'.priority == ps[|ps| - 1]
            && SetPriority(th', th'.priorityTemp).(priorityTemp := -1) == th
            && SetPriorityTemp(SetPriority(th', th'.priorityTemp), -1).priority == -1
  {
    if |ps| > 1 {
      SavedOnce(th, ps[..|ps| - 1]);
    } else {
      assert ps[..0] == [];
    }
  }

  lemma DonateKeepsUndone(k: Kernel, l: Lid)
    requires Inv(k) && Enabled(k, Acquire(l)) && AllUndone(k)
    ensures !Donate(k, l).fault && AllUndone(Donate(k, l))
  {
    var k' := Donate(k, l);
    if k'.threads != k.threads {
      var o := k.locks[l].lockerThread.value;
      assert Prio(k.threads[o]) && Undone(k, o) && Prio(k.threads[k.current]);
      assert Owner(k', o);
    }
    forall t | t in k'.threads ensures Undone(k', t) {
      assert Undone(k, t);
      assert Owner(k, t) ==> Owner(k', t);
    }
  }

  lemma ReleaseKeepsUndone(k: Kernel, l: Lid)
    requires Inv(k) && Enabled(k, Release(l)) && AllUndone(k) && k.threads[k.current].priorityTemp == -1
    ensures var k' := Next(k, Release(l)); !k'.fault && AllUndone(k')
  {
    var k', lock := Next(k, Release(l)), k.locks[l];
    assert LockOk(k.threads, lock, l);
    if lock.sem.queue != [] {
      var u := lock.sem.queue[0];
      assert u in lock.sem.queue && Sleeps(k.threads, u, l);
      assert Prio(k.threads[u]) && Undone(k, u);
    }
    forall t | t in k'.threads ensures Undone(k', t) {
      assert Undone(k, t);
      if t != k.current && Owner(k, t) {
        var j :| 0 <= j < |k.locks| && k.locks[j].lockerThread == Some(t);
        assert k'.locks[j].lockerThread == Some(t);
      }
    }
  }

  lemma RecordKeepsUndone(k: Kernel)
    requires Inv(k) && Enabled(k, Record) && AllUndone(k)
    ensures AllUndone(Next(k, Record))
  {
    var k' := Next(k, Record);
    WaiterIsNotOwner(k, k.current, k.threads[k.current].pc.l);
    forall t | t in k'.threads ensures Undone(k', t) {
      assert Undone(k, t);
      if Owner(k, t) {
        var j :| 0 <= j < |k.locks| && k.locks[j].lockerThread == Some(t);
        assert k'.locks[j].lockerThread == Some(t);
      }
    }
  }

  /** Steps that touch neither priorities nor ownership. */
  lemma QuietKeepsUndone(k: Kernel, k': Kernel)
    requires AllUndone(k) && |k'.locks| == |k.locks|
    requires forall l :: 0 <= l < |k.locks| ==> k'.locks[l].lockerThread == k.locks[l].lockerThread
    requires forall t :: t in k'.threads && t in k.threads ==>
               && k'.threads[t].priority == k.threads[t].priority
               && k'.threads[t].priorityTemp == k.threads[t].priorityTemp
               && k'.threads[t].base == k.threads[t].base
    requires forall t :: t in k'.threads && t !in k.threads ==>
               k'.threads[t].priorityTemp == -1 && k'.threads[t].priority == k'.threads[t].base
    ensures AllUndone(k')
  {
    forall t | t in k'.threads ensures Undone(k', t) {
      if t in k.threads {
        assert Undone(k, t);
        assert Owner(k, t) ==> Owner(k', t);
      }
    }
  }

  /** A thread in good order has a priority that indexes a ready list. */
  lemma UndoneInRange(k: Kernel, t: Tid)
    requires Inv(k) && t in k.threads && Undone(k, t)
    ensures InRange(k.threads[t].priority)
  {
    assert Prio(k.threads[t]);
  }

  lemma AcquireKeepsUndone(k: Kernel, l: Lid)
    requires Inv(k) && Enabled(k, Acquire(l)) && AllUndone(k)
    ensures var k' := Next(k, Acquire(l)); AllUndone(k') && !k'.fault
  {
    DonateKeepsUndone(k, l);
    QuietKeepsUndone(Donate(k, l), Next(k, Acquire(l)));
  }

  lemma WakeKeepsUndone(k: Kernel, t: Tid)
    requires Inv(k) && Enabled(k, Wake(t)) && AllUndone(k)
    ensures var k' := Next(k, Wake(t)); AllUndone(k') && !k'.fault
  {
    UndoneInRange(k, t);
    QuietKeepsUndone(k, Next(k, Wake(t)));
  }

  lemma YieldKeepsUndone(k: Kernel)
    requires Inv(k) && Enabled(k, Yield) && AllUndone(k)
    ensures var k' := Next(k, Yield); AllUndone(k') && !k'.fault
  {
    UndoneInRange(k, k.current);
    var k' := Next(k, Yield);
    assert k'.locks == k.locks && k'.threads.Keys == k.threads.Keys;
    forall t | t in k.threads
      ensures k'.threads[t] == k.threads[t].(status := k'.threads[t].status)
    {
    }
    QuietKeepsUndone(k, k');
  }

  predicate BadFork(step: Step) { step.Fork? && !InRange(step.p) }

  /** As long as no donated thread releases a lock, donation stays undoable, and the ready
      lists are never indexed out of range except by a fork at a bad priority. */
  lemma StepKeepsUndone(k: Kernel, step: Step)
    requires Inv(k) && Enabled(k, step) && AllUndone(k) && !DonatedRelease(k, step)
    ensures var k' := Next(k, step); AllUndone(k') && (k'.fault ==> BadFork(step))
  {
    match step
    case Acquire(l) => AcquireKeepsUndone(k, l);
    case Record => RecordKeepsUndone(k);
    case Release(l) => ReleaseKeepsUndone(k, l);
    case Wake(t) => WakeKeepsUndone(k, t);
    case Yield => YieldKeepsUndone(k);
    case _ => QuietKeepsUndone(k, Next(k, step));
  }

  lemma {:induction false} RunKeepsUndone(locks: nat, p: int, run: seq<Kernel>, steps: seq<Step>, i: nat)
    requires IsRun(locks, p, run, steps) && i < |run|
    requires forall j :: 0 <= j < |steps| ==> !DonatedRelease(run[j], steps[j])
    ensures AllUndone(run[i])
    ensures run[i].fault ==> i > 0 && BadFork(steps[i - 1])
  {
    if i > 0 {
      RunKeepsUndone(locks, p, run, steps, i - 1);
      RunKeepsInv(locks, p, run, steps, i - 1);
      assert run[i - 1 + 1] == Next(run[i - 1], steps[i - 1]);
      StepKeepsUndone(run[i - 1], steps[i - 1]);
    }
  }

  /** Donation is undone exactly along a run if and only if the run never releases a lock
      from a thread that has received a donation. */
  lemma DonationUndoneIff(locks: nat, p: int, run: seq<Kernel>, steps: seq<Step>)
    requires IsRun(locks, p, run, steps)
    ensures (forall i :: 0 <= i < |run| ==> AllUndone(run[i])) <==>
            (forall i :: 0 <= i < |steps| ==> !DonatedRelease(run[i], steps[i]))
  {
    if forall i :: 0 <= i < |steps| ==> !DonatedRelease(run[i], steps[i]) {
      forall i | 0 <= i < |run| ensures AllUndone(run[i]) {
        RunKeepsUndone(locks, p, run, steps, i);
      }
    } else {
      var i :| 0 <= i < |steps| && DonatedRelease(run[i], steps[i]);
      RunKeepsInv(locks, p, run, steps, i);
      assert run[i + 1] == Next(run[i], steps[i]);
      ReleaseEffect(run[i], steps[i].l);
      assert Prio(run[i].threads[run[i].current]);
      assert !Undone(run[i + 1], run[i].current);
    }
  }

  /** No fault without a donated release or a fork at a bad priority. */
  lemma NoFault(locks: nat, p: int, run: seq<Kernel>, steps: seq<Step>, i: nat)
    requires IsRun(locks, p, run, steps) && i < |run|
    requires forall j :: 0 <= j < |steps| ==> !DonatedRelease(run[j], steps[j]) && !BadFork(steps[j])
    ensures !run[i].fault
  {
    RunKeepsUndone(locks, p, run, steps, i);
  }

  // ----- A run that goes wrong -----

  /** Two threads and one lock: thread 0 (base 0) owns it, thread 1 (priority 4) waits. */
  function Pair(th0: Thread, th1: Thread, value: nat, queue: seq<Tid>, owner: Option<Tid>, low: seq<Tid>, high: seq<Tid>,
                current: Tid, fault: bool): Kernel
  {
    Kernel(map[0 := th0, 1 := th1], [Lock(Semaphores.Sem(value, queue), owner)], [low, [], [], [], high], current, fault)
  }

  lemma ExtendRun(locks: nat, p: int, run: seq<Kernel>, steps: seq<Step>, step: Step, k: Kernel)
    requires IsRun(locks, p, run, steps) && Enabled(run[|steps|], step) && Next(run[|steps|], step) == k
    ensures IsRun(locks, p, run + [k], steps + [step])
  {
  }

  /** Thread 0 takes the lock and forks thread 1. */
  lemma ExampleStart() returns (run: seq<Kernel>, steps: seq<Step>)
    ensures IsRun(1, 0, run, steps) && |steps| == 3
    ensures run[3] == Pair(Thread(Running, 0, -1, 0, Free), Thread(Ready, 4, -1, 4, Free), 0, [], Some(0), [], [1], 0, false)
  {
    TakeSteps();
    var k0, k1, k2 := Init(1, 0), Lone(Taken(0), 0, None), Lone(Free, 0, Some(0));
    run, steps := [k0], [];
    ExtendRun(1, 0, run, steps, Acquire(0), k1);
    run, steps := run + [k1], steps + [Acquire(0)];
    ExtendRun(1, 0, run, steps, Record, k2);
    run, steps := run + [k2], steps + [Record];
    ForkStep();
    var k3 := Next(k2, Fork(1, 4));
    ExtendRun(1, 0, run, steps, Fork(1, 4), k3);
    run, steps := run + [k3], steps + [Fork(1, 4)];
  }

  /** One thread and one lock. */
  function Lone(pc: Pc, value: nat, owner: Option<Tid>): Kernel {
    Kernel(map[0 := Thread(Running, 0, -1, 0, pc)], [Lock(Semaphores.Sem(value, []), owner)], [[], [], [], [], []], 0, false)
  }

  lemma TakeSteps()
    ensures Init(1, 0) == Lone(Free, 1, None)
    ensures Enabled(Init(1, 0), Acquire(0)) && Next(Init(1, 0), Acquire(0)) == Lone(Taken(0), 0, None)
    ensures Enabled(Lone(Taken(0), 0, None), Record) && Next(Lone(Taken(0), 0, None), Record) == Lone(Free, 0, Some(0))
  {
  }

  lemma ForkStep()
    ensures var k := Lone(Free, 0, Some(0));
            && Enabled(k, Fork(1, 4))
            && Next(k, Fork(1, 4)) == Pair(Thread(Running, 0, -1, 0, Free), Thread(Ready, 4, -1, 4, Free), 0, [], Some(0), [], [1], 0, false)
  {
    var k := Lone(Free, 0, Some(0));
    assert k.ready[4] + [1] == [1];
    var next := Next(k, Fork(1, 4));
    assert next.ready == [[], [], [], [], [1]];
    assert next.threads == map[0 := Thread(Running, 0, -1, 0, Free), 1 := Thread(Ready, 4, -1, 4, Free)];
  }

  /** Thread 0 yields to it. */
  lemma ExampleYield() returns (run: seq<Kernel>, steps: seq<Step>)
    ensures IsRun(1, 0, run, steps) && |steps| == 4
    ensures run[4] == Pair(Thread(Ready, 0, -1, 0, Free), Thread(Running, 4, -1, 4, Free), 0, [], Some(0), [0], [], 1, false)
  {
    run, steps := ExampleStart();
    var k3 := run[3];
    var k4 := Pair(Thread(Ready, 0, -1, 0, Free), Thread(Running, 4, -1, 4, Free), 0, [], Some(0), [0], [], 1, false);
    assert Highest(k3.ready, PRIORITY_SIZE) == Some(4);
    assert k3.ready[0] + [0] == [0] && k3.ready[4][1..] == [];
    assert Next(k3, Yield).threads == k4.threads && Next(k3, Yield).ready == k4.ready;
    ExtendRun(1, 0, run, steps, Yield, k4);
    run, steps := run + [k4], steps + [Yield];
  }

  /** Thread 1 runs into the lock, raises thread 0 to its own priority and sleeps. */
  lemma ExampleDonation() returns (run: seq<Kernel>, steps: seq<Step>)
    ensures IsRun(1, 0, run, steps) && |steps| == 6
    ensures run[6] == Donated(Running, [], 0)
  {
    run, steps := ExampleYield();
    var k5 := Donated(Ready, [0], 1);
    DonationStep(run[4]);
    ExtendRun(1, 0, run, steps, Acquire(0), k5);
    run, steps := run + [k5], steps + [Acquire(0)];
    var k6 := Donated(Running, [], 0);
    DispatchStep();
    ExtendRun(1, 0, run, steps, Dispatch, k6);
    run, steps := run + [k6], steps + [Dispatch];
  }

  /** Thread 1 sleeps on the lock that thread 0 owns, having raised it. */
  function Donated(status: Status, high: seq<Tid>, current: Tid): Kernel {
    Pair(Thread(status, 4, 0, 0, Free), Thread(Blocked, 4, -1, 4, Waiting(0)), 0, [1], Some(0), [], high, current, false)
  }

  lemma DonationStep(k: Kernel)
    requires k == Pair(Thread(Ready, 0, -1, 0, Free), Thread(Running, 4, -1, 4, Free), 0, [], Some(0), [0], [], 1, false)
    ensures Enabled(k, Acquire(0)) && Next(k, Acquire(0)) == Donated(Ready, [0], 1)
  {
    assert k.ready[4] + [0] == [0] && k.locks[0].sem.queue + [1] == [1];
    assert Without(k.ready[0], 0) == [];
    var next, goal := Next(k, Acquire(0)), Donated(Ready, [0], 1);
    assert next.threads == goal.threads && next.ready == goal.ready;
  }

  lemma DispatchStep()
    ensures var k := Donated(Ready, [0], 1); Enabled(k, Dispatch) && Next(k, Dispatch) == Donated(Running, [], 0)
  {
    var k := Donated(Ready, [0], 1);
    assert Highest(k.ready, PRIORITY_SIZE) == Some(4);
    assert k.ready[4][1..] == [];
    var next, goal := Next(k, Dispatch), Donated(Running, [], 0);
    assert next.threads == goal.threads && next.ready == goal.ready;
  }

  /** Then thread 0 releases: its priority becomes -1 rather than 0, and when it next yields
      the ready lists are indexed at -1. */
  lemma DonationGoesWrong() returns (run: seq<Kernel>, steps: seq<Step>)
    ensures IsRun(1, 0, run, steps) && |steps| == 8
    ensures DonatedRelease(run[6], steps[6])
    ensures 0 in run[7].threads && run[7].threads[0].priority == -1 && run[7].threads[0].base == 0
    ensures !run[7].fault && steps[7] == Yield && run[8].fault
  {
    run, steps := ExampleDonation();
    var k7 := Pair(Thread(Running, -1, 0, 0, Free), Thread(Ready, 4, -1, 4, Waiting(0)), 1, [], None, [], [1], 0, false);
    ReleaseStep(k7);
    ExtendRun(1, 0, run, steps, Release(0), k7);
    run, steps := run + [k7], steps + [Release(0)];
    assert Highest(k7.ready, PRIORITY_SIZE) == Some(4);
    var k8 := Next(k7, Yield);
    ExtendRun(1, 0, run, steps, Yield, k8);
    run, steps := run + [k8], steps + [Yield];
  }

  lemma ReleaseStep(goal: Kernel)
    requires goal == Pair(Thread(Running, -1, 0, 0, Free), Thread(Ready, 4, -1, 4, Waiting(0)), 1, [], None, [], [1], 0, false)
    ensures var k := Donated(Running, [], 0);
            Enabled(k, Release(0)) && DonatedRelease(k, Release(0)) && Next(k, Release(0)) == goal
  {
    var k := Donated(Running, [], 0);
    assert k.ready[4] + [1] == [1] && k.locks[0].sem.queue[1..] == [];
    assert Next(k, Release(0)).threads == goal.threads && Next(k, Release(0)).ready == goal.ready;
  }
}
