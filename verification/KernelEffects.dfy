/** What each step of the kernel does, field by field, in any state that a run can reach. */
module KernelEffects {
  import opened Common
  import opened Schedulers
  import opened Kernels
  import opened KernelProofs

  /** All threads but the listed ones are as they were, and none has come or gone. */
  ghost predicate ThreadsKept(k: Kernel, k': Kernel, except: set<Tid>) {
    k'.threads.Keys == k.threads.Keys && forall t :: t in k.threads && t !in except ==> k'.threads[t] == k.threads[t]
  }

  ghost predicate LocksKept(k: Kernel, k': Kernel, except: set<Lid>) {
    |k'.locks| == |k.locks| && forall l :: 0 <= l < |k.locks| && l !in except ==> k'.locks[l] == k.locks[l]
  }

  /** The ready lists with a thread at the end of one of them. */
  ghost predicate JoinsList(ready: ReadyLists, ready': ReadyLists, t: Tid, p: int) {
    && |ready'| == |ready| && 0 <= p < |ready| && ready'[p] == ready[p] + [t]
    && forall q :: 0 <= q < |ready| && q != p ==> ready'[q] == ready[q]
  }

  ghost predicate LeavesList(ready: ReadyLists, ready': ReadyLists, t: Tid, p: int) {
    && |ready'| == |ready| && 0 <= p < |ready| && ready[p] == [t] + ready'[p]
    && forall q :: 0 <= q < |ready| && q != p ==> ready'[q] == ready[q]
  }

  ghost predicate Heads(ready: ReadyLists, t: Tid, p: int) {
    0 <= p < |ready| && ready[p] != [] && ready[p][0] == t
  }

  ghost predicate SamePriorities(th: Thread, th': Thread) {
    th'.priority == th.priority && th'.priorityTemp == th.priorityTemp && th'.base == th.base
  }

  /** One pass of a lock's P by a thread: with the unit there it takes it and will be recorded as
      the owner; otherwise it goes to sleep at the end of the queue. */
  ghost predicate Passes(lock: Lock, lock': Lock, th: Thread, th': Thread, t: Tid, l: Lid) {
    && lock'.lockerThread == lock.lockerThread && SamePriorities(th, th')
    && if lock.sem.value > 0
       then lock'.sem.value == lock.sem.value - 1 && lock'.sem.queue == lock.sem.queue && th'.status == Running && th'.pc == Taken(l)
       else lock'.sem.value == 0 && lock'.sem.queue == lock.sem.queue + [t] && th'.status == Blocked && th'.pc == Waiting(l)
  }

  lemma RetestEffect(k: Kernel)
    requires Inv(k) && Enabled(k, Retest)
    ensures var k', t, l := Next(k, Retest), k.current, k.threads[k.current].pc.l;
            && !k'.fault && k'.current == t && k'.ready == k.ready
            && ThreadsKept(k, k', {t}) && LocksKept(k, k', {l})
            && Passes(k.locks[l], k'.locks[l], k.threads[t], k'.threads[t], t, l)
  {
  }

  /** A woken thread that finds the unit takes it, and becomes the owner. */
  lemma WaiterTakesLock(k: Kernel)
    requires Inv(k) && Enabled(k, Retest) && k.locks[k.threads[k.current].pc.l].sem.value > 0
    ensures var t, l := k.current, k.threads[k.current].pc.l;
            var k1 := Next(k, Retest);
            && Enabled(k1, Record)
            && var k2 := Next(k1, Record);
               k2.current == t && k2.threads[t].pc == Free && k2.locks[l].lockerThread == Some(t) && k2.locks[l].sem.value == 0
  {
    StepKeepsInv(k, Retest);
    RetestEffect(k);
    var k1 := Next(k, Retest);
    InvWellformed(k1);
    WaiterIsNotOwner(k1, k.current, k.threads[k.current].pc.l);
  }

  /** The owner of a lock is to be raised by an acquirer. */
  predicate Raises(k: Kernel, l: Lid)
    requires l < |k.locks| && k.current in k.threads
  {
    match k.locks[l].lockerThread
    case None => false
    case Some(o) => o in k.threads && k.threads[o].priority < k.threads[k.current].priority
  }

  /** Acquire: the owner, if it has the lower priority, is raised, its own priority is saved if none
      is, and if it is READY it goes to the end of its new list; then comes one pass of P.  It leaves
      the array exactly when an owner at priority -1 is to be raised. */
  lemma AcquireEffect(k: Kernel, l: Lid)
    requires Inv(k) && Enabled(k, Acquire(l))
    ensures var k', t := Next(k, Acquire(l)), k.current;
            && (k'.fault <==> Raises(k, l) && k.threads[k.locks[l].lockerThread.value].priority == -1)
            && (!k'.fault ==>
                  && k'.current == t && LocksKept(k, k', {l})
                  && t in k'.threads && Passes(k.locks[l], k'.locks[l], k.threads[t], k'.threads[t], t, l)
                  && (if Raises(k, l) then ThreadsKept(k, k', {t, k.locks[l].lockerThread.value}) && Raised(k, k', k.locks[l].lockerThread.value)
                      else ThreadsKept(k, k', {t}) && k'.ready == k.ready))
  {
    DonateKeepsInv(k, l);
    if Raises(k, l) {
      RaiseEffect(k, l);
    }
  }

  /** Thread `o` was raised to the current thread's priority. */
  ghost predicate Raised(k: Kernel, k': Kernel, o: Tid)
    requires k.current in k.threads
  {
    && o in k.threads && o in k'.threads && o != k.current
    && var th, th', p := k.threads[o], k'.threads[o], k.threads[k.current].priority;
       && th'.priority == p && th'.base == th.base && th'.status == th.status && th'.pc == th.pc
       && th'.priorityTemp == (if th.priorityTemp == -1 then th.priority else th.priorityTemp)
       && if th.status == Ready then Moved(k.ready, k'.ready, o, th.priority, p) else k'.ready == k.ready
  }

  /** A thread has left one list and is at the end of another; all the others are where they were. */
  ghost predicate Moved(ready: ReadyLists, ready': ReadyLists, o: Tid, from: int, to: int) {
    && |ready'| == |ready| && 0 <= from < |ready| && 0 <= to < |ready| && from != to
    && ready'[to] == ready[to] + [o] && ready'[from] == Without(ready[from], o)
    && forall q :: 0 <= q < |ready| && q != from && q != to ==> ready'[q] == ready[q]
  }

  lemma RaiseEffect(k: Kernel, l: Lid)
    requires Inv(k) && Enabled(k, Acquire(l)) && Raises(k, l)
    ensures var k', o := Donate(k, l), k.locks[l].lockerThread.value;
            && (k'.fault <==> k.threads[o].priority == -1)
            && (!k'.fault ==> ThreadsKept(k, k', {o}) && Raised(k, k', o))
  {
    var o := k.locks[l].lockerThread.value;
    assert Prio(k.threads[o]) && Prio(k.threads[k.current]);
    if InRange(k.threads[o].priority) {
      SchedMember(k.threads, k.ready, o, k.threads[o].priority);
    }
  }

  lemma RecordEffect(k: Kernel)
    requires Inv(k) && Enabled(k, Record)
    ensures var k', t, l := Next(k, Record), k.current, k.threads[k.current].pc.l;
            && !k'.fault && k'.current == t && k'.ready == k.ready
            && ThreadsKept(k, k', {t}) && LocksKept(k, k', {l})
            && k'.locks[l].sem == k.locks[l].sem && k'.locks[l].lockerThread == Some(t)
            && SamePriorities(k.threads[t], k'.threads[t]) && k'.threads[t].status == Running && k'.threads[t].pc == Free
  {
  }

  /** A thread joins the ready list of its priority; there is none for priority -1. */
  ghost predicate Readied(k: Kernel, k': Kernel, t: Tid)
    requires t in k.threads
  {
    && t in k'.threads && SamePriorities(k.threads[t], k'.threads[t]) && k'.threads[t].status == Ready
    && (k'.fault <==> !InRange(k.threads[t].priority))
    && (!k'.fault ==> JoinsList(k.ready, k'.ready, t, k.threads[t].priority))
  }

  /** Release: the lock has its unit again and no owner, and the first of its sleepers is READY and
      due to test it again.  (What happens to the releasing thread is in `ReleaseEffect`.) */
  lemma ReleaseFields(k: Kernel, l: Lid)
    requires Inv(k) && Enabled(k, Release(l))
    ensures var k', t, lock := Next(k, Release(l)), k.current, k.locks[l];
            && k'.current == t && LocksKept(k, k', {l})
            && k'.locks[l].lockerThread == None && k'.locks[l].sem.value == lock.sem.value + 1 == 1
            && t in k'.threads && k'.threads[t].status == Running && k'.threads[t].pc == Free
            && if lock.sem.queue == []
               then k'.locks[l].sem.queue == [] && ThreadsKept(k, k', {t}) && k'.ready == k.ready && !k'.fault
               else var u := lock.sem.queue[0];
                    && lock.sem.queue == [u] + k'.locks[l].sem.queue
                    && ThreadsKept(k, k', {t, u}) && u != t && u in k.threads && Readied(k, k', u) && k'.threads[u].pc == Waiting(l)
  {
    var lock := k.locks[l];
    assert LockOk(k.threads, lock, l);
    assert k.current in Holders(k.threads, lock, l);
    if lock.sem.queue != [] {
      var u := lock.sem.queue[0];
      assert u in lock.sem.queue && Sleeps(k.threads, u, l);
    }
  }

  /** Yield: nothing happens if nobody is READY; otherwise the first thread of the highest list runs
      and the yielding one is READY, behind everybody of its priority. */
  lemma YieldEffect(k: Kernel)
    requires Inv(k) && Enabled(k, Yield)
    ensures var k', t := Next(k, Yield), k.current;
            && (!SomeReady(k) ==> k' == k)
            && (SomeReady(k) ==>
                  var n := k'.current;
                  && n != t && n in k.threads && k.threads[n].status == Ready && Heads(k.ready, n, k.threads[n].priority)
                  && ThreadsKept(k, k', {t, n}) && k'.locks == k.locks
                  && k'.threads[n] == k.threads[n].(status := Running) && k'.threads[t] == k.threads[t].(status := Ready)
                  && (k'.fault <==> k.threads[t].priority == -1)
                  && (!k'.fault ==>
                        exists mid :: LeavesList(k.ready, mid, n, k.threads[n].priority)
                                      && JoinsList(mid, k'.ready, t, k.threads[t].priority)))
  {
    assert Prio(k.threads[k.current]);
    if SomeReady(k) {
      HeadIsReady(k);
      var h := Highest(k.ready, PRIORITY_SIZE).value;
      var k1 := RunHead(k, h);
      assert LeavesList(k.ready, k1.ready, k.ready[h][0], h) by { LeavesHead(k.ready, h); }
    } else {
      NobodyListed(k);
    }
  }

  lemma NobodyListed(k: Kernel)
    requires Inv(k) && !SomeReady(k)
    ensures Highest(k.ready, PRIORITY_SIZE).None?
  {
    forall p | 0 <= p < PRIORITY_SIZE ensures k.ready[p] == [] {
      if k.ready[p] != [] {
        assert k.ready[p][0] in k.ready[p];
        SchedMember(k.threads, k.ready, k.ready[p][0], p);
        assert false;
      }
    }
  }

  lemma LeavesHead(ready: ReadyLists, p: nat)
    requires p < |ready| && ready[p] != []
    ensures LeavesList(ready, Dequeue(ready, p), ready[p][0], p)
  {
  }

  /** The highest list has a first thread, which is READY at its priority. */
  lemma HeadIsReady(k: Kernel)
    requires Inv(k) && SomeReady(k)
    ensures Highest(k.ready, PRIORITY_SIZE).Some?
    ensures var h := Highest(k.ready, PRIORITY_SIZE).value;
            var n := k.ready[h][0];
            n in k.threads && k.threads[n].status == Ready && k.threads[n].priority == h
  {
    var t :| t in k.threads && k.threads[t].status == Ready;
    SchedMember(k.threads, k.ready, t, k.threads[t].priority);
    var h := Highest(k.ready, PRIORITY_SIZE).value;
    assert k.ready[h][0] in k.ready[h];
    SchedMember(k.threads, k.ready, k.ready[h][0], h);
  }

  lemma DispatchEffect(k: Kernel)
    requires Inv(k) && Enabled(k, Dispatch)
    ensures var k', n := Next(k, Dispatch), Next(k, Dispatch).current;
            && n in k.threads && k.threads[n].status == Ready
            && ThreadsKept(k, k', {n}) && k'.locks == k.locks && !k'.fault
            && k'.threads[n] == k.threads[n].(status := Running)
            && LeavesList(k.ready, k'.ready, n, k.threads[n].priority)
  {
    var h := Highest(k.ready, PRIORITY_SIZE).value;
    assert k.ready[h][0] in k.ready[h];
    SchedMember(k.threads, k.ready, k.ready[h][0], h);
    LeavesHead(k.ready, h);
  }

  lemma BlockEffect(k: Kernel)
    requires Inv(k) && Enabled(k, Block)
    ensures var k', t := Next(k, Block), k.current;
            && !k'.fault && k'.current == t && k'.ready == k.ready && k'.locks == k.locks && ThreadsKept(k, k', {t})
            && SamePriorities(k.threads[t], k'.threads[t]) && k'.threads[t].status == Blocked && k'.threads[t].pc == Elsewhere
  {
  }

  lemma WakeEffect(k: Kernel, t: Tid)
    requires Inv(k) && Enabled(k, Wake(t))
    ensures var k' := Next(k, Wake(t));
            && k'.current == k.current && k'.locks == k.locks && ThreadsKept(k, k', {t})
            && Readied(k, k', t) && k'.threads[t].pc == Free
  {
  }

  /** Fork: a thread more, READY at the priority asked for, with nothing saved. */
  lemma ForkEffect(k: Kernel, t: Tid, p: int)
    requires Inv(k) && Enabled(k, Fork(t, p))
    ensures var k' := Next(k, Fork(t, p));
            && k'.current == k.current && k'.locks == k.locks
            && k'.threads == k.threads[t := Thread(Ready, p, -1, p, Free)]
            && (k'.fault <==> !InRange(p)) && (!k'.fault ==> JoinsList(k.ready, k'.ready, t, p))
  {
  }

  /** Nothing but the code's own assertions and P stands in anybody's way: whatever a thread is
      about to do, it can do once it runs, and somebody runs as long as a thread is READY. */
  lemma NeverStuck(k: Kernel)
    requires Inv(k) && !k.fault
    ensures var th := k.threads[k.current];
            && k.current in k.threads
            && (th.status == Running && th.pc == Free ==>
                  && Enabled(k, Yield) && Enabled(k, Block)
                  && forall l: Lid :: l < |k.locks| ==>
                       if k.locks[l].lockerThread == Some(k.current) then Enabled(k, Release(l)) else Enabled(k, Acquire(l)))
            && (th.status == Running && th.pc.Taken? ==> Enabled(k, Record) && Enabled(k, Yield))
            && (th.status == Running && th.pc.Waiting? ==> Enabled(k, Retest))
            && (th.status != Running && SomeReady(k) ==> Enabled(k, Dispatch))
    ensures forall t: Tid :: t in k.threads && k.threads[t].pc == Elsewhere ==> Enabled(k, Wake(t))
    ensures forall t: Tid, p: int :: t !in k.threads ==> Enabled(k, Fork(t, p))
  {
    InvWellformed(k);
    assert PcOk(k, k.threads[k.current]);
    if SomeReady(k) {
      HeadIsReady(k);
    }
  }

  // ----- Turns -----

  /** `u` stands behind `t`, if at all. */
  ghost predicate Ahead(q: seq<Tid>, t: Tid, u: Tid) {
    t in q && forall j :: 0 <= j < |q| && q[j] == u ==> t in q[..j]
  }

  lemma AheadJoins(q: seq<Tid>, w: Tid, t: Tid, u: Tid)
    requires Ahead(q, t, u)
    ensures Ahead(q + [w], t, u)
  {
    var q' := q + [w];
    forall j | 0 <= j < |q'| && q'[j] == u ensures t in q'[..j] {
      assert q'[..j] == if j < |q| then q[..j] else q;
    }
  }

  lemma AheadLeaves(q: seq<Tid>, t: Tid, u: Tid)
    requires q != [] && Ahead(q, t, u) && q[0] != t
    ensures Ahead(q[1..], t, u)
  {
    var q' := q[1..];
    assert q == [q[0]] + q';
    forall j | 0 <= j < |q'| && q'[j] == u ensures t in q'[..j] {
      assert q[j + 1] == u && q[..j + 1] == [q[0]] + q'[..j];
    }
  }

  lemma {:induction false} AheadWithout(q: seq<Tid>, o: Tid, t: Tid, u: Tid)
    requires Ahead(q, t, u) && o != t && t != u
    ensures Ahead(Without(q, o), t, u)
  {
    var q' := Without(q, o);
    if q[0] == t {
      assert q'[0] == t;
      assert forall j :: 0 < j < |q'| ==> q'[..j][0] == t;
    } else if q[0] == o {
      AheadLeaves(q, t, u);
    } else {
      AheadLeaves(q, t, u);
      AheadWithout(q[1..], o, t, u);
      var rest := Without(q[1..], o);
      assert q[..0] == [];
      forall j | 0 <= j < |q'| && q'[j] == u ensures t in q'[..j] {
        assert q'[j] == rest[j - 1] && q'[..j] == [q[0]] + rest[..j - 1];
      }
    }
  }

  /** A thread that stays in a ready list stays ahead of those behind it. */
  lemma StepKeepsAhead(k: Kernel, step: Step, p: nat, t: Tid, u: Tid)
    requires Inv(k) && Enabled(k, step) && !Next(k, step).fault && Inv(Next(k, step))
    requires p < PRIORITY_SIZE && Ahead(k.ready[p], t, u) && t in Next(k, step).ready[p] && t != u
    ensures Ahead(Next(k, step).ready[p], t, u)
  {
    var k' := Next(k, step);
    match step
    case Acquire(l) =>
      AcquireEffect(k, l);
      if Raises(k, l) {
        var o := k.locks[l].lockerThread.value;
        if k.threads[o].status == Ready {
          AheadMoved(k, k', o, p, t, u);
        }
      }
    case Retest => RetestEffect(k);
    case Record => RecordEffect(k);
    case Release(l) =>
      ReleaseFields(k, l);
      if k.locks[l].sem.queue != [] {
        AheadReadied(k, k', k.locks[l].sem.queue[0], p, t, u);
      }
    case Yield =>
      YieldEffect(k);
      if SomeReady(k) {
        var n := k'.current;
        var mid :| LeavesList(k.ready, mid, n, k.threads[n].priority) && JoinsList(mid, k'.ready, k.current, k.threads[k.current].priority);
        NotRunning(k', t, p);
        AheadLeft(k.ready, mid, n, k.threads[n].priority, p, t, u);
        AheadJoined(mid, k'.ready, k.current, k.threads[k.current].priority, p, t, u);
      }
    case Block => BlockEffect(k);
    case Wake(w) =>
      WakeEffect(k, w);
      AheadReadied(k, k', w, p, t, u);
    case Dispatch =>
      DispatchEffect(k);
      NotRunning(k', t, p);
      AheadLeft(k.ready, k'.ready, k'.current, k.threads[k'.current].priority, p, t, u);
    case Fork(w, q) =>
      ForkEffect(k, w, q);
      AheadJoined(k.ready, k'.ready, w, q, p, t, u);
  }

  lemma NotRunning(k: Kernel, t: Tid, p: nat)
    requires Inv(k) && p < PRIORITY_SIZE && t in k.ready[p]
    ensures t in k.threads && k.threads[t].status == Ready
  {
    SchedMember(k.threads, k.ready, t, p);
  }

  lemma AheadJoined(ready: ReadyLists, ready': ReadyLists, w: Tid, q: int, p: nat, t: Tid, u: Tid)
    requires JoinsList(ready, ready', w, q) && p < |ready| && Ahead(ready[p], t, u)
    ensures Ahead(ready'[p], t, u)
  {
    if p == q {
      AheadJoins(ready[p], w, t, u);
    }
  }

  lemma AheadLeft(ready: ReadyLists, ready': ReadyLists, n: Tid, q: int, p: nat, t: Tid, u: Tid)
    requires LeavesList(ready, ready', n, q) && p < |ready| && Ahead(ready[p], t, u) && n != t
    ensures Ahead(ready'[p], t, u)
  {
    if p == q {
      AheadLeaves(ready[p], t, u);
      assert ready[p][1..] == ready'[p];
    }
  }

  lemma AheadReadied(k: Kernel, k': Kernel, w: Tid, p: nat, t: Tid, u: Tid)
    requires w in k.threads && Readied(k, k', w) && !k'.fault && p < |k.ready| && Ahead(k.ready[p], t, u)
    ensures p < |k'.ready| && Ahead(k'.ready[p], t, u)
  {
    AheadJoined(k.ready, k'.ready, w, k.threads[w].priority, p, t, u);
  }

  lemma AheadMoved(k: Kernel, k': Kernel, o: Tid, p: nat, t: Tid, u: Tid)
    requires Inv(k) && Inv(k') && k.current in k.threads && Raised(k, k', o) && k.threads[o].status == Ready
    requires p < PRIORITY_SIZE && Ahead(k.ready[p], t, u) && t in k'.ready[p] && t != u
    ensures Ahead(k'.ready[p], t, u)
  {
    var from, to := k.threads[o].priority, k.threads[k.current].priority;
    if p == from {
      SchedMember(k'.threads, k'.ready, o, p);
      AheadWithout(k.ready[p], o, t, u);
    } else if p == to {
      AheadJoins(k.ready[p], o, t, u);
    }
  }

  /** Turns: of two threads READY at the same priority, the one that has been so for longer runs
      first.  While it stays so, the processor is not given to the other. */
  lemma FirstReadyFirstRun(locks: nat, prio: int, run: seq<Kernel>, steps: seq<Step>, a: nat, i: nat, p: nat, t: Tid, u: Tid)
    requires IsRun(locks, prio, run, steps) && a <= i < |steps| && p < PRIORITY_SIZE
    requires forall j :: a <= j <= i ==> IsReadyAt(run[j], t, p)
    requires !IsReadyAt(run[a], u, p) && IsReadyAt(run[i], u, p)
    ensures u in run[i + 1].threads && run[i + 1].threads[u].status == Ready
  {
    RunKeepsInv(locks, prio, run, steps, a);
    SchedMember(run[a].threads, run[a].ready, t, p);
    SchedMember(run[a].threads, run[a].ready, u, p);
    StaysAhead(locks, prio, run, steps, a, i, p, t, u);
    RunKeepsInv(locks, prio, run, steps, i);
    assert run[i + 1] == Next(run[i], steps[i]);
    NotFirst(run[i], steps[i], p, t, u);
  }

  ghost predicate IsReadyAt(k: Kernel, t: Tid, p: nat) {
    t in k.threads && k.threads[t].status == Ready && k.threads[t].priority == p
  }

  lemma {:induction false} StaysAhead(locks: nat, prio: int, run: seq<Kernel>, steps: seq<Step>, a: nat, i: nat, p: nat, t: Tid, u: Tid)
    requires IsRun(locks, prio, run, steps) && a <= i < |steps| && p < PRIORITY_SIZE && t != u
    requires forall j :: a <= j <= i ==> IsReadyAt(run[j], t, p)
    requires |run[a].ready| == PRIORITY_SIZE && Ahead(run[a].ready[p], t, u)
    ensures |run[i].ready| == PRIORITY_SIZE && Ahead(run[i].ready[p], t, u)
    decreases i
  {
    if a < i {
      StaysAhead(locks, prio, run, steps, a, i - 1, p, t, u);
      RunKeepsInv(locks, prio, run, steps, i - 1);
      assert Enabled(run[i - 1], steps[i - 1]) && run[i - 1 + 1] == Next(run[i - 1], steps[i - 1]);
      assert Enabled(run[i], steps[i]);
      AheadNext(run[i - 1], steps[i - 1], run[i], p, t, u);
    }
  }

  lemma AheadNext(k: Kernel, step: Step, k': Kernel, p: nat, t: Tid, u: Tid)
    requires Inv(k) && Enabled(k, step) && k' == Next(k, step) && !k'.fault
    requires p < PRIORITY_SIZE && Ahead(k.ready[p], t, u) && IsReadyAt(k', t, p) && t != u
    ensures |k'.ready| == PRIORITY_SIZE && Ahead(k'.ready[p], t, u)
  {
    StepKeepsInv(k, step);
    SchedMember(k'.threads, k'.ready, t, p);
    StepKeepsAhead(k, step, p, t, u);
  }

  /** A thread with somebody ahead of it is not the next to run. */
  lemma NotFirst(k: Kernel, step: Step, p: nat, t: Tid, u: Tid)
    requires Inv(k) && Enabled(k, step) && p < PRIORITY_SIZE && IsReadyAt(k, u, p) && Ahead(k.ready[p], t, u) && t != u
    ensures u in Next(k, step).threads && Next(k, step).threads[u].status == Ready
  {
    match step
    case Acquire(l) => AcquireStatus(k, l, u);
    case Release(l) => ReleaseFields(k, l);
    case Yield => YieldNotFirst(k, p, t, u);
    case Dispatch =>
      assert k.ready[p][..0] == [];
      DispatchEffect(k);
    case Wake(w) => WakeEffect(k, w);
    case _ =>
  }

  lemma YieldNotFirst(k: Kernel, p: nat, t: Tid, u: Tid)
    requires Inv(k) && Enabled(k, Yield) && p < PRIORITY_SIZE && IsReadyAt(k, u, p) && Ahead(k.ready[p], t, u) && t != u
    ensures u in Next(k, Yield).threads && Next(k, Yield).threads[u].status == Ready
  {
    assert k.ready[p][..0] == [];
    YieldEffect(k);
  }

  /** Acquire makes no thread but the current one change its status, even if it faults. */
  lemma AcquireStatus(k: Kernel, l: Lid, u: Tid)
    requires Inv(k) && Enabled(k, Acquire(l)) && u in k.threads && u != k.current
    ensures u in Next(k, Acquire(l)).threads && Next(k, Acquire(l)).threads[u].status == k.threads[u].status
  {
  }
}
