/** The synchronised list: a list behind a lock, with a condition variable that is itself a
    semaphore and a waiter count.  Any number of producers and consumers; a thread switch
    can follow every P and V, so each step below runs from one such point to the next. */
module SynchLists {
  import opened Common
  import opened Counting

  type Item = int

  /** Where a thread stands.
      InAppend: holds the lock for Append, before recording ownership.
      Signalled: has posted the condition's semaphore, not yet lowered the waiter count.
      InPop: holds the lock at the top of Pop's loop.
      Waiting: released the lock inside Wait, not yet through the semaphore.
      Leaving: through the semaphore, not yet holding the lock again. */
  datatype Pc = Outside | InAppend(x: Item) | Signalled | InPop | Waiting | Leaving

  /** `appended` and `popped` record the items in the order of the list operations. */
  datatype State = State(lock: nat, owner: Option<Tid>, sem: nat, countWaiters: int, list: seq<Item>,
                         pcs: map<Tid, Pc>, appended: seq<Item>, popped: seq<Item>)

  datatype Step =
    | LockForAppend(t: Tid, x: Item)
    | AppendBody(t: Tid)
    | AppendFinish(t: Tid)
    | LockForPop(t: Tid)
    | PopBody(t: Tid)
    | PassSemaphore(t: Tid)

  predicate At(s: State, t: Tid, pc: Pc) { t in s.pcs && s.pcs[t] == pc }

  predicate Enabled(s: State, step: Step) {
    match step
    case LockForAppend(t, x) => At(s, t, Outside) && s.lock > 0
    case AppendBody(t) => t in s.pcs && s.pcs[t].InAppend?
    case AppendFinish(t) => At(s, t, Signalled)
    case LockForPop(t) => (At(s, t, Outside) || At(s, t, Leaving)) && s.lock > 0
    case PopBody(t) => At(s, t, InPop)
    case PassSemaphore(t) => At(s, t, Waiting) && s.sem > 0
  }

  /** The assertions the code makes on the way: Acquire is not re-entrant, Signal and
      Release are called by the owner. */
  predicate AssertionsHold(s: State, step: Step)
    requires Enabled(s, step)
  {
    match step
    case LockForAppend(t, _) => s.owner != Some(t)
    case LockForPop(t) => s.owner != Some(t)
    case AppendFinish(t) => s.owner == Some(t)
    case _ => true
  }

  function Unlock(s: State, t: Tid, pc: Pc): State {
    s.(owner := None, lock := s.lock + 1, pcs := s.pcs[t := pc])
  }

  function Next(s: State, step: Step): State
    requires Enabled(s, step)
  {
    match step
    case LockForAppend(t, x) => s.(lock := s.lock - 1, pcs := s.pcs[t := InAppend(x)])
    case AppendBody(t) =>
      var x := s.pcs[t].x;
      var s1 := s.(owner := Some(t), list := s.list + [x], appended := s.appended + [x]);
      if s.countWaiters > 0 then s1.(sem := s.sem + 1, pcs := s.pcs[t := Signalled])
      else Unlock(s1, t, Outside)
    case AppendFinish(t) => Unlock(s.(countWaiters := s.countWaiters - 1), t, Outside)
    case LockForPop(t) => s.(lock := s.lock - 1, pcs := s.pcs[t := InPop])
    case PopBody(t) =>
      if s.list == [] then Unlock(s.(countWaiters := s.countWaiters + 1), t, Waiting)
      else Unlock(s.(list := s.list[1..], popped := s.popped + [s.list[0]]), t, Outside)
    case PassSemaphore(t) => s.(sem := s.sem - 1, pcs := s.pcs[t := Leaving])
  }

  function Init(threads: set<Tid>): State {
    State(1, None, 0, 0, [], map t | t in threads :: Outside, [], [])
  }

  ghost predicate IsRun(threads: set<Tid>, run: seq<State>, steps: seq<Step>) {
    && |run| == |steps| + 1
    && run[0] == Init(threads)
    && forall i :: 0 <= i < |steps| ==> Enabled(run[i], steps[i]) && run[i + 1] == Next(run[i], steps[i])
  }

  // ----- The invariant -----

  predicate HoldsLock(pc: Pc) { pc.InAppend? || pc.Signalled? || pc.InPop? }
  predicate IsSignalled(pc: Pc) { pc.Signalled? }
  predicate IsInPop(pc: Pc) { pc.InPop? }
  predicate IsWaiting(pc: Pc) { pc.Waiting? }
  predicate IsLeaving(pc: Pc) { pc.Leaving? }

  /** Waiters that no signal has been posted for. */
  ghost function Unsignalled(s: State): int {
    s.countWaiters - Count(s.pcs, IsSignalled)
  }

  /** Consumers that a signal has released, or that already hold the lock to pop. */
  ghost function OnTheirWay(s: State): nat {
    s.sem + Count(s.pcs, IsLeaving) + Count(s.pcs, IsInPop)
  }

  ghost predicate Inv(s: State) {
    && s.lock + Count(s.pcs, HoldsLock) == 1
    && (forall t: Tid :: s.owner == Some(t) ==> At(s, t, Signalled))
    && (forall t: Tid :: At(s, t, Signalled) ==> s.owner == Some(t))
    && Count(s.pcs, IsWaiting) == Unsignalled(s) + s.sem
    && Unsignalled(s) >= 0
    && s.appended == s.popped + s.list
    && (Unsignalled(s) > 0 ==> |s.list| <= OnTheirWay(s))
  }

  /** All five counts, after one thread moves. */
  lemma Moves(s: State, t: Tid, pc: Pc)
    requires t in s.pcs
    ensures var pcs := s.pcs[t := pc];
            && Count(pcs, HoldsLock) == Count(s.pcs, HoldsLock) - One(HoldsLock(s.pcs[t])) + One(HoldsLock(pc))
            && Count(pcs, IsSignalled) == Count(s.pcs, IsSignalled) - One(IsSignalled(s.pcs[t])) + One(IsSignalled(pc))
            && Count(pcs, IsInPop) == Count(s.pcs, IsInPop) - One(IsInPop(s.pcs[t])) + One(IsInPop(pc))
            && Count(pcs, IsWaiting) == Count(s.pcs, IsWaiting) - One(IsWaiting(s.pcs[t])) + One(IsWaiting(pc))
            && Count(pcs, IsLeaving) == Count(s.pcs, IsLeaving) - One(IsLeaving(s.pcs[t])) + One(IsLeaving(pc))
    ensures HoldsLock(s.pcs[t]) ==> Count(s.pcs, HoldsLock) >= 1
  {
    CountMove(s.pcs, HoldsLock, t, pc);
    CountMove(s.pcs, IsSignalled, t, pc);
    CountMove(s.pcs, IsInPop, t, pc);
    CountMove(s.pcs, IsWaiting, t, pc);
    CountMove(s.pcs, IsLeaving, t, pc);
  }

  /** A thread that holds the lock is alone. */
  lemma Alone(s: State, t: Tid)
    requires Inv(s) && t in s.pcs && HoldsLock(s.pcs[t])
    ensures forall u :: u in s.pcs && HoldsLock(s.pcs[u]) ==> u == t
    ensures s.lock == 0
    ensures !s.pcs[t].Signalled? ==> s.owner == None && Count(s.pcs, IsSignalled) == 0
  {
    forall u | u in s.pcs && HoldsLock(s.pcs[u]) ensures u == t {
      CountTwo(s.pcs, HoldsLock, t, u);
    }
    Moves(s, t, Outside);
    if !s.pcs[t].Signalled? {
      CountZero(s.pcs, IsSignalled);
      assert s.owner.Some? ==> At(s, s.owner.value, Signalled);
    }
  }

  lemma LockFree(s: State)
    requires Inv(s) && s.lock > 0
    ensures forall u :: u in s.pcs ==> !HoldsLock(s.pcs[u])
    ensures s.owner == None
  {
    CountZero(s.pcs, HoldsLock);
    assert s.owner.Some? ==> At(s, s.owner.value, Signalled);
  }

  lemma LockKeepsInv(s: State, step: Step)
    requires Inv(s) && Enabled(s, step) && (step.LockForAppend? || step.LockForPop?)
    ensures Inv(Next(s, step))
  {
    LockFree(s);
    Moves(s, step.t, if step.LockForAppend? then InAppend(step.x) else InPop);
  }

  lemma AppendKeepsInv(s: State, t: Tid)
    requires Inv(s) && Enabled(s, AppendBody(t))
    ensures Inv(Next(s, AppendBody(t)))
  {
    Alone(s, t);
    var s' := Next(s, AppendBody(t));
    Moves(s, t, s'.pcs[t]);
    assert s'.appended == s'.popped + s'.list;
  }

  lemma FinishKeepsInv(s: State, t: Tid)
    requires Inv(s) && Enabled(s, AppendFinish(t))
    ensures Inv(Next(s, AppendFinish(t)))
  {
    Alone(s, t);
    Moves(s, t, Outside);
  }

  lemma PopKeepsInv(s: State, t: Tid)
    requires Inv(s) && Enabled(s, PopBody(t))
    ensures Inv(Next(s, PopBody(t)))
  {
    Alone(s, t);
    var s' := Next(s, PopBody(t));
    Moves(s, t, s'.pcs[t]);
    if s.list != [] {
      assert s.list == [s.list[0]] + s.list[1..];
      assert s'.appended == s'.popped + s'.list;
    }
  }

  lemma PassKeepsInv(s: State, t: Tid)
    requires Inv(s) && Enabled(s, PassSemaphore(t))
    ensures Inv(Next(s, PassSemaphore(t)))
  {
    Moves(s, t, Leaving);
  }

  lemma StepKeepsInv(s: State, step: Step)
    requires Inv(s) && Enabled(s, step)
    ensures AssertionsHold(s, step) && Inv(Next(s, step))
  {
    match step
    case LockForAppend(_, _) => LockFree(s); LockKeepsInv(s, step);
    case LockForPop(_) => LockFree(s); LockKeepsInv(s, step);
    case AppendBody(t) => AppendKeepsInv(s, t);
    case AppendFinish(t) => FinishKeepsInv(s, t);
    case PopBody(t) => PopKeepsInv(s, t);
    case PassSemaphore(t) => PassKeepsInv(s, t);
  }

  lemma {:induction false} RunKeepsInv(threads: set<Tid>, run: seq<State>, steps: seq<Step>, i: nat)
    requires IsRun(threads, run, steps) && i < |run|
    ensures Inv(run[i]) && run[i].appended == Given(steps, i)
    ensures i < |steps| ==> AssertionsHold(run[i], steps[i])
  {
    AppendedIsGiven(threads, run, steps, i);
    if i == 0 {
      var pcs := run[0].pcs;
      CountZero(pcs, HoldsLock);
      CountZero(pcs, IsSignalled);
      CountZero(pcs, IsWaiting);
    } else {
      RunKeepsInv(threads, run, steps, i - 1);
      assert run[i - 1 + 1] == Next(run[i - 1], steps[i - 1]);
      StepKeepsInv(run[i - 1], steps[i - 1]);
    }
    if i < |steps| {
      StepKeepsInv(run[i], steps[i]);
    }
  }

  // ----- Whose items they are -----

  predicate IsLock(step: Step, t: Tid) { step.LockForAppend? && step.t == t }

  /** The last call of Append by a thread before step `i`. */
  function LastCall(steps: seq<Step>, t: Tid, i: nat): (r: Option<nat>)
    requires i <= |steps|
    ensures r.Some? ==> r.value < i && IsLock(steps[r.value], t) && forall k :: r.value < k < i ==> !IsLock(steps[k], t)
    ensures r.None? ==> forall k :: 0 <= k < i ==> !IsLock(steps[k], t)
  {
    if i == 0 then None else if IsLock(steps[i - 1], t) then Some(i - 1) else LastCall(steps, t, i - 1)
  }

  /** The arguments of Append, in the order in which the producers get through. */
  function Given(steps: seq<Step>, i: nat): seq<Item>
    requires i <= |steps|
  {
    if i == 0 then []
    else if steps[i - 1].AppendBody? && LastCall(steps, steps[i - 1].t, i - 1).Some?
    then Given(steps, i - 1) + [steps[LastCall(steps, steps[i - 1].t, i - 1).value].x]
    else Given(steps, i - 1)
  }

  /** A producer inside Append carries the item of its own call. */
  lemma {:induction false} CarriesOwnItem(threads: set<Tid>, run: seq<State>, steps: seq<Step>, i: nat, t: Tid)
    requires IsRun(threads, run, steps) && i < |run| && t in run[i].pcs && run[i].pcs[t].InAppend?
    ensures LastCall(steps, t, i).Some? && steps[LastCall(steps, t, i).value].x == run[i].pcs[t].x
  {
    if i > 0 {
      assert run[i - 1 + 1] == Next(run[i - 1], steps[i - 1]);
      if !IsLock(steps[i - 1], t) {
        CarriesOwnItem(threads, run, steps, i - 1, t);
      }
    }
  }

  lemma {:induction false} AppendedIsGiven(threads: set<Tid>, run: seq<State>, steps: seq<Step>, i: nat)
    requires IsRun(threads, run, steps) && i < |run|
    ensures run[i].appended == Given(steps, i)
  {
    if i > 0 {
      var step := steps[i - 1];
      AppendedIsGiven(threads, run, steps, i - 1);
      assert run[i - 1 + 1] == Next(run[i - 1], step);
      if step.AppendBody? {
        CarriesOwnItem(threads, run, steps, i - 1, step.t);
      }
    }
  }

  /** When a producer gets through, the item of its own last call, and nothing else, goes to the
      end of the list; no other step puts anything there. */
  lemma AppendsOwnItem(threads: set<Tid>, run: seq<State>, steps: seq<Step>, c: nat, i: nat, t: Tid, x: Item)
    requires IsRun(threads, run, steps) && c < i < |steps| && steps[c] == LockForAppend(t, x) && steps[i] == AppendBody(t)
    requires forall k :: c < k < i ==> !IsLock(steps[k], t)
    ensures run[i + 1].list == run[i].list + [x] && run[i + 1].appended == run[i].appended + [x]
    ensures run[i + 1].popped == run[i].popped
  {
    CarriesOwnItem(threads, run, steps, i, t);
  }

  lemma OthersAppendNothing(threads: set<Tid>, run: seq<State>, steps: seq<Step>, i: nat)
    requires IsRun(threads, run, steps) && i < |steps| && !steps[i].AppendBody?
    ensures run[i + 1].appended == run[i].appended
    ensures if steps[i].PopBody? && run[i].list != []
            then run[i].list == [run[i].list[0]] + run[i + 1].list && run[i + 1].popped == run[i].popped + [run[i].list[0]]
            else run[i + 1].list == run[i].list && run[i + 1].popped == run[i].popped
  {
    assert run[i + 1] == Next(run[i], steps[i]);
  }

  // ----- One operation at a time -----

  /** Append with nobody in between: the item is in the list, one waiter less is counted and one
      unit more posted if there was a waiter, and all else is as it was. */
  lemma AppendAlone(s: State, t: Tid, x: Item)
    requires Inv(s) && At(s, t, Outside) && s.lock > 0
    ensures Enabled(s, LockForAppend(t, x))
    ensures var s1 := Next(s, LockForAppend(t, x));
            Enabled(s1, AppendBody(t)) &&
            var s2 := Next(s1, AppendBody(t));
            if s.countWaiters > 0
            then Enabled(s2, AppendFinish(t)) &&
                 Next(s2, AppendFinish(t)) == s.(list := s.list + [x], appended := s.appended + [x],
                                                 sem := s.sem + 1, countWaiters := s.countWaiters - 1)
            else s2 == s.(list := s.list + [x], appended := s.appended + [x])
  {
    LockFree(s);
    assert s.pcs[t := Outside] == s.pcs;
    var s1 := Next(s, LockForAppend(t, x));
    assert s1.pcs[t := Outside] == s.pcs;
    var s2 := Next(s1, AppendBody(t));
    assert s.countWaiters > 0 ==> s2.pcs[t := Outside] == s.pcs;
  }

  /** Pop with nobody in between: it takes the first item, or waits if there is none. */
  lemma PopAlone(s: State, t: Tid)
    requires Inv(s) && (At(s, t, Outside) || At(s, t, Leaving)) && s.lock > 0
    ensures Enabled(s, LockForPop(t))
    ensures var s1 := Next(s, LockForPop(t));
            && Enabled(s1, PopBody(t))
            && Next(s1, PopBody(t)) ==
               if s.list != []
               then s.(list := s.list[1..], popped := s.popped + [s.list[0]], pcs := s.pcs[t := Outside])
               else s.(countWaiters := s.countWaiters + 1, pcs := s.pcs[t := Waiting])
  {
    LockFree(s);
    var s1 := Next(s, LockForPop(t));
    assert s1.pcs[t := Outside] == s.pcs[t := Outside] && s1.pcs[t := Waiting] == s.pcs[t := Waiting];
  }

  /** A consumer that waits goes on when there is a unit, takes it and looks at the list again. */
  lemma WaiterAlone(s: State, t: Tid)
    requires Inv(s) && At(s, t, Waiting) && s.sem > 0
    ensures Enabled(s, PassSemaphore(t))
    ensures var s1 := Next(s, PassSemaphore(t));
            && s1 == s.(sem := s.sem - 1, pcs := s.pcs[t := Leaving])
            && (s.lock > 0 ==> Enabled(s1, LockForPop(t)))
  {
  }

  // ----- What clients rely on -----

  /** First in, first out, at every moment of every run: what the producers passed to Append, in
      the order in which they got through, is what was popped and then what is in the list. */
  lemma Fifo(threads: set<Tid>, run: seq<State>, steps: seq<Step>, i: nat)
    requires IsRun(threads, run, steps) && i < |run|
    ensures run[i].appended == run[i].popped + run[i].list == Given(steps, i)
    ensures run[i].popped <= run[i].appended
  {
    RunKeepsInv(threads, run, steps, i);
  }

  /** At most one thread is inside the list's critical sections. */
  lemma MutualExclusion(threads: set<Tid>, run: seq<State>, steps: seq<Step>, i: nat, t: Tid, u: Tid)
    requires IsRun(threads, run, steps) && i < |run|
    requires t in run[i].pcs && HoldsLock(run[i].pcs[t]) && u in run[i].pcs && HoldsLock(run[i].pcs[u])
    ensures t == u
  {
    RunKeepsInv(threads, run, steps, i);
    Alone(run[i], t);
  }

  /** Whenever the lock is free and waiters are counted, every item in the list is matched
      by a signalled consumer that has not yet left Wait. */
  lemma ItemsAreCovered(threads: set<Tid>, run: seq<State>, steps: seq<Step>, i: nat)
    requires IsRun(threads, run, steps) && i < |run|
    requires run[i].lock > 0 && run[i].countWaiters > 0
    ensures |run[i].list| <= run[i].sem + Count(run[i].pcs, IsLeaving)
    ensures Count(run[i].pcs, IsWaiting) == run[i].countWaiters + run[i].sem
  {
    RunKeepsInv(threads, run, steps, i);
    LockFree(run[i]);
    CountZero(run[i].pcs, IsSignalled);
    CountZero(run[i].pcs, IsInPop);
  }

  /** The step the holder of the lock takes next. */
  function HolderStep(s: State, t: Tid): Step
    requires t in s.pcs && HoldsLock(s.pcs[t])
  {
    match s.pcs[t]
    case InAppend(_) => AppendBody(t)
    case Signalled => AppendFinish(t)
    case _ => PopBody(t)
  }

  /** The holder can always move, and after at most two of its steps the lock is free. */
  lemma HolderLetsGo(s: State, t: Tid)
    requires Inv(s) && t in s.pcs && HoldsLock(s.pcs[t])
    ensures Enabled(s, HolderStep(s, t))
    ensures var s' := Next(s, HolderStep(s, t));
            || s'.lock > 0
            || (At(s', t, Signalled) && HolderStep(s', t) == AppendFinish(t) && Next(s', AppendFinish(t)).lock > 0)
  {
    StepKeepsInv(s, HolderStep(s, t));
  }

  /** No lost wakeup: a consumer never waits beside a non-empty list with nobody able to move.
      While the lock is free, the waiter can pass the semaphore or a released one can take the
      lock; otherwise there is a holder, who will let go of it. */
  lemma NoLostWakeup(threads: set<Tid>, run: seq<State>, steps: seq<Step>, i: nat, consumer: Tid)
    requires IsRun(threads, run, steps) && i < |run|
    requires At(run[i], consumer, Waiting) && run[i].list != []
    ensures run[i].lock > 0 ==> Enabled(run[i], PassSemaphore(consumer)) ||
                                exists t :: At(run[i], t, Leaving) && Enabled(run[i], LockForPop(t))
    ensures run[i].lock == 0 ==> exists t :: t in run[i].pcs && HoldsLock(run[i].pcs[t]) && Enabled(run[i], HolderStep(run[i], t))
  {
    var s := run[i];
    RunKeepsInv(threads, run, steps, i);
    if s.lock == 0 {
      CountZero(s.pcs, HoldsLock);
      var t :| t in s.pcs && HoldsLock(s.pcs[t]);
      HolderLetsGo(s, t);
    } else {
      LockFree(s);
      CountZero(s.pcs, IsSignalled);
      CountZero(s.pcs, IsWaiting);
      if s.sem == 0 {
        ItemsAreCovered(threads, run, steps, i);
        CountZero(s.pcs, IsLeaving);
        var t :| t in s.pcs && IsLeaving(s.pcs[t]);
        assert At(s, t, Leaving);
      }
    }
  }
}
