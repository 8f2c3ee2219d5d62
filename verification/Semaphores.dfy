/** Counting semaphores: P retries its test each time the thread is woken, V wakes one
    sleeper without handing the unit over.  The code between interrupt disabling and
    enabling is one atomic step; steps of different threads interleave freely. */
module Semaphores {
  import opened Common
  import opened Counting
  import opened Lists

  datatype Sem = Sem(value: nat, queue: seq<Tid>)

  /** One pass of P's loop: take a unit, or join the queue and sleep. */
  function Attempt(s: Sem, t: Tid): Sem {
    if s.value == 0 then s.(queue := s.queue + [t]) else s.(value := s.value - 1)
  }

  /** V: the first sleeper leaves the queue and the value grows. */
  function Post(s: Sem): Sem {
    Sem(s.value + 1, if s.queue == [] then [] else s.queue[1..])
  }

  function Woken(s: Sem): Option<Tid> {
    if s.queue == [] then None else Some(s.queue[0])
  }

  /** The kernel object: a counter and a linked queue of sleepers.  Its atomic sections are the
      steps of the transition system below. */
  class Semaphore {
    var value: nat
    const queue: List<Tid>
    ghost var Repr: set<object>

    ghost predicate Valid()
      reads this, Repr
      ensures Valid() ==> this in Repr
    {
      this in Repr && queue in Repr && queue.Repr <= Repr && this !in queue.Repr && queue.Valid()
    }

    ghost function View(): Sem
      reads this, queue
    {
      Sem(value, Items(queue.cells))
    }

    constructor (initialValue: nat)
      ensures Valid() && fresh(Repr) && View() == Sem(initialValue, [])
    {
      var list := new List<Tid>();
      value, queue, Repr := initialValue, list, {this} + list.Repr;
    }

    /** The loop test of P for the running thread; it must sleep unless `taken`. */
    method TryP(currentThread: Tid) returns (taken: bool)
      requires Valid()
      modifies Repr
      ensures Valid() && fresh(Repr - old(Repr))
      ensures View() == Attempt(old(View()), currentThread)
      ensures taken <==> old(value) > 0
    {
      if value == 0 {
        queue.Append(currentThread);
        Repr := Repr + queue.Repr;
        return false;
      }
      value := value - 1;
      return true;
    }

    method V() returns (thread: Option<Tid>)
      requires Valid()
      modifies Repr
      ensures Valid() && Repr == old(Repr)
      ensures View() == Post(old(View())) && thread == Woken(old(View()))
    {
      thread := None;
      var cell := queue.SortedPop();
      if cell.Some? {
        thread := Some(cell.value.item);
      }
      value := value + 1;
    }
  }

  // ----- Any number of threads on one semaphore -----

  /** Where a thread stands: not in P, asleep in its queue, or woken and due to retest. */
  datatype Phase = Outside | Asleep | Due

  /** `posts` and `waits` count completed V and P operations. */
  datatype State = State(sem: Sem, phase: map<Tid, Phase>, posts: nat, waits: nat)

  /** `Signal` stands for V by any thread or interrupt handler. */
  datatype Step = Enter(t: Tid) | Retest(t: Tid) | Signal

  predicate Enabled(s: State, step: Step) {
    match step
    case Enter(t) => t in s.phase && s.phase[t] == Outside
    case Retest(t) => t in s.phase && s.phase[t] == Due
    case Signal => s.sem.queue == [] || s.sem.queue[0] in s.phase
  }

  /** A pass of P by `t`: it leaves with a unit or sleeps. */
  function PassP(s: State, t: Tid): State {
    var taken := s.sem.value > 0;
    State(Attempt(s.sem, t), s.phase[t := if taken then Outside else Asleep], s.posts,
          if taken then s.waits + 1 else s.waits)
  }

  function Next(s: State, step: Step): State
    requires Enabled(s, step)
  {
    match step
    case Enter(t) => PassP(s, t)
    case Retest(t) => PassP(s, t)
    case Signal =>
      var phase := match Woken(s.sem) case None => s.phase case Some(t) => s.phase[t := Due];
      State(Post(s.sem), phase, s.posts + 1, s.waits)
  }

  function Init(initial: nat, threads: set<Tid>): State {
    State(Sem(initial, []), map t | t in threads :: Outside, 0, 0)
  }

  ghost predicate IsRun(initial: nat, threads: set<Tid>, run: seq<State>, steps: seq<Step>) {
    && |run| == |steps| + 1
    && run[0] == Init(initial, threads)
    && forall i :: 0 <= i < |steps| ==> Enabled(run[i], steps[i]) && run[i + 1] == Next(run[i], steps[i])
  }

  ghost function DueCount(s: State): nat {
    Count(s.phase, p => p == Due)
  }

  ghost predicate Inv(initial: nat, s: State) {
    && s.sem.value + s.waits == initial + s.posts
    && Distinct(s.sem.queue)
    && (forall t :: t in s.sem.queue <==> t in s.phase && s.phase[t] == Asleep)
    && (s.sem.queue != [] ==> s.sem.value <= DueCount(s))
  }

  lemma PassKeepsInv(initial: nat, s: State, t: Tid)
    requires Inv(initial, s) && t in s.phase && s.phase[t] != Asleep
    ensures Inv(initial, PassP(s, t))
  {
    var s' := PassP(s, t);
    CountMove(s.phase, p => p == Due, t, s'.phase[t]);
    if s.sem.value == 0 {
      assert s'.sem.queue == s.sem.queue + [t];
      assert forall u :: u in s'.sem.queue <==> u in s.sem.queue || u == t;
    }
  }

  lemma SignalKeepsInv(initial: nat, s: State)
    requires Inv(initial, s) && Enabled(s, Signal)
    ensures Inv(initial, Next(s, Signal))
  {
    if s.sem.queue != [] {
      var s', t := Next(s, Signal), s.sem.queue[0];
      CountMove(s.phase, p => p == Due, t, Due);
      assert s.sem.queue == [t] + s'.sem.queue;
      assert forall u :: u in s.sem.queue <==> u in s'.sem.queue || u == t;
      assert t !in s'.sem.queue;
    }
  }

  lemma StepKeepsInv(initial: nat, s: State, step: Step)
    requires Inv(initial, s) && Enabled(s, step)
    ensures Inv(initial, Next(s, step))
  {
    match step
    case Enter(t) => PassKeepsInv(initial, s, t);
    case Retest(t) => PassKeepsInv(initial, s, t);
    case Signal => SignalKeepsInv(initial, s);
  }

  /** Every reachable state: the value is the initial one plus completed V minus completed
      P, the queue holds exactly the sleepers, once each, and while anyone sleeps the
      value is covered by woken threads that have not yet retested. */
  lemma {:induction false} RunKeepsInv(initial: nat, threads: set<Tid>, run: seq<State>, steps: seq<Step>, i: nat)
    requires IsRun(initial, threads, run, steps) && i < |run|
    ensures Inv(initial, run[i])
  {
    if i == 0 {
      CountZero(run[0].phase, p => p == Due);
    } else {
      RunKeepsInv(initial, threads, run, steps, i - 1);
      assert run[i - 1 + 1] == Next(run[i - 1], steps[i - 1]);
      StepKeepsInv(initial, run[i - 1], steps[i - 1]);
    }
  }

  /** No lost wakeup: if someone sleeps while units are free, a woken thread is on its
      way, and its retest takes one. */
  lemma NoLostWakeup(initial: nat, threads: set<Tid>, run: seq<State>, steps: seq<Step>, i: nat, sleeper: Tid)
    requires IsRun(initial, threads, run, steps) && i < |run|
    requires sleeper in run[i].phase && run[i].phase[sleeper] == Asleep && run[i].sem.value > 0
    ensures exists t :: Enabled(run[i], Retest(t)) && Next(run[i], Retest(t)).waits == run[i].waits + 1
  {
    var s := run[i];
    RunKeepsInv(initial, threads, run, steps, i);
    assert s.sem.queue != [] by { assert sleeper in s.sem.queue; }
    CountZero(s.phase, p => p == Due);
    var t :| t in s.phase && s.phase[t] == Due;
    assert Enabled(s, Retest(t));
  }

  // ----- What P and V do -----

  /** A pass of P: with a unit at hand it takes it and leaves; otherwise it goes to sleep behind all
      other sleepers. */
  lemma PassEffect(s: State, step: Step, t: Tid)
    requires Enabled(s, step) && (step == Enter(t) || step == Retest(t))
    ensures var s' := Next(s, step);
            && s'.posts == s.posts && s'.phase.Keys == s.phase.Keys
            && (forall u :: u in s.phase && u != t ==> s'.phase[u] == s.phase[u])
            && if s.sem.value > 0
               then s'.sem.value == s.sem.value - 1 && s'.sem.queue == s.sem.queue && s'.phase[t] == Outside && s'.waits == s.waits + 1
               else s'.sem.value == 0 && s'.sem.queue == s.sem.queue + [t] && s'.phase[t] == Asleep && s'.waits == s.waits
  {
  }

  /** V: one unit more, and the first of the sleepers, if there are any, is woken; nobody else. */
  lemma SignalEffect(initial: nat, s: State)
    requires Inv(initial, s)
    ensures Enabled(s, Signal)
    ensures var s' := Next(s, Signal);
            && s'.sem.value == s.sem.value + 1 && s'.posts == s.posts + 1 && s'.waits == s.waits
            && if s.sem.queue == [] then s'.sem.queue == [] && s'.phase == s.phase
               else s.sem.queue == [s.sem.queue[0]] + s'.sem.queue && s'.phase == s.phase[s.sem.queue[0] := Due]
  {
    assert s.sem.queue != [] ==> s.sem.queue[0] in s.sem.queue;
  }

  /** While nobody sleeps, P and then V leave the semaphore as it was: P takes a unit, or, if there is
      none, it sleeps until V wakes it and then takes that one. */
  lemma WaitThenSignal(initial: nat, s: State, t: Tid)
    requires Inv(initial, s) && s.sem.queue == [] && t in s.phase && s.phase[t] == Outside
    ensures Enabled(s, Enter(t))
    ensures var s1 := Next(s, Enter(t));
            Enabled(s1, Signal) &&
            var s2 := Next(s1, Signal);
            if s.sem.value > 0 then s2 == s.(posts := s.posts + 1, waits := s.waits + 1)
            else Enabled(s2, Retest(t)) && Next(s2, Retest(t)) == s.(posts := s.posts + 1, waits := s.waits + 1)
  {
    var s1 := Next(s, Enter(t));
    var s2 := Next(s1, Signal);
    assert s.sem.value > 0 ==> s2.phase == s.phase;
    assert s.sem.value == 0 ==> s1.sem.queue == [t] && Next(s2, Retest(t)).phase == s.phase;
  }

  /** `u` sleeps behind `t`, if at all. */
  ghost predicate Ahead(q: seq<Tid>, t: Tid, u: Tid) {
    t in q && forall j :: 0 <= j < |q| && q[j] == u ==> t in q[..j]
  }

  lemma StepKeepsAhead(initial: nat, s: State, step: Step, t: Tid, u: Tid)
    requires Inv(initial, s) && Enabled(s, step) && Ahead(s.sem.queue, t, u) && t in Next(s, step).sem.queue && t != u
    ensures Ahead(Next(s, step).sem.queue, t, u)
  {
    var q, q' := s.sem.queue, Next(s, step).sem.queue;
    forall j | 0 <= j < |q'| && q'[j] == u ensures t in q'[..j] {
      if step.Signal? && q != [] {
        assert q' == q[1..] && q[j + 1] == u;
        assert q[..j + 1] == [q[0]] + q'[..j];
        assert q[0] != t by { assert t in q'; assert Distinct(q); }
      } else if j < |q| {
        assert q'[..j] == q[..j];
      } else {
        assert q'[..j] == q;
      }
    }
  }

  /** First asleep, first woken: if `t` was asleep before `u` fell asleep and has slept ever since,
      no V wakes `u`. */
  lemma FirstAsleepFirstWoken(initial: nat, threads: set<Tid>, run: seq<State>, steps: seq<Step>, a: nat, i: nat, t: Tid, u: Tid)
    requires IsRun(initial, threads, run, steps) && a <= i < |steps| && steps[i] == Signal
    requires forall k :: a <= k <= i ==> t in run[k].phase && run[k].phase[t] == Asleep
    requires u in run[a].phase && run[a].phase[u] != Asleep && u in run[i].phase && run[i].phase[u] == Asleep
    ensures u in run[i + 1].phase && run[i + 1].phase[u] == Asleep
  {
    RunKeepsInv(initial, threads, run, steps, a);
    assert u !in run[a].sem.queue && t in run[a].sem.queue;
    StaysAhead(initial, threads, run, steps, a, i, t, u);
    RunKeepsInv(initial, threads, run, steps, i);
    assert run[i + 1] == Next(run[i], Signal);
    assert run[i].sem.queue[..0] == [];
  }

  lemma {:induction false} StaysAhead(initial: nat, threads: set<Tid>, run: seq<State>, steps: seq<Step>, a: nat, i: nat, t: Tid, u: Tid)
    requires IsRun(initial, threads, run, steps) && a <= i < |run| && t != u && Ahead(run[a].sem.queue, t, u)
    requires forall k :: a <= k <= i ==> t in run[k].phase && run[k].phase[t] == Asleep
    ensures Ahead(run[i].sem.queue, t, u)
    decreases i
  {
    if a < i {
      StaysAhead(initial, threads, run, steps, a, i - 1, t, u);
      RunKeepsInv(initial, threads, run, steps, i - 1);
      RunKeepsInv(initial, threads, run, steps, i);
      assert run[i - 1 + 1] == Next(run[i - 1], steps[i - 1]);
      StepKeepsAhead(initial, run[i - 1], steps[i - 1], t, u);
    }
  }

  /** Seen from outside, a step is an atomic P (only from a positive value), an atomic V,
      or nothing: clients may treat P and V as indivisible. */
  lemma StepIsAtomic(s: State, step: Step)
    requires Enabled(s, step)
    ensures var s' := Next(s, step);
            || (s'.waits == s.waits + 1 && s'.posts == s.posts && s.sem.value > 0 && s'.sem.value == s.sem.value - 1)
            || (s'.waits == s.waits && s'.posts == s.posts + 1 && s'.sem.value == s.sem.value + 1)
            || (s'.waits == s.waits && s'.posts == s.posts && s'.sem.value == s.sem.value == 0)
  {
  }
}
