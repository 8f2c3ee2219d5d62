/** Queues of pending interrupts, sorted by time: what scheduling, calling a handler and putting
    an interrupt back do to them. */
module PendingQueues {
  import opened Lists

  const SYSTEM_TICK := 10
  const USER_TICK := 1

  datatype IntType = Timer | Device

  datatype MachineStatus = IdleMode | SystemMode | UserMode

  /** `handler` names the routine to call. */
  datatype Pending = Pending(handler: nat, kind: IntType)

  type Queue = seq<Cell<Pending>>

  datatype Request = Request(handler: nat, kind: IntType, fromNow: nat)

  /** What a handler does: schedule further interrupts, perhaps ask for a switch. */
  datatype Effect = Effect(requests: seq<Request>, switches: bool)

  /** Handlers are code outside this module: any function of how many handlers have run and
      of the interrupt at hand.  Scheduling asserts that requests lie in the future. */
  type Behaviour = (nat, Cell<Pending>) -> Effect

  ghost predicate Prompt(f: Behaviour) {
    forall n: nat, c: Cell<Pending> :: AllAhead(f(n, c).requests)
  }

  ghost predicate AllAhead(requests: seq<Request>) {
    forall i :: 0 <= i < |requests| ==> requests[i].fromNow > 0
  }

  /** The queue after the first `n` requests of a handler, made at time `now`. */
  function Scheduled(q: Queue, now: nat, requests: seq<Request>, n: nat): Queue
    requires n <= |requests|
  {
    if n == 0 then q
    else
      Inserted(Scheduled(q, now, requests, n - 1), CellOf(requests[n - 1], now))
  }

  /** How many interrupts at the head of the queue are due. */
  function DueCount(q: Queue, now: nat): (n: nat)
    ensures n <= |q|
    ensures forall i :: 0 <= i < n ==> q[i].key <= now
    ensures n < |q| ==> q[n].key > now
  {
    if q == [] || q[0].key > now then 0 else 1 + DueCount(q[1..], now)
  }

  lemma {:induction false} DueCountUnique(q: Queue, now: nat, n: nat)
    requires n <= |q| && (forall i :: 0 <= i < n ==> q[i].key <= now) && (n < |q| ==> q[n].key > now)
    ensures DueCount(q, now) == n
  {
    if n > 0 {
      DueCountUnique(q[1..], now, n - 1);
    }
  }

  /** `q'` is `q` with only future interrupts added: the due ones are still at the head. */
  ghost predicate Extends(q: Queue, q': Queue, now: nat) {
    && Sorted(q')
    && DueCount(q', now) == DueCount(q, now)
    && q'[..DueCount(q', now)] == q[..DueCount(q, now)]
  }

  lemma InsertExtends(base: Queue, q: Queue, now: nat, c: Cell<Pending>, q': Queue)
    requires Extends(base, q, now) && c.key > now && q' == Inserted(q, c)
    ensures Extends(base, q', now)
  {
    InsertedSorted(q, c);
    InsertedDue(q, now, c);
  }

  lemma InsertedDue(q: Queue, now: nat, c: Cell<Pending>)
    requires c.key > now
    ensures var q' := Inserted(q, c);
            DueCount(q', now) == DueCount(q, now) && q'[..DueCount(q', now)] == q[..DueCount(q, now)]
  {
    var n, p, q' := DueCount(q, now), Position(q, c.key), Inserted(q, c);
    assert n <= p;
    assert q'[..n] == q[..n];
    assert n < |q'| && q'[n] == if n < p then q[n] else c;
    assert forall i :: 0 <= i < n ==> q'[i] == q[i];
    DueCountUnique(q', now, n);
  }

  /** The cell a request puts in the queue. */
  function CellOf(r: Request, now: nat): Cell<Pending> {
    Cell(now + r.fromNow, Pending(r.handler, r.kind))
  }

  ghost predicate IsPendingFor(c: Cell<Pending>, r: Request, now: nat) {
    c.key == now + r.fromNow && c.item.handler == r.handler && c.item.kind == r.kind
  }

  /** The cells of the first `n` requests. */
  function CellsOf(requests: seq<Request>, now: nat, n: nat): (r: Queue)
    requires n <= |requests|
    ensures |r| == n && forall i :: 0 <= i < n ==> IsPendingFor(r[i], requests[i], now)
  {
    seq(n, i requires 0 <= i < n => Cell(now + requests[i].fromNow, Pending(requests[i].handler, requests[i].kind)))
  }

  ghost predicate Adds(q: Queue, cells: Queue, q': Queue) { multiset(q') == multiset(q) + multiset(cells) }

  /** What is pending after requests is what was, and for every request its handler, as much later
      as it asked; nothing else. */
  lemma {:induction false} ScheduledExactly(q: Queue, now: nat, requests: seq<Request>, n: nat)
    requires n <= |requests|
    ensures Adds(q, CellsOf(requests, now, n), Scheduled(q, now, requests, n))
  {
    if n == 0 {
      AddsNothing(q, CellsOf(requests, now, 0));
    } else {
      var c, mid, cells := CellOf(requests[n - 1], now), Scheduled(q, now, requests, n - 1), CellsOf(requests, now, n - 1);
      assert Adds(q, cells, mid) by {
        ScheduledExactly(q, now, requests, n - 1);
      }
      AddsOneMore(q, mid, cells, c);
      CellsStep(requests, now, n);
      assert Scheduled(q, now, requests, n) == Inserted(mid, c);
    }
  }

  lemma CellsStep(requests: seq<Request>, now: nat, n: nat)
    requires 0 < n <= |requests|
    ensures CellsOf(requests, now, n) == CellsOf(requests, now, n - 1) + [CellOf(requests[n - 1], now)]
  {
  }

  lemma AddsNothing(q: Queue, cells: Queue)
    requires cells == []
    ensures Adds(q, cells, q)
  {
  }

  lemma AddsOneMore(q: Queue, mid: Queue, cells: Queue, c: Cell<Pending>)
    requires Adds(q, cells, mid)
    ensures Adds(q, cells + [c], Inserted(mid, c))
  {
    InsertedAdds(mid, c);
  }

  lemma {:induction false} ScheduledExtends(q: Queue, now: nat, requests: seq<Request>, n: nat)
    requires n <= |requests| && Sorted(q) && forall i :: 0 <= i < n ==> requests[i].fromNow > 0
    ensures Extends(q, Scheduled(q, now, requests, n), now)
  {
    if n > 0 {
      ScheduledExtends(q, now, requests, n - 1);
      InsertExtends(q, Scheduled(q, now, requests, n - 1), now, CellOf(requests[n - 1], now), Scheduled(q, now, requests, n));
    }
  }

  /** Handlers have fired in order of time, not early, and before everything pending. */
  ghost predicate InOrder(fired: Queue, pending: Queue, now: nat) {
    && Sorted(pending) && Sorted(fired)
    && (forall i :: 0 <= i < |fired| ==> fired[i].key <= now)
    && (forall i, j :: 0 <= i < |fired| && 0 <= j < |pending| ==> fired[i].key <= pending[j].key)
  }

  lemma FireInOrder(fired: Queue, pending: Queue, pending': Queue, now: nat)
    requires InOrder(fired, pending, now) && pending != [] && pending[0].key <= now
    requires Sorted(pending') && forall i :: 0 <= i < |pending'| ==> pending[0].key <= pending'[i].key
    ensures InOrder(fired + [pending[0]], pending', now)
  {
    var fired' := fired + [pending[0]];
    forall i, j | 0 <= i < |fired'| && 0 <= j < |pending'| ensures fired'[i].key <= pending'[j].key {
      if i < |fired| {
        assert fired[i].key <= pending[0].key;
      }
    }
  }

  lemma PutBackInOrder(fired: Queue, pending: Queue, now: nat)
    requires InOrder(fired, pending, now) && pending != []
    ensures InOrder(fired, Inserted(pending[1..], pending[0]), now)
    ensures multiset(Inserted(pending[1..], pending[0])) == multiset(pending)
  {
    assert pending == [pending[0]] + pending[1..];
    PutBack(pending, if fired == [] then pending[0].key else fired[|fired| - 1].key);
  }

  /** The handlers called so far and then those that are due. */
  ghost function Upcoming(fired: Queue, pending: Queue, now: nat): Queue {
    fired + pending[..DueCount(pending, now)]
  }

  lemma NothingDue(fired: Queue, pending: Queue, now: nat)
    requires InOrder(fired, pending, now) && DueCount(pending, now) == 0
    ensures Upcoming(fired, pending, now) == fired
    ensures forall i :: 0 <= i < |pending| ==> pending[i].key > now
  {
  }

  lemma HeadThenRest(q: Queue, n: nat)
    requires 0 < n <= |q|
    ensures q[..n] == [q[0]] + q[1..][..n - 1]
  {
  }

  /** The first interrupt is due: one less is due after it. */
  lemma DueAfterFirst(q: Queue, now: nat)
    requires q != [] && q[0].key <= now
    ensures DueCount(q[1..], now) == DueCount(q, now) - 1
  {
  }

  lemma FireKeepsUpcoming(fired: Queue, pending: Queue, pending': Queue, now: nat)
    requires pending != [] && pending[0].key <= now && Extends(pending[1..], pending', now)
    ensures Upcoming(fired + [pending[0]], pending', now) == Upcoming(fired, pending, now)
    ensures DueCount(pending', now) < DueCount(pending, now)
  {
    var n := DueCount(pending, now);
    DueAfterFirst(pending, now);
    HeadThenRest(pending, n);
    var rest := pending[1..][..n - 1];
    assert pending'[..n - 1] == rest;
    assert (fired + [pending[0]]) + rest == fired + ([pending[0]] + rest);
  }

  /** Putting the first interrupt back changes nothing when it is not due or is alone. */
  lemma PutBackUpcoming(pending: Queue, now: nat)
    requires Sorted(pending) && pending != [] && (pending[0].key > now || |pending| == 1)
    ensures var q := Inserted(pending[1..], pending[0]);
            DueCount(q, now) == DueCount(pending, now) && q[..DueCount(q, now)] == pending[..DueCount(pending, now)]
  {
    PutBack(pending, pending[0].key);
    var q := Inserted(pending[1..], pending[0]);
    if |pending| == 1 {
      assert q == pending;
    }
  }

  /** What handlers from the `n`-th call on have requested. */
  ghost function Made(f: Behaviour, now: nat, fired: Queue, n: nat): multiset<Cell<Pending>>
    requires n <= |fired|
  {
    if n == |fired| then multiset{}
    else Made(f, now, fired[..|fired| - 1], n) + multiset(Answer(f, now, fired, |fired| - 1))
  }

  /** The requests of the `i`-th handler called. */
  ghost function Answer(f: Behaviour, now: nat, fired: Queue, i: nat): Queue
    requires i < |fired|
  {
    var requests := f(i, fired[i]).requests;
    CellsOf(requests, now, |requests|)
  }

  /** Exactly what was called or pending, and what was requested in between, is called or pending:
      no interrupt is lost or comes from nowhere. */
  ghost predicate Kept(f: Behaviour, now: nat, fired: Queue, q: Queue, fired': Queue, q': Queue) {
    && fired <= fired'
    && multiset(fired') + multiset(q') == multiset(fired) + multiset(q) + Made(f, now, fired', |fired|)
  }

  lemma KeptSame(f: Behaviour, now: nat, fired: Queue, q: Queue, q': Queue)
    requires multiset(q') == multiset(q)
    ensures Kept(f, now, fired, q, fired, q')
  {
  }

  lemma {:induction false} MadeSplit(f: Behaviour, now: nat, a: Queue, b: Queue, n: nat)
    requires n <= |a| <= |b| && a <= b
    ensures Made(f, now, b, n) == Made(f, now, a, n) + Made(f, now, b, |a|)
  {
    if |a| < |b| {
      MadeSplit(f, now, a, b[..|b| - 1], n);
    } else {
      assert a == b;
    }
  }

  lemma KeptTransitive(f: Behaviour, now: nat, fired: Queue, q: Queue, fired': Queue, q': Queue, fired'': Queue, q'': Queue)
    requires Kept(f, now, fired, q, fired', q') && Kept(f, now, fired', q', fired'', q'')
    ensures Kept(f, now, fired, q, fired'', q'')
  {
    MadeSplit(f, now, fired', fired'', |fired|);
  }

  lemma InOrderLater(fired: Queue, pending: Queue, now: nat, now': nat)
    requires InOrder(fired, pending, now) && now <= now'
    ensures InOrder(fired, pending, now')
  {
  }

  /** The time at which the next interrupt is due, or now. */
  function Reached(pending: Queue, now: nat): (r: nat)
    ensures r >= now
  {
    if pending != [] && pending[0].key > now then pending[0].key else now
  }

  /** The first time from now on at which something pending is due; now, if nothing is. */
  lemma ReachedIsFirst(pending: Queue, now: nat)
    requires Sorted(pending)
    ensures pending == [] ==> Reached(pending, now) == now
    ensures pending != [] ==> DueCount(pending, Reached(pending, now)) > 0
    ensures forall t :: now <= t < Reached(pending, now) ==> DueCount(pending, t) == 0
  {
  }

  // ----- Calling handlers -----

  /** The machine idles and only a timer is left. */
  predicate OnlyTimer(status: MachineStatus, q: Queue) {
    status == IdleMode && |q| == 1 && q[0].item.kind == Timer
  }

  /** Whether a check of the queue calls a handler. */
  predicate Fires(status: MachineStatus, q: Queue, now: nat) {
    q != [] && q[0].key <= now && !OnlyTimer(status, q)
  }

  /** The queue after the first handler in it has run, as the `n`-th of all. */
  function AfterCall(f: Behaviour, n: nat, q: Queue, now: nat): Queue
    requires q != []
  {
    var requests := f(n, q[0]).requests;
    Scheduled(q[1..], now, requests, |requests|)
  }

  /** Calling the first handler keeps order, leaves the other due interrupts at the head of the
      queue and loses nothing. */
  lemma CallEffect(f: Behaviour, fired: Queue, q: Queue, now: nat)
    requires Prompt(f) && InOrder(fired, q, now) && q != [] && q[0].key <= now
    ensures var q' := AfterCall(f, |fired|, q, now);
            && InOrder(fired + [q[0]], q', now)
            && Extends(q[1..], q', now)
            && Kept(f, now, fired, q, fired + [q[0]], q')
            && Upcoming(fired + [q[0]], q', now) == Upcoming(fired, q, now)
            && DueCount(q', now) < DueCount(q, now)
  {
    var requests := f(|fired|, q[0]).requests;
    assert AllAhead(requests);
    FiredEffect(fired, q, now, requests);
    MoveKept(f, now, fired, q, AfterCall(f, |fired|, q, now));
    FireKeepsUpcoming(fired, q, AfterCall(f, |fired|, q, now), now);
  }

  /** Some handler from the `n`-th call on asked for a switch. */
  ghost predicate Asked(f: Behaviour, fired: Queue, n: nat) {
    exists i :: n <= i < |fired| && f(i, fired[i]).switches
  }

  lemma AskedNext(f: Behaviour, fired: Queue, c: Cell<Pending>, n: nat)
    requires n <= |fired|
    ensures Asked(f, fired + [c], n) <==> Asked(f, fired, n) || f(|fired|, c).switches
  {
    var fired' := fired + [c];
    assert fired'[|fired|] == c;
    if Asked(f, fired, n) {
      var i :| n <= i < |fired| && f(i, fired[i]).switches;
      assert fired'[i] == fired[i];
    }
  }

  lemma AskedCompose(f: Behaviour, fired: Queue, fired': Queue, n: nat)
    requires n <= |fired| && fired <= fired'
    ensures Asked(f, fired', n) <==> Asked(f, fired, n) || Asked(f, fired', |fired|)
  {
    assert forall i :: 0 <= i < |fired| ==> fired'[i] == fired[i];
    if Asked(f, fired, n) {
      var i :| n <= i < |fired| && f(i, fired[i]).switches;
      assert f(i, fired'[i]).switches;
    }
  }

  // ----- A timer left behind -----

  /** Draining stops with an interrupt still due: the machine idles, everything pending is due,
      the last of it is the timer, and no handler called before it schedules anything. */
  ghost predicate LeavesTimer(f: Behaviour, n: nat, status: MachineStatus, q: Queue, now: nat) {
    && status == IdleMode && q != [] && DueCount(q, now) == |q| && q[|q| - 1].item.kind == Timer
    && AllQuiet(f, n, q, |q| - 1)
  }

  /** The `i`-th of the handlers in a queue, `n` calls from the beginning, schedules nothing. */
  ghost predicate Quiet(f: Behaviour, n: nat, q: Queue, i: nat)
    requires i < |q|
  {
    f(n + i, q[i]).requests == []
  }

  lemma {:induction false} ScheduledLength(q: Queue, now: nat, requests: seq<Request>, n: nat)
    requires n <= |requests|
    ensures |Scheduled(q, now, requests, n)| == |q| + n
  {
    if n > 0 {
      ScheduledLength(q, now, requests, n - 1);
    }
  }

  ghost predicate AllQuiet(f: Behaviour, n: nat, q: Queue, m: nat)
    requires m <= |q|
  {
    forall i :: 0 <= i < m ==> Quiet(f, n, q, i)
  }

  lemma QuietShift(f: Behaviour, n: nat, q: Queue, m: nat)
    requires 0 < m <= |q|
    ensures AllQuiet(f, n, q, m) <==> f(n, q[0]).requests == [] && AllQuiet(f, n + 1, q[1..], m - 1)
  {
    var n', q' := n + 1, q[1..];
    if AllQuiet(f, n, q, m) {
      assert Quiet(f, n, q, 0);
      forall i | 0 <= i < m - 1 ensures Quiet(f, n', q', i) {
        assert Quiet(f, n, q, i + 1);
      }
    }
    if f(n, q[0]).requests == [] && AllQuiet(f, n', q', m - 1) {
      forall i | 0 <= i < m ensures Quiet(f, n, q, i) {
        if i > 0 {
          assert Quiet(f, n', q', i - 1);
        }
      }
    }
  }

  /** Calling the first handler does not change whether the timer will be left behind. */
  lemma LeavesTimerStep(f: Behaviour, n: nat, status: MachineStatus, q: Queue, now: nat)
    requires Prompt(f) && Sorted(q) && Fires(status, q, now)
    ensures LeavesTimer(f, n + 1, status, AfterCall(f, n, q, now), now) <==> LeavesTimer(f, n, status, q, now)
  {
    var requests := f(n, q[0]).requests;
    var q' := AfterCall(f, n, q, now);
    DueAfterFirst(q, now);
    if |q| > 1 {
      QuietShift(f, n, q, |q| - 1);
    }
    if requests == [] {
      assert q' == q[1..];
      assert |q| > 1 ==> q'[|q'| - 1] == q[|q| - 1];
    } else {
      assert AllAhead(requests);
      ScheduledLength(q[1..], now, requests, |requests|);
      ScheduledExtends(q[1..], now, requests, |requests|);
      assert DueCount(q', now) < |q'|;
      assert DueCount(q[1..], now) <= |q[1..]|;
    }
  }

  /** When a check calls nothing, putting the first interrupt back changes none of this. */
  lemma LeavesTimerIff(f: Behaviour, n: nat, status: MachineStatus, q: Queue, now: nat)
    requires Sorted(q) && !Fires(status, q, now)
    ensures LeavesTimer(f, n, status, q, now) <==> OnlyTimer(status, q) && DueCount(q, now) > 0
    ensures OnlyTimer(status, q) || DueCount(q, now) == 0
  {
  }

  /** A queue whose first interrupt was taken out and, not being called, put back. */
  function Settled(q: Queue): Queue {
    if q == [] then [] else Inserted(q[1..], q[0])
  }

  lemma SettledEffect(f: Behaviour, n: nat, status: MachineStatus, q: Queue, now: nat)
    requires Sorted(q) && !Fires(status, q, now)
    ensures !Fires(status, Settled(q), now)
    ensures DueCount(Settled(q), now) == DueCount(q, now)
    ensures Settled(q)[..DueCount(q, now)] == q[..DueCount(q, now)]
    ensures LeavesTimer(f, n, status, Settled(q), now) <==> LeavesTimer(f, n, status, q, now)
  {
    if q != [] {
      PutBackUpcoming(q, now);
      if |q| == 1 {
        assert Settled(q) == q;
      }
    }
  }

  /** If all of a queue was due and one interrupt is left, it is the last one. */
  lemma LastIsLeft(fired: Queue, pending: Queue, fired': Queue, pending': Queue, now: nat)
    requires pending != [] && DueCount(pending, now) == |pending|
    requires |pending'| == 1 && DueCount(pending', now) == 1
    requires Upcoming(fired', pending', now) == Upcoming(fired, pending, now)
    ensures pending' == [pending[|pending| - 1]]
  {
    var all := Upcoming(fired, pending, now);
    assert all[|all| - 1] == pending[|pending| - 1];
    assert Upcoming(fired', pending', now)[|all| - 1] == pending'[0];
  }

  // ----- Draining -----

  /** From one state of the queue to another by checks at time `now`: handlers are called in
      order, never early, what was due is called or still due, nothing is lost, and whether the
      timer will be left behind stays the same. */
  ghost predicate Drains(f: Behaviour, status: MachineStatus, now: nat, fired: Queue, q: Queue, fired': Queue, q': Queue) {
    && fired <= fired' && InOrder(fired', q', now) && Kept(f, now, fired, q, fired', q')
    && Upcoming(fired', q', now) == Upcoming(fired, q, now)
    && (LeavesTimer(f, |fired'|, status, q', now) <==> LeavesTimer(f, |fired|, status, q, now))
  }

  lemma DrainsCall(f: Behaviour, status: MachineStatus, now: nat, fired: Queue, q: Queue, fired': Queue, q': Queue)
    requires Prompt(f) && Drains(f, status, now, fired, q, fired', q') && Fires(status, q', now)
    ensures Drains(f, status, now, fired, q, fired' + [q'[0]], AfterCall(f, |fired'|, q', now))
    ensures DueCount(AfterCall(f, |fired'|, q', now), now) < DueCount(q', now)
  {
    var fired'', q'' := fired' + [q'[0]], AfterCall(f, |fired'|, q', now);
    CallEffect(f, fired', q', now);
    KeptTransitive(f, now, fired, q, fired', q', fired'', q'');
    LeavesTimerStep(f, |fired'|, status, q', now);
  }

  lemma DrainsSettle(f: Behaviour, status: MachineStatus, now: nat, fired: Queue, q: Queue, fired': Queue, q': Queue)
    requires Drains(f, status, now, fired, q, fired', q') && !Fires(status, q', now)
    ensures Drains(f, status, now, fired, q, fired', Settled(q')) && !Fires(status, Settled(q'), now)
  {
    SettledEffect(f, |fired'|, status, q', now);
    if q' != [] {
      PutBackInOrder(fired', q', now);
      KeptSame(f, now, fired', q', Settled(q'));
      KeptTransitive(f, now, fired, q, fired', q', fired', Settled(q'));
    }
  }

  /** What draining leaves: all that was due was called, in order, and what is left lies in the
      future; with exactly one exception, the timer at the end of the queue. */
  ghost predicate Drained(f: Behaviour, status: MachineStatus, now: nat, fired: Queue, q: Queue, fired': Queue, q': Queue) {
    && InOrder(fired', q', now) && Kept(f, now, fired, q, fired', q')
    && (DueCount(q', now) > 0 <==> LeavesTimer(f, |fired|, status, q, now))
    && if LeavesTimer(f, |fired|, status, q, now)
       then q' == [q[|q| - 1]] && fired' == fired + q[..|q| - 1]
       else fired' == fired + q[..DueCount(q, now)] && forall i :: 0 <= i < |q'| ==> q'[i].key > now
  }

  lemma DrainsEnd(f: Behaviour, status: MachineStatus, now: nat, fired: Queue, q: Queue, fired': Queue, q': Queue)
    requires Drains(f, status, now, fired, q, fired', q') && !Fires(status, q', now)
    ensures Drained(f, status, now, fired, q, fired', q')
  {
    LeavesTimerIff(f, |fired'|, status, q', now);
    if LeavesTimer(f, |fired|, status, q, now) {
      LastIsLeft(fired, q, fired', q', now);
      var all := Upcoming(fired, q, now);
      assert fired' == all[..|all| - 1];
      assert fired + q[..|q| - 1] == all[..|all| - 1];
    } else {
      NothingDue(fired', q', now);
    }
  }

  /** Everything due was called, in order; what is left lies in the future; nothing is lost. */
  ghost predicate AllCalled(f: Behaviour, now: nat, fired: Queue, q: Queue, fired': Queue, q': Queue) {
    && InOrder(fired', q', now) && Kept(f, now, fired, q, fired', q')
    && fired' == fired + q[..DueCount(q, now)] && forall i :: 0 <= i < |q'| ==> q'[i].key > now
  }

  /** While the machine does not idle, there is no exception. */
  lemma DrainedAwake(f: Behaviour, status: MachineStatus, now: nat, fired: Queue, q: Queue, fired': Queue, q': Queue)
    requires status != IdleMode && Drained(f, status, now, fired, q, fired', q')
    ensures AllCalled(f, now, fired, q, fired', q')
  {
  }

  lemma SettledInOrder(fired: Queue, q: Queue, now: nat)
    requires InOrder(fired, q, now)
    ensures InOrder(fired, Settled(q), now)
  {
    if q != [] {
      PutBackInOrder(fired, q, now);
    }
  }

  /** Calling the first handler and then draining is draining. */
  lemma DrainedAfterCall(f: Behaviour, status: MachineStatus, now: nat, fired: Queue, q: Queue, fired': Queue, q': Queue)
    requires Prompt(f) && InOrder(fired, q, now) && Fires(status, q, now)
    requires Drained(f, status, now, fired + [q[0]], AfterCall(f, |fired|, q, now), fired', q')
    ensures Drained(f, status, now, fired, q, fired', q')
  {
    var fired1, q1 := fired + [q[0]], AfterCall(f, |fired|, q, now);
    CallEffect(f, fired, q, now);
    LeavesTimerStep(f, |fired|, status, q, now);
    KeptTransitive(f, now, fired, q, fired1, q1, fired', q');
    if LeavesTimer(f, |fired|, status, q, now) {
      AllDue(fired, q, now);
      AllDue(fired1, q1, now);
      SameLast(fired, q, fired1, q1);
    }
  }

  lemma AllDue(fired: Queue, q: Queue, now: nat)
    requires DueCount(q, now) == |q|
    ensures Upcoming(fired, q, now) == fired + q
  {
  }

  lemma SameLast(a: Queue, b: Queue, c: Queue, d: Queue)
    requires a + b == c + d && b != [] && d != []
    ensures b[|b| - 1] == d[|d| - 1] && a + b[..|b| - 1] == c + d[..|d| - 1]
  {
    var all, n := a + b, |a + b| - 1;
    assert all[n] == b[|b| - 1] && (c + d)[n] == d[|d| - 1];
    assert a + b[..|b| - 1] == all[..n] && c + d[..|d| - 1] == (c + d)[..n];
  }

  /** Taking the first element out and inserting it again puts it after its equals: the times
      in the queue are the same, and still sorted. */
  lemma PutBack(q: Queue, bound: int)
    requires q != [] && Sorted(q) && forall i :: 0 <= i < |q| ==> bound <= q[i].key
    ensures var q' := Inserted(q[1..], q[0]);
            Sorted(q') && multiset(q') == multiset(q) && forall i :: 0 <= i < |q'| ==> bound <= q'[i].key
  {
    InsertedSorted(q[1..], q[0]);
    InsertedBounded(q[1..], q[0], bound);
    InsertedAdds(q[1..], q[0]);
    assert q == [q[0]] + q[1..];
  }

  /** Everything scheduled lies at or after a bound that the queue and the clock respect. */
  lemma {:induction false} ScheduledLater(q: Queue, now: nat, requests: seq<Request>, n: nat, bound: int)
    requires n <= |requests| && bound <= now && forall i :: 0 <= i < |q| ==> bound <= q[i].key
    ensures forall i :: 0 <= i < |Scheduled(q, now, requests, n)| ==> bound <= Scheduled(q, now, requests, n)[i].key
  {
    if n > 0 {
      ScheduledLater(q, now, requests, n - 1, bound);
      InsertedBounded(Scheduled(q, now, requests, n - 1), CellOf(requests[n - 1], now), bound);
    }
  }

  lemma MoveKept(f: Behaviour, now: nat, fired: Queue, q: Queue, q': Queue)
    requires q != [] && q' == AfterCall(f, |fired|, q, now)
    ensures Kept(f, now, fired, q, fired + [q[0]], q')
  {
    var fired', requests := fired + [q[0]], f(|fired|, q[0]).requests;
    var cells := CellsOf(requests, now, |requests|);
    ScheduledExactly(q[1..], now, requests, |requests|);
    assert fired'[..|fired|] == fired && Answer(f, now, fired', |fired|) == cells;
    assert Made(f, now, fired, |fired|) == multiset{};
    assert Made(f, now, fired', |fired|) == multiset(cells);
    assert q == [q[0]] + q[1..];
  }

  /** What calling the first handler leaves: order kept, the other due interrupts still at the
      head of the queue, nothing lost. */
  lemma {:induction false} FiredEffect(fired: Queue, pending: Queue, now: nat, requests: seq<Request>)
    requires InOrder(fired, pending, now) && pending != [] && pending[0].key <= now
    requires forall i :: 0 <= i < |requests| ==> requests[i].fromNow > 0
    ensures var pending' := Scheduled(pending[1..], now, requests, |requests|);
            && InOrder(fired + [pending[0]], pending', now)
            && Extends(pending[1..], pending', now)
  {
    var n := |requests|;
    ScheduledExtends(pending[1..], now, requests, n);
    ScheduledLater(pending[1..], now, requests, n, pending[0].key);
    FireInOrder(fired, pending, Scheduled(pending[1..], now, requests, n), now);
  }
}
