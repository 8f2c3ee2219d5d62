/** The interrupt hardware as an object: a linked list of pending interrupts, drained whenever
    time advances. */
module Interrupts {
  import opened Lists
  import opened PendingQueues

  class Interrupt {
    const behaviour: Behaviour
    var on: bool
    var status: MachineStatus
    /** The pending interrupts, sorted by time. */
    const pending: List<Pending>
    var inHandler: bool
    var yieldOnReturn: bool
    var totalTicks: nat
    var idleTicks: nat
    var systemTicks: nat
    var userTicks: nat
    /** How many handlers were called so far, and which. */
    var calls: nat
    ghost var fired: Queue

    ghost predicate ListOk()
      reads pending, pending.Repr
    {
      this !in pending.Repr && pending.Valid()
    }

    /** Time is accounted for; the queue is sorted; over the whole run handlers fire in
        order of their scheduled time, never early, and nothing pending precedes them. */
    ghost predicate Valid()
      reads this, pending, pending.Repr
    {
      && ListOk() && Prompt(behaviour)
      && totalTicks == idleTicks + systemTicks + userTicks
      && calls == |fired| && !inHandler
      && InOrder(fired, pending.cells, totalTicks)
    }

    lemma IsValid()
      requires ListOk() && Prompt(behaviour) && calls == |fired| && !inHandler
      requires totalTicks == idleTicks + systemTicks + userTicks && InOrder(fired, pending.cells, totalTicks)
      ensures Valid()
    {
    }

    constructor (behaviour: Behaviour)
      requires Prompt(behaviour)
      ensures fresh(pending.Repr) && this.behaviour == behaviour && !on && status == SystemMode && !yieldOnReturn
      ensures pending.cells == [] && fired == [] && totalTicks == 0
      ensures Valid()
    {
      var list := new List<Pending>();
      this.behaviour, pending := behaviour, list;
      on, status, inHandler, yieldOnReturn := false, SystemMode, false, false;
      totalTicks, idleTicks, systemTicks, userTicks, calls, fired := 0, 0, 0, 0, 0, [];
    }

    method Schedule(r: Request)
      requires ListOk() && r.fromNow > 0
      modifies pending.Repr
      ensures fresh(pending.Repr - old(pending.Repr)) && ListOk()
      ensures pending.cells == Inserted(old(pending.cells), CellOf(r, totalTicks)) && IsPendingFor(CellOf(r, totalTicks), r, totalTicks)
    {
      pending.SortedInsert(Pending(r.handler, r.kind), totalTicks + r.fromNow);
    }

    method MakeRequests(requests: seq<Request>)
      requires ListOk() && AllAhead(requests)
      modifies pending.Repr
      ensures fresh(pending.Repr - old(pending.Repr)) && ListOk()
      ensures pending.cells == Scheduled(old(pending.cells), totalTicks, requests, |requests|)
    {
      for i := 0 to |requests|
        invariant fresh(pending.Repr - old(pending.Repr)) && ListOk()
        invariant pending.cells == Scheduled(old(pending.cells), totalTicks, requests, i)
      {
        Schedule(requests[i]);
      }
    }

    /** A handler at work, in system mode: it makes its requests one by one. */
    method RunHandler(e: Effect)
      requires ListOk() && AllAhead(e.requests)
      modifies this`yieldOnReturn, this`status, this`inHandler, pending.Repr
      ensures fresh(pending.Repr - old(pending.Repr)) && ListOk() && status == old(status) && !inHandler
      ensures pending.cells == Scheduled(old(pending.cells), totalTicks, e.requests, |e.requests|)
      ensures yieldOnReturn == (old(yieldOnReturn) || e.switches)
    {
      var oldStatus := status;
      inHandler, status := true, SystemMode;
      MakeRequests(e.requests);
      if e.switches {
        yieldOnReturn := true;
      }
      status, inHandler := oldStatus, false;
    }

    /** Calling a handler. */
    method CallHandler(c: Cell<Pending>)
      requires ListOk() && Prompt(behaviour) && calls == |fired|
      modifies this`yieldOnReturn, this`calls, this`fired, this`status, this`inHandler, pending.Repr
      ensures fresh(pending.Repr - old(pending.Repr)) && ListOk() && status == old(status) && !inHandler
      ensures var e := behaviour(old(calls), c);
              && pending.cells == Scheduled(old(pending.cells), totalTicks, e.requests, |e.requests|)
              && yieldOnReturn == (old(yieldOnReturn) || e.switches)
      ensures calls == |fired| && fired == old(fired) + [c]
    {
      var e := behaviour(calls, c);
      assert AllAhead(e.requests);
      calls, fired := calls + 1, fired + [c];
      RunHandler(e);
    }

    /** Fires the first pending interrupt if it is due; when asked, advances the clock to it
        first.  One call fires at most one handler. */
    method CheckIfDue(advanceClock: bool) returns (more: bool)
      requires ListOk() && Prompt(behaviour) && calls == |fired|
      modifies this`totalTicks, this`idleTicks
      modifies this`yieldOnReturn, this`calls, this`fired, this`status, this`inHandler, pending.Repr
      ensures fresh(pending.Repr - old(pending.Repr)) && ListOk() && calls == |fired|
      ensures status == old(status) && (old(!inHandler) ==> !inHandler)
      ensures totalTicks == if advanceClock then Reached(old(pending.cells), old(totalTicks)) else old(totalTicks)
      ensures totalTicks - idleTicks == old(totalTicks - idleTicks)
      ensures more == Fires(status, old(pending.cells), totalTicks)
      ensures more <==>
              && old(pending.cells) != [] && old(pending.cells)[0].key <= totalTicks
              && !(status == IdleMode && |old(pending.cells)| == 1 && old(pending.cells)[0].item.kind == Timer)
      ensures more ==> fired == old(fired) + [old(pending.cells)[0]]
      ensures more ==> pending.cells == AfterCall(behaviour, old(calls), old(pending.cells), totalTicks)
      ensures more ==> yieldOnReturn == (old(yieldOnReturn) || behaviour(old(calls), old(pending.cells)[0]).switches)
      ensures !more ==> fired == old(fired) && yieldOnReturn == old(yieldOnReturn)
      ensures !more ==> pending.cells == Settled(old(pending.cells))
    {
      var popped := pending.SortedPop();
      if popped.None? {
        return false;
      }
      var toOccur := popped.value;
      if advanceClock && toOccur.key > totalTicks {
        idleTicks := idleTicks + (toOccur.key - totalTicks);
        totalTicks := toOccur.key;
      } else if toOccur.key > totalTicks {
        pending.SortedInsert(toOccur.item, toOccur.key);
        return false;
      }
      if status == IdleMode && toOccur.item.kind == Timer && pending.IsEmpty() {
        pending.SortedInsert(toOccur.item, toOccur.key);
        return false;
      }
      CallHandler(toOccur);
      return true;
    }

    /** One check during draining, which so far led from one queue to another. */
    method DrainOne(ghost fired0: Queue, ghost q0: Queue) returns (more: bool)
      requires ListOk() && Prompt(behaviour) && calls == |fired| && !inHandler
      requires Drains(behaviour, status, totalTicks, fired0, q0, fired, pending.cells)
      modifies this`totalTicks, this`idleTicks
      modifies this`yieldOnReturn, this`calls, this`fired, this`status, this`inHandler, pending.Repr
      ensures fresh(pending.Repr - old(pending.Repr)) && ListOk() && calls == |fired| && !inHandler
      ensures status == old(status) && totalTicks == old(totalTicks) && idleTicks == old(idleTicks)
      ensures Drains(behaviour, status, totalTicks, fired0, q0, fired, pending.cells)
      ensures if more then DueCount(pending.cells, totalTicks) < old(DueCount(pending.cells, totalTicks))
              else !Fires(status, pending.cells, totalTicks)
      ensures old(fired) <= fired && yieldOnReturn == (old(yieldOnReturn) || Asked(behaviour, fired, |old(fired)|))
    {
      ghost var f, q := fired, pending.cells;
      more := CheckIfDue(false);
      if more {
        DrainsCall(behaviour, status, totalTicks, fired0, q0, f, q);
        AskedNext(behaviour, f, q[0], |f|);
      } else {
        DrainsSettle(behaviour, status, totalTicks, fired0, q0, f, q);
      }
    }

    /** The draining loop: calls every handler that is due, oldest first, and no other.  It
        stops because handlers schedule only in the future.  Something due is left, namely the
        timer that was last in the queue, exactly in the case `LeavesTimer` describes. */
    method Drain()
      requires Valid() && !on
      modifies this`totalTicks, this`idleTicks
      modifies this`yieldOnReturn, this`calls, this`fired, this`status, this`inHandler, pending.Repr
      ensures fresh(pending.Repr - old(pending.Repr)) && ListOk() && calls == |fired| && !inHandler
      ensures status == old(status) && totalTicks == old(totalTicks) && idleTicks == old(idleTicks)
      ensures Drained(behaviour, status, totalTicks, old(fired), old(pending.cells), fired, pending.cells)
      ensures yieldOnReturn == (old(yieldOnReturn) || Asked(behaviour, fired, |old(fired)|))
    {
      ghost var fired0, q0 := fired, pending.cells;
      var more := true;
      while more
        invariant fresh(pending.Repr - old(pending.Repr)) && ListOk() && calls == |fired| && !inHandler
        invariant status == old(status) && totalTicks == old(totalTicks) && idleTicks == old(idleTicks)
        invariant Drains(behaviour, status, totalTicks, fired0, q0, fired, pending.cells)
        invariant !more ==> !Fires(status, pending.cells, totalTicks)
        invariant yieldOnReturn == (old(yieldOnReturn) || Asked(behaviour, fired, |fired0|))
        decreases more, DueCount(pending.cells, totalTicks)
      {
        ghost var f := fired;
        more := DrainOne(fired0, q0);
        AskedCompose(behaviour, f, fired, |fired0|);
      }
      DrainsEnd(behaviour, status, totalTicks, fired0, q0, fired, pending.cells);
    }

    method Advance()
      requires Valid()
      modifies this`totalTicks, this`systemTicks, this`userTicks
      ensures Valid()
      ensures totalTicks == old(totalTicks) + (if status == SystemMode then SYSTEM_TICK else USER_TICK)
    {
      if status == SystemMode {
        totalTicks := totalTicks + SYSTEM_TICK;
        systemTicks := systemTicks + SYSTEM_TICK;
      } else {
        totalTicks := totalTicks + USER_TICK;
        userTicks := userTicks + USER_TICK;
      }
      InOrderLater(fired, pending.cells, old(totalTicks), totalTicks);
    }

    /** What a tick does, up to the point where the current thread may have to yield: time moves
        by one tick of the mode, exactly the handlers due by then are called, in order, what is
        left lies in the future, and the thread yields exactly if that was asked for. */
    twostate predicate Ticked(switching: bool)
      reads this, pending
    {
      && totalTicks == old(totalTicks) + (if old(status) == SystemMode then SYSTEM_TICK else USER_TICK)
      && idleTicks == old(idleTicks)
      && AllCalled(behaviour, totalTicks, old(fired), old(pending.cells), fired, pending.cells)
      && !yieldOnReturn && status == (if switching then SystemMode else old(status))
      && (switching <==> old(yieldOnReturn) || Asked(behaviour, fired, |old(fired)|))
    }

    /** Draining while the machine does not idle. */
    method DrainAll()
      requires Valid() && !on && status != IdleMode
      modifies this`totalTicks, this`idleTicks
      modifies this`yieldOnReturn, this`calls, this`fired, this`status, this`inHandler, pending.Repr
      ensures fresh(pending.Repr - old(pending.Repr)) && Valid()
      ensures status == old(status) && totalTicks == old(totalTicks) && idleTicks == old(idleTicks)
      ensures AllCalled(behaviour, totalTicks, old(fired), old(pending.cells), fired, pending.cells)
      ensures yieldOnReturn == (old(yieldOnReturn) || Asked(behaviour, fired, |old(fired)|))
    {
      ghost var fired0, q0 := fired, pending.cells;
      Drain();
      DrainedAwake(behaviour, status, totalTicks, fired0, q0, fired, pending.cells);
      IsValid();
    }

    /** One tick, up to the switch.  If `switching`, the current thread yields here: other threads
        run, and time passes, before the routine goes on and restores the mode. */
    method OneTick() returns (switching: bool)
      requires Valid() && status != IdleMode
      modifies this, pending.Repr
      ensures fresh(pending.Repr - old(pending.Repr)) && on && Ticked(switching)
      ensures Valid()
    {
      Advance();
      on := false;
      DrainAll();
      switching := EnableAgain();
    }

    /** Interrupts are enabled again, and a switch that was asked for is taken. */
    method EnableAgain() returns (switching: bool)
      requires Valid()
      modifies this`on, this`yieldOnReturn, this`status
      ensures on && switching == old(yieldOnReturn) && !yieldOnReturn
      ensures status == (if switching then SystemMode else old(status))
      ensures Valid()
    {
      on := true;
      switching := yieldOnReturn;
      if yieldOnReturn {
        yieldOnReturn := false;
        status := SystemMode;
      }
    }

    /** Enabling interrupts costs a tick; nothing else does. */
    method SetLevel(now: bool) returns (was: bool, switching: bool)
      requires Valid() && status != IdleMode
      modifies this, pending.Repr
      ensures fresh(pending.Repr - old(pending.Repr)) && on == now && was == old(on)
      ensures now && !was ==> Ticked(switching)
      ensures !now || was ==>
                && fired == old(fired) && pending.cells == old(pending.cells) && totalTicks == old(totalTicks)
                && status == old(status) && yieldOnReturn == old(yieldOnReturn) && !switching
      ensures Valid()
    {
      was, switching := on, false;
      on := now;
      if now && !was {
        switching := OneTick();
      }
    }

    /** The rest of idling, after the first handler was called. */
    method FinishIdle(ghost fired0: Queue, ghost q0: Queue)
      requires Valid() && !on && status == IdleMode && InOrder(fired0, q0, totalTicks) && Fires(IdleMode, q0, totalTicks)
      requires fired == fired0 + [q0[0]] && pending.cells == AfterCall(behaviour, |fired0|, q0, totalTicks)
      modifies this`totalTicks, this`idleTicks
      modifies this`yieldOnReturn, this`calls, this`fired, this`status, this`inHandler, pending.Repr
      ensures fresh(pending.Repr - old(pending.Repr)) && Valid()
      ensures totalTicks == old(totalTicks) && idleTicks == old(idleTicks)
      ensures status == SystemMode && !yieldOnReturn
      ensures Drained(behaviour, IdleMode, totalTicks, fired0, q0, fired, pending.cells)
    {
      Drain();
      DrainedAfterCall(behaviour, IdleMode, totalTicks, fired0, q0, fired, pending.cells);
      yieldOnReturn := false;
      status := SystemMode;
      IsValid();
    }

    /** With no thread ready, jumps to the next interrupt; halts exactly when there is none or
        only the timer is left.  Otherwise everything due by then is called, in order, save the
        timer that is left behind in the case `LeavesTimer` describes. */
    method Idle() returns (halted: bool)
      requires Valid() && !on
      modifies this, pending.Repr
      ensures fresh(pending.Repr - old(pending.Repr)) && !on
      ensures halted <==>
              old(pending.cells) == [] || (|old(pending.cells)| == 1 && old(pending.cells)[0].item.kind == Timer)
      ensures totalTicks == Reached(old(pending.cells), old(totalTicks))
      ensures old(pending.cells) != [] && old(pending.cells)[0].key > old(totalTicks) ==> totalTicks == old(pending.cells)[0].key
      ensures halted ==> fired == old(fired)
      ensures !halted ==>
                && status == SystemMode && !yieldOnReturn
                && Drained(behaviour, IdleMode, totalTicks, old(fired), old(pending.cells), fired, pending.cells)
      ensures Valid()
    {
      ghost var fired0, q0 := fired, pending.cells;
      status := IdleMode;
      var found := FireNext();
      if !found {
        return true;
      }
      FinishIdle(fired0, q0);
      return false;
    }

    /** The first check of idling: the clock jumps to the next interrupt. */
    method FireNext() returns (found: bool)
      requires Valid() && status == IdleMode
      modifies this`totalTicks, this`idleTicks
      modifies this`yieldOnReturn, this`calls, this`fired, this`status, this`inHandler, pending.Repr
      ensures fresh(pending.Repr - old(pending.Repr)) && status == IdleMode
      ensures totalTicks == Reached(old(pending.cells), old(totalTicks)) && InOrder(old(fired), old(pending.cells), totalTicks)
      ensures found == Fires(IdleMode, old(pending.cells), totalTicks)
      ensures !found ==> fired == old(fired)
      ensures found ==> fired == old(fired) + [old(pending.cells)[0]]
      ensures found ==> pending.cells == AfterCall(behaviour, |old(fired)|, old(pending.cells), totalTicks)
      ensures Valid()
    {
      ghost var fired0, q0 := fired, pending.cells;
      found := CheckIfDue(true);
      InOrderLater(fired0, q0, old(totalTicks), totalTicks);
      if found {
        CallEffect(behaviour, fired0, q0, totalTicks);
      } else {
        SettledInOrder(fired0, q0, totalTicks);
      }
      IsValid();
    }
  }

  function Silent(n: nat, c: Cell<Pending>): Effect { Effect([], false) }

  /** The case at hand: a device and the timer pending for the same tick, and a device handler
      that schedules nothing.  Idling calls the device's handler and leaves the timer due. */
  method TimerIsLeft() returns (interrupt: Interrupt)
    ensures fresh(interrupt) && interrupt.Valid() && interrupt.totalTicks == 5
    ensures interrupt.fired == [Cell(5, Pending(0, Device))] && interrupt.pending.cells == [Cell(5, Pending(1, Timer))]
    ensures DueCount(interrupt.pending.cells, interrupt.totalTicks) == 1
  {
    interrupt := new Interrupt(Silent);
    var device, timer := Request(0, Device, 5), Request(1, Timer, 5);
    interrupt.Schedule(device);
    assert interrupt.pending.cells == [CellOf(device, 0)];
    interrupt.Schedule(timer);
    assert interrupt.pending.cells == [CellOf(device, 0), CellOf(timer, 0)];
    ghost var q := interrupt.pending.cells;
    TimerExample(q);
    var halted := interrupt.Idle();
  }

  lemma TimerExample(q: Queue)
    requires q == [Cell(5, Pending(0, Device)), Cell(5, Pending(1, Timer))]
    ensures LeavesTimer(Silent, 0, IdleMode, q, 5)
    ensures q[..|q| - 1] == [q[0]] && DueCount([q[1]], 5) == 1
  {
    DueCountUnique(q, 5, 2);
  }
}
