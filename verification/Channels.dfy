/** The channel: a one-message buffer, a lock that admits one sender at a time and two
    semaphores for "message ready" and "message read".  Any number of senders and
    receivers; steps run from one P or V to the next. */
module Channels {
  import opened Common
  import opened Counting

  /** Where a thread stands.  A sender remembers its message and the position at which it
      was written.
      Locked: through the lock, nothing written.
      Written: message in the buffer and receivers told; waiting to be told it was read.
      Acknowledged: told; still holds the lock.
      Granted: a receiver told there is a message, not yet looking at the buffer. */
  datatype Pc = Outside | Locked(m: int) | Written(m: int, at: nat) | Acknowledged(m: int, at: nat) | Granted

  /** `written` and `received` are the histories of the buffer's contents. */
  datatype State = State(lock: nat, owner: Option<Tid>, semReceiver: nat, semFinish: nat, myMessage: int,
                         pcs: map<Tid, Pc>, written: seq<int>, received: seq<int>)

  datatype Step =
    | LockSender(t: Tid, m: int)
    | Write(t: Tid)
    | PassFinish(t: Tid)
    | ReleaseSender(t: Tid)
    | PassReceiver(t: Tid)
    | Read(t: Tid)

  predicate Enabled(s: State, step: Step) {
    && step.t in s.pcs
    && var pc := s.pcs[step.t];
       match step
       case LockSender(_, _) => pc.Outside? && s.lock > 0
       case Write(_) => pc.Locked?
       case PassFinish(_) => pc.Written? && s.semFinish > 0
       case ReleaseSender(_) => pc.Acknowledged?
       case PassReceiver(_) => pc.Outside? && s.semReceiver > 0
       case Read(_) => pc.Granted?
  }

  function Next(s: State, step: Step): State
    requires Enabled(s, step)
  {
    var t, pc := step.t, s.pcs[step.t];
    match step
    case LockSender(_, m) => s.(lock := s.lock - 1, pcs := s.pcs[t := Locked(m)])
    case Write(_) =>
      s.(owner := Some(t), myMessage := pc.m, written := s.written + [pc.m],
         semReceiver := s.semReceiver + 1, pcs := s.pcs[t := Written(pc.m, |s.written|)])
    case PassFinish(_) => s.(semFinish := s.semFinish - 1, pcs := s.pcs[t := Acknowledged(pc.m, pc.at)])
    case ReleaseSender(_) => s.(owner := None, lock := s.lock + 1, pcs := s.pcs[t := Outside])
    case PassReceiver(_) => s.(semReceiver := s.semReceiver - 1, pcs := s.pcs[t := Granted])
    case Read(_) =>
      s.(received := s.received + [s.myMessage], semFinish := s.semFinish + 1, pcs := s.pcs[t := Outside])
  }

  function Init(threads: set<Tid>, garbage: int): State {
    State(1, None, 0, 0, garbage, map t | t in threads :: Outside, [], [])
  }

  ghost predicate IsRun(threads: set<Tid>, garbage: int, run: seq<State>, steps: seq<Step>) {
    && |run| == |steps| + 1
    && run[0] == Init(threads, garbage)
    && forall i :: 0 <= i < |steps| ==> Enabled(run[i], steps[i]) && run[i + 1] == Next(run[i], steps[i])
  }

  // ----- The invariant -----

  predicate Sending(pc: Pc) { pc.Locked? || pc.Written? || pc.Acknowledged? }
  predicate IsWritten(pc: Pc) { pc.Written? }
  predicate IsGranted(pc: Pc) { pc.Granted? }
  predicate Owns(pc: Pc) { pc.Written? || pc.Acknowledged? }

  /** The one token that travels: ready, granted, read. */
  ghost function Tokens(s: State): nat {
    s.semReceiver + Count(s.pcs, IsGranted) + s.semFinish
  }

  /** What a sender's position promises about the histories. */
  predicate SenderView(s: State, pc: Pc) {
    && (pc.Written? ==> |s.written| == pc.at + 1 && s.written[pc.at] == pc.m == s.myMessage)
    && (pc.Acknowledged? ==> s.received == s.written && |s.written| == pc.at + 1 && s.written[pc.at] == pc.m)
  }

  ghost predicate Inv(s: State) {
    && s.lock + Count(s.pcs, Sending) == 1
    && Tokens(s) == Count(s.pcs, IsWritten)
    && (forall t :: t in s.pcs ==> SenderView(s, s.pcs[t]))
    && (forall t: Tid :: s.owner == Some(t) <==> t in s.pcs && Owns(s.pcs[t]))
    && s.written == (if s.semReceiver + Count(s.pcs, IsGranted) > 0 then s.received + [s.myMessage] else s.received)
  }

  lemma Moves(s: State, t: Tid, pc: Pc)
    requires t in s.pcs
    ensures var pcs := s.pcs[t := pc];
            && Count(pcs, Sending) == Count(s.pcs, Sending) - One(Sending(s.pcs[t])) + One(Sending(pc))
            && Count(pcs, IsWritten) == Count(s.pcs, IsWritten) - One(IsWritten(s.pcs[t])) + One(IsWritten(pc))
            && Count(pcs, IsGranted) == Count(s.pcs, IsGranted) - One(IsGranted(s.pcs[t])) + One(IsGranted(pc))
    ensures Sending(s.pcs[t]) ==> Count(s.pcs, Sending) >= 1
    ensures IsWritten(s.pcs[t]) ==> Count(s.pcs, IsWritten) >= 1
    ensures IsGranted(s.pcs[t]) ==> Count(s.pcs, IsGranted) >= 1
  {
    CountMove(s.pcs, Sending, t, pc);
    CountMove(s.pcs, IsWritten, t, pc);
    CountMove(s.pcs, IsGranted, t, pc);
  }

  /** The lock admits one sender, so at most one message is under way. */
  lemma OneSender(s: State)
    requires Inv(s)
    ensures forall t, u :: t in s.pcs && u in s.pcs && Sending(s.pcs[t]) && Sending(s.pcs[u]) ==> t == u
    ensures Count(s.pcs, IsWritten) <= Count(s.pcs, Sending) <= 1
  {
    forall t, u | t in s.pcs && u in s.pcs && Sending(s.pcs[t]) && Sending(s.pcs[u]) ensures t == u {
      CountTwo(s.pcs, Sending, t, u);
    }
    assert Where(s.pcs, IsWritten) <= Where(s.pcs, Sending);
    assert Where(s.pcs, Sending) == Where(s.pcs, IsWritten) + (Where(s.pcs, Sending) - Where(s.pcs, IsWritten));
  }

  /** Outside of Written there is no token. */
  lemma NoToken(s: State, t: Tid)
    requires Inv(s) && t in s.pcs && Sending(s.pcs[t]) && !s.pcs[t].Written?
    ensures Tokens(s) == 0
  {
    OneSender(s);
    CountZero(s.pcs, IsWritten);
  }

  lemma SenderStepKeepsInv(s: State, step: Step)
    requires Inv(s) && Enabled(s, step)
    requires step.LockSender? || step.Write? || step.PassFinish? || step.ReleaseSender?
    ensures Inv(Next(s, step))
  {
    OneSender(s);
    if step.Write? || step.ReleaseSender? {
      NoToken(s, step.t);
    }
    if step.LockSender? {
      CountZero(s.pcs, Sending);
    }
    Moves(s, step.t, Next(s, step).pcs[step.t]);
  }

  lemma ReceiverStepKeepsInv(s: State, step: Step)
    requires Inv(s) && Enabled(s, step)
    requires step.PassReceiver? || step.Read?
    ensures Inv(Next(s, step))
  {
    OneSender(s);
    Moves(s, step.t, Next(s, step).pcs[step.t]);
    if step.Read? {
      assert Count(s.pcs, IsGranted) == 1 && s.semReceiver == 0;
      CountZero(s.pcs, IsWritten);
      var w :| w in s.pcs && IsWritten(s.pcs[w]);
      assert forall t :: t in s.pcs && Sending(s.pcs[t]) ==> t == w;
    }
  }

  lemma StepKeepsInv(s: State, step: Step)
    requires Inv(s) && Enabled(s, step)
    ensures Inv(Next(s, step))
  {
    if step.PassReceiver? || step.Read? {
      ReceiverStepKeepsInv(s, step);
    } else {
      SenderStepKeepsInv(s, step);
    }
  }

  lemma {:induction false} RunKeepsInv(threads: set<Tid>, garbage: int, run: seq<State>, steps: seq<Step>, i: nat)
    requires IsRun(threads, garbage, run, steps) && i < |run|
    ensures Inv(run[i])
  {
    if i == 0 {
      CountZero(run[0].pcs, Sending);
      CountZero(run[0].pcs, IsWritten);
      CountZero(run[0].pcs, IsGranted);
    } else {
      RunKeepsInv(threads, garbage, run, steps, i - 1);
      assert run[i - 1 + 1] == Next(run[i - 1], steps[i - 1]);
      StepKeepsInv(run[i - 1], steps[i - 1]);
    }
  }

  // ----- Whose messages they are -----

  predicate IsLock(step: Step, t: Tid) { step.LockSender? && step.t == t }

  /** The last call of Send by a thread before step `i`. */
  function LastCall(steps: seq<Step>, t: Tid, i: nat): (r: Option<nat>)
    requires i <= |steps|
    ensures r.Some? ==> r.value < i && IsLock(steps[r.value], t) && forall k :: r.value < k < i ==> !IsLock(steps[k], t)
    ensures r.None? ==> forall k :: 0 <= k < i ==> !IsLock(steps[k], t)
  {
    if i == 0 then None else if IsLock(steps[i - 1], t) then Some(i - 1) else LastCall(steps, t, i - 1)
  }

  /** The arguments of Send, in the order in which the senders write them. */
  function Sent(steps: seq<Step>, i: nat): seq<int>
    requires i <= |steps|
  {
    if i == 0 then []
    else if steps[i - 1].Write? && LastCall(steps, steps[i - 1].t, i - 1).Some?
    then Sent(steps, i - 1) + [steps[LastCall(steps, steps[i - 1].t, i - 1).value].m]
    else Sent(steps, i - 1)
  }

  /** A sender carries the message of its own call. */
  lemma {:induction false} CarriesOwnMessage(threads: set<Tid>, garbage: int, run: seq<State>, steps: seq<Step>, i: nat, t: Tid)
    requires IsRun(threads, garbage, run, steps) && i < |run| && t in run[i].pcs && Sending(run[i].pcs[t])
    ensures LastCall(steps, t, i).Some? && steps[LastCall(steps, t, i).value].m == run[i].pcs[t].m
  {
    if i > 0 {
      assert run[i - 1 + 1] == Next(run[i - 1], steps[i - 1]);
      if !IsLock(steps[i - 1], t) {
        CarriesOwnMessage(threads, garbage, run, steps, i - 1, t);
      }
    }
  }

  lemma {:induction false} WrittenIsSent(threads: set<Tid>, garbage: int, run: seq<State>, steps: seq<Step>, i: nat)
    requires IsRun(threads, garbage, run, steps) && i < |run|
    ensures run[i].written == Sent(steps, i)
  {
    if i > 0 {
      var step := steps[i - 1];
      WrittenIsSent(threads, garbage, run, steps, i - 1);
      assert run[i - 1 + 1] == Next(run[i - 1], step);
      if step.Write? {
        CarriesOwnMessage(threads, garbage, run, steps, i - 1, step.t);
      }
    }
  }

  // ----- What clients rely on -----

  /** In order, nothing lost, nothing twice: what was received is what the senders passed to Send,
      short of at most the message now in the buffer. */
  lemma InOrder(threads: set<Tid>, garbage: int, run: seq<State>, steps: seq<Step>, i: nat)
    requires IsRun(threads, garbage, run, steps) && i < |run|
    ensures run[i].received <= run[i].written == Sent(steps, i)
    ensures |run[i].written| <= |run[i].received| + 1
  {
    RunKeepsInv(threads, garbage, run, steps, i);
    WrittenIsSent(threads, garbage, run, steps, i);
  }

  ghost predicate IsPath(path: seq<State>, steps: seq<Step>) {
    && |path| == |steps| + 1
    && forall i :: 0 <= i < |steps| ==> Enabled(path[i], steps[i]) && path[i + 1] == Next(path[i], steps[i])
  }

  /** One Send against one Receive: while nobody sends and no thread is about to read, they go
      through to the end, the receiver reads the sender's message, and all else is as it was. */
  lemma Rendezvous(s: State, t: Tid, u: Tid, m: int) returns (path: seq<State>)
    requires Inv(s) && s.lock > 0 && t != u && t in s.pcs && u in s.pcs && s.pcs[t].Outside? && s.pcs[u].Outside?
    ensures IsPath(path, [LockSender(t, m), Write(t), PassReceiver(u), Read(u), PassFinish(t), ReleaseSender(t)]) && path[0] == s
    ensures path[3].myMessage == m && path[4].received == s.received + [m]
    ensures path[6] == s.(myMessage := m, written := s.written + [m], received := s.received + [m])
  {
    Quiet(s);
    var s1 := Next(s, LockSender(t, m));
    var s2 := Next(s1, Write(t));
    var s3 := Next(s2, PassReceiver(u));
    var s4 := Next(s3, Read(u));
    var s5 := Next(s4, PassFinish(t));
    var s6 := Next(s5, ReleaseSender(t));
    assert s6.pcs == s.pcs;
    path := [s, s1, s2, s3, s4, s5, s6];
  }

  lemma Quiet(s: State)
    requires Inv(s) && s.lock > 0
    ensures s.semReceiver == 0 && s.semFinish == 0 && s.owner == None
  {
    CountZero(s.pcs, Sending);
    CountZero(s.pcs, IsWritten);
  }

  /** A receiver takes the one message that is outstanding, never a stale one. */
  lemma ReceiveTakesNext(threads: set<Tid>, garbage: int, run: seq<State>, steps: seq<Step>, i: nat)
    requires IsRun(threads, garbage, run, steps) && i < |steps| && steps[i].Read?
    ensures |run[i].received| < |run[i].written|
    ensures run[i].myMessage == run[i].written[|run[i].received|]
  {
    RunKeepsInv(threads, garbage, run, steps, i);
    Moves(run[i], steps[i].t, Outside);
  }

  /** Rendezvous: when Send returns, its own message has been read, at its own position. */
  lemma SendReturnsAfterRead(threads: set<Tid>, garbage: int, run: seq<State>, steps: seq<Step>, i: nat)
    requires IsRun(threads, garbage, run, steps) && i < |steps| && steps[i].ReleaseSender?
    ensures Enabled(run[i], steps[i])
    ensures var pc := run[i].pcs[steps[i].t];
            pc.at < |run[i].received| && run[i].received[pc.at] == pc.m
    ensures LastCall(steps, steps[i].t, i).Some? && run[i].pcs[steps[i].t].m == steps[LastCall(steps, steps[i].t, i).value].m
    ensures run[i].owner == Some(steps[i].t)
  {
    RunKeepsInv(threads, garbage, run, steps, i);
    CarriesOwnMessage(threads, garbage, run, steps, i, steps[i].t);
    assert SenderView(run[i], run[i].pcs[steps[i].t]);
  }

  /** A sender that waits is never forgotten: its message is on offer, in a receiver's hands,
      or acknowledged. */
  lemma SenderIsServed(threads: set<Tid>, garbage: int, run: seq<State>, steps: seq<Step>, i: nat, t: Tid)
    requires IsRun(threads, garbage, run, steps) && i < |run|
    requires t in run[i].pcs && run[i].pcs[t].Written?
    ensures run[i].semReceiver > 0 || Enabled(run[i], PassFinish(t)) || exists u :: Enabled(run[i], Read(u))
  {
    var s := run[i];
    RunKeepsInv(threads, garbage, run, steps, i);
    Moves(s, t, Outside);
    if s.semReceiver == 0 && s.semFinish == 0 {
      CountZero(s.pcs, IsGranted);
      var u :| u in s.pcs && IsGranted(s.pcs[u]);
      assert Enabled(s, Read(u));
    }
  }
}
