/** The synchronous disk: a lock and a semaphore over a device that accepts one request at
    a time and announces its completion by an interrupt.  Any number of threads issue
    requests; steps run from one P or V to the next, and the completion interrupt may
    come at any later point. */
module SynchDisks {
  import opened Common
  import opened Counting

  type Data = seq<nat>

  datatype Op = ReadSector(sector: nat) | WriteSector(sector: nat, data: Data)

  /** Where a thread stands.  `since` is how many requests the device had served when the
      operation was called, `at` its own place among them, `data` its buffer.
      Called: waiting for the lock.  Locked: has it, request not yet made.
      Issued: request made, waiting for the interrupt.  Completed: woken by it. */
  datatype Pc =
    | Outside
    | Called(op: Op, since: nat)
    | Locked(op: Op, since: nat)
    | Issued(op: Op, since: nat, at: nat, data: Data)
    | Completed(op: Op, since: nat, at: nat, data: Data)

  /** A served request: the operation and what its buffer holds afterwards. */
  datatype Entry = Entry(op: Op, data: Data)

  /** `active` is the device's busy flag, `scheduled` its outstanding interrupts, `log` the
      requests served so far. */
  datatype State = State(lock: nat, owner: Option<Tid>, sem: nat, active: bool, scheduled: nat,
                         sectors: seq<Data>, pcs: map<Tid, Pc>, log: seq<Entry>)

  datatype Step =
    | Call(t: Tid, op: Op)
    | Acquire(t: Tid)
    | Request(t: Tid)
    | Interrupt
    | PassSemaphore(t: Tid)
    | Release(t: Tid)

  predicate Enabled(s: State, step: Step) {
    if step.Interrupt? then s.scheduled > 0
    else
      && step.t in s.pcs
      && var pc := s.pcs[step.t];
         match step
         case Call(_, op) => pc.Outside? && op.sector < |s.sectors|
         case Acquire(_) => pc.Called? && s.lock > 0
         case Request(_) => pc.Locked? && pc.op.sector < |s.sectors|
         case PassSemaphore(_) => pc.Issued? && s.sem > 0
         case Release(_) => pc.Completed?
         case _ => false
  }

  /** The device's and the lock's own assertions. */
  predicate AssertionsHold(s: State, step: Step)
    requires Enabled(s, step)
  {
    match step
    case Acquire(t) => s.owner != Some(t)
    case Request(_) => !s.active
    case Release(t) => s.owner == Some(t)
    case _ => true
  }

  /** The contents after one operation, and what it leaves in its buffer. */
  function Apply(sectors: seq<Data>, op: Op): seq<Data> {
    if op.WriteSector? && op.sector < |sectors| then sectors[op.sector := op.data] else sectors
  }

  function Answer(sectors: seq<Data>, op: Op): Data
    requires op.sector < |sectors|
  {
    if op.WriteSector? then op.data else sectors[op.sector]
  }

  function Next(s: State, step: Step): State
    requires Enabled(s, step)
  {
    if step.Interrupt? then s.(active := false, scheduled := s.scheduled - 1, sem := s.sem + 1)
    else
      var t, pc := step.t, s.pcs[step.t];
      match step
      case Call(_, op) => s.(pcs := s.pcs[t := Called(op, |s.log|)])
      case Acquire(_) => s.(lock := s.lock - 1, pcs := s.pcs[t := Locked(pc.op, pc.since)])
      case Request(_) =>
        var data := Answer(s.sectors, pc.op);
        s.(owner := Some(t), active := true, scheduled := s.scheduled + 1,
           sectors := Apply(s.sectors, pc.op), log := s.log + [Entry(pc.op, data)],
           pcs := s.pcs[t := Issued(pc.op, pc.since, |s.log|, data)])
      case PassSemaphore(_) =>
        s.(sem := s.sem - 1, pcs := s.pcs[t := Completed(pc.op, pc.since, pc.at, pc.data)])
      case Release(_) => s.(owner := None, lock := s.lock + 1, pcs := s.pcs[t := Outside])
  }

  function Init(threads: set<Tid>, sectors: seq<Data>): State {
    State(1, None, 0, false, 0, sectors, map t | t in threads :: Outside, [])
  }

  ghost predicate IsRun(threads: set<Tid>, sectors: seq<Data>, run: seq<State>, steps: seq<Step>) {
    && |run| == |steps| + 1
    && run[0] == Init(threads, sectors)
    && forall i :: 0 <= i < |steps| ==> Enabled(run[i], steps[i]) && run[i + 1] == Next(run[i], steps[i])
  }

  // ----- The reference: an array of sectors, one operation at a time -----

  function Replay(sectors: seq<Data>, log: seq<Entry>): seq<Data> {
    if log == [] then sectors else Apply(Replay(sectors, log[..|log| - 1]), log[|log| - 1].op)
  }

  /** Every logged operation got the answer the array would have given at that point. */
  ghost predicate Atomic(sectors: seq<Data>, log: seq<Entry>) {
    forall k :: 0 <= k < |log| ==> AtomicAt(sectors, log, k)
  }

  ghost predicate AtomicAt(sectors: seq<Data>, log: seq<Entry>, k: nat)
    requires k < |log|
  {
    var before := Replay(sectors, log[..k]);
    log[k].op.sector < |before| && log[k].data == Answer(before, log[k].op)
  }

  lemma AtomicExtends(sectors: seq<Data>, log: seq<Entry>, op: Op)
    requires Atomic(sectors, log) && op.sector < |Replay(sectors, log)|
    ensures var log' := log + [Entry(op, Answer(Replay(sectors, log), op))];
            Atomic(sectors, log') && Replay(sectors, log') == Apply(Replay(sectors, log), op)
  {
    var log' := log + [Entry(op, Answer(Replay(sectors, log), op))];
    assert log'[..|log|] == log;
    forall k | 0 <= k < |log'| ensures AtomicAt(sectors, log', k) {
      if k < |log| {
        assert AtomicAt(sectors, log, k);
        assert log'[..k] == log[..k];
      }
    }
  }

  // ----- The invariant -----

  predicate Busy(pc: Pc) { pc.Locked? || pc.Issued? || pc.Completed? }
  predicate IsIssued(pc: Pc) { pc.Issued? }
  predicate Owns(pc: Pc) { pc.Issued? || pc.Completed? }

  predicate View(s: State, pc: Pc) {
    && (pc.Called? || pc.Locked? ==> pc.op.sector < |s.sectors| && pc.since <= |s.log|)
    && (pc.Issued? || pc.Completed? ==> pc.since <= pc.at < |s.log| && s.log[pc.at] == Entry(pc.op, pc.data))
  }

  ghost predicate Inv(initial: seq<Data>, s: State) {
    && s.lock + Count(s.pcs, Busy) == 1
    && s.scheduled + s.sem == Count(s.pcs, IsIssued)
    && (s.active <==> s.scheduled > 0)
    && (forall t: Tid :: s.owner == Some(t) <==> t in s.pcs && Owns(s.pcs[t]))
    && (forall t :: t in s.pcs ==> View(s, s.pcs[t]))
    && s.sectors == Replay(initial, s.log)
    && Atomic(initial, s.log)
  }

  lemma Moves(s: State, t: Tid, pc: Pc)
    requires t in s.pcs
    ensures var pcs := s.pcs[t := pc];
            && Count(pcs, Busy) == Count(s.pcs, Busy) - One(Busy(s.pcs[t])) + One(Busy(pc))
            && Count(pcs, IsIssued) == Count(s.pcs, IsIssued) - One(IsIssued(s.pcs[t])) + One(IsIssued(pc))
    ensures Busy(s.pcs[t]) ==> Count(s.pcs, Busy) >= 1
  {
    CountMove(s.pcs, Busy, t, pc);
    CountMove(s.pcs, IsIssued, t, pc);
  }

  /** At most one request is between lock and release, hence at most one is outstanding. */
  lemma OneRequest(initial: seq<Data>, s: State)
    requires Inv(initial, s)
    ensures forall t, u :: t in s.pcs && u in s.pcs && Busy(s.pcs[t]) && Busy(s.pcs[u]) ==> t == u
    ensures Count(s.pcs, IsIssued) <= Count(s.pcs, Busy) <= 1
    ensures s.scheduled <= 1
  {
    forall t, u | t in s.pcs && u in s.pcs && Busy(s.pcs[t]) && Busy(s.pcs[u]) ensures t == u {
      CountTwo(s.pcs, Busy, t, u);
    }
    assert Where(s.pcs, Busy) == Where(s.pcs, IsIssued) + (Where(s.pcs, Busy) - Where(s.pcs, IsIssued));
  }

  /** A thread that is busy but not waiting for the device finds it at rest. */
  lemma DeviceAtRest(initial: seq<Data>, s: State, t: Tid)
    requires Inv(initial, s) && t in s.pcs && Busy(s.pcs[t]) && !s.pcs[t].Issued?
    ensures s.scheduled == 0 && s.sem == 0 && !s.active
  {
    OneRequest(initial, s);
    CountZero(s.pcs, IsIssued);
  }

  lemma AssertionsNeverFail(initial: seq<Data>, s: State, step: Step)
    requires Inv(initial, s) && Enabled(s, step)
    ensures AssertionsHold(s, step)
  {
    if step.Request? {
      DeviceAtRest(initial, s, step.t);
    }
  }

  lemma RequestKeepsInv(initial: seq<Data>, s: State, t: Tid)
    requires Inv(initial, s) && Enabled(s, Request(t))
    ensures Inv(initial, Next(s, Request(t)))
  {
    var s' := Next(s, Request(t));
    OneRequest(initial, s);
    DeviceAtRest(initial, s, t);
    AtomicExtends(initial, s.log, s.pcs[t].op);
    Moves(s, t, s'.pcs[t]);
  }

  lemma OtherStepKeepsInv(initial: seq<Data>, s: State, step: Step)
    requires Inv(initial, s) && Enabled(s, step) && !step.Request? && !step.Interrupt?
    ensures Inv(initial, Next(s, step))
  {
    OneRequest(initial, s);
    Moves(s, step.t, Next(s, step).pcs[step.t]);
    if step.Acquire? {
      CountZero(s.pcs, Busy);
    }
  }

  lemma StepKeepsInv(initial: seq<Data>, s: State, step: Step)
    requires Inv(initial, s) && Enabled(s, step)
    ensures Inv(initial, Next(s, step))
  {
    if step.Request? {
      RequestKeepsInv(initial, s, step.t);
    } else if step.Interrupt? {
      OneRequest(initial, s);
    } else {
      OtherStepKeepsInv(initial, s, step);
    }
  }

  lemma {:induction false} RunKeepsInv(threads: set<Tid>, initial: seq<Data>, run: seq<State>, steps: seq<Step>, i: nat)
    requires IsRun(threads, initial, run, steps) && i < |run|
    ensures Inv(initial, run[i]) && HoldsLast(initial, run[i].log, run[i].sectors)
  {
    if i == 0 {
      CountZero(run[0].pcs, Busy);
      CountZero(run[0].pcs, IsIssued);
    } else {
      RunKeepsInv(threads, initial, run, steps, i - 1);
      assert run[i - 1 + 1] == Next(run[i - 1], steps[i - 1]);
      StepKeepsInv(initial, run[i - 1], steps[i - 1]);
    }
    ReplayHoldsLast(initial, run[i].log);
  }

  // ----- What clients rely on -----

  /** On every run the device is asked for one thing at a time: no assertion fails and at
      most one completion is outstanding. */
  lemma OneAtATime(threads: set<Tid>, initial: seq<Data>, run: seq<State>, steps: seq<Step>, i: nat)
    requires IsRun(threads, initial, run, steps) && i < |run|
    ensures i < |steps| ==> AssertionsHold(run[i], steps[i])
    ensures run[i].scheduled <= 1 && (run[i].active <==> run[i].scheduled == 1)
  {
    RunKeepsInv(threads, initial, run, steps, i);
    OneRequest(initial, run[i]);
    if i < |steps| {
      AssertionsNeverFail(initial, run[i], steps[i]);
    }
  }

  // ----- Whose accesses they are -----

  /** How many requests were made in the first `i` steps. */
  function Requests(steps: seq<Step>, i: nat): (n: nat)
    requires i <= |steps|
    ensures n <= i
  {
    if i == 0 then 0 else Requests(steps, i - 1) + One(steps[i - 1].Request?)
  }

  /** The log has one entry for each request made, and no others. */
  lemma {:induction false} LogIsRequests(threads: set<Tid>, initial: seq<Data>, run: seq<State>, steps: seq<Step>, i: nat)
    requires IsRun(threads, initial, run, steps) && i < |run|
    ensures |run[i].log| == Requests(steps, i)
  {
    if i > 0 {
      LogIsRequests(threads, initial, run, steps, i - 1);
      assert run[i - 1 + 1] == Next(run[i - 1], steps[i - 1]);
    }
  }

  predicate IsCall(step: Step, t: Tid) { step.Call? && step.t == t }

  /** The last step before `i` in which a thread called, or made a request. */
  function LastCall(steps: seq<Step>, t: Tid, i: nat): (r: Option<nat>)
    requires i <= |steps|
    ensures r.Some? ==> r.value < i && IsCall(steps[r.value], t)
  {
    if i == 0 then None else if IsCall(steps[i - 1], t) then Some(i - 1) else LastCall(steps, t, i - 1)
  }

  function LastRequest(steps: seq<Step>, t: Tid, i: nat): (r: Option<nat>)
    requires i <= |steps|
    ensures r.Some? ==> r.value < i && steps[r.value] == Request(t) && forall k :: r.value < k < i ==> steps[k] != Request(t)
    ensures r.None? ==> forall k :: 0 <= k < i ==> steps[k] != Request(t)
  {
    if i == 0 then None else if steps[i - 1] == Request(t) then Some(i - 1) else LastRequest(steps, t, i - 1)
  }

  /** Thread `t` has made no request between steps `c` and `i`. */
  predicate NoneSince(steps: seq<Step>, t: Tid, c: nat, i: nat)
    requires i <= |steps|
  {
    LastRequest(steps, t, i).None? || LastRequest(steps, t, i).value < c
  }

  /** What a thread carries with it is about its own call and its own request. */
  ghost predicate Traced(steps: seq<Step>, t: Tid, pc: Pc, i: nat)
    requires i <= |steps|
  {
    pc.Outside? ||
    (&& LastCall(steps, t, i).Some?
     && var c := LastCall(steps, t, i).value;
        && steps[c].op == pc.op && pc.since == Requests(steps, c)
        && if pc.Called? || pc.Locked? then NoneSince(steps, t, c, i)
           else && LastRequest(steps, t, i).Some?
                && var j := LastRequest(steps, t, i).value;
                   c < j && pc.at == Requests(steps, j) && NoneSince(steps, t, c, j))
  }

  lemma LastAt(steps: seq<Step>, t: Tid, i: nat)
    requires i < |steps|
    ensures LastCall(steps, t, i + 1) == if IsCall(steps[i], t) then Some(i) else LastCall(steps, t, i)
    ensures LastRequest(steps, t, i + 1) == if steps[i] == Request(t) then Some(i) else LastRequest(steps, t, i)
  {
  }

  /** Steps of others do not change what a thread carries. */
  lemma OthersTraced(steps: seq<Step>, t: Tid, pc: Pc, i: nat)
    requires i < |steps| && Traced(steps, t, pc, i) && !IsCall(steps[i], t) && steps[i] != Request(t)
    ensures Traced(steps, t, pc, i + 1)
  {
    LastAt(steps, t, i);
  }

  lemma OwnStepTraced(s: State, steps: seq<Step>, t: Tid, i: nat)
    requires i < |steps| && t in s.pcs && Traced(steps, t, s.pcs[t], i) && |s.log| == Requests(steps, i)
    requires Enabled(s, steps[i]) && !steps[i].Interrupt? && steps[i].t == t
    ensures Traced(steps, t, Next(s, steps[i]).pcs[t], i + 1)
  {
    LastAt(steps, t, i);
  }

  lemma {:induction false} RunIsTraced(threads: set<Tid>, initial: seq<Data>, run: seq<State>, steps: seq<Step>, i: nat, t: Tid)
    requires IsRun(threads, initial, run, steps) && i < |run| && t in run[i].pcs
    ensures Traced(steps, t, run[i].pcs[t], i)
  {
    if i > 0 {
      var s, step := run[i - 1], steps[i - 1];
      assert run[i - 1 + 1] == Next(s, step);
      RunIsTraced(threads, initial, run, steps, i - 1, t);
      LogIsRequests(threads, initial, run, steps, i - 1);
      StepIsTraced(s, steps, t, i - 1);
    }
  }

  lemma StepIsTraced(s: State, steps: seq<Step>, t: Tid, i: nat)
    requires i < |steps| && t in s.pcs && Traced(steps, t, s.pcs[t], i) && |s.log| == Requests(steps, i)
    requires Enabled(s, steps[i])
    ensures t in Next(s, steps[i]).pcs && Traced(steps, t, Next(s, steps[i]).pcs[t], i + 1)
  {
    if !steps[i].Interrupt? && steps[i].t == t {
      OwnStepTraced(s, steps, t, i);
    } else {
      OthersTraced(steps, t, s.pcs[t], i);
    }
  }

  /** A thread's own call and request, `c` and `j` steps from the beginning: the request is the
      only one it has made since, and `since` and `at` count the requests made before each. */
  ghost predicate Own(steps: seq<Step>, t: Tid, pc: Pc, c: nat, j: nat, i: nat)
    requires i <= |steps| && (pc.Issued? || pc.Completed?)
  {
    && c < j < i && steps[c] == Call(t, pc.op) && steps[j] == Request(t)
    && (forall k :: c < k < i && steps[k] == Request(t) ==> k == j)
    && pc.since == Requests(steps, c) && pc.at == Requests(steps, j)
  }

  lemma TracedIsOwn(steps: seq<Step>, t: Tid, pc: Pc, i: nat) returns (c: nat, j: nat)
    requires i <= |steps| && (pc.Issued? || pc.Completed?) && Traced(steps, t, pc, i)
    ensures Own(steps, t, pc, c, j, i)
  {
    c, j := LastCall(steps, t, i).value, LastRequest(steps, t, i).value;
    NoneBetween(steps, t, c, j);
  }

  lemma NoneBetween(steps: seq<Step>, t: Tid, c: nat, j: nat)
    requires j <= |steps| && NoneSince(steps, t, c, j)
    ensures forall k :: c <= k < j ==> steps[k] != Request(t)
  {
  }

  // ----- What the accesses mean -----

  predicate IsWrite(e: Entry, sector: nat) { e.op.WriteSector? && e.op.sector == sector }

  /** The last write to a sector among the first `n` accesses. */
  function LastWrite(log: seq<Entry>, sector: nat, n: nat): (r: Option<nat>)
    requires n <= |log|
    ensures r.Some? ==> r.value < n && IsWrite(log[r.value], sector) && forall k :: r.value < k < n ==> !IsWrite(log[k], sector)
    ensures r.None? ==> forall k :: 0 <= k < n ==> !IsWrite(log[k], sector)
  {
    if n == 0 then None else if IsWrite(log[n - 1], sector) then Some(n - 1) else LastWrite(log, sector, n - 1)
  }

  /** What it wrote, or what the disk held in the beginning if there is none. */
  function LastData(initial: seq<Data>, log: seq<Entry>, sector: nat, n: nat): Data
    requires n <= |log| && sector < |initial|
  {
    match LastWrite(log, sector, n)
    case None => initial[sector]
    case Some(k) => log[k].op.data
  }

  /** The array holds in each sector what was last written there. */
  lemma {:induction false} ArrayHoldsLast(initial: seq<Data>, log: seq<Entry>, sector: nat, n: nat)
    requires n <= |log| && sector < |initial|
    ensures var a := Replay(initial, log[..n]); |a| == |initial| && a[sector] == LastData(initial, log, sector, n)
  {
    if n > 0 {
      ArrayHoldsLast(initial, log, sector, n - 1);
      assert log[..n][..n - 1] == log[..n - 1];
    }
  }

  /** An array that holds in each sector what was last written there, or what was there at first. */
  ghost predicate HoldsLast(initial: seq<Data>, log: seq<Entry>, sectors: seq<Data>) {
    |sectors| == |initial| && forall x :: 0 <= x < |initial| ==> sectors[x] == LastData(initial, log, x, |log|)
  }

  lemma ReplayHoldsLast(initial: seq<Data>, log: seq<Entry>)
    ensures HoldsLast(initial, log, Replay(initial, log))
  {
    ArraySize(initial, log);
    assert log[..|log|] == log;
    forall x | 0 <= x < |initial| ensures Replay(initial, log)[x] == LastData(initial, log, x, |log|) {
      ArrayHoldsLast(initial, log, x, |log|);
    }
  }

  /** The operations of all threads in the order in which their requests are made. */
  function Accesses(steps: seq<Step>, i: nat): seq<Op>
    requires i <= |steps|
  {
    if i == 0 then []
    else if steps[i - 1].Request? && LastCall(steps, steps[i - 1].t, i - 1).Some?
    then Accesses(steps, i - 1) + [steps[LastCall(steps, steps[i - 1].t, i - 1).value].op]
    else Accesses(steps, i - 1)
  }

  /** The log lists them, each with what the threads passed. */
  lemma {:induction false} LogIsAccesses(threads: set<Tid>, initial: seq<Data>, run: seq<State>, steps: seq<Step>, i: nat)
    requires IsRun(threads, initial, run, steps) && i < |run|
    ensures |run[i].log| == |Accesses(steps, i)|
    ensures forall k :: 0 <= k < |run[i].log| ==> run[i].log[k].op == Accesses(steps, i)[k]
  {
    if i > 0 {
      var step := steps[i - 1];
      LogIsAccesses(threads, initial, run, steps, i - 1);
      assert run[i - 1 + 1] == Next(run[i - 1], step);
      if step.Request? {
        RunIsTraced(threads, initial, run, steps, i - 1, step.t);
      }
    }
  }

  /** What a read returns is what was last written to its sector before its own place among the
      accesses, or what was there in the beginning. */
  lemma ReadsLastWrite(threads: set<Tid>, initial: seq<Data>, run: seq<State>, steps: seq<Step>, i: nat)
    requires IsRun(threads, initial, run, steps) && i < |steps| && steps[i].Release?
    ensures Enabled(run[i], steps[i])
    ensures var s, pc := run[i], run[i].pcs[steps[i].t];
            && pc.at < |s.log| && pc.op.sector < |initial| && s.log[pc.at].op == pc.op
            && pc.data == if pc.op.WriteSector? then pc.op.data else LastData(initial, s.log, pc.op.sector, pc.at)
  {
    RunKeepsInv(threads, initial, run, steps, i);
    var s, pc := run[i], run[i].pcs[steps[i].t];
    assert View(s, pc) && AtomicAt(initial, s.log, pc.at);
    ArraySize(initial, s.log[..pc.at]);
    ArrayHoldsLast(initial, s.log, pc.op.sector, pc.at);
  }

  lemma {:induction false} ArraySize(initial: seq<Data>, log: seq<Entry>)
    ensures |Replay(initial, log)| == |initial|
  {
    if log != [] {
      ArraySize(initial, log[..|log| - 1]);
    }
  }

  // ----- One operation alone -----

  ghost predicate IsPath(path: seq<State>, steps: seq<Step>) {
    && |path| == |steps| + 1
    && forall i :: 0 <= i < |steps| ==> Enabled(path[i], steps[i]) && path[i + 1] == Next(path[i], steps[i])
  }

  /** While nobody has the lock, an operation runs from its call to its return; the buffer holds the
      data, a write is on the disk, and all else is as it was. */
  lemma OperationAlone(initial: seq<Data>, s: State, t: Tid, op: Op, data: Data) returns (path: seq<State>)
    requires Inv(initial, s) && s.lock > 0 && t in s.pcs && s.pcs[t].Outside? && op.sector < |s.sectors|
    requires data == if op.WriteSector? then op.data else s.sectors[op.sector]
    ensures IsPath(path, [Call(t, op), Acquire(t), Request(t), Interrupt, PassSemaphore(t), Release(t)]) && path[0] == s
    ensures path[5].pcs[t] == Completed(op, |s.log|, |s.log|, data)
    ensures path[6] == s.(log := s.log + [Entry(op, data)],
                          sectors := if op.WriteSector? then s.sectors[op.sector := op.data] else s.sectors)
  {
    FreeMeansRest(initial, s);
    var n := |s.log|;
    var s1 := s.(pcs := s.pcs[t := Called(op, n)]);
    var s2 := s1.(lock := s.lock - 1, pcs := s1.pcs[t := Locked(op, n)]);
    var s3 := Next(s2, Request(t));
    var s4 := Next(s3, Interrupt);
    var s5 := Next(s4, PassSemaphore(t));
    var s6 := Next(s5, Release(t));
    assert s6.pcs == s.pcs;
    path := [s, s1, s2, s3, s4, s5, s6];
  }

  lemma FreeMeansRest(initial: seq<Data>, s: State)
    requires Inv(initial, s) && s.lock > 0
    ensures s.scheduled == 0 && s.sem == 0 && !s.active && s.owner == None
  {
    OneRequest(initial, s);
    CountZero(s.pcs, Busy);
    CountZero(s.pcs, IsIssued);
  }

  /** Each operation behaves as one access to an array of sectors, placed between its call and its
      return: when it returns, its place in the order of accesses is that of its own, only request,
      and its buffer holds what the array gives there.  There are no other accesses than these. */
  lemma BehavesAtomically(threads: set<Tid>, initial: seq<Data>, run: seq<State>, steps: seq<Step>, i: nat)
    requires IsRun(threads, initial, run, steps) && i < |steps| && steps[i].Release?
    ensures Enabled(run[i], steps[i])
    ensures var s, pc := run[i], run[i].pcs[steps[i].t];
            && pc.since <= pc.at < |s.log|
            && s.log[pc.at].op == pc.op
            && var before := Replay(initial, s.log[..pc.at]);
               pc.op.sector < |before| && pc.data == Answer(before, pc.op)
    ensures var s, pc := run[i], run[i].pcs[steps[i].t];
            && pc.op.sector < |initial|
            && pc.data == if pc.op.WriteSector? then pc.op.data else LastData(initial, s.log, pc.op.sector, pc.at)
    ensures exists c, j :: Own(steps, steps[i].t, run[i].pcs[steps[i].t], c, j, i)
    ensures run[i].sectors == Replay(initial, run[i].log) && |run[i].log| == Requests(steps, i)
  {
    RunKeepsInv(threads, initial, run, steps, i);
    ReadsLastWrite(threads, initial, run, steps, i);
    var s, pc := run[i], run[i].pcs[steps[i].t];
    assert View(s, pc);
    assert AtomicAt(initial, s.log, pc.at);
    LogIsRequests(threads, initial, run, steps, i);
    RunIsTraced(threads, initial, run, steps, i, steps[i].t);
    var c, j := TracedIsOwn(steps, steps[i].t, pc, i);
  }
}
