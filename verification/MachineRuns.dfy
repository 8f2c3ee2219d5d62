/** Whole runs of the machine: any sequence of creations, destructions, loads and stores, against
    a list of private memories. */
module MachineRuns {
  import opened DiskLayout
  import opened Bitmaps
  import opened Mmus
  import opened Directories
  import opened OpenFiles
  import opened AddressSpaces
  import opened UserPrograms

  datatype Op =
    | CreateOp(exe: Executable)
    | DestroyOp(n: nat)
    | ReadOp(n: nat, addr: Word, size: nat)
    | WriteOp(n: nat, addr: Word, size: nat, value: int)

  /** `Nobody`: there is no such program. */
  datatype Outcome = Made | Full | Nobody | Done | Fault(e: ExceptionType) | Got(value: int)

  /** What each program sees, and which frames it has. */
  datatype Model = Model(memories: seq<Bytes>, frames: seq<Frames>, bits: seq<bool>)

  /** Executables whose segments lie inside the space, accesses of a size there is. */
  predicate Allowed(op: Op) {
    match op
    case CreateOp(exe) => SegmentsFit(exe, NumPages(exe))
    case DestroyOp(_) => true
    case ReadOp(_, _, size) => IsSize(size)
    case WriteOp(_, _, size, _) => IsSize(size)
  }

  ghost predicate Shaped(m: Model) {
    && Separate(m.frames, m.bits) && |m.memories| == |m.frames|
    && forall i :: 0 <= i < |m.frames| ==> |m.memories[i]| == |m.frames[i]| * PAGE_SIZE
  }

  // ----- One operation on the model -----

  /** A program's memory after the fill made for another: the page in frame 0, if it is this
      program's, holds the number of a frame. */
  ghost function Refilled(v: Bytes, frames: Frames, value: Byte): (r: Bytes)
    requires |v| == |frames| * PAGE_SIZE
    ensures |r| == |v| && forall a :: 0 <= a < |v| ==> r[a] == if frames[a / PAGE_SIZE] == 0 then value else v[a]
  {
    seq(|v|, a requires 0 <= a < |v| => if frames[a / PAGE_SIZE] == 0 then value else v[a])
  }

  lemma FillRefills(frames: Frames, memory: Bytes, value: Byte)
    requires InMemory(frames) && |memory| == MEMORY_SIZE
    ensures View(frames, FilledZero(memory, value)) == Refilled(View(frames, memory), frames, value)
  {
    var v, v' := View(frames, memory), View(frames, FilledZero(memory, value));
    forall a | 0 <= a < |v| ensures v'[a] == if frames[a / PAGE_SIZE] == 0 then value else v[a] {
      assert v'[a] == FilledZero(memory, value)[Physical(frames, a)];
    }
  }

  /** A program with the given frames joins. */
  ghost predicate Joins(m: Model, exe: Executable, frames: Frames, m': Model)
    requires Shaped(m) && SegmentsFit(exe, NumPages(exe))
  {
    && |frames| == NumPages(exe) && InMemory(frames) && Allocated(m.bits, m'.bits, frames) && m'.frames == m.frames + [frames]
    && |m'.memories| == |m.memories| + 1
    && (forall i :: 0 <= i < |m.memories| ==> m'.memories[i] == AfterJoin(m, i, frames))
    && exists v: Bytes :: |v| == |frames| * PAGE_SIZE && m'.memories[|m.memories|] == WithSegments(v, exe)
  }

  ghost function AfterJoin(m: Model, i: nat, frames: Frames): Bytes
    requires Shaped(m) && i < |m.memories| && InMemory(frames)
  {
    if frames == [] then m.memories[i] else Refilled(m.memories[i], m.frames[i], frames[|frames| - 1])
  }

  ghost predicate ModelStep(m: Model, op: Op, out: Outcome, m': Model)
    requires Shaped(m) && Allowed(op)
  {
    match op
    case CreateOp(exe) =>
      if NumPages(exe) > ClearCount(m.bits) then out == Full && m' == m
      else out == Made && exists frames :: Joins(m, exe, frames, m')
    case DestroyOp(n) =>
      if n >= |m.memories| then out == Nobody && m' == m
      else && out == Done && m'.memories == Dropped(m.memories, n) && m'.frames == Dropped(m.frames, n)
           && Separate(m'.frames, m'.bits)
    case ReadOp(n, addr, size) =>
      && m' == m
      && if n >= |m.memories| then out == Nobody
         else if !InBounds(|m.frames[n]|, addr, size) then out.Fault?
         else && addr + size <= |m.memories[n]| && out == Got(Decoded(m.memories[n][addr..addr + size]))
    case WriteOp(n, addr, size, value) =>
      if n >= |m.memories| then out == Nobody && m' == m
      else if !InBounds(|m.frames[n]|, addr, size) then out.Fault? && m' == m
      else && out == Done && addr + size <= |m.memories[n]|
           && m' == m.(memories := m.memories[n := Splice(m.memories[n], addr, Encoded(value, size))])
  }

  lemma StepKeepsShape(m: Model, op: Op, out: Outcome, m': Model)
    requires Shaped(m) && Allowed(op) && ModelStep(m, op, out, m')
    ensures Shaped(m')
  {
    if op.CreateOp? && out == Made {
      var frames :| Joins(m, op.exe, frames, m');
      JoinKeepsShape(m, op.exe, frames, m');
    }
  }

  lemma JoinKeepsShape(m: Model, exe: Executable, frames: Frames, m': Model)
    requires Shaped(m) && SegmentsFit(exe, NumPages(exe)) && Joins(m, exe, frames, m')
    ensures Shaped(m')
  {
    SeparateAppend(m.frames, m.bits, m'.bits, frames);
    forall i | 0 <= i < |m'.frames| ensures |m'.memories[i]| == |m'.frames[i]| * PAGE_SIZE {
      if i < |m.frames| {
        assert m'.memories[i] == AfterJoin(m, i, frames);
      }
    }
  }

  // ----- Runs of the model -----

  ghost predicate IsTrace(trace: seq<Model>, ops: seq<Op>, outs: seq<Outcome>) {
    && |outs| <= |ops| && |trace| == |outs| + 1 && Shaped(trace[0])
    && forall i :: 0 <= i < |outs| ==> TraceStep(trace, ops, outs, i)
  }

  ghost predicate TraceStep(trace: seq<Model>, ops: seq<Op>, outs: seq<Outcome>, i: nat)
    requires i < |outs| <= |ops| && |trace| == |outs| + 1
  {
    Allowed(ops[i]) && Shaped(trace[i]) && Shaped(trace[i + 1]) && ModelStep(trace[i], ops[i], outs[i], trace[i + 1])
  }

  lemma TraceExtends(trace: seq<Model>, ops: seq<Op>, outs: seq<Outcome>, out: Outcome, m: Model)
    requires IsTrace(trace, ops, outs) && |outs| < |ops| && Allowed(ops[|outs|]) && Shaped(trace[|outs|])
    requires ModelStep(trace[|outs|], ops[|outs|], out, m)
    ensures IsTrace(trace + [m], ops, outs + [out]) && Shaped(m)
  {
    StepKeepsShape(trace[|outs|], ops[|outs|], out, m);
    var trace', outs' := trace + [m], outs + [out];
    forall i | 0 <= i < |outs'| ensures TraceStep(trace', ops, outs', i) {
      if i < |outs| {
        assert TraceStep(trace, ops, outs, i);
      }
    }
  }

  /** Where a program stands after an operation: the ones behind a destroyed one move up. */
  function Moves(p: nat, op: Op, out: Outcome): nat {
    if op.DestroyOp? && out == Done && op.n < p then p - 1 else p
  }

  /** The program at `p` is destroyed. */
  predicate Ends(p: nat, op: Op, out: Outcome) { op.DestroyOp? && out == Done && op.n == p }

  /** What one operation does to a program's memory, as far as it is the program's own doing. */
  function OwnEffect(v: Bytes, p: nat, op: Op, out: Outcome): (r: Bytes)
    ensures |r| == |v|
  {
    if op.WriteOp? && op.n == p && out == Done && IsSize(op.size) && op.addr + op.size <= |v|
    then Splice(v, op.addr, Encoded(op.value, op.size)) else v
  }

  /** The position and the memory of a program, from its own stores alone, up to operation `i`. */
  function PlaceAt(ops: seq<Op>, outs: seq<Outcome>, from: nat, p: nat, i: nat): nat
    requires from <= i <= |outs| <= |ops|
  {
    if i == from then p else Moves(PlaceAt(ops, outs, from, p, i - 1), ops[i - 1], outs[i - 1])
  }

  function OwnMemory(v: Bytes, ops: seq<Op>, outs: seq<Outcome>, from: nat, p: nat, i: nat): (r: Bytes)
    requires from <= i <= |outs| <= |ops|
    ensures |r| == |v|
  {
    if i == from then v
    else OwnEffect(OwnMemory(v, ops, outs, from, p, i - 1), PlaceAt(ops, outs, from, p, i - 1), ops[i - 1], outs[i - 1])
  }

  /** The program that stood at `p` is not destroyed before operation `i`. */
  ghost predicate Lives(ops: seq<Op>, outs: seq<Outcome>, from: nat, p: nat, i: nat)
    requires from <= i <= |outs| <= |ops|
  {
    forall k :: from <= k < i ==> !Ends(PlaceAt(ops, outs, from, p, k), ops[k], outs[k])
  }

  /** Two memories agree in every byte outside frame 0, or in every byte. */
  ghost predicate Agree(v: Bytes, w: Bytes, frames: Frames, everywhere: bool) {
    && |v| == |w| == |frames| * PAGE_SIZE
    && forall a :: 0 <= a < |v| && (everywhere || frames[a / PAGE_SIZE] != 0) ==> v[a] == w[a]
  }

  lemma OwnEffectAgrees(v: Bytes, w: Bytes, frames: Frames, everywhere: bool, p: nat, op: Op, out: Outcome)
    requires Agree(v, w, frames, everywhere)
    ensures Agree(OwnEffect(v, p, op, out), OwnEffect(w, p, op, out), frames, everywhere)
  {
  }

  lemma JoinAgrees(m: Model, i: nat, frames: Frames)
    requires Shaped(m) && i < |m.memories| && InMemory(frames)
    ensures Agree(AfterJoin(m, i, frames), m.memories[i], m.frames[i], false)
  {
  }

  /** One operation changes a program's memory by the program's own store and by nothing else,
      but for what creating a program does to frame 0. */
  lemma StepIsolated(m: Model, op: Op, out: Outcome, m': Model, p: nat)
    requires Shaped(m) && Allowed(op) && ModelStep(m, op, out, m') && p < |m.memories| && !Ends(p, op, out)
    ensures var q := Moves(p, op, out);
            && q < |m'.memories| == |m'.frames| && m'.frames[q] == m.frames[p]
            && Agree(m'.memories[q], OwnEffect(m.memories[p], p, op, out), m.frames[p], out != Made)
  {
    StepKeepsShape(m, op, out, m');
    if op.CreateOp? && out == Made {
      var frames :| Joins(m, op.exe, frames, m');
      assert m'.memories[p] == AfterJoin(m, p, frames);
      JoinAgrees(m, p, frames);
    }
  }

  lemma AgreeTrans(u: Bytes, v: Bytes, w: Bytes, frames: Frames, one: bool, two: bool)
    requires Agree(u, v, frames, one) && Agree(v, w, frames, two)
    ensures Agree(u, w, frames, one && two)
  {
  }

  ghost predicate NoneMade(outs: seq<Outcome>, from: nat, i: nat)
    requires from <= i <= |outs|
  {
    forall k :: from <= k < i ==> outs[k] != Made
  }

  /** The program that stood at `p` has the frames it had, and its memory is what was there at
      first and its own stores since: all of it, if nobody was created, otherwise all of it
      outside frame 0. */
  ghost predicate OnlyOwn(trace: seq<Model>, ops: seq<Op>, outs: seq<Outcome>, from: nat, p: nat, i: nat)
    requires from <= i <= |outs| <= |ops| && |trace| == |outs| + 1
  {
    var q := PlaceAt(ops, outs, from, p, i);
    && p < |trace[from].memories| == |trace[from].frames|
    && q < |trace[i].memories| == |trace[i].frames| && trace[i].frames[q] == trace[from].frames[p]
    && Agree(trace[i].memories[q], OwnMemory(trace[from].memories[p], ops, outs, from, p, i),
             trace[from].frames[p], NoneMade(outs, from, i))
  }

  /** Isolation over whole runs, however many others are created, destroyed or write. */
  lemma {:induction false} RunIsolated(trace: seq<Model>, ops: seq<Op>, outs: seq<Outcome>, from: nat, p: nat, i: nat)
    requires IsTrace(trace, ops, outs) && from <= i <= |outs| && p < |trace[from].memories| && Lives(ops, outs, from, p, i)
    ensures OnlyOwn(trace, ops, outs, from, p, i)
    decreases i
  {
    ShapedAt(trace, ops, outs, from);
    if from < i {
      RunIsolated(trace, ops, outs, from, p, i - 1);
      assert TraceStep(trace, ops, outs, i - 1);
      OnlyOwnStep(trace, ops, outs, from, p, i);
    }
  }

  lemma OnlyOwnStep(trace: seq<Model>, ops: seq<Op>, outs: seq<Outcome>, from: nat, p: nat, i: nat)
    requires from < i <= |outs| <= |ops| && |trace| == |outs| + 1 && TraceStep(trace, ops, outs, i - 1)
    requires OnlyOwn(trace, ops, outs, from, p, i - 1) && !Ends(PlaceAt(ops, outs, from, p, i - 1), ops[i - 1], outs[i - 1])
    ensures OnlyOwn(trace, ops, outs, from, p, i)
  {
    IsolatedStep(trace[i - 1], ops[i - 1], outs[i - 1], trace[i - 1 + 1], PlaceAt(ops, outs, from, p, i - 1),
                 OwnMemory(trace[from].memories[p], ops, outs, from, p, i - 1), trace[from].frames[p], NoneMade(outs, from, i - 1));
    assert NoneMade(outs, from, i) <==> NoneMade(outs, from, i - 1) && outs[i - 1] != Made;
  }

  lemma IsolatedStep(m: Model, op: Op, out: Outcome, m': Model, p: nat, own: Bytes, frames: Frames, everywhere: bool)
    requires Shaped(m) && Allowed(op) && ModelStep(m, op, out, m') && p < |m.memories| && !Ends(p, op, out)
    requires m.frames[p] == frames && Agree(m.memories[p], own, frames, everywhere)
    ensures var q := Moves(p, op, out);
            && q < |m'.memories| == |m'.frames| && m'.frames[q] == frames
            && Agree(m'.memories[q], OwnEffect(own, p, op, out), frames, everywhere && out != Made)
  {
    StepIsolated(m, op, out, m', p);
    OwnEffectAgrees(m.memories[p], own, frames, everywhere, p, op, out);
    AgreeTrans(m'.memories[Moves(p, op, out)], OwnEffect(m.memories[p], p, op, out), OwnEffect(own, p, op, out), frames,
               out != Made, everywhere);
  }

  lemma ShapedAt(trace: seq<Model>, ops: seq<Op>, outs: seq<Outcome>, i: nat)
    requires IsTrace(trace, ops, outs) && i <= |outs|
    ensures Shaped(trace[i])
  {
    if i > 0 {
      assert TraceStep(trace, ops, outs, i - 1);
    }
  }

  /** What a load gives is in `own`, unless it lies in frame 0. */
  ghost predicate LoadsOwn(own: Bytes, frames: Frames, everywhere: bool, addr: Word, size: nat, out: Outcome) {
    && IsSize(size) && addr / PAGE_SIZE < |frames| && addr + size <= |own|
    && out.Got? && (everywhere || frames[addr / PAGE_SIZE] != 0 ==> IsValue(own[addr..addr + size], out.value))
  }

  /** A load returns what the program itself put there, or what was there at first, whatever the
      others did, unless it lies in frame 0 and somebody was created. */
  lemma LoadIsOwn(trace: seq<Model>, ops: seq<Op>, outs: seq<Outcome>, from: nat, p: nat, i: nat, addr: Word, size: nat)
    requires IsTrace(trace, ops, outs) && from <= i < |outs| && p < |trace[from].memories| && Lives(ops, outs, from, p, i)
    requires ops[i] == ReadOp(PlaceAt(ops, outs, from, p, i), addr, size) && outs[i].Got?
    ensures OnlyOwn(trace, ops, outs, from, p, i)
    ensures LoadsOwn(OwnMemory(trace[from].memories[p], ops, outs, from, p, i), trace[from].frames[p], NoneMade(outs, from, i),
                     addr, size, outs[i])
  {
    RunIsolated(trace, ops, outs, from, p, i);
    assert TraceStep(trace, ops, outs, i);
    LoadStep(trace[i], outs[i], trace[i + 1], PlaceAt(ops, outs, from, p, i),
             OwnMemory(trace[from].memories[p], ops, outs, from, p, i), trace[from].frames[p], NoneMade(outs, from, i), addr, size);
  }

  lemma LoadStep(m: Model, out: Outcome, m': Model, p: nat, own: Bytes, frames: Frames, everywhere: bool, addr: Word, size: nat)
    requires Shaped(m) && IsSize(size) && ModelStep(m, ReadOp(p, addr, size), out, m') && out.Got?
    requires p < |m.memories| && m.frames[p] == frames && Agree(m.memories[p], own, frames, everywhere)
    ensures LoadsOwn(own, frames, everywhere, addr, size, out)
  {
    InsidePage(addr, size);
    SameRange(m.memories[p], own, frames, everywhere, addr, size);
    DecodedIsValue(m.memories[p][addr..addr + size]);
  }

  lemma SameRange(v: Bytes, w: Bytes, frames: Frames, everywhere: bool, addr: nat, size: nat)
    requires Agree(v, w, frames, everywhere) && addr / PAGE_SIZE < |frames| && addr % PAGE_SIZE + size <= PAGE_SIZE
    requires addr + size <= |v|
    ensures everywhere || frames[addr / PAGE_SIZE] != 0 ==> v[addr..addr + size] == w[addr..addr + size]
  {
    assert forall a :: addr <= a < addr + size ==> a / PAGE_SIZE == addr / PAGE_SIZE;
  }

  // ----- The machine -----

  ghost function ModelOf(machine: Machine): (m: Model)
    requires machine.Valid()
    reads machine, machine.spaces, machine.bitmap.store, machine.mmu.mainMemory, set s <- machine.spaces :: s.pageTable
    ensures Shaped(m)
  {
    Model(machine.Memories(), machine.AllFrames(), machine.bitmap.Bits())
  }

  lemma CreationJoins(all: seq<Frames>, bits: seq<bool>, memory: Bytes, exe: Executable, frames: Frames, m': Model)
    requires Separate(all, bits) && |memory| == MEMORY_SIZE && InMemory(frames)
    requires |frames| == NumPages(exe) && SegmentsFit(exe, NumPages(exe)) && Allocated(bits, m'.bits, frames)
    requires m'.frames == all + [frames] && m'.memories == ViewsAfterCreate(all, memory, frames, exe)
    ensures var m := Model(Views(all, memory), all, bits); Shaped(m) && Joins(m, exe, frames, m')
  {
    var m := Model(Views(all, memory), all, bits);
    forall i | 0 <= i < |all| ensures m'.memories[i] == AfterJoin(m, i, frames) {
      if frames != [] {
        FillRefills(all[i], memory, frames[|frames| - 1]);
      }
    }
    assert m'.memories[|all|] == WithSegments(View(frames, AfterFill(memory, frames)), exe);
  }

  method PerformCreate(machine: Machine, exe: Executable) returns (out: Outcome)
    requires machine.Valid() && SegmentsFit(exe, NumPages(exe))
    modifies machine, machine.bitmap.store, machine.mmu.mainMemory
    ensures machine.Valid() && ModelStep(old(ModelOf(machine)), CreateOp(exe), out, ModelOf(machine))
    ensures forall s <- machine.spaces :: s in old(machine.spaces) || fresh(s.pageTable)
  {
    ghost var all, bits, memory, n := machine.AllFrames(), machine.bitmap.Bits(), machine.mmu.mainMemory[..], |machine.spaces|;
    var r := machine.Create(exe);
    out := if r == Created then Made else Full;
    if r == Created {
      assert machine.spaces == old(machine.spaces) + [machine.spaces[n]];
      assert machine.AllFrames() == all + [machine.spaces[n].frames];
      CreationJoins(all, bits, memory, exe, machine.spaces[n].frames, ModelOf(machine));
    }
  }

  method PerformDestroy(machine: Machine, n: nat) returns (out: Outcome)
    requires machine.Valid()
    modifies machine, machine.bitmap.store
    ensures machine.Valid() && ModelStep(old(ModelOf(machine)), DestroyOp(n), out, ModelOf(machine))
    ensures forall s <- machine.spaces :: s in old(machine.spaces)
  {
    if n >= |machine.spaces| {
      return Nobody;
    }
    ghost var all := machine.AllFrames();
    machine.Destroy(n);
    assert machine.AllFrames() == Dropped(all, n);
    return Done;
  }

  method PerformRead(machine: Machine, n: nat, addr: Word, size: nat) returns (out: Outcome)
    requires machine.Valid() && IsSize(size)
    modifies machine.mmu`pageTable, set s <- machine.spaces :: s.pageTable
    ensures machine.Valid() && ModelStep(old(ModelOf(machine)), ReadOp(n, addr, size), out, ModelOf(machine))
  {
    if n >= |machine.spaces| {
      return Nobody;
    }
    ghost var m := ModelOf(machine);
    var e, value := machine.Read(n, addr, size);
    assert machine.AllFrames() == m.frames;
    assert ModelOf(machine) == m;
    return if e == NoException then Got(value) else Fault(e);
  }

  method PerformWrite(machine: Machine, n: nat, addr: Word, size: nat, value: int) returns (out: Outcome)
    requires machine.Valid() && IsSize(size)
    modifies machine.mmu`pageTable, machine.mmu.mainMemory, set s <- machine.spaces :: s.pageTable
    ensures machine.Valid() && ModelStep(old(ModelOf(machine)), WriteOp(n, addr, size, value), out, ModelOf(machine))
  {
    if n >= |machine.spaces| {
      return Nobody;
    }
    ghost var all := machine.AllFrames();
    var e := machine.Write(n, addr, size, value);
    assert machine.AllFrames() == all;
    return if e == NoException then Done else Fault(e);
  }

  /** Every allowed operation is one step of the model. */
  method Perform(machine: Machine, op: Op) returns (out: Outcome)
    requires machine.Valid() && Allowed(op)
    modifies machine, machine.mmu`pageTable, machine.bitmap.store, machine.mmu.mainMemory, set s <- machine.spaces :: s.pageTable
    ensures machine.Valid() && ModelStep(old(ModelOf(machine)), op, out, ModelOf(machine))
    ensures forall s <- machine.spaces :: s in old(machine.spaces) || fresh(s.pageTable)
  {
    match op {
      case CreateOp(exe) => out := PerformCreate(machine, exe);
      case DestroyOp(n) => out := PerformDestroy(machine, n);
      case ReadOp(n, addr, size) => out := PerformRead(machine, n, addr, size);
      case WriteOp(n, addr, size, value) => out := PerformWrite(machine, n, addr, size, value);
    }
  }

  /** Every sequence of allowed operations on a new machine is a run of the model, and so every
      program is isolated as `RunIsolated` says. */
  method Run(ops: seq<Op>) returns (outs: seq<Outcome>, ghost trace: seq<Model>)
    requires forall op <- ops :: Allowed(op)
    ensures |outs| == |ops| && IsTrace(trace, ops, outs) && trace[0].memories == []
    ensures forall from: nat, p: nat, i: nat :: from <= i <= |outs| && p < |trace[from].memories| && Lives(ops, outs, from, p, i) ==>
              OnlyOwn(trace, ops, outs, from, p, i)
  {
    var machine := new Machine();
    outs, trace := [], [ModelOf(machine)];
    for n := 0 to |ops|
      invariant |outs| == n && IsTrace(trace, ops, outs) && trace[0].memories == []
      invariant fresh(machine) && fresh(machine.mmu) && fresh(machine.bitmap.store) && fresh(machine.mmu.mainMemory)
      invariant forall s <- machine.spaces :: fresh(s.pageTable)
      invariant machine.Valid() && trace[n] == ModelOf(machine)
    {
      var out := Perform(machine, ops[n]);
      TraceExtends(trace, ops, outs, out, ModelOf(machine));
      outs, trace := outs + [out], trace + [ModelOf(machine)];
    }
    forall from: nat, p: nat, i: nat | from <= i <= |outs| && p < |trace[from].memories| && Lives(ops, outs, from, p, i)
      ensures OnlyOwn(trace, ops, outs, from, p, i)
    {
      ShapedAt(trace, ops, outs, from);
      RunIsolated(trace, ops, outs, from, p, i);
    }
  }
}
