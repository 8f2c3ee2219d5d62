/** The machine with several user programs: creating, destroying and running them. */
module UserPrograms {
  import opened DiskLayout
  import opened Bitmaps
  import opened Mmus
  import opened Directories
  import opened OpenFiles
  import opened AddressSpaces

  /** What an executable file asks for. */
  datatype Executable = Executable(size: Word, code: Bytes, codeAddr: nat, data: Bytes, dataAddr: nat)

  function NumPages(exe: Executable): nat {
    DivRoundUp((exe.size + USER_STACK_SIZE) % WORD, PAGE_SIZE)
  }

  /** The loader indexes the page table with the segments' addresses, unchecked: these are the
      executables that keep it inside. */
  predicate SegmentsFit(exe: Executable, pages: nat) {
    && (|exe.code| == 0 || exe.codeAddr + |exe.code| <= pages * PAGE_SIZE)
    && (|exe.data| == 0 || exe.dataAddr + |exe.data| <= pages * PAGE_SIZE)
  }

  /** As many pages as hold the program and 1024 bytes of stack, and no more.  The sum is a machine
      word: a size within 1024 bytes of the largest wraps around. */
  lemma NumPagesLeast(exe: Executable)
    ensures var n, size: int := NumPages(exe), exe.size + 1024;
            if size < 0x1_0000_0000 then size <= n * 128 < size + 128
            else size - 0x1_0000_0000 <= n * 128 < size - 0x1_0000_0000 + 128
  {
    var size := (exe.size + USER_STACK_SIZE) % WORD;
    DivRoundUpLeast(size, PAGE_SIZE);
  }

  ghost predicate HasPage(a: nat, pages: nat) { a / PAGE_SIZE < pages }

  /** The segments fit exactly when every byte of them lies in a page that the table has. */
  lemma SegmentsFitIff(exe: Executable, pages: nat)
    ensures SegmentsFit(exe, pages) <==>
            && (forall a :: exe.codeAddr <= a < exe.codeAddr + |exe.code| ==> HasPage(a, pages))
            && (forall a :: exe.dataAddr <= a < exe.dataAddr + |exe.data| ==> HasPage(a, pages))
  {
    SegmentFitsIff(exe.codeAddr, |exe.code|, pages);
    SegmentFitsIff(exe.dataAddr, |exe.data|, pages);
  }

  lemma SegmentFitsIff(addr: nat, n: nat, pages: nat)
    ensures (n == 0 || addr + n <= pages * PAGE_SIZE) <==> forall a :: addr <= a < addr + n ==> HasPage(a, pages)
  {
    if n > 0 && !(addr + n <= pages * PAGE_SIZE) {
      assert !HasPage(addr + n - 1, pages);
    }
  }

  /** Memory after the fills made while `frames` were allocated. */
  ghost function AfterFill(memory: Bytes, frames: Frames): (m: Bytes)
    requires |memory| == MEMORY_SIZE && InMemory(frames)
    ensures |m| == MEMORY_SIZE
  {
    if frames == [] then memory else FilledZero(memory, frames[|frames| - 1])
  }

  ghost function AfterLoad(memory: Bytes, frames: Frames, exe: Executable): (m: Bytes)
    requires |memory| == MEMORY_SIZE && InMemory(frames) && SegmentsFit(exe, |frames|)
    ensures |m| == MEMORY_SIZE
  {
    Loaded(Loaded(memory, frames, exe.codeAddr, exe.code, |exe.code|), frames, exe.dataAddr, exe.data, |exe.data|)
  }

  /** A space's memory with the segments in their places. */
  ghost function WithSegments(v: Bytes, exe: Executable): (r: Bytes)
    requires |v| % PAGE_SIZE == 0 && SegmentsFit(exe, |v| / PAGE_SIZE)
  {
    Placed(Placed(v, exe.codeAddr, exe.code, |exe.code|), exe.dataAddr, exe.data, |exe.data|)
  }

  /** Byte by byte: the data segment, the code segment where the data segment does not lie, and
      elsewhere what was there. */
  lemma SegmentBytes(v: Bytes, exe: Executable, a: nat)
    requires |v| % PAGE_SIZE == 0 && SegmentsFit(exe, |v| / PAGE_SIZE) && a < |v|
    ensures |WithSegments(v, exe)| == |v|
    ensures WithSegments(v, exe)[a] ==
            if exe.dataAddr <= a < exe.dataAddr + |exe.data| then exe.data[a - exe.dataAddr]
            else if exe.codeAddr <= a < exe.codeAddr + |exe.code| then exe.code[a - exe.codeAddr]
            else v[a]
  {
    var mid := Placed(v, exe.codeAddr, exe.code, |exe.code|);
    PlacedByte(v, exe.codeAddr, exe.code, a);
    PlacedByte(mid, exe.dataAddr, exe.data, a);
  }

  lemma PlacedByte(v: Bytes, addr: nat, bytes: Bytes, a: nat)
    requires (bytes == [] || addr + |bytes| <= |v|) && a < |v|
    ensures Placed(v, addr, bytes, |bytes|)[a] == if addr <= a < addr + |bytes| then bytes[a - addr] else v[a]
  {
    PlacedIsSplice(v, addr, bytes, |bytes|);
    assert bytes[..|bytes|] == bytes;
  }

  ghost predicate Maps(entry: TranslationEntry, frame: Word) {
    entry.valid && !entry.readOnly && entry.physicalPage == frame
  }

  /** A page table that maps every page, in order, to the given frames. */
  ghost predicate IsTable(table: seq<TranslationEntry>, frames: Frames) {
    && |frames| == |table| && InMemory(frames)
    && forall k :: 0 <= k < |frames| ==> Maps(table[k], frames[k])
  }

  /** Whether a user access is aligned and inside a space of `pages` pages. */
  predicate InBounds(pages: nat, addr: Word, size: nat) { Aligned(addr, size) && addr < pages * PAGE_SIZE }

  lemma TableTranslates(table: seq<TranslationEntry>, frames: Frames, addr: Word, size: nat, writing: bool)
    requires IsTable(table, frames) && IsSize(size)
    ensures Translates(table, addr, size, writing) <==> InBounds(|frames|, addr, size)
    ensures InBounds(|frames|, addr, size) ==>
              && addr / PAGE_SIZE < |frames| && addr % PAGE_SIZE + size <= PAGE_SIZE
              && PhysicalAddress(table, addr) == Physical(frames, addr) && addr + size <= |frames| * PAGE_SIZE
  {
    if InBounds(|frames|, addr, size) {
      InsidePage(addr, size);
      assert Maps(table[addr / PAGE_SIZE], frames[addr / PAGE_SIZE]);
    }
  }

  lemma SameTable(table: seq<TranslationEntry>, table': seq<TranslationEntry>, frames: Frames)
    requires IsTable(table, frames) && SameMapping(table, table')
    ensures IsTable(table', frames)
  {
    assert forall k :: 0 <= k < |frames| ==> Maps(table[k], frames[k]) ==> Maps(table'[k], frames[k]);
  }

  class AddressSpace {
    const pageTable: array<TranslationEntry>
    const loaded: bool
    ghost var frames: Frames

    ghost predicate Valid()
      reads this, pageTable
    {
      IsTable(pageTable[..], frames)
    }

    /** Takes the frames, which the code asserts are there, and loads the segments.  `loaded` is
        false when a segment lies outside the space, so that the loader runs off the page table;
        memory is then anything. */
    constructor (exe: Executable, bitmap: Bitmap, mmu: Mmu)
      requires bitmap.store.Length == NUM_PHYS_PAGES && mmu.mainMemory.Length == MEMORY_SIZE
      requires NumPages(exe) <= ClearCount(bitmap.Bits())
      modifies bitmap.store, mmu.mainMemory
      ensures Valid() && fresh(pageTable) && |frames| == NumPages(exe)
      ensures Allocated(old(bitmap.Bits()), bitmap.Bits(), frames)
      ensures loaded <==> SegmentsFit(exe, NumPages(exe))
      ensures loaded ==> mmu.mainMemory[..] == AfterLoad(AfterFill(old(mmu.mainMemory[..]), frames), frames, exe)
    {
      pageTable := new TranslationEntry[NumPages(exe)](_ => TranslationEntry(0, 0, false, false, false, false));
      loaded := SegmentsFit(exe, NumPages(exe));
      frames := [];
      new;
      TakeFrames(bitmap, mmu);
      if loaded {
        Load(mmu, exe.codeAddr, exe.code);
        Load(mmu, exe.dataAddr, exe.data);
      }
    }

    /** Fills the page table with the first free frames. */
    method TakeFrames(bitmap: Bitmap, mmu: Mmu)
      requires bitmap.store.Length == NUM_PHYS_PAGES && mmu.mainMemory.Length == MEMORY_SIZE
      requires pageTable.Length <= ClearCount(bitmap.Bits()) && frames == [] && pageTable.Length < WORD
      modifies this, pageTable, bitmap.store, mmu.mainMemory
      ensures Valid() && Allocated(old(bitmap.Bits()), bitmap.Bits(), frames)
      ensures mmu.mainMemory[..] == AfterFill(old(mmu.mainMemory[..]), frames)
    {
      ghost var bits, memory := bitmap.Bits(), mmu.mainMemory[..];
      for i := 0 to pageTable.Length
        invariant |frames| == i && InMemory(frames)
        invariant forall k :: 0 <= k < i ==> Maps(pageTable[k], frames[k])
        invariant Allocated(bits, bitmap.Bits(), frames)
        invariant ClearCount(bitmap.Bits()) + i == ClearCount(bits)
        invariant mmu.mainMemory[..] == AfterFill(memory, frames)
      {
        ClearCountPositive(bitmap.Bits());
        AllocatedStep(bits, bitmap.Bits(), frames);
        ClearCountMark(bitmap.Bits(), FirstClear(bitmap.Bits(), 0).value);
        FillTwice(memory, frames, FirstClear(bitmap.Bits(), 0).value);
        TakeFrame(i, bitmap, mmu);
      }
    }

    method TakeFrame(i: Word, bitmap: Bitmap, mmu: Mmu)
      requires bitmap.store.Length == NUM_PHYS_PAGES && mmu.mainMemory.Length == MEMORY_SIZE
      requires i < pageTable.Length && FirstClear(bitmap.Bits(), 0).Some?
      modifies this, pageTable, bitmap.store, mmu.mainMemory
      ensures var frame := FirstClear(old(bitmap.Bits()), 0).value;
              && frames == old(frames) + [frame] && Maps(pageTable[i], frame)
              && bitmap.Bits() == old(bitmap.Bits())[frame := true]
              && mmu.mainMemory[..] == FilledZero(old(mmu.mainMemory[..]), frame)
      ensures forall k :: 0 <= k < pageTable.Length && k != i ==> pageTable[k] == old(pageTable[k])
    {
      var frame := bitmap.Find();
      pageTable[i] := TranslationEntry(i, frame.value, true, false, false, false);
      FillStart(mmu.mainMemory, frame.value);
      frames := frames + [frame.value];
    }

    /** Copies a segment in, a byte at a time, through the page table. */
    method Load(mmu: Mmu, addr: nat, bytes: Bytes)
      requires Valid() && mmu.mainMemory.Length == MEMORY_SIZE
      requires |bytes| == 0 || addr + |bytes| <= pageTable.Length * PAGE_SIZE
      modifies mmu.mainMemory
      ensures mmu.mainMemory[..] == Loaded(old(mmu.mainMemory[..]), frames, addr, bytes, |bytes|)
    {
      ghost var memory := mmu.mainMemory[..];
      if |bytes| == 0 {
        return;
      }
      for i := 0 to |bytes|
        invariant Valid() && mmu.mainMemory[..] == Loaded(memory, frames, addr, bytes, i)
      {
        LoadByte(mmu, addr, bytes, i, memory);
      }
    }

    method LoadByte(mmu: Mmu, addr: nat, bytes: Bytes, i: nat, ghost memory: Bytes)
      requires Valid() && mmu.mainMemory.Length == MEMORY_SIZE == |memory|
      requires i < |bytes| && addr + |bytes| <= pageTable.Length * PAGE_SIZE
      requires mmu.mainMemory[..] == Loaded(memory, frames, addr, bytes, i)
      modifies mmu.mainMemory
      ensures Valid() && mmu.mainMemory[..] == Loaded(memory, frames, addr, bytes, i + 1)
    {
      LoadedStep(memory, frames, addr, bytes, i);
      var page := (addr + i) / PAGE_SIZE;
      assert Maps(pageTable[page], frames[page]);
      CopyInto(mmu.mainMemory, pageTable[page].physicalPage * PAGE_SIZE + (addr + i) % PAGE_SIZE, [bytes[i]]);
    }

    /** Gives the frames back. */
    method Release(bitmap: Bitmap)
      requires Valid() && bitmap.store.Length == NUM_PHYS_PAGES
      modifies bitmap.store
      ensures Cleared(old(bitmap.Bits()), bitmap.Bits(), frames)
    {
      for i := 0 to pageTable.Length
        invariant Cleared(old(bitmap.Bits()), bitmap.Bits(), frames[..i])
      {
        assert Maps(pageTable[i], frames[i]);
        assert frames[..i + 1] == frames[..i] + [frames[i]];
        bitmap.Clear(pageTable[i].physicalPage);
      }
      assert frames[..pageTable.Length] == frames;
    }

    method RestoreState(mmu: Mmu)
      modifies mmu`pageTable
      ensures mmu.pageTable == pageTable
    {
      mmu.pageTable := pageTable;
    }

    /** The unit reads through this space's table once it has been switched to. */
    method Fetch(mmu: Mmu, addr: Word, size: nat) returns (e: ExceptionType, value: int)
      requires Valid() && mmu.mainMemory.Length == MEMORY_SIZE && IsSize(size)
      modifies mmu`pageTable, pageTable
      ensures Valid()
      ensures e == NoException <==> InBounds(|frames|, addr, size)
      ensures e == NoException ==>
                && addr + size <= |frames| * PAGE_SIZE
                && value == Decoded(View(frames, mmu.mainMemory[..])[addr..addr + size])
    {
      RestoreState(mmu);
      TableTranslates(pageTable[..], frames, addr, size, false);
      ghost var table := pageTable[..];
      e, value := mmu.ReadMem(addr, size);
      SameTable(table, pageTable[..], frames);
      if e == NoException {
        ViewSlice(frames, mmu.mainMemory[..], addr, size);
      }
    }

    method Store(mmu: Mmu, addr: Word, size: nat, value: int) returns (e: ExceptionType)
      requires Valid() && mmu.mainMemory.Length == MEMORY_SIZE && IsSize(size)
      modifies mmu`pageTable, pageTable, mmu.mainMemory
      ensures Valid()
      ensures e == NoException <==> InBounds(|frames|, addr, size)
      ensures e != NoException ==> mmu.mainMemory[..] == old(mmu.mainMemory[..])
      ensures e == NoException ==>
                && addr / PAGE_SIZE < |frames| && addr % PAGE_SIZE + size <= PAGE_SIZE
                && Physical(frames, addr) + size <= MEMORY_SIZE
                && mmu.mainMemory[..] == Splice(old(mmu.mainMemory[..]), Physical(frames, addr), Encoded(value, size))
    {
      RestoreState(mmu);
      TableTranslates(pageTable[..], frames, addr, size, true);
      ghost var table := pageTable[..];
      e := mmu.WriteMem(addr, size, value);
      SameTable(table, pageTable[..], frames);
    }
  }

  /** A range inside one page is contiguous in memory. */
  lemma ViewSlice(frames: Frames, memory: Bytes, addr: nat, size: nat)
    requires InMemory(frames) && |memory| == MEMORY_SIZE
    requires addr / PAGE_SIZE < |frames| && addr % PAGE_SIZE + size <= PAGE_SIZE
    ensures addr + size <= |frames| * PAGE_SIZE && Physical(frames, addr) + size <= MEMORY_SIZE
    ensures memory[Physical(frames, addr)..Physical(frames, addr) + size] == View(frames, memory)[addr..addr + size]
  {
    var p, v := Physical(frames, addr), View(frames, memory);
    assert frames[addr / PAGE_SIZE] < NUM_PHYS_PAGES;
    assert addr + size <= |v|;
    var m, w := memory[p..p + size], v[addr..addr + size];
    forall k | 0 <= k < size ensures m[k] == w[k] {
      assert (addr + k) / PAGE_SIZE == addr / PAGE_SIZE;
    }
  }

  /** The fill starts at the beginning of memory and its value is the frame number. */
  method FillStart(memory: array<Byte>, value: Byte)
    requires memory.Length == MEMORY_SIZE
    modifies memory
    ensures memory[..] == FilledZero(old(memory[..]), value)
  {
    forall a | 0 <= a < PAGE_SIZE {
      memory[a] := value;
    }
  }

  lemma FillTwice(memory: Bytes, frames: Frames, value: Word)
    requires |memory| == MEMORY_SIZE && InMemory(frames) && value < NUM_PHYS_PAGES
    ensures FilledZero(AfterFill(memory, frames), value) == AfterFill(memory, frames + [value])
  {
    assert AfterFill(memory, frames)[PAGE_SIZE..] == memory[PAGE_SIZE..];
  }

  /** The views after a program was created: the fill touches whoever holds frame 0, and the new
      space sees its segments over what its frames held. */
  ghost function ViewsAfterCreate(spaces: seq<Frames>, memory: Bytes, frames: Frames, exe: Executable): (v: seq<Bytes>)
    requires |memory| == MEMORY_SIZE && InMemory(frames) && SegmentsFit(exe, |frames|)
    requires forall i :: 0 <= i < |spaces| ==> InMemory(spaces[i])
  {
    Views(spaces, AfterFill(memory, frames)) +
    [WithSegments(View(frames, AfterFill(memory, frames)), exe)]
  }

  ghost function Views(spaces: seq<Frames>, memory: Bytes): (v: seq<Bytes>)
    requires |memory| == MEMORY_SIZE && forall i :: 0 <= i < |spaces| ==> InMemory(spaces[i])
    ensures |v| == |spaces| && forall i :: 0 <= i < |spaces| ==> v[i] == View(spaces[i], memory)
  {
    seq(|spaces|, i requires 0 <= i < |spaces| => View(spaces[i], memory))
  }

  /** Creating a program leaves the others alone exactly when frame 0 is free, or already holds
      nothing but the number of the last frame the new program gets. */
  lemma CreationIsolatedIff(spaces: seq<Frames>, bits: seq<bool>, memory: Bytes, frames: Frames, exe: Executable)
    requires |memory| == MEMORY_SIZE && InMemory(frames) && frames != [] && SegmentsFit(exe, |frames|) && Separate(spaces, bits)
    ensures ViewsAfterCreate(spaces, memory, frames, exe)[..|spaces|] == Views(spaces, memory) <==>
            !bits[0] || forall a :: 0 <= a < PAGE_SIZE ==> memory[a] == frames[|frames| - 1]
  {
    var last := frames[|frames| - 1];
    var filled := FilledZero(memory, last);
    var before, after := Views(spaces, memory), Views(spaces, filled);
    assert ViewsAfterCreate(spaces, memory, frames, exe)[..|spaces|] == after;
    forall i: nat | i < |spaces|
      ensures after[i] == before[i] <==> 0 !in spaces[i] || forall a :: 0 <= a < PAGE_SIZE ==> memory[a] == last
    {
      FillDisturbsIff(spaces[i], memory, last);
    }
    if after == before && Held(spaces, 0) {
      var i: nat :| i < |spaces| && 0 in spaces[i];
      assert after[i] == before[i];
    }
  }

  /** Two programs on an empty machine, the first with nothing to load: whatever memory held, the
      second one's creation overwrites the first's lowest page. */
  lemma CreationDisturbs(bits0: seq<bool>, bits1: seq<bool>, bits2: seq<bool>, first: Frames, second: Frames,
                         memory: Bytes, exe1: Executable, exe2: Executable)
    requires |memory| == MEMORY_SIZE && |bits0| == NUM_PHYS_PAGES && forall f :: 0 <= f < NUM_PHYS_PAGES ==> !bits0[f]
    requires Allocated(bits0, bits1, first) && Allocated(bits1, bits2, second)
    requires |first| == NumPages(exe1) > 0 && |second| == NumPages(exe2) > 0
    requires |exe1.code| == 0 == |exe1.data| && SegmentsFit(exe2, |second|)
    ensures var memory1 := AfterLoad(AfterFill(memory, first), first, exe1);
            ViewsAfterCreate([first], memory1, second, exe2)[..1] != Views([first], memory1)
  {
    var memory1 := AfterLoad(AfterFill(memory, first), first, exe1);
    FramesTaken(bits0, bits1, first);
    NextFrames(bits0, bits1, first, 0, |first| - 1);
    NextFrames(bits1, bits2, second, |first|, |second| - 1);
    SeparateAppend([], bits0, bits1, first);
    assert [] + [first] == [first];
    CreationIsolatedIff([first], bits1, memory1, second, exe2);
    FilledFirst(memory, first);
    assert memory1[0] != second[|second| - 1];
  }

  lemma FilledFirst(memory: Bytes, frames: Frames)
    requires |memory| == MEMORY_SIZE && InMemory(frames) && frames != []
    ensures AfterFill(memory, frames)[0] == frames[|frames| - 1]
  {
  }

  lemma FramesTaken(bits: seq<bool>, bits': seq<bool>, list: Frames)
    requires Allocated(bits, bits', list) && forall s :: 0 <= s < |bits| ==> !bits[s]
    ensures forall s :: 0 <= s < |bits| ==> (bits'[s] <==> s < |list|)
  {
    forall i | 0 <= i < |list| ensures list[i] == i {
      NextFrames(bits, bits', list, 0, i);
    }
    forall s | 0 <= s < |bits| ensures s in list <==> s < |list| {
      assert s < |list| ==> list[s] == s;
    }
  }

  /** A new program's memory starts out zero, as intended, exactly when its frames happened to be
      zero already and frame 0 is not among them (unless it is the only one). */
  lemma StartsZeroIff(memory: Bytes, frames: Frames)
    requires |memory| == MEMORY_SIZE && InMemory(frames) && frames != []
    ensures AllZero(View(frames, AfterFill(memory, frames))) <==>
            && (forall k :: 0 <= k < |frames| && frames[k] != 0 ==> FrameIsZero(memory, frames[k]))
            && (0 in frames ==> frames[|frames| - 1] == 0)
  {
    var filled := AfterFill(memory, frames);
    var v := View(frames, filled);
    if AllZero(v) {
      forall k | 0 <= k < |frames| ensures FrameIsZero(filled, frames[k]) {
        PageZero(frames, filled, k);
      }
      if 0 in frames {
        var k :| 0 <= k < |frames| && frames[k] == 0;
        SameFrame(memory, frames, frames[k]);
      }
      forall k | 0 <= k < |frames| && frames[k] != 0 ensures FrameIsZero(memory, frames[k]) {
        assert FrameIsZero(filled, frames[k]);
        SameFrame(memory, frames, frames[k]);
      }
    }
    if (forall k :: 0 <= k < |frames| && frames[k] != 0 ==> FrameIsZero(memory, frames[k]))
       && (0 in frames ==> frames[|frames| - 1] == 0) {
      forall k | 0 <= k < |frames| ensures FrameIsZero(filled, frames[k]) {
        assert frames[k] in frames;
        SameFrame(memory, frames, frames[k]);
      }
      forall a | 0 <= a < |v| ensures v[a] == 0 {
        assert FrameIsZero(filled, frames[a / PAGE_SIZE]);
        assert filled[FrameByte(frames[a / PAGE_SIZE], a % PAGE_SIZE)] == 0;
      }
    }
  }

  ghost predicate AllZero(v: Bytes) { forall a :: 0 <= a < |v| ==> v[a] == 0 }

  function FrameByte(f: nat, o: nat): nat { f * PAGE_SIZE + o }

  ghost predicate FrameIsZero(memory: Bytes, f: nat)
    requires f < NUM_PHYS_PAGES && |memory| == MEMORY_SIZE
  {
    forall o :: 0 <= o < PAGE_SIZE ==> memory[FrameByte(f, o)] == 0
  }

  lemma PageZero(frames: Frames, memory: Bytes, k: nat)
    requires InMemory(frames) && |memory| == MEMORY_SIZE && k < |frames| && AllZero(View(frames, memory))
    ensures FrameIsZero(memory, frames[k])
  {
    forall o | 0 <= o < PAGE_SIZE ensures memory[FrameByte(frames[k], o)] == 0 {
      var a := FrameByte(k, o);
      assert a / PAGE_SIZE == k && a % PAGE_SIZE == o;
      assert View(frames, memory)[a] == 0;
    }
  }

  /** The fill leaves every frame but frame 0 as it was, and makes that one uniform. */
  lemma SameFrame(memory: Bytes, frames: Frames, f: nat)
    requires |memory| == MEMORY_SIZE && InMemory(frames) && frames != [] && f < NUM_PHYS_PAGES
    ensures f != 0 ==> (FrameIsZero(AfterFill(memory, frames), f) <==> FrameIsZero(memory, f))
    ensures f == 0 ==> (FrameIsZero(AfterFill(memory, frames), f) <==> frames[|frames| - 1] == 0)
  {
    var filled := AfterFill(memory, frames);
    forall o | 0 <= o < PAGE_SIZE
      ensures filled[FrameByte(f, o)] == if f == 0 then frames[|frames| - 1] else memory[FrameByte(f, o)] {
    }
    assert f == 0 ==> filled[FrameByte(f, 0)] == frames[|frames| - 1];
  }

  lemma CreateViews(spaces: seq<Frames>, bits: seq<bool>, frames: Frames, memory: Bytes, exe: Executable)
    requires |memory| == MEMORY_SIZE && InMemory(frames) && SegmentsFit(exe, |frames|)
    requires Separate(spaces + [frames], bits) && forall i :: 0 <= i < |spaces| ==> InMemory(spaces[i])
    ensures Views(spaces + [frames], AfterLoad(AfterFill(memory, frames), frames, exe))
            == ViewsAfterCreate(spaces, memory, frames, exe)
  {
    var all, n, m := spaces + [frames], |spaces|, AfterFill(memory, frames);
    LoadOwn(all, bits, n, m, exe);
    forall i | 0 <= i < n ensures View(spaces[i], AfterLoad(m, frames, exe)) == View(spaces[i], m) {
      LoadOther(all, bits, n, i, m, exe);
    }
    AssembleViews(spaces, memory, frames, exe, AfterLoad(m, frames, exe));
  }

  lemma AssembleViews(spaces: seq<Frames>, memory: Bytes, frames: Frames, exe: Executable, after: Bytes)
    requires |memory| == |after| == MEMORY_SIZE && InMemory(frames) && SegmentsFit(exe, |frames|)
    requires forall i :: 0 <= i < |spaces| ==> InMemory(spaces[i])
    requires var m := AfterFill(memory, frames);
             && (forall i :: 0 <= i < |spaces| ==> View(spaces[i], after) == View(spaces[i], m))
             && View(frames, after) == WithSegments(View(frames, m), exe)
    ensures forall s <- spaces + [frames] :: InMemory(s)
    ensures Views(spaces + [frames], after) == ViewsAfterCreate(spaces, memory, frames, exe)
  {
    var all := spaces + [frames];
    assert forall i :: 0 <= i < |all| ==> all[i] == if i < |spaces| then spaces[i] else frames;
  }

  lemma LoadOwn(all: seq<Frames>, bits: seq<bool>, n: nat, memory: Bytes, exe: Executable)
    requires Separate(all, bits) && n < |all| && |memory| == MEMORY_SIZE && SegmentsFit(exe, |all[n]|)
    ensures View(all[n], AfterLoad(memory, all[n], exe))
            == WithSegments(View(all[n], memory), exe)
  {
    var m := Loaded(memory, all[n], exe.codeAddr, exe.code, |exe.code|);
    SeparateOwn(all, bits, n);
    LoadedOwn(all[n], memory, exe.codeAddr, exe.code, |exe.code|);
    LoadedOwn(all[n], m, exe.dataAddr, exe.data, |exe.data|);
  }

  lemma LoadOther(all: seq<Frames>, bits: seq<bool>, n: nat, i: nat, memory: Bytes, exe: Executable)
    requires Separate(all, bits) && n < |all| && |memory| == MEMORY_SIZE && SegmentsFit(exe, |all[n]|)
    requires i < |all| && i != n
    ensures View(all[i], AfterLoad(memory, all[n], exe)) == View(all[i], memory)
  {
    var m := Loaded(memory, all[n], exe.codeAddr, exe.code, |exe.code|);
    LoadedOther(all, bits, n, i, memory, exe.codeAddr, exe.code, |exe.code|);
    LoadedOther(all, bits, n, i, m, exe.dataAddr, exe.data, |exe.data|);
  }

  lemma WriteViews(spaces: seq<Frames>, bits: seq<bool>, n: nat, memory: Bytes, addr: nat, data: Bytes)
    requires Separate(spaces, bits) && n < |spaces| && |memory| == MEMORY_SIZE
    requires addr / PAGE_SIZE < |spaces[n]| && addr % PAGE_SIZE + |data| <= PAGE_SIZE
    ensures Physical(spaces[n], addr) + |data| <= MEMORY_SIZE && addr + |data| <= |spaces[n]| * PAGE_SIZE
    ensures Views(spaces, Splice(memory, Physical(spaces[n], addr), data))
            == Views(spaces, memory)[n := Splice(View(spaces[n], memory), addr, data)]
  {
    SeparateOwn(spaces, bits, n);
    WriteOwn(spaces[n], memory, addr, data);
    var m := Splice(memory, Physical(spaces[n], addr), data);
    forall i | 0 <= i < |spaces| && i != n ensures View(spaces[i], m) == View(spaces[i], memory) {
      WriteOther(spaces, bits, n, i, memory, addr, data);
    }
  }

  lemma SplicedHolds(memory: Bytes, addr: nat, value: int, size: nat)
    requires IsSize(size) && addr + size <= |memory|
    ensures HoldsValue(Splice(memory, addr, Encoded(value, size))[addr..addr + size], value)
  {
    EncodedHoldsValue(value, size);
    assert Splice(memory, addr, Encoded(value, size))[addr..addr + size] == Encoded(value, size);
  }

  /** A store followed by a load of the same size gives the value back, cut to the size. */
  lemma StoreThenLoad(memory: Bytes, addr: nat, size: nat, value: int)
    requires IsSize(size) && addr + size <= |memory| && -0x8000_0000 <= value < 0x8000_0000
    ensures var loaded := Decoded(Splice(memory, addr, Encoded(value, size))[addr..addr + size]);
            && (size == 4 ==> loaded == value)
            && (size == 2 ==> loaded == value % 0x1_0000)
            && (size == 1 ==> loaded % 256 == value % 256 && -128 <= loaded < 128)
  {
    ReadBack(value, size);
    assert Splice(memory, addr, Encoded(value, size))[addr..addr + size] == Encoded(value, size);
  }

  /** `Wild`: the loader indexed the page table past its end. */
  datatype Creation = Created | NoRoom | Wild

  class Machine {
    const mmu: Mmu
    const bitmap: Bitmap
    var spaces: seq<AddressSpace>

    ghost function AllFrames(): (f: seq<Frames>)
      reads this, spaces
    {
      seq(|spaces|, i requires 0 <= i < |spaces| reads this, spaces => spaces[i].frames)
    }

    ghost predicate Valid()
      reads this, spaces, bitmap.store, set s <- spaces :: s.pageTable
    {
      mmu.mainMemory.Length == MEMORY_SIZE && Tables() && Separate(AllFrames(), bitmap.Bits())
    }

    ghost predicate Tables()
      reads this, spaces, set s <- spaces :: s.pageTable
    {
      && (forall s <- spaces :: s.Valid())
      && (forall i, j :: 0 <= i < j < |spaces| ==> spaces[i] != spaces[j] && spaces[i].pageTable != spaces[j].pageTable)
    }

    /** What each program sees. */
    ghost function Memories(): (v: seq<Bytes>)
      requires Valid()
      reads this, spaces, bitmap.store, mmu.mainMemory, set s <- spaces :: s.pageTable
    {
      Views(AllFrames(), mmu.mainMemory[..])
    }

    constructor ()
      ensures Valid() && spaces == [] && fresh(mmu) && fresh(bitmap) && fresh(mmu.mainMemory) && fresh(bitmap.store)
    {
      var none := new TranslationEntry[0];
      mmu := new Mmu(none);
      bitmap := new Bitmap(NUM_PHYS_PAGES);
      spaces := [];
    }

    /** Creation succeeds exactly when enough frames are free and the segments lie in the space.
        Of a machine on which the loader went wild nothing more is said. */
    method Create(exe: Executable) returns (r: Creation)
      requires Valid()
      modifies this, bitmap.store, mmu.mainMemory
      ensures r == if NumPages(exe) > ClearCount(old(bitmap.Bits())) then NoRoom
                   else if SegmentsFit(exe, NumPages(exe)) then Created else Wild
      ensures !r.Wild? ==> Valid()
      ensures r.NoRoom? ==> spaces == old(spaces) && bitmap.Bits() == old(bitmap.Bits()) && Memories() == old(Memories())
      ensures r.Created? ==>
                && |spaces| == |old(spaces)| + 1 && spaces[..|old(spaces)|] == old(spaces)
                && var frames := spaces[|old(spaces)|].frames;
                   && |frames| == NumPages(exe) && InMemory(frames)
                   && Allocated(old(bitmap.Bits()), bitmap.Bits(), frames)
                   && Memories() == ViewsAfterCreate(old(AllFrames()), old(mmu.mainMemory[..]), frames, exe)
      ensures r.Created? ==> fresh(spaces[|old(spaces)|].pageTable)
    {
      var clear := bitmap.CountClear();
      if NumPages(exe) > clear {
        return NoRoom;
      }
      var ok := Add(exe);
      return if ok then Created else Wild;
    }

    method Add(exe: Executable) returns (ok: bool)
      requires Valid() && NumPages(exe) <= ClearCount(bitmap.Bits())
      modifies this, bitmap.store, mmu.mainMemory
      ensures ok <==> SegmentsFit(exe, NumPages(exe))
      ensures ok ==> Valid()
      ensures ok ==> |spaces| == |old(spaces)| + 1 && spaces[..|old(spaces)|] == old(spaces)
      ensures ok ==>
                var frames := spaces[|old(spaces)|].frames;
                && |frames| == NumPages(exe) && InMemory(frames)
                && Allocated(old(bitmap.Bits()), bitmap.Bits(), frames)
                && Memories() == ViewsAfterCreate(old(AllFrames()), old(mmu.mainMemory[..]), frames, exe)
      ensures ok ==> fresh(spaces[|old(spaces)|].pageTable)
    {
      ghost var all, bits, memory := AllFrames(), bitmap.Bits(), mmu.mainMemory[..];
      ghost var frames;
      ok, frames := Build(exe);
      if ok {
        SeparateAppend(all, bits, bitmap.Bits(), frames);
        CreateViews(all, bitmap.Bits(), frames, memory, exe);
      }
    }

    method Build(exe: Executable) returns (ok: bool, ghost frames: Frames)
      requires Tables() && bitmap.store.Length == NUM_PHYS_PAGES && mmu.mainMemory.Length == MEMORY_SIZE
      requires NumPages(exe) <= ClearCount(bitmap.Bits())
      modifies this, bitmap.store, mmu.mainMemory
      ensures ok <==> SegmentsFit(exe, NumPages(exe))
      ensures ok ==> Tables() && AllFrames() == old(AllFrames()) + [frames] && |frames| == NumPages(exe) && InMemory(frames)
      ensures ok ==>
                |spaces| == |old(spaces)| + 1 && spaces[..|old(spaces)|] == old(spaces) && spaces[|old(spaces)|].frames == frames
      ensures ok ==> Allocated(old(bitmap.Bits()), bitmap.Bits(), frames)
      ensures ok ==> mmu.mainMemory[..] == AfterLoad(AfterFill(old(mmu.mainMemory[..]), frames), frames, exe)
      ensures ok ==> fresh(spaces[|old(spaces)|].pageTable)
    {
      var s := new AddressSpace(exe, bitmap, mmu);
      ok, frames := s.loaded, s.frames;
      if ok {
        Attach(s);
      }
    }

    method Attach(s: AddressSpace)
      requires Tables() && s.Valid() && s !in spaces && forall t <- spaces :: t.pageTable != s.pageTable
      modifies this`spaces
      ensures Tables() && spaces == old(spaces) + [s] && AllFrames() == old(AllFrames()) + [s.frames]
    {
      spaces := spaces + [s];
    }

    /** Destroying a program leaves the others as they were. */
    method Destroy(n: nat)
      requires Valid() && n < |spaces|
      modifies this, bitmap.store
      ensures Valid() && spaces == Dropped(old(spaces), n) && Memories() == Dropped(old(Memories()), n)
    {
      ghost var all, bits := AllFrames(), bitmap.Bits();
      spaces[n].Release(bitmap);
      SeparateDrop(all, bits, bitmap.Bits(), n);
      spaces := spaces[..n] + spaces[n + 1..];
      assert AllFrames() == Dropped(all, n);
    }

    /** A user load by program `n`: what it sees is its own memory. */
    method Read(n: nat, addr: Word, size: nat) returns (e: ExceptionType, value: int)
      requires Valid() && n < |spaces| && IsSize(size)
      modifies mmu`pageTable, spaces[n].pageTable
      ensures Valid() && Memories() == old(Memories())
      ensures e == NoException <==> InBounds(|spaces[n].frames|, addr, size)
      ensures e == NoException ==> addr + size <= |Memories()[n]| && value == Decoded(Memories()[n][addr..addr + size])
      ensures e == NoException ==> IsValue(Memories()[n][addr..addr + size], value)
    {
      e, value := spaces[n].Fetch(mmu, addr, size);
      assert AllFrames() == old(AllFrames());
      if e == NoException {
        DecodedIsValue(Memories()[n][addr..addr + size]);
      }
    }

    /** A user store by program `n` changes its own memory at that address and nobody else's. */
    method Write(n: nat, addr: Word, size: nat, value: int) returns (e: ExceptionType)
      requires Valid() && n < |spaces| && IsSize(size)
      modifies mmu`pageTable, spaces[n].pageTable, mmu.mainMemory
      ensures Valid()
      ensures e == NoException <==> InBounds(|spaces[n].frames|, addr, size)
      ensures e != NoException ==> Memories() == old(Memories())
      ensures e == NoException ==>
                && addr + size <= |old(Memories())[n]|
                && Memories() == old(Memories())[n := Splice(old(Memories())[n], addr, Encoded(value, size))]
                && HoldsValue(Memories()[n][addr..addr + size], value)
    {
      ghost var memory := mmu.mainMemory[..];
      e := spaces[n].Store(mmu, addr, size, value);
      assert AllFrames() == old(AllFrames());
      if e == NoException {
        WriteViews(AllFrames(), bitmap.Bits(), n, memory, addr, Encoded(value, size));
        SplicedHolds(old(Memories())[n], addr, value, size);
      }
    }
  }
}
