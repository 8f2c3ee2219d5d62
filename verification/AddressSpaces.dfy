/** Address spaces: frames taken from a bitmap, and the private memory each space sees. */
module AddressSpaces {
  import opened DiskLayout
  import opened Mmus
  import opened Directories
  import opened OpenFiles

  const USER_STACK_SIZE := 1024

  type Frames = seq<Word>

  ghost predicate InMemory(frames: Frames) {
    forall k :: 0 <= k < |frames| ==> frames[k] < NUM_PHYS_PAGES
  }

  function Physical(frames: Frames, addr: nat): (p: nat)
    requires addr / PAGE_SIZE < |frames|
  {
    frames[addr / PAGE_SIZE] * PAGE_SIZE + addr % PAGE_SIZE
  }

  /** The memory a space sees: one flat array of bytes. */
  ghost function View(frames: Frames, memory: Bytes): (v: Bytes)
    requires InMemory(frames) && |memory| == MEMORY_SIZE
    ensures |v| == |frames| * PAGE_SIZE
    ensures forall a :: 0 <= a < |v| ==> v[a] == memory[Physical(frames, a)]
  {
    seq(|frames| * PAGE_SIZE, (a: nat) requires a < |frames| * PAGE_SIZE => memory[Physical(frames, a)])
  }

  /** No frame is used twice, in one space or by two; the marked frames are those in use. */
  ghost predicate Separate(spaces: seq<Frames>, bits: seq<bool>) {
    && |bits| == NUM_PHYS_PAGES
    && (forall i :: 0 <= i < |spaces| ==> InMemory(spaces[i]))
    && OneHolder(spaces)
    && (forall f :: 0 <= f < NUM_PHYS_PAGES ==> (bits[f] <==> Held(spaces, f)))
  }

  /** Page `k` of space `i`. */
  predicate IsPage(spaces: seq<Frames>, i: int, k: int) { 0 <= i < |spaces| && 0 <= k < |spaces[i]| }

  ghost predicate OneHolder(spaces: seq<Frames>) {
    forall i, k, j, l ::
      IsPage(spaces, i, k) && IsPage(spaces, j, l) && spaces[i][k] == spaces[j][l] ==> i == j && k == l
  }

  ghost predicate Held(spaces: seq<Frames>, f: int) {
    exists i: nat :: i < |spaces| && f in spaces[i]
  }

  // ----- Allocation and release -----

  /** Where the lowest frames are taken, the next ones are handed out in order. */
  lemma {:induction false} NextFrames(bits: seq<bool>, bits': seq<bool>, list: Frames, n: nat, i: nat)
    requires Allocated(bits, bits', list) && i < |list| && forall s :: 0 <= s < |bits| ==> (bits[s] <==> s < n)
    ensures list[i] == n + i
  {
    if i > 0 {
      NextFrames(bits, bits', list, n, i - 1);
      assert list[i - 1] < list[i];
    }
    assert n + i <= list[i];
    assert bits'[n + i] ==> n + i in list;
  }

  lemma HeldAppend(spaces: seq<Frames>, list: Frames, f: int)
    ensures Held(spaces + [list], f) <==> Held(spaces, f) || f in list
  {
    var spaces' := spaces + [list];
    if Held(spaces, f) {
      var i: nat :| i < |spaces| && f in spaces[i];
      assert f in spaces'[i];
    }
    if f in list {
      assert f in spaces'[|spaces|];
    }
  }

  lemma SeparateAppend(spaces: seq<Frames>, bits: seq<bool>, bits': seq<bool>, list: Frames)
    requires Separate(spaces, bits) && Allocated(bits, bits', list)
    ensures Separate(spaces + [list], bits')
  {
    var spaces' := spaces + [list];
    forall f | 0 <= f < NUM_PHYS_PAGES ensures bits'[f] <==> Held(spaces', f) {
      HeldAppend(spaces, list, f);
    }
    forall i, k, j, l | IsPage(spaces', i, k) && IsPage(spaces', j, l) && spaces'[i][k] == spaces'[j][l]
      ensures i == j && k == l
    {
      assert i < |spaces| ==> IsPage(spaces, i, k) && Held(spaces, spaces[i][k]);
      assert j < |spaces| ==> IsPage(spaces, j, l) && Held(spaces, spaces[j][l]);
    }
  }

  /** The list without its n-th space. */
  function Dropped<T>(s: seq<T>, n: nat): (r: seq<T>)
    requires n < |s|
    ensures |r| == |s| - 1 && forall i :: 0 <= i < |r| ==> r[i] == s[if i < n then i else i + 1]
  {
    s[..n] + s[n + 1..]
  }

  lemma SeparateDrop(spaces: seq<Frames>, bits: seq<bool>, bits': seq<bool>, n: nat)
    requires Separate(spaces, bits) && n < |spaces| && Cleared(bits, bits', spaces[n])
    ensures Separate(Dropped(spaces, n), bits')
  {
    forall f | 0 <= f < NUM_PHYS_PAGES ensures bits'[f] <==> Held(Dropped(spaces, n), f) {
      HeldDrop(spaces, n, f);
    }
    OneHolderDrop(spaces, n);
  }

  lemma OneHolderDrop(spaces: seq<Frames>, n: nat)
    requires OneHolder(spaces) && n < |spaces|
    ensures OneHolder(Dropped(spaces, n))
  {
    var spaces' := Dropped(spaces, n);
    forall i, k, j, l | IsPage(spaces', i, k) && IsPage(spaces', j, l) && spaces'[i][k] == spaces'[j][l]
      ensures i == j && k == l
    {
      assert IsPage(spaces, if i < n then i else i + 1, k) && IsPage(spaces, if j < n then j else j + 1, l);
    }
  }

  lemma HeldDrop(spaces: seq<Frames>, n: nat, f: int)
    requires OneHolder(spaces) && n < |spaces|
    ensures Held(Dropped(spaces, n), f) <==> Held(spaces, f) && f !in spaces[n]
  {
    var spaces' := Dropped(spaces, n);
    if Held(spaces', f) {
      var i: nat :| i < |spaces'| && f in spaces'[i];
      OnlyHolder(spaces, if i < n then i else i + 1, n, f);
    }
    if Held(spaces, f) && f !in spaces[n] {
      var i: nat :| i < |spaces| && f in spaces[i];
      assert f in spaces'[if i < n then i else i - 1];
    }
  }

  lemma OnlyHolder(spaces: seq<Frames>, i: nat, n: nat, f: int)
    requires OneHolder(spaces) && i < |spaces| && n < |spaces| && i != n && f in spaces[i]
    ensures f !in spaces[n]
  {
    var k :| 0 <= k < |spaces[i]| && spaces[i][k] == f;
    assert IsPage(spaces, i, k);
    forall l | 0 <= l < |spaces[n]| ensures spaces[n][l] != f {
      assert IsPage(spaces, n, l);
    }
  }

  // ----- Writing -----

  ghost predicate Own(frames: Frames) {
    InMemory(frames) && forall k, l :: 0 <= k < l < |frames| ==> frames[k] != frames[l]
  }

  lemma SeparateOwn(spaces: seq<Frames>, bits: seq<bool>, i: nat)
    requires Separate(spaces, bits) && i < |spaces|
    ensures Own(spaces[i])
  {
    forall k, l | 0 <= k < l < |spaces[i]| ensures spaces[i][k] != spaces[i][l] {
      assert IsPage(spaces, i, k) && IsPage(spaces, i, l);
    }
  }

  /** A write inside one page changes that space's view at that address, and nothing else. */
  lemma WriteOwn(frames: Frames, memory: Bytes, addr: nat, data: Bytes)
    requires Own(frames) && |memory| == MEMORY_SIZE
    requires addr / PAGE_SIZE < |frames| && addr % PAGE_SIZE + |data| <= PAGE_SIZE
    ensures Physical(frames, addr) + |data| <= MEMORY_SIZE && addr + |data| <= |frames| * PAGE_SIZE
    ensures View(frames, Splice(memory, Physical(frames, addr), data)) == Splice(View(frames, memory), addr, data)
  {
    var p := Physical(frames, addr);
    var v, v' := View(frames, memory), View(frames, Splice(memory, p, data));
    forall a | 0 <= a < |v| ensures v'[a] == Splice(v, addr, data)[a] {
      SamePage(frames, addr, a, |data|);
    }
  }

  lemma SamePage(fs: Frames, addr: nat, a: nat, n: nat)
    requires addr / PAGE_SIZE < |fs| && a / PAGE_SIZE < |fs| && addr % PAGE_SIZE + n <= PAGE_SIZE
    requires fs[a / PAGE_SIZE] == fs[addr / PAGE_SIZE] ==> a / PAGE_SIZE == addr / PAGE_SIZE
    ensures Physical(fs, addr) <= Physical(fs, a) < Physical(fs, addr) + n <==> addr <= a < addr + n
    ensures addr <= a < addr + n ==> Physical(fs, a) - Physical(fs, addr) == a - addr
  {
  }

  lemma WriteOther(spaces: seq<Frames>, bits: seq<bool>, i: nat, j: nat, memory: Bytes, addr: nat, data: Bytes)
    requires Separate(spaces, bits) && i < |spaces| && j < |spaces| && i != j && |memory| == MEMORY_SIZE
    requires addr / PAGE_SIZE < |spaces[i]| && addr % PAGE_SIZE + |data| <= PAGE_SIZE
    ensures Physical(spaces[i], addr) + |data| <= MEMORY_SIZE
    ensures View(spaces[j], Splice(memory, Physical(spaces[i], addr), data)) == View(spaces[j], memory)
  {
    var p := Physical(spaces[i], addr);
    var v, v' := View(spaces[j], memory), View(spaces[j], Splice(memory, p, data));
    forall a | 0 <= a < |v| ensures v'[a] == v[a] {
      assert IsPage(spaces, j, a / PAGE_SIZE) && IsPage(spaces, i, addr / PAGE_SIZE);
      Apart(spaces[j][a / PAGE_SIZE], a % PAGE_SIZE, spaces[i][addr / PAGE_SIZE], addr % PAGE_SIZE, |data|);
    }
  }

  lemma Apart(f: nat, o: nat, g: nat, q: nat, n: nat)
    requires f != g && o < PAGE_SIZE && q + n <= PAGE_SIZE
    ensures !(g * PAGE_SIZE + q <= f * PAGE_SIZE + o < g * PAGE_SIZE + q + n)
  {
  }

  // ----- The frame-zero fill -----

  /** The fill meant for the new frame writes the frame's number over frame 0. */
  function FilledZero(memory: Bytes, value: Byte): (m: Bytes)
    requires |memory| == MEMORY_SIZE
    ensures |m| == MEMORY_SIZE
  {
    seq(PAGE_SIZE, _ => value) + memory[PAGE_SIZE..]
  }

  /** A space is disturbed by the creation of another exactly when it holds frame 0 and the
      fill changes that frame. */
  lemma FillDisturbsIff(frames: Frames, memory: Bytes, value: Byte)
    requires InMemory(frames) && |memory| == MEMORY_SIZE
    ensures View(frames, FilledZero(memory, value)) == View(frames, memory) <==>
            0 !in frames || forall a :: 0 <= a < PAGE_SIZE ==> memory[a] == value
  {
    var m := FilledZero(memory, value);
    var v, v' := View(frames, memory), View(frames, m);
    if 0 !in frames {
      forall a | 0 <= a < |v| ensures v'[a] == v[a] {
        assert frames[a / PAGE_SIZE] in frames;
      }
    } else {
      var k :| 0 <= k < |frames| && frames[k] == 0;
      forall a | 0 <= a < PAGE_SIZE ensures v[k * PAGE_SIZE + a] == memory[a] && v'[k * PAGE_SIZE + a] == value {
        assert (k * PAGE_SIZE + a) / PAGE_SIZE == k;
      }
      assert (forall a :: 0 <= a < PAGE_SIZE ==> memory[a] == value) ==> m == memory;
      if v == v' {
        forall a | 0 <= a < PAGE_SIZE ensures memory[a] == value {
          assert v[k * PAGE_SIZE + a] == v'[k * PAGE_SIZE + a];
        }
      }
    }
  }

  // ----- Loading a program -----

  /** One byte put into memory through the table, and into the memory a space sees. */
  function LoadOne(memory: Bytes, frames: Frames, addr: nat, b: Byte): (m: Bytes)
    requires |memory| == MEMORY_SIZE && addr / PAGE_SIZE < |frames| && Physical(frames, addr) < MEMORY_SIZE
    ensures |m| == MEMORY_SIZE
  {
    Splice(memory, Physical(frames, addr), [b])
  }

  function PlaceOne(v: Bytes, addr: nat, b: Byte): (r: Bytes)
    requires addr < |v|
    ensures |r| == |v|
  {
    Splice(v, addr, [b])
  }

  /** Memory after the first `n` bytes of a segment were copied in, each through the table. */
  ghost function Loaded(memory: Bytes, frames: Frames, addr: nat, bytes: Bytes, n: nat): (m: Bytes)
    requires |memory| == MEMORY_SIZE && InMemory(frames)
    requires n <= |bytes| && (n == 0 || addr + n <= |frames| * PAGE_SIZE)
    ensures |m| == MEMORY_SIZE
  {
    if n == 0 then memory
    else LoadOne(Loaded(memory, frames, addr, bytes, n - 1), frames, addr + n - 1, bytes[n - 1])
  }

  lemma LoadedStep(memory: Bytes, frames: Frames, addr: nat, bytes: Bytes, n: nat)
    requires |memory| == MEMORY_SIZE && InMemory(frames) && n < |bytes| && addr + n < |frames| * PAGE_SIZE
    ensures (addr + n) / PAGE_SIZE < |frames| && Physical(frames, addr + n) < MEMORY_SIZE
    ensures Loaded(memory, frames, addr, bytes, n + 1)
            == LoadOne(Loaded(memory, frames, addr, bytes, n), frames, addr + n, bytes[n])
  {
  }

  /** A segment in its place, byte by byte. */
  ghost function Placed(v: Bytes, addr: nat, bytes: Bytes, n: nat): (r: Bytes)
    requires n <= |bytes| && (n == 0 || addr + n <= |v|)
    ensures |r| == |v|
  {
    if n == 0 then v else PlaceOne(Placed(v, addr, bytes, n - 1), addr + n - 1, bytes[n - 1])
  }

  /** All of it is one piece spliced in; a segment without bytes has no place. */
  lemma {:induction false} PlacedIsSplice(v: Bytes, addr: nat, bytes: Bytes, n: nat)
    requires n <= |bytes| && (n == 0 || addr + n <= |v|)
    ensures Placed(v, addr, bytes, n) == if n == 0 then v else Splice(v, addr, bytes[..n])
  {
    if n > 0 {
      PlacedIsSplice(v, addr, bytes, n - 1);
      if n > 1 {
        SpliceOneMore(v, addr, bytes, n);
      } else {
        assert bytes[..1] == [bytes[0]];
      }
    }
  }

  lemma SpliceOneMore(v: Bytes, addr: nat, bytes: Bytes, n: nat)
    requires 0 < n <= |bytes| && addr + n <= |v|
    ensures PlaceOne(Splice(v, addr, bytes[..n - 1]), addr + n - 1, bytes[n - 1]) == Splice(v, addr, bytes[..n])
  {
  }

  lemma OneOwn(frames: Frames, memory: Bytes, addr: nat, b: Byte)
    requires Own(frames) && |memory| == MEMORY_SIZE && addr < |frames| * PAGE_SIZE
    ensures addr / PAGE_SIZE < |frames| && Physical(frames, addr) < MEMORY_SIZE
    ensures View(frames, LoadOne(memory, frames, addr, b)) == PlaceOne(View(frames, memory), addr, b)
  {
    WriteOwn(frames, memory, addr, [b]);
  }

  /** Loading a segment byte by byte through the table puts it in its place in what the space sees. */
  lemma {:induction false} LoadedOwn(frames: Frames, memory: Bytes, addr: nat, bytes: Bytes, n: nat)
    requires Own(frames) && |memory| == MEMORY_SIZE
    requires n <= |bytes| && (n == 0 || addr + n <= |frames| * PAGE_SIZE)
    ensures View(frames, Loaded(memory, frames, addr, bytes, n)) == Placed(View(frames, memory), addr, bytes, n)
  {
    if n > 0 {
      LoadedOwn(frames, memory, addr, bytes, n - 1);
      OneOwn(frames, Loaded(memory, frames, addr, bytes, n - 1), addr + n - 1, bytes[n - 1]);
    }
  }

  lemma {:induction false} LoadedOther(spaces: seq<Frames>, bits: seq<bool>, i: nat, j: nat, memory: Bytes, addr: nat, bytes: Bytes, n: nat)
    requires Separate(spaces, bits) && i < |spaces| && j < |spaces| && i != j && |memory| == MEMORY_SIZE
    requires n <= |bytes| && (n == 0 || addr + n <= |spaces[i]| * PAGE_SIZE)
    ensures View(spaces[j], Loaded(memory, spaces[i], addr, bytes, n)) == View(spaces[j], memory)
  {
    if n > 0 {
      LoadedOther(spaces, bits, i, j, memory, addr, bytes, n - 1);
      WriteOther(spaces, bits, i, j, Loaded(memory, spaces[i], addr, bytes, n - 1), addr + n - 1, [bytes[n - 1]]);
    }
  }
}
