/** File headers being built and the directory table in memory. */
module Directories {
  import opened Common
  import opened DiskLayout
  import opened DiskBytes
  import opened OpenFiles
  import opened Bitmaps

  // ----- Allocation -----

  /** `list` are the first clear bits of `bits`, in order, and `bits'` has them set. */
  ghost predicate Allocated(bits: seq<bool>, bits': seq<bool>, list: seq<Word>) {
    && |bits'| == |bits|
    && (forall i, j :: 0 <= i < j < |list| ==> list[i] < list[j])
    && (forall i :: 0 <= i < |list| ==> list[i] < |bits| && !bits[list[i]])
    && (forall s :: 0 <= s < |bits| ==> (bits'[s] <==> bits[s] || s in list))
    && (forall s, i :: 0 <= s < |bits| && !bits'[s] && 0 <= i < |list| ==> list[i] < s)
  }

  lemma AllocatedStep(bits: seq<bool>, bits': seq<bool>, list: seq<Word>)
    requires |bits| <= WORD && Allocated(bits, bits', list) && FirstClear(bits', 0).Some?
    ensures var k: Word := FirstClear(bits', 0).value;
            Allocated(bits, bits'[k := true], list + [k])
  {
    var k: Word := FirstClear(bits', 0).value;
    var list' := list + [k];
    assert forall s :: s in list' <==> s in list || s == k;
  }

  /** Allocating n sectors lowers the number of clear bits by n. */
  lemma {:induction false} AllocatedCount(bits: seq<bool>, bits': seq<bool>, list: seq<Word>)
    requires Allocated(bits, bits', list)
    ensures ClearCount(bits') + |list| == ClearCount(bits)
    decreases |list|
  {
    if list == [] {
      assert bits' == bits;
    } else {
      var n := |list| - 1;
      var k, init := list[n], list[..n];
      var mid := bits'[k := false];
      assert list == init + [k];
      assert forall s :: s in list <==> s in init || s == k;
      assert k in list && k !in init;
      assert Allocated(bits, mid, init);
      AllocatedCount(bits, mid, init);
      ClearCountMark(mid, k);
      assert mid[k := true] == bits';
    }
  }

  /** `bits'` is `bits` with the listed bits cleared. */
  ghost predicate Cleared(bits: seq<bool>, bits': seq<bool>, list: seq<Word>) {
    && |bits'| == |bits|
    && forall s :: 0 <= s < |bits| ==> (bits'[s] <==> bits[s] && s !in list)
  }

  class FileHeader {
    var raw: Header

    /** A new header holds whatever was in memory. */
    constructor (garbage: Header)
      ensures raw == garbage
    {
      raw := garbage;
    }

    /** Takes the data sectors of a new file out of the free map: all of them or none. */
    method Allocate(freeMap: Bitmap, fileSize: Word) returns (ok: bool)
      requires freeMap.store.Length == NUM_SECTORS
      modifies this, freeMap.store
      ensures ok <==> fileSize <= MAX_FILE_SIZE && DivRoundUp(fileSize, SECTOR_SIZE) <= ClearCount(old(freeMap.Bits()))
      ensures !ok ==> freeMap.Bits() == old(freeMap.Bits())
      ensures ok ==>
                && raw.numBytes == fileSize
                && raw.numSectors == DivRoundUp(fileSize, SECTOR_SIZE) <= NUM_DIRECT
                && Allocated(old(freeMap.Bits()), freeMap.Bits(), raw.dataSectors[..raw.numSectors])
    {
      if fileSize > MAX_FILE_SIZE {
        return false;
      }
      var n := DivRoundUp(fileSize, SECTOR_SIZE);
      raw := raw.(numBytes := fileSize, numSectors := n);
      var clear := freeMap.CountClear();
      if clear < n {
        return false;
      }
      ghost var bits := freeMap.Bits();
      for i := 0 to n
        invariant raw.numBytes == fileSize && raw.numSectors == n
        invariant Allocated(bits, freeMap.Bits(), raw.dataSectors[..i])
        invariant ClearCount(freeMap.Bits()) + i == ClearCount(bits)
      {
        ClearCountPositive(freeMap.Bits());
        AllocatedStep(bits, freeMap.Bits(), raw.dataSectors[..i]);
        ClearCountMark(freeMap.Bits(), FirstClear(freeMap.Bits(), 0).value);
        ghost var before := raw.dataSectors[..i];
        var s := freeMap.Find();
        raw := raw.(dataSectors := raw.dataSectors[i := s.value]);
        assert raw.dataSectors[..i + 1] == before + [s.value];
      }
      return true;
    }

    /** Gives the data sectors back; the code asserts that each is still marked. */
    method Deallocate(freeMap: Bitmap)
      requires freeMap.store.Length == NUM_SECTORS && raw.numSectors <= NUM_DIRECT
      requires forall i :: 0 <= i < raw.numSectors ==> raw.dataSectors[i] < NUM_SECTORS && freeMap.Bits()[raw.dataSectors[i]]
      requires forall i, j :: 0 <= i < j < raw.numSectors ==> raw.dataSectors[i] != raw.dataSectors[j]
      modifies freeMap.store
      ensures Cleared(old(freeMap.Bits()), freeMap.Bits(), raw.dataSectors[..raw.numSectors])
    {
      for i := 0 to raw.numSectors
        invariant Cleared(old(freeMap.Bits()), freeMap.Bits(), raw.dataSectors[..i])
      {
        assert raw.dataSectors[..i + 1] == raw.dataSectors[..i] + [raw.dataSectors[i]];
        var marked := freeMap.Test(raw.dataSectors[i]);
        assert marked;
        freeMap.Clear(raw.dataSectors[i]);
      }
    }
  }

  // ----- The table -----

  predicate Names(e: Entry, key: Bytes) { e.inUse && Key(e.name) == key }

  /** An entry taken for a file: the name is copied over what the field held. */
  function Filled(e: Entry, sector: Word, name: Bytes): Entry {
    Entry(true, sector, CopyName(e.name, name))
  }

  /** The first entry at or after `i` that is in use under a key. */
  function IndexFrom(table: seq<Entry>, key: Bytes, i: nat): (r: Option<nat>)
    requires i <= |table|
    ensures r.None? ==> forall k :: i <= k < |table| ==> !Names(table[k], key)
    ensures r.Some? ==> i <= r.value < |table| && Names(table[r.value], key) &&
                        forall k :: i <= k < r.value ==> !Names(table[k], key)
    decreases |table| - i
  {
    if i == |table| then None else if Names(table[i], key) then Some(i) else IndexFrom(table, key, i + 1)
  }

  function FreeFrom(table: seq<Entry>, i: nat): (r: Option<nat>)
    requires i <= |table|
    ensures r.None? ==> forall k :: i <= k < |table| ==> table[k].inUse
    ensures r.Some? ==> i <= r.value < |table| && !table[r.value].inUse && forall k :: i <= k < r.value ==> table[k].inUse
    decreases |table| - i
  {
    if i == |table| then None else if !table[i].inUse then Some(i) else FreeFrom(table, i + 1)
  }

  /** A table as the constructor leaves it: whatever was in memory, with nothing in use. */
  function Blank(memory: seq<Entry>): (t: seq<Entry>)
    ensures |t| == |memory| && forall i :: 0 <= i < |t| ==> t[i] == memory[i].(inUse := false)
  {
    seq(|memory|, i requires 0 <= i < |memory| => memory[i].(inUse := false))
  }

  /** A table in memory after the bytes of a file were read over it. */
  function LoadedTable(t: seq<Entry>, file: Bytes): (r: seq<Entry>)
    ensures |r| == |t|
    ensures |file| == ENTRY_SIZE * |t| ==> r == DecodeTable(file)
  {
    DecodeTable(Overlaid(EncodeTable(t), file))
  }

  /** It has the entries that the file begins with, byte by byte, and behind those its own. */
  lemma LoadedEntries(t: seq<Entry>, file: Bytes)
    ensures TableIn(file, LoadedTable(t, file))
    ensures forall i :: 0 <= i < |t| && |file| <= ENTRY_SIZE * i ==> LoadedTable(t, file)[i] == t[i]
  {
    var old_, r := EncodeTable(t), LoadedTable(t, file);
    var mixed := Overlaid(old_, file);
    DecodedTableIn(mixed);
    EncodedTableIn(t);
    forall i | 0 <= i < |t| && ENTRY_SIZE * i + ENTRY_SIZE <= |file| ensures EntryIn(file, ENTRY_SIZE * i, r[i]) {
      OverlaidFront(old_, file, ENTRY_SIZE * i, ENTRY_SIZE);
      EntrySame(mixed, file, ENTRY_SIZE * i, r[i]);
    }
    forall i | 0 <= i < |t| && |file| <= ENTRY_SIZE * i ensures r[i] == t[i] {
      OverlaidBack(old_, file, ENTRY_SIZE * i, ENTRY_SIZE);
      EntrySame(old_, mixed, ENTRY_SIZE * i, t[i]);
      EntryInUnique(mixed, ENTRY_SIZE * i, r[i], t[i]);
    }
  }

  lemma OverlaidFront(s: Bytes, d: Bytes, p: nat, n: nat)
    requires p + n <= |s| && p + n <= |d|
    ensures Overlaid(s, d)[p..p + n] == d[p..p + n]
  {
  }

  lemma OverlaidBack(s: Bytes, d: Bytes, p: nat, n: nat)
    requires |d| <= p && p + n <= |s|
    ensures Overlaid(s, d)[p..p + n] == s[p..p + n]
  {
    var a, b := Overlaid(s, d)[p..p + n], s[p..p + n];
    assert forall k :: 0 <= k < n ==> a[k] == Overlaid(s, d)[p + k] && b[k] == s[p + k];
  }

  /** A file over whose beginning a table was written begins with its entries. */
  lemma StoredEntries(s: Bytes, t: seq<Entry>)
    ensures TableIn(Overlaid(s, EncodeTable(t)), t)
  {
    var b, f := EncodeTable(t), Overlaid(s, EncodeTable(t));
    EncodedTableIn(t);
    forall i | 0 <= i < |t| && ENTRY_SIZE * i + ENTRY_SIZE <= |f| ensures EntryIn(f, ENTRY_SIZE * i, t[i]) {
      OverlaidFront(s, b, ENTRY_SIZE * i, ENTRY_SIZE);
      EntrySame(b, f, ENTRY_SIZE * i, t[i]);
    }
  }

  /** Memory that the code uses before setting it: a file header and a directory table. */
  datatype GarbageBlock = Garbage(header: Header, table: seq<Entry>)

  type Garbage = g: GarbageBlock | |g.table| == NUM_DIR_ENTRIES
    witness Garbage(Header(0, 0, seq(NUM_DIRECT, _ => 0)),
                    seq(NUM_DIR_ENTRIES, _ => Entry(false, 0, seq(FILE_NAME_MAX_LEN + 1, _ => 0))))

  class Directory {
    const table: array<Entry>

    ghost predicate Valid() { table.Length == NUM_DIR_ENTRIES }

    ghost function Entries(): (t: seq<Entry>)
      reads table
    {
      table[..]
    }

    constructor (memory: seq<Entry>)
      requires |memory| == NUM_DIR_ENTRIES
      ensures Valid() && fresh(table) && Entries() == Blank(memory)
    {
      table := new Entry[NUM_DIR_ENTRIES](i requires 0 <= i < NUM_DIR_ENTRIES => memory[i]);
      new;
      for i := 0 to NUM_DIR_ENTRIES
        invariant forall k :: 0 <= k < i ==> table[k] == memory[k].(inUse := false)
        invariant forall k :: i <= k < NUM_DIR_ENTRIES ==> table[k] == memory[k]
      {
        table[i] := table[i].(inUse := false);
      }
    }

    method FindIndex(name: Bytes) returns (r: Option<nat>)
      requires Valid()
      ensures r == IndexFrom(Entries(), Key(name), 0)
    {
      var i := 0;
      while i < NUM_DIR_ENTRIES
        invariant 0 <= i <= NUM_DIR_ENTRIES
        invariant IndexFrom(Entries(), Key(name), 0) == IndexFrom(Entries(), Key(name), i)
      {
        if table[i].inUse && Key(table[i].name) == Key(name) {
          return Some(i);
        }
        i := i + 1;
      }
      return None;
    }

    /** The header sector of a file. */
    method Find(name: Bytes) returns (r: Option<Word>)
      requires Valid()
      ensures var i := IndexFrom(Entries(), Key(name), 0);
              r == if i.Some? then Some(Entries()[i.value].sector) else None
    {
      var i := FindIndex(name);
      if i.None? {
        return None;
      }
      return Some(table[i.value].sector);
    }

    method Add(name: Bytes, newSector: Word) returns (ok: bool)
      requires Valid()
      modifies table
      ensures var t := old(Entries());
              var slot := FreeFrom(t, 0);
              && ok == (IndexFrom(t, Key(name), 0).None? && slot.Some?)
              && Entries() == if ok then t[slot.value := Filled(t[slot.value], newSector, name)] else t
    {
      var found := FindIndex(name);
      if found.Some? {
        return false;
      }
      var i := 0;
      while i < NUM_DIR_ENTRIES
        invariant 0 <= i <= NUM_DIR_ENTRIES && Entries() == old(Entries())
        invariant FreeFrom(Entries(), 0) == FreeFrom(Entries(), i)
      {
        if !table[i].inUse {
          table[i] := Filled(table[i], newSector, name);
          return true;
        }
        i := i + 1;
      }
      return false;
    }

    method Remove(name: Bytes) returns (ok: bool)
      requires Valid()
      modifies table
      ensures var t := old(Entries());
              var i := IndexFrom(t, Key(name), 0);
              ok == i.Some? && Entries() == if ok then t[i.value := t[i.value].(inUse := false)] else t
    {
      var i := FindIndex(name);
      if i.None? {
        return false;
      }
      table[i.value] := table[i.value].(inUse := false);
      return true;
    }

    /** Loads the table from the directory's file, whatever the size of that. */
    method FetchFrom(file: OpenFile)
      requires Valid() && file.disk.Valid() && Fetchable(file.hdr, DIRECTORY_FILE_SIZE)
      modifies table
      ensures Entries() == LoadedTable(old(Entries()), file.Bytes()) && TableIn(file.Bytes(), Entries())
    {
      LoadedEntries(table[..], file.Bytes());
      var data := file.Fetch(EncodeTable(table[..]));
      var t := DecodeTable(data);
      forall i | 0 <= i < NUM_DIR_ENTRIES {
        table[i] := t[i];
      }
      assert Entries() == t;
    }

    /** Stores the table in the directory's file, as far as that goes. */
    method WriteBack(file: OpenFile)
      requires Valid() && file.Valid() && Writable(file.hdr)
      modifies file.disk
      ensures file.disk.Valid() && file.Bytes() == Overlaid(old(file.Bytes()), EncodeTable(Entries()))
      ensures TableIn(file.Bytes(), Entries())
      ensures forall s :: 0 <= s < NUM_SECTORS && s !in file.hdr.dataSectors[..Span(file.hdr)] ==>
                file.disk.sectors[s] == old(file.disk.sectors)[s]
    {
      StoredEntries(file.Bytes(), table[..]);
      file.Save(EncodeTable(table[..]));
    }
  }

  /** The bits in memory after the bytes of a file were read over a cleared bitmap. */
  function LoadedBits(file: Bytes): (bits: seq<bool>)
    ensures |bits| == NUM_SECTORS
    ensures |file| == FREE_MAP_FILE_SIZE ==> bits == DecodeBits(file)
  {
    DecodeBits(Overlaid(seq(FREE_MAP_FILE_SIZE, _ => 0), file))
  }

  /** The bits that the file begins with, and behind those none. */
  lemma LoadedBitsIn(file: Bytes)
    ensures BitsIn(file, LoadedBits(file))
    ensures forall s :: 0 <= s < NUM_SECTORS && |file| <= s / 8 ==> !LoadedBits(file)[s]
  {
    var mixed := Overlaid(seq(FREE_MAP_FILE_SIZE, _ => 0), file);
    DecodedBitsIn(mixed);
    forall s | 0 <= s < NUM_SECTORS && s / 8 < |file| ensures BitIn(file, s, LoadedBits(file)[s]) {
      assert BitIn(mixed, s, LoadedBits(file)[s]) && mixed[s / 8] == file[s / 8];
    }
    forall s | 0 <= s < NUM_SECTORS && |file| <= s / 8 ensures !LoadedBits(file)[s] {
      assert BitIn(mixed, s, LoadedBits(file)[s]) && mixed[s / 8] == 0;
    }
  }

  lemma StoredBitsIn(s: Bytes, bits: seq<bool>)
    requires |bits| % 8 == 0
    ensures BitsIn(Overlaid(s, EncodeBits(bits)), bits)
  {
    var b, f := EncodeBits(bits), Overlaid(s, EncodeBits(bits));
    EncodedBitsIn(bits);
    forall k | 0 <= k < |bits| && k / 8 < |f| ensures BitIn(f, k, bits[k]) {
      assert BitIn(b, k, bits[k]) && f[k / 8] == b[k / 8];
    }
  }

  /** The free map's own transfers. */
  method FetchMap(file: OpenFile) returns (freeMap: Bitmap)
    requires file.disk.Valid() && Fetchable(file.hdr, FREE_MAP_FILE_SIZE)
    ensures fresh(freeMap) && fresh(freeMap.store) && freeMap.store.Length == NUM_SECTORS
    ensures freeMap.Bits() == LoadedBits(file.Bytes()) && BitsIn(file.Bytes(), freeMap.Bits())
  {
    LoadedBitsIn(file.Bytes());
    freeMap := new Bitmap(NUM_SECTORS);
    var data := file.Fetch(seq(FREE_MAP_FILE_SIZE, _ => 0));
    var bits := DecodeBits(data);
    forall i | 0 <= i < NUM_SECTORS {
      freeMap.store[i] := bits[i];
    }
    assert freeMap.Bits() == bits;
  }

  method WriteMap(freeMap: Bitmap, file: OpenFile)
    requires freeMap.store.Length == NUM_SECTORS && file.Valid() && Writable(file.hdr)
    modifies file.disk
    ensures file.disk.Valid() && file.Bytes() == Overlaid(old(file.Bytes()), EncodeBits(freeMap.Bits()))
    ensures BitsIn(file.Bytes(), freeMap.Bits())
    ensures forall s :: 0 <= s < NUM_SECTORS && s !in file.hdr.dataSectors[..Span(file.hdr)] ==>
              file.disk.sectors[s] == old(file.disk.sectors)[s]
  {
    StoredBitsIn(file.Bytes(), freeMap.store[..]);
    file.Save(EncodeBits(freeMap.store[..]));
  }
}
