/** The file system object: each operation fetches the directory and the free map, works on
    the copies in memory and writes them back only if everything succeeded. */
module FileSystemClass {
  import opened Common
  import opened DiskLayout
  import opened OpenFiles
  import opened Bitmaps
  import opened Directories
  import opened Volumes
  import opened FileSystems
  import opened FileChecks

  class FileSystem {
    const disk: Disk
    const freeMapFile: OpenFile
    const directoryFile: OpenFile

    /** The two system files are open on this disk and their headers are still those on it. */
    ghost predicate Mounted()
      reads disk
    {
      && disk.Valid() && freeMapFile.disk == disk && directoryFile.disk == disk
      && MapHeader(disk.sectors) == freeMapFile.hdr && DirHeader(disk.sectors) == directoryFile.hdr
      && SystemHeaders(freeMapFile.hdr, directoryFile.hdr)
    }

    ghost predicate Valid()
      reads disk
    {
      Mounted() && Consistent(disk.sectors)
    }

    /** Formatting a disk, whatever is on it: an empty volume. */
    constructor Format(disk: Disk, garbage: Garbage)
      requires disk.Valid()
      modifies disk
      ensures Valid() && this.disk == disk
      ensures IsEmpty(disk.sectors) && Table(disk.sectors) == Blank(garbage.table)
      ensures freeMapFile.hdr.numSectors == 1 && directoryFile.hdr.numSectors == 2
    {
      var freeMap, bits1 := WriteSystem(disk, garbage.header);
      this.disk := disk;
      freeMapFile := new OpenFile(disk, FREE_MAP_SECTOR);
      directoryFile := new OpenFile(disk, DIRECTORY_SECTOR);
      new;
      WriteEmpty(freeMap, bits1, garbage.table);
    }

    /** Writing the first free map and an empty directory. */
    method WriteEmpty(freeMap: Bitmap, ghost bits1: seq<bool>, memory: seq<Entry>)
      requires Mounted() && freeMap.store.Length == NUM_SECTORS && |memory| == NUM_DIR_ENTRIES
      requires Formatted(bits1, freeMap.Bits(), freeMapFile.hdr, directoryFile.hdr)
      modifies disk
      ensures Valid() && IsEmpty(disk.sectors) && Table(disk.sectors) == Blank(memory)
    {
      var dir := new Directory(memory);
      SaveMap(freeMap);
      SaveDirectory(dir);
      FormatConsistent(disk.sectors, bits1, freeMapFile.hdr, directoryFile.hdr);
      FormattedCount(bits1, freeMap.Bits(), freeMapFile.hdr, directoryFile.hdr);
    }

    /** Allocating the system's files and putting their headers in their well-known places. */
    static method WriteSystem(disk: Disk, garbage: Header) returns (freeMap: Bitmap, ghost bits1: seq<bool>)
      requires disk.Valid()
      modifies disk
      ensures disk.Valid() && fresh(freeMap) && fresh(freeMap.store) && freeMap.store.Length == NUM_SECTORS
      ensures Formatted(bits1, freeMap.Bits(), MapHeader(disk.sectors), DirHeader(disk.sectors))
      ensures SystemHeaders(MapHeader(disk.sectors), DirHeader(disk.sectors))
    {
      freeMap := new Bitmap(NUM_SECTORS);
      var mapH := new FileHeader(garbage);
      var dirH := new FileHeader(garbage);
      AllocateSystem(freeMap, mapH, dirH);
      bits1 :| Formatted(bits1, freeMap.Bits(), mapH.raw, dirH.raw);
      FormattedHeaders(bits1, freeMap.Bits(), mapH.raw, dirH.raw);
      WriteHeaders(disk, mapH.raw, dirH.raw);
    }

    static method WriteHeaders(disk: Disk, m: Header, d: Header)
      requires disk.Valid()
      modifies disk
      ensures disk.Valid() && MapHeader(disk.sectors) == m && DirHeader(disk.sectors) == d
    {
      disk.WriteSector(FREE_MAP_SECTOR, EncodeHeader(m));
      disk.WriteSector(DIRECTORY_SECTOR, EncodeHeader(d));
      HeaderRoundTrip(m);
      HeaderRoundTrip(d);
    }

    /** Reserving the header sectors and allocating the system's files always succeeds. */
    static method AllocateSystem(freeMap: Bitmap, mapH: FileHeader, dirH: FileHeader)
      requires freeMap.store.Length == NUM_SECTORS && freeMap.Bits() == seq(NUM_SECTORS, _ => false) && mapH != dirH
      modifies freeMap.store, mapH, dirH
      ensures exists bits1 :: Formatted(bits1, freeMap.Bits(), mapH.raw, dirH.raw)
    {
      AllClear(NUM_SECTORS);
      ClearCountMark(freeMap.Bits(), FREE_MAP_SECTOR);
      freeMap.Mark(FREE_MAP_SECTOR);
      ClearCountMark(freeMap.Bits(), DIRECTORY_SECTOR);
      freeMap.Mark(DIRECTORY_SECTOR);
      ghost var bits0 := freeMap.Bits();
      var ok := mapH.Allocate(freeMap, FREE_MAP_FILE_SIZE);
      assert ok;
      ghost var bits1 := freeMap.Bits();
      AllocatedCount(bits0, bits1, mapH.raw.dataSectors[..1]);
      ok := dirH.Allocate(freeMap, DIRECTORY_FILE_SIZE);
      assert ok;
      assert Formatted(bits1, freeMap.Bits(), mapH.raw, dirH.raw);
    }

    /** Opening an existing volume. */
    constructor Mount(disk: Disk)
      requires disk.Valid() && Consistent(disk.sectors)
      ensures Valid() && this.disk == disk
    {
      SystemParts(disk.sectors);
      this.disk := disk;
      freeMapFile := new OpenFile(disk, FREE_MAP_SECTOR);
      directoryFile := new OpenFile(disk, DIRECTORY_SECTOR);
    }

    /** Writing the directory back touches only its own data sectors. */
    method SaveDirectory(dir: Directory)
      requires Mounted() && dir.Valid()
      modifies disk
      ensures Mounted() && OnlyChanges(old(disk.sectors), disk.sectors, Used(directoryFile.hdr))
      ensures Table(disk.sectors) == dir.Entries() && FreeBits(disk.sectors) == old(FreeBits(disk.sectors))
    {
      ghost var img := disk.sectors;
      dir.WriteBack(directoryFile);
      forall s | 0 <= s < NUM_SECTORS && s !in Used(directoryFile.hdr) ensures disk.sectors[s] == img[s] {
        SpanWithinUsed(directoryFile.hdr, s);
      }
      SystemSectorsKept(img, disk.sectors, directoryFile.hdr);
      OtherFileKept(img, disk.sectors, Used(directoryFile.hdr), freeMapFile.hdr);
      TableRoundTrip(dir.Entries());
    }

    method SaveMap(freeMap: Bitmap)
      requires Mounted() && freeMap.store.Length == NUM_SECTORS
      modifies disk
      ensures Mounted() && OnlyChanges(old(disk.sectors), disk.sectors, Used(freeMapFile.hdr))
      ensures FreeBits(disk.sectors) == freeMap.Bits() && Table(disk.sectors) == old(Table(disk.sectors))
    {
      ghost var img := disk.sectors;
      WriteMap(freeMap, freeMapFile);
      forall s | 0 <= s < NUM_SECTORS && s !in Used(freeMapFile.hdr) ensures disk.sectors[s] == img[s] {
        SpanWithinUsed(freeMapFile.hdr, s);
      }
      SystemSectorsKept(img, disk.sectors, freeMapFile.hdr);
      OtherFileKept(img, disk.sectors, Used(freeMapFile.hdr), directoryFile.hdr);
      BitsRoundTrip(freeMap.Bits());
    }

    method FetchDirectory(garbage: Garbage) returns (dir: Directory)
      requires Mounted()
      ensures fresh(dir) && fresh(dir.table) && dir.Valid() && dir.Entries() == Table(disk.sectors)
    {
      dir := new Directory(garbage.table);
      ReadableReachable(directoryFile.hdr, 0, DIRECTORY_FILE_SIZE);
      dir.FetchFrom(directoryFile);
    }

    method FetchFreeMap() returns (freeMap: Bitmap)
      requires Mounted()
      ensures fresh(freeMap) && fresh(freeMap.store) && freeMap.store.Length == NUM_SECTORS
      ensures freeMap.Bits() == FreeBits(disk.sectors)
    {
      ReadableReachable(freeMapFile.hdr, 0, FREE_MAP_FILE_SIZE);
      freeMap := FetchMap(freeMapFile);
    }

    /** Create succeeds exactly when the name is new, a slot is free and the header and data
        sectors fit; it then adds one file of the given size and changes no other.  On
        failure the disk is untouched. */
    method Create(name: Bytes, initialSize: Word, garbage: Garbage) returns (success: bool)
      requires Valid() && initialSize < MAX_FILE_SIZE
      modifies disk
      ensures Valid()
      ensures success <==>
              old(Lookup(disk.sectors, Key(name)).None? && FreeFrom(Table(disk.sectors), 0).Some? &&
                  1 + DivRoundUp(initialSize, SECTOR_SIZE) <= ClearCount(FreeBits(disk.sectors)))
      ensures !success ==> disk.sectors == old(disk.sectors)
      ensures success ==> CreatedFile(old(disk.sectors), disk.sectors, name, initialSize)
      ensures success ==>
                && Lookup(disk.sectors, Key(name)).Some? && |Lookup(disk.sectors, Key(name)).value| == initialSize
                && SameBut(old(disk.sectors), disk.sectors, Key(name))
    {
      ghost var img := disk.sectors;
      LookupPresent(img, Key(name));
      var dir := FetchDirectory(garbage);
      var found := dir.Find(name);
      if found.Some? {
        return false;
      }
      var freeMap := FetchFreeMap();
      var sector, h := Reserve(dir, freeMap, name, initialSize, garbage.header);
      success := h != null;
      if success {
        Commit(h, sector, dir, freeMap, name, initialSize);
      }
    }

    /** The end of Create: everything it needs was to be had. */
    method Commit(h: FileHeader, sector: Word, dir: Directory, freeMap: Bitmap, ghost name: Bytes, ghost size: Word)
      requires Valid() && dir.Valid() && freeMap.store.Length == NUM_SECTORS && sector < NUM_SECTORS && h.raw.numBytes == size
      requires IndexFrom(Table(disk.sectors), Key(name), 0).None? && FreeFrom(Table(disk.sectors), 0).Some?
      requires var t := Table(disk.sectors);
               var i := FreeFrom(t, 0).value;
               dir.Entries() == t[i := Filled(t[i], sector, name)]
      requires Took(FreeBits(disk.sectors), freeMap.Bits(), sector, h.raw)
      modifies disk
      ensures Valid() && CreatedFile(old(disk.sectors), disk.sectors, name, size)
      ensures Lookup(disk.sectors, Key(name)).Some? && |Lookup(disk.sectors, Key(name)).value| == size
      ensures SameBut(old(disk.sectors), disk.sectors, Key(name))
    {
      ghost var img := disk.sectors;
      UnmarkedApart(img, sector, SYSTEM);
      Store(h, sector, dir, freeMap);
      CreatedAsPlanned(img, disk.sectors, name, size, sector, h.raw);
    }

    /** The middle of Create, in memory: a header sector, a directory entry and the data sectors,
        in this order; null if any of them is not to be had. */
    static method Reserve(dir: Directory, freeMap: Bitmap, name: Bytes, size: Word, garbage: Header)
      returns (sector: Word, h: FileHeader?)
      requires dir.Valid() && freeMap.store.Length == NUM_SECTORS && size <= MAX_FILE_SIZE
      requires IndexFrom(dir.Entries(), Key(name), 0).None?
      modifies dir.table, freeMap.store
      ensures h != null ==> fresh(h)
      ensures h != null <==> FreeFrom(old(dir.Entries()), 0).Some? &&
                             1 + DivRoundUp(size, SECTOR_SIZE) <= ClearCount(old(freeMap.Bits()))
      ensures h != null ==>
                && sector < NUM_SECTORS && h.raw.numBytes == size
                && Took(old(freeMap.Bits()), freeMap.Bits(), sector, h.raw)
                && var i := FreeFrom(old(dir.Entries()), 0).value;
                   dir.Entries() == old(dir.Entries())[i := Filled(old(dir.Entries())[i], sector, name)]
    {
      ghost var bits := freeMap.Bits();
      ClearCountPositive(bits);
      var found := freeMap.Find();
      if found.None? {
        return 0, null;
      }
      sector := found.value;
      ClearCountMark(bits, sector);
      var added := dir.Add(name, sector);
      if !added {
        return sector, null;
      }
      h := new FileHeader(garbage);
      var ok := h.Allocate(freeMap, size);
      if !ok {
        return sector, null;
      }
    }

    /** The three write-backs of Create. */
    method Store(h: FileHeader, sector: Word, dir: Directory, freeMap: Bitmap)
      requires Mounted() && dir.Valid() && freeMap.store.Length == NUM_SECTORS
      requires sector < NUM_SECTORS && sector !in SystemClaims(disk.sectors)
      modifies disk
      ensures Mounted()
      ensures OnlyChanges(old(disk.sectors), disk.sectors, Used(freeMapFile.hdr) + Used(directoryFile.hdr) + [sector])
      ensures Table(disk.sectors) == dir.Entries() && FreeBits(disk.sectors) == freeMap.Bits()
      ensures HeaderAt(disk.sectors, sector) == h.raw
    {
      ghost var img := disk.sectors;
      ghost var sys := [FREE_MAP_SECTOR, DIRECTORY_SECTOR];
      ghost var m, d := Used(freeMapFile.hdr), Used(directoryFile.hdr);
      Elements(sys + m, d, sector);
      Elements(sys, m, sector);
      disk.WriteSector(sector, EncodeHeader(h.raw));
      HeaderRoundTrip(h.raw);
      SaveDirectory(dir);
      SaveMap(freeMap);
      forall s | 0 <= s < NUM_SECTORS && s !in m + d + [sector] ensures disk.sectors[s] == img[s] {
        Elements(m + d, [sector], s);
        Elements(m, d, s);
      }
    }

    /** Opens a file by name. */
    method Open(name: Bytes, garbage: Garbage) returns (file: OpenFile?)
      requires Valid()
      ensures file == null <==> Lookup(disk.sectors, Key(name)).None?
      ensures file != null ==> fresh(file) && file.disk == disk && file.Valid()
      ensures file != null ==> UserFile(freeMapFile.hdr, directoryFile.hdr, file.hdr)
      ensures file != null ==> file.seekPosition == 0 && HeaderOf(disk.sectors, Key(name)) == Some(file.hdr)
      ensures file != null ==> Lookup(disk.sectors, Key(name)) == Some(file.Bytes())
      ensures file == null <==> NoSlotNames(directoryFile.Bytes(), Key(name), NUM_DIR_ENTRIES)
      ensures file != null ==> LeadsTo(disk.sectors, directoryFile.Bytes(), Key(name), file.hdr)
    {
      LookupPresent(disk.sectors, Key(name));
      AbsentBytes(disk.sectors, Key(name));
      var dir := FetchDirectory(garbage);
      var sector := dir.Find(name);
      if sector.None? {
        return null;
      }
      FileParts(disk.sectors, IndexFrom(Table(disk.sectors), Key(name), 0).value);
      file := new OpenFile(disk, sector.value);
      FileIsUserFile(disk.sectors, Key(name));
      LeadsToHeader(disk.sectors, Key(name), IndexFrom(Table(disk.sectors), Key(name), 0).value);
    }

    /** Remove succeeds exactly when the name exists; it frees the file's sectors and changes
        no other file. */
    method Remove(name: Bytes, garbage: Garbage) returns (success: bool)
      requires Valid()
      modifies disk
      ensures Valid()
      ensures success <==> old(Lookup(disk.sectors, Key(name)).Some?)
      ensures !success ==> disk.sectors == old(disk.sectors)
      ensures success ==> Deleted(old(disk.sectors), disk.sectors, Key(name))
      ensures success ==> Lookup(disk.sectors, Key(name)).None? && SameBut(old(disk.sectors), disk.sectors, Key(name))
    {
      ghost var img := disk.sectors;
      LookupPresent(img, Key(name));
      var dir := FetchDirectory(garbage);
      var sector := dir.Find(name);
      if sector.None? {
        return false;
      }
      ghost var i := IndexFrom(Table(img), Key(name), 0).value;
      var freeMap := Reclaim(sector.value, i, garbage.header);
      var ok := dir.Remove(name);
      Drop(freeMap, dir, i);
      return true;
    }

    /** The end of Remove: the free map and the directory go back to the disk. */
    method Drop(freeMap: Bitmap, dir: Directory, ghost i: nat)
      requires Valid() && dir.Valid() && freeMap.store.Length == NUM_SECTORS && i < NUM_DIR_ENTRIES && Table(disk.sectors)[i].inUse
      requires dir.Entries() == Table(disk.sectors)[i := Table(disk.sectors)[i].(inUse := false)]
      requires Cleared(FreeBits(disk.sectors), freeMap.Bits(), Claims(disk.sectors, i))
      modifies disk
      ensures Valid() && Removed(old(disk.sectors), disk.sectors, i)
      ensures var key := Key(old(Table(disk.sectors)[i].name));
              Lookup(disk.sectors, key).None? && SameBut(old(disk.sectors), disk.sectors, key)
    {
      ghost var img := disk.sectors;
      SaveBoth(freeMap, dir);
      assert Removed(img, disk.sectors, i);
      RemoveConsistent(img, disk.sectors, i);
    }

    /** A file that is created and removed again leaves no trace in the free map or under any
        name. */
    method CreateThenRemove(name: Bytes, initialSize: Word, garbage: Garbage) returns (success: bool)
      requires Valid() && initialSize < MAX_FILE_SIZE
      modifies disk
      ensures Valid()
      ensures success ==>
                && FreeBits(disk.sectors) == old(FreeBits(disk.sectors))
                && forall key :: Lookup(disk.sectors, key) == old(Lookup(disk.sectors, key))
      ensures !success ==> disk.sectors == old(disk.sectors)
    {
      ghost var img := disk.sectors;
      LookupPresent(img, Key(name));
      success := Create(name, initialSize, garbage);
      if success {
        ghost var img1 := disk.sectors;
        var removed := Remove(name, garbage);
        CreateRemoveRestores(img, img1, disk.sectors, name, initialSize);
      }
    }

    /** The two write-backs of Remove. */
    method SaveBoth(freeMap: Bitmap, dir: Directory)
      requires Mounted() && dir.Valid() && freeMap.store.Length == NUM_SECTORS
      modifies disk
      ensures Mounted()
      ensures OnlyChanges(old(disk.sectors), disk.sectors, Used(freeMapFile.hdr) + Used(directoryFile.hdr))
      ensures Table(disk.sectors) == dir.Entries() && FreeBits(disk.sectors) == freeMap.Bits()
    {
      ghost var img := disk.sectors;
      SaveMap(freeMap);
      SaveDirectory(dir);
      ghost var m, d := Used(freeMapFile.hdr), Used(directoryFile.hdr);
      forall s | 0 <= s < NUM_SECTORS && s !in m + d ensures disk.sectors[s] == img[s] {
        Elements(m, d, s);
      }
    }

    /** The free map with a file's data sectors and header sector given back. */
    method Reclaim(sector: Word, ghost i: nat, garbage: Header) returns (freeMap: Bitmap)
      requires Valid() && i < NUM_DIR_ENTRIES && Table(disk.sectors)[i].inUse && sector == Table(disk.sectors)[i].sector
      ensures fresh(freeMap) && fresh(freeMap.store) && freeMap.store.Length == NUM_SECTORS
      ensures Cleared(FreeBits(disk.sectors), freeMap.Bits(), Claims(disk.sectors, i))
    {
      FileParts(disk.sectors, i);
      var fileH := new FileHeader(garbage);
      var data := disk.ReadSector(sector);
      fileH.raw := DecodeHeader(data);
      freeMap := FetchFreeMap();
      FileSectorsMarked(disk.sectors, i);
      fileH.Deallocate(freeMap);
      ghost var mid := freeMap.Bits();
      freeMap.Clear(sector);
      ClearedClaims(FreeBits(disk.sectors), mid, sector, Used(fileH.raw));
    }

    /** The checker on a volume in order whose system files have their own sectors only: it
        never crashes, and passes exactly when every entry is accepted. */
    method CheckVolume(garbage: Garbage) returns (v: Verdict)
      requires Valid() && freeMapFile.hdr.numSectors == 1 && directoryFile.hdr.numSectors == 2
      ensures v.Passed? <==> forall i :: 0 <= i < NUM_DIR_ENTRIES ==> AcceptedEntry(disk.sectors, Table(disk.sectors)[i])
      ensures !v.Crashed?
    {
      NeverCrashes(disk.sectors, garbage.table);
      v := Check(disk, freeMapFile, directoryFile, garbage);
    }
  }

  /** A file that fills its header is legal for Create and rejected by Check. */
  lemma FullFileIsRejected(img: Image, img': Image, name: Bytes, size: Word, i: nat, x: Word, h: Header)
    requires Sized(img) && Sized(img') && Created(img, img', name, size, i, x, h)
    requires (NUM_DIRECT - 1) * SECTOR_SIZE < size < MAX_FILE_SIZE
    ensures !Accepted(img', Table(img'))
  {
    assert !AcceptedEntry(img', Table(img')[i]);
  }

  /** So is a name of nine characters in a slot whose last byte was never zero. */
  lemma LongNameIsRejected(img: Image, img': Image, name: Bytes, size: Word, i: nat, x: Word, h: Header)
    requires Sized(img) && Sized(img') && Created(img, img', name, size, i, x, h)
    requires |Key(name)| == FILE_NAME_MAX_LEN && Table(img)[i].name[FILE_NAME_MAX_LEN] != 0
    ensures !Accepted(img', Table(img'))
  {
    CreatedTerminatedIff(Table(img)[i], x, name);
    assert !AcceptedEntry(img', Table(img')[i]);
  }

  // ----- Glue -----

  lemma SystemSectorsKept(img: Image, img': Image, h: Header)
    requires OnlyChanges(img, img', Used(h)) && Disjoint([FREE_MAP_SECTOR, DIRECTORY_SECTOR], Used(h))
    ensures img'[FREE_MAP_SECTOR] == img[FREE_MAP_SECTOR] && img'[DIRECTORY_SECTOR] == img[DIRECTORY_SECTOR]
  {
    assert FREE_MAP_SECTOR in [FREE_MAP_SECTOR, DIRECTORY_SECTOR] && DIRECTORY_SECTOR in [FREE_MAP_SECTOR, DIRECTORY_SECTOR];
  }

  /** What the checker reads from a consistent volume, and what it says. */
  lemma NeverCrashes(img: Image, memory: seq<Entry>)
    requires Consistent(img) && |memory| == NUM_DIR_ENTRIES
    ensures !CrashesOn(img, TableFrom(img, memory))
    ensures Passes(img, BitsFrom(img), TableFrom(img, memory)) <==> Accepted(img, Table(img))
  {
    SizedReads(img, memory);
    ConsistentIff(img);
    SoundNeverCrashes(img, FreeBits(img), Table(img));
    PassedIsConsistentIff(img, memory);
  }

  /** The state after the write-backs of Create. */
  lemma CreatedAsPlanned(img: Image, img': Image, name: Bytes, size: Word, x: Word, h: Header)
    requires Consistent(img) && Sized(img') && IndexFrom(Table(img), Key(name), 0).None? && FreeFrom(Table(img), 0).Some?
    requires OnlyChanges(img, img', Used(MapHeader(img)) + Used(DirHeader(img)) + [x])
    requires MapHeader(img') == MapHeader(img) && DirHeader(img') == DirHeader(img)
    requires var i := FreeFrom(Table(img), 0).value;
             Table(img') == Table(img)[i := Filled(Table(img)[i], x, name)]
    requires x < NUM_SECTORS && HeaderAt(img', x) == h && h.numBytes == size && Took(FreeBits(img), FreeBits(img'), x, h)
    ensures CreatedFile(img, img', name, size) && Consistent(img')
    ensures Lookup(img', Key(name)).Some? && |Lookup(img', Key(name)).value| == size && SameBut(img, img', Key(name))
  {
    var i := FreeFrom(Table(img), 0).value;
    assert Created(img, img', name, size, i, x, h);
    CreateConsistent(img, img', name, size, i, x, h);
  }

  lemma LookupPresent(img: Image, key: Bytes)
    requires Consistent(img)
    ensures Lookup(img, key).None? <==> IndexFrom(Table(img), key, 0).None?
  {
    var i := IndexFrom(Table(img), key, 0);
    if i.Some? {
      assert SlotOk(img, i.value);
    }
  }

  lemma ClaimIsMarked(img: Image, g: nat, s: Word)
    requires Consistent(img) && g <= SYSTEM && s in Claims(img, g)
    ensures s < NUM_SECTORS && FreeBits(img)[s]
  {
    assert Proper(Claims(img, g));
    assert ClaimedBy(img, s, g);
    assert FreeBits(img)[s] <==> Claimed(img, s);
  }

  /** The assertions of Deallocate hold: a file's sectors are distinct and marked. */
  lemma FileSectorsMarked(img: Image, i: nat)
    requires Consistent(img) && i < NUM_DIR_ENTRIES && Table(img)[i].inUse && Table(img)[i].sector < NUM_SECTORS
    ensures var h := HeaderAt(img, Table(img)[i].sector);
            && h.numSectors <= NUM_DIRECT
            && (forall k :: 0 <= k < h.numSectors ==> h.dataSectors[k] < NUM_SECTORS && FreeBits(img)[h.dataSectors[k]])
            && (forall j, k :: 0 <= j < k < h.numSectors ==> h.dataSectors[j] != h.dataSectors[k])
  {
    FileParts(img, i);
    var x := Table(img)[i].sector;
    var h := HeaderAt(img, x);
    var used := Used(h);
    assert forall k :: 0 <= k < h.numSectors ==> used[k] == h.dataSectors[k];
    forall k | 0 <= k < h.numSectors ensures h.dataSectors[k] < NUM_SECTORS && FreeBits(img)[h.dataSectors[k]] {
      assert used[k] in used;
      Elements([x], used, used[k]);
      ClaimIsMarked(img, i, used[k]);
    }
  }

  lemma ClearedClaims(bits: seq<bool>, mid: seq<bool>, x: Word, list: seq<Word>)
    requires Cleared(bits, mid, list) && x < |bits|
    ensures Cleared(bits, mid[x := false], [x] + list)
  {
    forall s | 0 <= s < |bits| ensures mid[x := false][s] <==> bits[s] && s !in [x] + list {
      Elements([x], list, s);
    }
  }
}
