/** Handles that outlive their file.  An open file keeps the header it was opened with; once the
    file is removed its sectors can be given out again, and a write through the old handle goes
    into whatever they hold then. */
module StaleHandles {
  import opened Common
  import opened DiskLayout
  import opened OpenFiles
  import opened Bitmaps
  import opened Directories
  import opened Volumes
  import opened FileSystems
  import opened FileSystemClass
  import opened FileRuns

  // ----- What a write through a handle can do to a volume -----

  /** `img'` is what some write of `from` at `position` through a handle with header `h` can
      leave: what the file's last sector holds behind its end is not determined. */
  ghost predicate WriteThrough(img: Image, img': Image, h: Header, position: nat, from: Bytes) {
    && from != [] && position + |from| <= h.numBytes
    && Span(h) <= NUM_DIRECT && OnlyChanges(img, img', h.dataSectors[..Span(h)])
    && Contents(img', h) == Splice(Contents(img, h), position, from)
  }

  /** A sector that shows under some name: it holds the header or bytes of a file in use. */
  ghost predicate Shows(img: Image, s: Word)
    requires Sized(img)
  {
    exists g :: 0 <= g < NUM_DIR_ENTRIES && ShowsIn(img, s, g)
  }

  ghost predicate ShowsIn(img: Image, s: Word, g: nat)
    requires Sized(img) && g < NUM_DIR_ENTRIES
  {
    var e := Table(img)[g];
    e.inUse && e.sector < NUM_SECTORS && (s == e.sector || HoldsBytes(HeaderAt(img, e.sector), s))
  }

  ghost predicate HoldsBytes(h: Header, s: Word) {
    exists j :: 0 <= j < Span(h) && j < NUM_DIRECT && h.dataSectors[j] == s
  }

  /** None of the sectors behind a handle has become part of another file. */
  ghost predicate Dormant(img: Image, h: Header)
    requires Sized(img) && Readable(h)
  {
    forall k :: 0 <= k < Span(h) ==> !Shows(img, h.dataSectors[k])
  }

  /** Every name has the same header and the same bytes. */
  ghost predicate SameView(img: Image, img': Image)
    requires Sized(img)
  {
    Sized(img') && forall key :: Lookup(img', key) == Lookup(img, key) && HeaderOf(img', key) == HeaderOf(img, key)
  }

  lemma SystemKept(img: Image, img': Image, h: Header)
    requires Consistent(img) && UserFile(MapHeader(img), DirHeader(img), h) && OnlyChanges(img, img', h.dataSectors[..Span(h)])
    ensures img'[FREE_MAP_SECTOR] == img[FREE_MAP_SECTOR] && img'[DIRECTORY_SECTOR] == img[DIRECTORY_SECTOR]
    ensures Sized(img') && Table(img') == Table(img) && FreeBits(img') == FreeBits(img)
  {
    var list, m, d := h.dataSectors[..Span(h)], MapHeader(img), DirHeader(img);
    SystemParts(img);
    forall s | s in list ensures s != FREE_MAP_SECTOR && s != DIRECTORY_SECTOR && s !in Used(m) && s !in Used(d) {
      Elements([FREE_MAP_SECTOR, DIRECTORY_SECTOR] + Used(m), Used(d), s);
      Elements([FREE_MAP_SECTOR, DIRECTORY_SECTOR], Used(m), s);
    }
    OtherFileKept(img, img', list, m);
    OtherFileKept(img, img', list, d);
  }

  // ----- Harmless -----

  lemma SlotKept(img: Image, img': Image, h: Header, g: nat)
    requires Consistent(img) && Sized(img') && Readable(h) && Dormant(img, h) && OnlyChanges(img, img', h.dataSectors[..Span(h)])
    requires g < NUM_DIR_ENTRIES && Table(img)[g].inUse
    ensures var x := Table(img)[g].sector;
            x < NUM_SECTORS && HeaderAt(img', x) == HeaderAt(img, x) && Contents(img', HeaderAt(img, x)) == Contents(img, HeaderAt(img, x))
  {
    FileParts(img, g);
    var x := Table(img)[g].sector;
    var file := HeaderAt(img, x);
    forall s: Word | s < NUM_SECTORS && ShowsIn(img, s, g) ensures img'[s] == img[s] {
      assert Shows(img, s);
    }
    assert ShowsIn(img, x, g);
    forall j | 0 <= j < Span(file) ensures img'[file.dataSectors[j]] == img[file.dataSectors[j]] {
      assert HoldsBytes(file, file.dataSectors[j]);
      assert ShowsIn(img, file.dataSectors[j], g);
    }
    ContentsFrame(img, img', file);
  }

  /** The same claims, free map and table: consistent again. */
  lemma SameClaims(img: Image, img': Image)
    requires Consistent(img) && Sized(img') && Table(img') == Table(img) && FreeBits(img') == FreeBits(img)
    requires MapHeader(img') == MapHeader(img) && DirHeader(img') == DirHeader(img)
    requires forall g :: 0 <= g <= SYSTEM ==> Claims(img', g) == Claims(img, g)
    requires forall g :: 0 <= g < NUM_DIR_ENTRIES ==> SlotOk(img', g)
    ensures Consistent(img')
  {
    forall g | 0 <= g <= SYSTEM ensures Proper(Claims(img', g)) {
      assert Proper(Claims(img, g));
    }
    forall g, g' | 0 <= g < g' <= SYSTEM ensures Disjoint(Claims(img', g), Claims(img', g')) {
      assert Disjoint(Claims(img, g), Claims(img, g'));
    }
    forall s | 0 <= s < NUM_SECTORS ensures FreeBits(img')[s] <==> Claimed(img', s) {
      SameClaimed(img, img', s);
    }
  }

  /** So are the same headers. */
  lemma SameHeaders(img: Image, img': Image)
    requires Consistent(img) && Sized(img') && Table(img') == Table(img) && FreeBits(img') == FreeBits(img)
    requires MapHeader(img') == MapHeader(img) && DirHeader(img') == DirHeader(img)
    requires forall g :: 0 <= g < NUM_DIR_ENTRIES && Table(img)[g].inUse && Table(img)[g].sector < NUM_SECTORS ==>
               HeaderAt(img', Table(img)[g].sector) == HeaderAt(img, Table(img)[g].sector)
    ensures Consistent(img')
  {
    forall g | 0 <= g < NUM_DIR_ENTRIES ensures SlotOk(img', g) && Claims(img', g) == Claims(img, g) {
      assert SlotOk(img, g);
    }
    assert Claims(img', SYSTEM) == Claims(img, SYSTEM);
    SameClaims(img, img');
  }

  lemma SameClaimed(img: Image, img': Image, s: nat)
    requires Sized(img) && Sized(img') && forall g :: 0 <= g <= SYSTEM ==> Claims(img', g) == Claims(img, g)
    ensures Claimed(img', s) == Claimed(img, s)
  {
    forall g | 0 <= g <= SYSTEM ensures ClaimedBy(img', s, g) == ClaimedBy(img, s, g) {
    }
  }

  /** A write through a dormant handle shows nowhere. */
  lemma DormantWrite(img: Image, img': Image, h: Header)
    requires Consistent(img) && UserFile(MapHeader(img), DirHeader(img), h) && Dormant(img, h)
    requires OnlyChanges(img, img', h.dataSectors[..Span(h)])
    ensures Consistent(img') && SameView(img, img') && SameLayout(img, img')
    ensures MapHeader(img') == MapHeader(img) && DirHeader(img') == DirHeader(img)
  {
    SystemKept(img, img', h);
    forall g | 0 <= g < NUM_DIR_ENTRIES && Table(img)[g].inUse
      ensures var x := Table(img)[g].sector;
              && x < NUM_SECTORS && HeaderAt(img', x) == HeaderAt(img, x)
              && Contents(img', HeaderAt(img, x)) == Contents(img, HeaderAt(img, x))
    {
      SlotKept(img, img', h, g);
    }
    SameHeaders(img, img');
  }

  // ----- Harmful -----

  lemma LowByte(b: Bytes)
    requires |b| == SECTOR_SIZE
    ensures DecodeHeader(b).numBytes % 256 == b[0]
  {
  }

  /** Changing the first byte of a sector that shows changes what some name shows. */
  lemma ShownByte(img: Image, img': Image, s: Word, g: nat)
    requires Consistent(img) && Sized(img') && Table(img') == Table(img) && g < NUM_DIR_ENTRIES && s < NUM_SECTORS
    requires ShowsIn(img, s, g) && img'[s][0] != img[s][0]
    ensures var key := Key(Table(img)[g].name);
            Lookup(img', key) != Lookup(img, key) || HeaderOf(img', key) != HeaderOf(img, key)
  {
    var key, x := Key(Table(img)[g].name), Table(img)[g].sector;
    UniqueIndex(Table(img), key, g);
    var file := HeaderAt(img, x);
    assert HeaderOf(img, key) == Some(file) && HeaderOf(img', key) == Some(HeaderAt(img', x));
    if s == x {
      LowByte(img[x]);
      LowByte(img'[x]);
    } else if HeaderAt(img', x) == file {
      var j :| 0 <= j < Span(file) && j < NUM_DIRECT && file.dataSectors[j] == s;
      var k := j * SECTOR_SIZE;
      assert k < file.numBytes && k / SECTOR_SIZE == j && k % SECTOR_SIZE == 0;
      assert Contents(img', file)[k] == img'[s][0] && Contents(img, file)[k] == img[s][0];
    }
  }

  lemma FirstByteOf(img: Image, h: Header, k: nat)
    requires IsImage(img) && Readable(h) && k < Span(h)
    ensures k * SECTOR_SIZE < h.numBytes && Contents(img, h)[k * SECTOR_SIZE] == img[h.dataSectors[k]][0]
  {
    var p := k * SECTOR_SIZE;
    assert p < h.numBytes && p / SECTOR_SIZE == k && p % SECTOR_SIZE == 0;
  }

  /** Any write of one new byte at the beginning of a sector that shows changes what some name
      shows. */
  lemma StaleWriteDamages(img: Image, img': Image, h: Header, k: nat, b: Byte)
    requires Consistent(img) && UserFile(MapHeader(img), DirHeader(img), h)
    requires k < Span(h) && Shows(img, h.dataSectors[k]) && b != img[h.dataSectors[k]][0]
    requires WriteThrough(img, img', h, k * SECTOR_SIZE, [b])
    ensures !SameView(img, img')
  {
    SystemKept(img, img', h);
    FirstByteOf(img, h, k);
    FirstByteOf(img', h, k);
    var g :| 0 <= g < NUM_DIR_ENTRIES && ShowsIn(img, h.dataSectors[k], g);
    ShownByte(img, img', h.dataSectors[k], g);
  }

  /** Such a write exists. */
  lemma OneByteWrite(img: Image, h: Header, k: nat, b: Byte) returns (img': Image)
    requires IsImage(img) && Writable(h) && k < Span(h)
    ensures WriteThrough(img, img', h, k * SECTOR_SIZE, [b])
  {
    var s, p := h.dataSectors[k], k * SECTOR_SIZE;
    FirstByteOf(img, h, k);
    img' := img[s := Splice(img[s], 0, [b])];
    assert s in h.dataSectors[..Span(h)] by { assert h.dataSectors[..Span(h)][k] == s; }
    forall q | 0 <= q < h.numBytes ensures ByteAt(img', h, q) == if q == p then b else ByteAt(img, h, q) {
      assert q / SECTOR_SIZE < Span(h);
      if q / SECTOR_SIZE != k {
        assert h.dataSectors[q / SECTOR_SIZE] != s;
      }
    }
    assert Contents(img', h) == Splice(Contents(img, h), p, [b]);
  }

  /** Every write through a handle keeps what every name shows if and only if none of the sectors
      behind it holds a header or bytes of a file in use. */
  lemma StaleWriteIff(img: Image, h: Header)
    requires Consistent(img) && UserFile(MapHeader(img), DirHeader(img), h)
    ensures (forall img', position, from :: WriteThrough(img, img', h, position, from) ==> SameView(img, img')) <==> Dormant(img, h)
  {
    if Dormant(img, h) {
      forall img', position: nat, from | WriteThrough(img, img', h, position, from) ensures SameView(img, img') {
        DormantWrite(img, img', h);
      }
    } else {
      var k :| 0 <= k < Span(h) && Shows(img, h.dataSectors[k]);
      var b: Byte := if img[h.dataSectors[k]][0] == 0 then 1 else 0;
      var img' := OneByteWrite(img, h, k, b);
      StaleWriteDamages(img, img', h, k, b);
    }
  }

  // ----- When a handle is dormant -----

  lemma ShowsKept(img: Image, img': Image, i: nat, s: Word, g: nat)
    requires Consistent(img) && i < NUM_DIR_ENTRIES && KeepsOthers(img, img', i) && g < NUM_DIR_ENTRIES && g != i
    ensures ShowsIn(img', s, g) == ShowsIn(img, s, g)
  {
    assert KeepsSlot(img, img', g);
    if Table(img)[g].inUse && Table(img)[g].sector < NUM_SECTORS {
      KeptHeader(img, img', i, g);
    }
  }

  /** Once a slot has changed, a sector shows exactly if it shows there or did so elsewhere. */
  lemma ShowsAfter(img: Image, img': Image, i: nat, s: Word)
    requires Consistent(img) && i < NUM_DIR_ENTRIES && KeepsOthers(img, img', i)
    ensures Shows(img', s) <==> ShowsIn(img', s, i) || exists g :: 0 <= g < NUM_DIR_ENTRIES && g != i && ShowsIn(img, s, g)
  {
    forall g | 0 <= g < NUM_DIR_ENTRIES && g != i ensures ShowsIn(img', s, g) == ShowsIn(img, s, g) {
      ShowsKept(img, img', i, s, g);
    }
  }

  lemma ShownIsClaimed(img: Image, s: Word, g: nat)
    requires Consistent(img) && g < NUM_DIR_ENTRIES && ShowsIn(img, s, g)
    ensures s in Claims(img, g)
  {
    FileParts(img, g);
    var x := Table(img)[g].sector;
    var h := HeaderAt(img, x);
    Elements([x], Used(h), s);
    if s != x {
      var j :| 0 <= j < Span(h) && j < NUM_DIRECT && h.dataSectors[j] == s;
      SpanIsUsed(h, j);
    }
  }

  lemma NoLongerShows(img: Image, img': Image, i: nat, s: Word)
    requires Consistent(img) && Sized(img') && Removed(img, img', i) && KeepsOthers(img, img', i) && s in Claims(img, i)
    ensures !Shows(img', s)
  {
    forall g | 0 <= g < NUM_DIR_ENTRIES && g != i ensures !ShowsIn(img, s, g) {
      Apart(img, i, g, s);
      if ShowsIn(img, s, g) {
        ShownIsClaimed(img, s, g);
      }
    }
    ShowsAfter(img, img', i, s);
  }

  lemma SlotIsDormant(img: Image, img': Image, i: nat)
    requires Consistent(img) && Sized(img') && Removed(img, img', i) && KeepsOthers(img, img', i)
    ensures Table(img)[i].sector < NUM_SECTORS && Readable(HeaderAt(img, Table(img)[i].sector))
    ensures Dormant(img', HeaderAt(img, Table(img)[i].sector))
  {
    FileParts(img, i);
    var x := Table(img)[i].sector;
    var h := HeaderAt(img, x);
    forall k | 0 <= k < Span(h) ensures !Shows(img', h.dataSectors[k]) {
      SpanIsUsed(h, k);
      Elements([x], Used(h), h.dataSectors[k]);
      NoLongerShows(img, img', i, h.dataSectors[k]);
    }
  }

  lemma HeaderOfSlot(img: Image, i: nat)
    requires Sized(img) && DistinctNames(Table(img)) && i < NUM_DIR_ENTRIES && Table(img)[i].inUse && Table(img)[i].sector < NUM_SECTORS
    ensures HeaderOf(img, Key(Table(img)[i].name)) == Some(HeaderAt(img, Table(img)[i].sector))
  {
    UniqueIndex(Table(img), Key(Table(img)[i].name), i);
  }

  /** Removing a file makes the handles on it dormant. */
  lemma RemovedIsDormant(img: Image, img': Image, key: Bytes)
    requires Consistent(img) && Sized(img') && Deleted(img, img', key)
    ensures HeaderOf(img, key).Some? && Readable(HeaderOf(img, key).value) && Dormant(img', HeaderOf(img, key).value)
  {
    var i: nat :| Removed(img, img', i) && Key(Table(img)[i].name) == key;
    RemoveKeepsOthers(img, img', i);
    SlotIsDormant(img, img', i);
    HeaderOfSlot(img, i);
  }

  /** A dormant handle stays so until Create gives out one of its sectors, for a header or for
      data. */
  lemma CreateKeepsDormantIff(img: Image, img': Image, name: Bytes, size: Word, i: nat, x: Word, file: Header, h: Header)
    requires Consistent(img) && Sized(img') && Created(img, img', name, size, i, x, file) && Readable(h) && Dormant(img, h)
    ensures Dormant(img', h) <==> forall k :: 0 <= k < Span(h) ==> h.dataSectors[k] != x && !HoldsBytes(file, h.dataSectors[k])
  {
    CreateKeepsOthers(img, img', name, size, i, x, file);
    forall k | 0 <= k < Span(h)
      ensures Shows(img', h.dataSectors[k]) <==> h.dataSectors[k] == x || HoldsBytes(file, h.dataSectors[k])
    {
      var s := h.dataSectors[k];
      assert !Shows(img, s);
      ShowsAfter(img, img', i, s);
      assert Table(img')[i].inUse && Table(img')[i].sector == x;
    }
  }

  // ----- A handle kept while its sectors are given out again -----

  /** First-fit allocation is determined by the free map and the number of sectors. */
  lemma {:induction false} AllocatedUnique(bits: seq<bool>, bits1: seq<bool>, list1: seq<Word>, bits2: seq<bool>, list2: seq<Word>)
    requires Allocated(bits, bits1, list1) && Allocated(bits, bits2, list2) && |list1| == |list2|
    ensures list1 == list2 && bits1 == bits2
    decreases |list1|
  {
    if list1 != [] {
      var n := |list1| - 1;
      var mid1 := AllButLast(bits, bits1, list1);
      var mid2 := AllButLast(bits, bits2, list2);
      AllocatedUnique(bits, mid1, list1[..n], mid2, list2[..n]);
      assert list1 == list1[..n] + [list1[n]] && list2 == list2[..n] + [list2[n]];
    }
  }

  /** The last sector allocated was the first one still free. */
  lemma AllButLast(bits: seq<bool>, bits': seq<bool>, list: seq<Word>) returns (mid: seq<bool>)
    requires Allocated(bits, bits', list) && list != []
    ensures var n := |list| - 1;
            && Allocated(bits, mid, list[..n]) && !mid[list[n]]
            && (forall s :: 0 <= s < |mid| && !mid[s] ==> list[n] <= s) && bits' == mid[list[n] := true]
  {
    var n := |list| - 1;
    var k, init := list[n], list[..n];
    mid := bits'[k := false];
    assert list == init + [k];
    forall s: Word ensures s in list <==> s in init || s == k {
      Elements(init, [k], s);
    }
    assert k !in init;
  }

  /** A header as Create fills it in from a free map. */
  ghost predicate Granted(bits: seq<bool>, h: Header)
    requires |bits| == NUM_SECTORS
  {
    exists x: Word, bits' :: x < NUM_SECTORS && Took(bits, bits', x, h)
  }

  /** Headers of the same size with the same sectors. */
  ghost predicate SameSectors(h: Header, h': Header) {
    h'.numBytes == h.numBytes && Span(h) <= NUM_DIRECT && h'.dataSectors[..Span(h)] == h.dataSectors[..Span(h)]
  }

  lemma GrantedAgain(bits: seq<bool>, h: Header, h': Header)
    requires |bits| == NUM_SECTORS && Granted(bits, h) && Granted(bits, h') && h'.numBytes == h.numBytes
    ensures SameSectors(h, h')
  {
    var x: Word, bits1 :| x < NUM_SECTORS && Took(bits, bits1, x, h);
    var y: Word, bits2 :| y < NUM_SECTORS && Took(bits, bits2, y, h');
    AllocatedUnique(bits[x := true], bits1, h.dataSectors[..h.numSectors], bits2, h'.dataSectors[..h'.numSectors]);
  }

  lemma SameSectorsSameBytes(img: Image, h: Header, h': Header)
    requires SameSectors(h, h')
    ensures Contents(img, h') == Contents(img, h)
  {
    forall k | 0 <= k < h.numBytes ensures ByteAt(img, h', k) == ByteAt(img, h, k) {
      var i := k / SECTOR_SIZE;
      assert i < Span(h) && h'.dataSectors[..Span(h)][i] == h'.dataSectors[i] && h.dataSectors[..Span(h)][i] == h.dataSectors[i];
    }
  }

  lemma CreatedHeader(img: Image, img': Image, name: Bytes, size: Word)
    requires Consistent(img) && Sized(img') && Lookup(img, Key(name)).None? && CreatedFile(img, img', name, size)
    ensures HeaderOf(img', Key(name)).Some?
    ensures var h := HeaderOf(img', Key(name)).value;
            h.numBytes == size && Granted(FreeBits(img), h)
  {
    LookupPresent(img, Key(name));
    var i: nat, x: Word, h: Header :| Created(img, img', name, size, i, x, h);
    CreateConsistent(img, img', name, size, i, x, h);
    CopyNameKey(Table(img)[i].name, name);
    UniqueIndex(Table(img'), Key(name), i);
  }

  lemma RoomAgain(img: Image, img': Image, key: Bytes)
    requires Sized(img) && Sized(img') && Deleted(img, img', key)
    ensures FreeFrom(Table(img'), 0).Some?
  {
    var i: nat :| Removed(img, img', i) && Key(Table(img)[i].name) == key;
    assert !Table(img')[i].inUse;
  }

  /** Create, open, remove: a handle without a file, on a volume where nothing else has changed. */
  method Orphan(fs: FileSystem, name: Bytes, size: Word, garbage: Garbage) returns (file: OpenFile?)
    requires fs.Valid() && size < MAX_FILE_SIZE
    modifies fs.disk
    ensures fs.Valid()
    ensures file != null <==>
            old(Lookup(fs.disk.sectors, Key(name)).None? && FreeFrom(Table(fs.disk.sectors), 0).Some? &&
                1 + DivRoundUp(size, SECTOR_SIZE) <= ClearCount(FreeBits(fs.disk.sectors)))
    ensures file == null ==> fs.disk.sectors == old(fs.disk.sectors)
    ensures file != null ==> fresh(file) && file.disk == fs.disk && file.seekPosition == 0 && file.hdr.numBytes == size
    ensures file != null ==> UserFile(fs.freeMapFile.hdr, fs.directoryFile.hdr, file.hdr)
    ensures file != null ==> Granted(old(FreeBits(fs.disk.sectors)), file.hdr)
    ensures file != null ==> FreeBits(fs.disk.sectors) == old(FreeBits(fs.disk.sectors)) && FreeFrom(Table(fs.disk.sectors), 0).Some?
    ensures file != null ==> SameView(old(fs.disk.sectors), fs.disk.sectors) && Dormant(fs.disk.sectors, file.hdr)
  {
    ghost var img := fs.disk.sectors;
    var created := fs.Create(name, size, garbage);
    if !created {
      return null;
    }
    ghost var img1 := fs.disk.sectors;
    file := fs.Open(name, garbage);
    var removed := fs.Remove(name, garbage);
    Orphaned(img, img1, fs.disk.sectors, name, size);
  }

  /** Volumes before a file was created, after that, and after it was removed again. */
  lemma Orphaned(img: Image, img1: Image, img2: Image, name: Bytes, size: Word)
    requires Consistent(img) && Consistent(img1) && Sized(img2) && Lookup(img, Key(name)).None?
    requires CreatedFile(img, img1, name, size) && Deleted(img1, img2, Key(name))
    ensures HeaderOf(img1, Key(name)).Some?
    ensures var h := HeaderOf(img1, Key(name)).value;
            h.numBytes == size && Granted(FreeBits(img), h) && Readable(h) && Dormant(img2, h)
    ensures FreeBits(img2) == FreeBits(img) && FreeFrom(Table(img2), 0).Some? && SameView(img, img2)
  {
    CreatedHeader(img, img1, name, size);
    LookupPresent(img, Key(name));
    CreateRemoveRestores(img, img1, img2, name, size);
    RoomAgain(img1, img2, Key(name));
    RemovedIsDormant(img1, img2, Key(name));
  }

  /** What is written through a handle turns up in the file that has its sectors now. */
  lemma TurnsUp(img: Image, img': Image, h: Header, h': Header, key: Bytes, from: Bytes)
    requires Consistent(img) && HeaderOf(img, key) == Some(h') && SameSectors(h, h') && Readable(h)
    requires WriteThrough(img, img', h, 0, from)
    ensures Consistent(img') && MapHeader(img') == MapHeader(img) && DirHeader(img') == DirHeader(img) && SameBut(img, img', key)
    ensures Lookup(img, key).Some? && |Lookup(img, key).value| == h.numBytes
    ensures Lookup(img', key) == Some(Splice(Lookup(img, key).value, 0, from))
  {
    HeaderLookup(img, key);
    SameSectorsSameBytes(img, h, h');
    SameSectorsSameBytes(img', h, h');
    assert Readable(h') by {
      FileParts(img, IndexFrom(Table(img), key, 0).value);
    }
    WriteByName(img, img', key, h');
  }

  /** Writing at the beginning of a file. */
  method WriteFirst(file: OpenFile, from: Bytes)
    requires file.Valid() && Writable(file.hdr) && file.seekPosition == 0 && 0 < |from| <= file.hdr.numBytes
    modifies file, file.disk
    ensures file.disk.Valid() && WriteThrough(old(file.disk.sectors), file.disk.sectors, file.hdr, 0, from)
  {
    assert from[..|from|] == from;
    var r := file.Write(from);
  }

  /** A write through a handle whose sectors belong to another file. */
  method WriteElsewhere(fs: FileSystem, file: OpenFile, from: Bytes, ghost key: Bytes)
    requires fs.Valid() && file.disk == fs.disk && Writable(file.hdr) && file.seekPosition == 0 && 0 < |from| <= file.hdr.numBytes
    requires HeaderOf(fs.disk.sectors, key).Some? && SameSectors(file.hdr, HeaderOf(fs.disk.sectors, key).value)
    modifies file, fs.disk
    ensures fs.Valid() && SameBut(old(fs.disk.sectors), fs.disk.sectors, key)
    ensures old(Lookup(fs.disk.sectors, key)).Some? && |old(Lookup(fs.disk.sectors, key)).value| == file.hdr.numBytes
    ensures Lookup(fs.disk.sectors, key) == Some(Splice(old(Lookup(fs.disk.sectors, key)).value, 0, from))
  {
    ghost var img := fs.disk.sectors;
    WriteFirst(file, from);
    TurnsUp(img, fs.disk.sectors, file.hdr, HeaderOf(img, key).value, key, from);
  }

  /** A file created from a free map that granted `h` before gets the sectors of `h`. */
  method CreateOver(fs: FileSystem, name: Bytes, size: Word, garbage: Garbage, ghost h: Header) returns (ok: bool)
    requires fs.Valid() && size < MAX_FILE_SIZE && h.numBytes == size && Granted(FreeBits(fs.disk.sectors), h)
    modifies fs.disk
    ensures fs.Valid()
    ensures ok <==>
            old(Lookup(fs.disk.sectors, Key(name)).None? && FreeFrom(Table(fs.disk.sectors), 0).Some? &&
                1 + DivRoundUp(size, SECTOR_SIZE) <= ClearCount(FreeBits(fs.disk.sectors)))
    ensures ok ==> SameBut(old(fs.disk.sectors), fs.disk.sectors, Key(name))
    ensures ok ==> HeaderOf(fs.disk.sectors, Key(name)).Some? && SameSectors(h, HeaderOf(fs.disk.sectors, Key(name)).value)
  {
    ghost var img := fs.disk.sectors;
    ok := fs.Create(name, size, garbage);
    if ok {
      CreatedHeader(img, fs.disk.sectors, name, size);
      GrantedAgain(FreeBits(img), h, HeaderOf(fs.disk.sectors, Key(name)).value);
    }
  }

  /** Create and open one file, remove it, create another of the same size: the old handle's
      sectors are the new file's, and what is written through it turns up there. */
  method WriteAfterRemove(fs: FileSystem, name: Bytes, other: Bytes, size: Word, from: Bytes, garbage: Garbage)
    returns (ok: bool, ghost before: Image)
    requires fs.Valid() && size < MAX_FILE_SIZE && 0 < |from| <= size
    modifies fs.disk
    ensures fs.Valid() && Sized(before)
    ensures ok <==>
            old(Lookup(fs.disk.sectors, Key(name)).None? && FreeFrom(Table(fs.disk.sectors), 0).Some? &&
                1 + DivRoundUp(size, SECTOR_SIZE) <= ClearCount(FreeBits(fs.disk.sectors)) &&
                Lookup(fs.disk.sectors, Key(other)).None?)
    ensures ok ==> SameBut(old(fs.disk.sectors), before, Key(other)) && SameBut(before, fs.disk.sectors, Key(other))
    ensures ok ==> Lookup(before, Key(other)).Some? && |Lookup(before, Key(other)).value| == size
    ensures ok ==> Lookup(fs.disk.sectors, Key(other)) == Some(Splice(Lookup(before, Key(other)).value, 0, from))
  {
    ghost var img := fs.disk.sectors;
    before := img;
    var file := Orphan(fs, name, size, garbage);
    if file == null {
      return false, before;
    }
    ok := CreateOver(fs, other, size, garbage, file.hdr);
    before := fs.disk.sectors;
    if ok {
      WriteElsewhere(fs, file, from, Key(other));
    }
  }

  /** A write through any handle, whatever became of its file: as long as the handle is dormant,
      every name keeps its header and its bytes, and no sector is lost. */
  method WriteDormant(fs: FileSystem, file: OpenFile, from: Bytes) returns (r: Transfer)
    requires fs.Valid() && file.disk == fs.disk && UserFile(fs.freeMapFile.hdr, fs.directoryFile.hdr, file.hdr)
    requires 0 < |from| < WORD && !Wraps(file.seekPosition, |from|, file.hdr.numBytes)
    requires Dormant(fs.disk.sectors, file.hdr)
    modifies file, fs.disk
    ensures fs.Valid() && SameView(old(fs.disk.sectors), fs.disk.sectors)
    ensures FreeBits(fs.disk.sectors) == old(FreeBits(fs.disk.sectors))
  {
    ghost var img := fs.disk.sectors;
    r := file.Write(from);
    DormantWrite(img, fs.disk.sectors, file.hdr);
  }
}
