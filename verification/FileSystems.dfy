/** The file system: format, create, open, remove, and writing to a named file. */
module FileSystems {
  import opened Common
  import opened DiskLayout
  import opened OpenFiles
  import opened Bitmaps
  import opened Directories
  import opened Volumes

  /** Two system headers that can be written independently of each other. */
  ghost predicate SystemHeaders(m: Header, d: Header) {
    && m.numBytes == FREE_MAP_FILE_SIZE && d.numBytes == DIRECTORY_FILE_SIZE
    && Fits(m) && Fits(d) && Writable(m) && Writable(d)
    && Disjoint(Used(m), Used(d))
    && Disjoint([FREE_MAP_SECTOR, DIRECTORY_SECTOR], Used(m))
    && Disjoint([FREE_MAP_SECTOR, DIRECTORY_SECTOR], Used(d))
  }

  /** A header that can be written through, none of whose sectors is one of the system's. */
  ghost predicate UserFile(m: Header, d: Header, h: Header) {
    Writable(h) && Disjoint(h.dataSectors[..Span(h)], [FREE_MAP_SECTOR, DIRECTORY_SECTOR] + Used(m) + Used(d))
  }

  /** The header of the file with a given name, if there is one. */
  ghost function HeaderOf(img: Image, key: Bytes): Option<Header>
    requires Sized(img)
  {
    var i := IndexFrom(Table(img), key, 0);
    if i.Some? && Table(img)[i.value].sector < NUM_SECTORS
    then Some(HeaderAt(img, Table(img)[i.value].sector)) else None
  }

  lemma HeaderLookup(img: Image, key: Bytes)
    requires Sized(img)
    ensures Lookup(img, key) == if HeaderOf(img, key).Some? then Some(Contents(img, HeaderOf(img, key).value)) else None
  {
  }

  lemma FileIsUserFile(img: Image, key: Bytes)
    requires Consistent(img) && HeaderOf(img, key).Some?
    ensures UserFile(MapHeader(img), DirHeader(img), HeaderOf(img, key).value)
  {
    var i, h := IndexFrom(Table(img), key, 0).value, HeaderOf(img, key).value;
    FileParts(img, i);
    forall s | s in h.dataSectors[..Span(h)] ensures s !in Claims(img, SYSTEM) {
      var k :| 0 <= k < Span(h) && h.dataSectors[k] == s;
      SpanIsUsed(h, k);
      Elements([Table(img)[i].sector], Used(h), s);
      Apart(img, i, SYSTEM, s);
    }
  }

  /** Every other name keeps its header. */
  lemma HeadersUnchanged(img: Image, img': Image, i: nat, key: Bytes)
    requires Consistent(img) && i < NUM_DIR_ENTRIES && KeepsOthers(img, img', i) && DistinctNames(Table(img'))
    requires !Names(Table(img)[i], key) && !Names(Table(img')[i], key)
    ensures HeaderOf(img', key) == HeaderOf(img, key)
  {
    var found := IndexFrom(Table(img), key, 0);
    if found.Some? {
      var g := found.value;
      assert SlotOk(img, g);
      KeptHeader(img, img', i, g);
      UniqueIndex(Table(img'), key, g);
    } else {
      forall g | 0 <= g < NUM_DIR_ENTRIES ensures !Names(Table(img')[g], key) {
        if g != i { assert KeepsSlot(img, img', g); }
      }
    }
  }

  /** Volumes that agree on every name but one, in contents and in headers. */
  ghost predicate SameBut(img: Image, img': Image, key: Bytes)
    requires Sized(img) && Sized(img')
  {
    forall k :: k != key ==> Lookup(img', k) == Lookup(img, k) && HeaderOf(img', k) == HeaderOf(img, k)
  }

  /** The bytes that no operation sets: the last of each name field. */
  ghost function Tenths(img: Image): (b: Bytes)
    requires Sized(img)
    ensures |b| == NUM_DIR_ENTRIES && forall i :: 0 <= i < NUM_DIR_ENTRIES ==> b[i] == Table(img)[i].name[FILE_NAME_MAX_LEN]
  {
    seq(NUM_DIR_ENTRIES, i requires 0 <= i < NUM_DIR_ENTRIES => Table(img)[i].name[FILE_NAME_MAX_LEN])
  }

  /** Everything outside the listed sectors is the same. */
  ghost predicate OnlyChanges(img: Image, img': Image, list: seq<Word>) {
    IsImage(img) && IsImage(img') && forall s :: 0 <= s < NUM_SECTORS && s !in list ==> img'[s] == img[s]
  }

  lemma SpanWithinUsed(h: Header, s: nat)
    requires Fits(h) && s !in Used(h)
    ensures Span(h) <= NUM_DIRECT && s !in h.dataSectors[..Span(h)]
  {
    assert forall i :: 0 <= i < Span(h) ==> h.dataSectors[i] == Used(h)[i];
  }

  lemma OtherFileKept(img: Image, img': Image, list: seq<Word>, h: Header)
    requires OnlyChanges(img, img', list) && Writable(h) && Fits(h) && Disjoint(list, Used(h))
    ensures Contents(img', h) == Contents(img, h)
  {
    forall i | 0 <= i < Span(h) ensures img'[h.dataSectors[i]] == img[h.dataSectors[i]] {
      SpanIsUsed(h, i);
    }
    ContentsFrame(img, img', h);
  }

  lemma UnmarkedApart(img: Image, s: nat, g: nat)
    requires Consistent(img) && s < NUM_SECTORS && !FreeBits(img)[s] && g <= SYSTEM
    ensures s !in Claims(img, g)
  {
    assert FreeBits(img)[s] <==> Claimed(img, s);
    assert !ClaimedBy(img, s, g);
  }

  lemma SystemDataApart(img: Image, s: Word, g: nat)
    requires Consistent(img) && s in Used(MapHeader(img)) + Used(DirHeader(img)) && g < NUM_DIR_ENTRIES
    ensures s !in Claims(img, g) && s != FREE_MAP_SECTOR && s != DIRECTORY_SECTOR
  {
    var m, d := Used(MapHeader(img)), Used(DirHeader(img));
    SystemParts(img);
    Elements(m, d, s);
    assert FREE_MAP_SECTOR in [FREE_MAP_SECTOR, DIRECTORY_SECTOR] && DIRECTORY_SECTOR in [FREE_MAP_SECTOR, DIRECTORY_SECTOR];
    assert s in Claims(img, SYSTEM) by {
      Elements([FREE_MAP_SECTOR, DIRECTORY_SECTOR], m, s);
      Elements([FREE_MAP_SECTOR, DIRECTORY_SECTOR] + m, d, s);
    }
    Apart(img, SYSTEM, g, s);
  }

  /** Writes confined to the system's data and to sectors nobody else claims leave the other
      slots alone. */
  lemma WritesKeepOthers(img: Image, img': Image, i: nat, extra: seq<Word>)
    requires Consistent(img) && Sized(img') && i < NUM_DIR_ENTRIES
    requires OnlyChanges(img, img', Used(MapHeader(img)) + Used(DirHeader(img)) + extra)
    requires forall g :: 0 <= g < NUM_DIR_ENTRIES && g != i ==> Table(img')[g] == Table(img)[g]
    requires forall g :: 0 <= g <= SYSTEM && g != i ==> Disjoint(extra, Claims(img, g))
    ensures KeepsOthers(img, img', i)
  {
    var data := Used(MapHeader(img)) + Used(DirHeader(img));
    forall s | s == FREE_MAP_SECTOR || s == DIRECTORY_SECTOR ensures img'[s] == img[s] {
      Elements(data, extra, s);
      assert s in Claims(img, SYSTEM);
      if s in data { SystemDataApart(img, s, i); }
      assert Disjoint(extra, Claims(img, SYSTEM));
    }
    forall g | 0 <= g < NUM_DIR_ENTRIES && g != i ensures KeepsSlot(img, img', g) {
      forall s | s in Claims(img, g) && s < NUM_SECTORS ensures img'[s] == img[s] {
        Elements(data, extra, s);
        if s in data { SystemDataApart(img, s, g); }
        assert Disjoint(extra, Claims(img, g));
      }
    }
  }

  // ----- Format -----

  /** The bits after reserving the two header sectors and allocating the system's files. */
  ghost predicate Formatted(bits1: seq<bool>, bits2: seq<bool>, m: Header, d: Header) {
    && m.numBytes == FREE_MAP_FILE_SIZE && m.numSectors == Span(m)
    && d.numBytes == DIRECTORY_FILE_SIZE && d.numSectors == Span(d)
    && Allocated(seq(NUM_SECTORS, _ => false)[FREE_MAP_SECTOR := true][DIRECTORY_SECTOR := true], bits1, Used(m))
    && Allocated(bits1, bits2, Used(d))
  }

  lemma FormattedHeaders(bits1: seq<bool>, bits2: seq<bool>, m: Header, d: Header)
    requires Formatted(bits1, bits2, m, d)
    ensures SystemHeaders(m, d)
    ensures Proper([FREE_MAP_SECTOR, DIRECTORY_SECTOR] + Used(m) + Used(d))
  {
    var um, ud := Used(m), Used(d);
    assert |um| == 1 && |ud| == 2;
    assert um[0] < NUM_SECTORS && um[0] != FREE_MAP_SECTOR && um[0] != DIRECTORY_SECTOR;
    assert bits1[um[0]] && bits1[FREE_MAP_SECTOR] && bits1[DIRECTORY_SECTOR] by { assert um[0] in um; }
    assert !bits1[ud[0]] && !bits1[ud[1]];
    assert [FREE_MAP_SECTOR, DIRECTORY_SECTOR] + um + ud == [FREE_MAP_SECTOR, DIRECTORY_SECTOR, um[0], ud[0], ud[1]];
    assert um == [um[0]] && ud == [ud[0], ud[1]];
    ProperIsWritable(m);
    ProperIsWritable(d);
  }

  /** A freshly formatted volume is consistent and has no files. */
  lemma FormatConsistent(img: Image, bits1: seq<bool>, m: Header, d: Header)
    requires Sized(img) && MapHeader(img) == m && DirHeader(img) == d
    requires Formatted(bits1, FreeBits(img), m, d)
    requires forall i :: 0 <= i < NUM_DIR_ENTRIES ==> !Table(img)[i].inUse
    ensures Consistent(img)
    ensures forall key :: Lookup(img, key).None?
  {
    FormattedHeaders(bits1, FreeBits(img), m, d);
    FormatClaims(img);
    forall s | 0 <= s < NUM_SECTORS ensures FreeBits(img)[s] <==> Claimed(img, s) {
      FormattedBit(bits1, FreeBits(img), m, d, s);
      EmptyClaimed(img, s);
    }
  }

  lemma FormatClaims(img: Image)
    requires Sized(img) && Proper(SystemClaims(img)) && forall i :: 0 <= i < NUM_DIR_ENTRIES ==> !Table(img)[i].inUse
    ensures forall g :: 0 <= g <= SYSTEM ==> Proper(Claims(img, g))
    ensures forall g, g' :: 0 <= g < g' <= SYSTEM ==> Disjoint(Claims(img, g), Claims(img, g'))
  {
    assert forall g :: 0 <= g < SYSTEM ==> Claims(img, g) == [];
    assert Claims(img, SYSTEM) == SystemClaims(img);
  }

  lemma EmptyClaimed(img: Image, s: nat)
    requires Sized(img) && forall i :: 0 <= i < NUM_DIR_ENTRIES ==> !Table(img)[i].inUse
    ensures Claimed(img, s) <==> s in SystemClaims(img)
  {
    assert ClaimedBy(img, s, SYSTEM) <==> s in SystemClaims(img);
    assert forall g :: 0 <= g < SYSTEM ==> !ClaimedBy(img, s, g);
  }

  lemma FormattedBit(bits1: seq<bool>, bits2: seq<bool>, m: Header, d: Header, s: nat)
    requires Formatted(bits1, bits2, m, d) && s < NUM_SECTORS
    ensures |bits2| == NUM_SECTORS
    ensures bits2[s] <==> s in [FREE_MAP_SECTOR, DIRECTORY_SECTOR] + Used(m) + Used(d)
  {
    Elements([FREE_MAP_SECTOR, DIRECTORY_SECTOR] + Used(m), Used(d), s);
    Elements([FREE_MAP_SECTOR, DIRECTORY_SECTOR], Used(m), s);
    assert bits2[s] <==> bits1[s] || s in Used(d);
  }

  /** Five sectors are taken: two headers, the free map and two for the directory. */
  lemma FormattedCount(bits1: seq<bool>, bits2: seq<bool>, m: Header, d: Header)
    requires Formatted(bits1, bits2, m, d)
    ensures ClearCount(bits2) == NUM_SECTORS - 5
  {
    var zero := seq(NUM_SECTORS, _ => false);
    AllClear(NUM_SECTORS);
    ClearCountMark(zero, FREE_MAP_SECTOR);
    ClearCountMark(zero[FREE_MAP_SECTOR := true], DIRECTORY_SECTOR);
    AllocatedCount(zero[FREE_MAP_SECTOR := true][DIRECTORY_SECTOR := true], bits1, Used(m));
    AllocatedCount(bits1, bits2, Used(d));
  }

  /** No slot is in use, and only the system's sectors are taken. */
  ghost predicate IsEmpty(img: Image) {
    && Sized(img)
    && (forall i :: 0 <= i < NUM_DIR_ENTRIES ==> !Table(img)[i].inUse)
    && (forall key :: Lookup(img, key).None?)
    && ClearCount(FreeBits(img)) == NUM_SECTORS - 5
  }

  // ----- Create, on images -----

  /** The state after a successful Create, as the three write-backs leave it. */
  ghost predicate Created(img: Image, img': Image, name: Bytes, size: Word, i: nat, x: Word, h: Header)
    requires Sized(img) && Sized(img')
  {
    && OnlyChanges(img, img', Used(MapHeader(img)) + Used(DirHeader(img)) + [x])
    && MapHeader(img') == MapHeader(img) && DirHeader(img') == DirHeader(img)
    && i < NUM_DIR_ENTRIES && !Table(img)[i].inUse
    && Table(img') == Table(img)[i := Filled(Table(img)[i], x, name)]
    && x < NUM_SECTORS && HeaderAt(img', x) == h && h.numBytes == size
    && Took(FreeBits(img), FreeBits(img'), x, h)
  }

  /** The first free sector for the header and then the first ones for the data were taken from
      the free map. */
  ghost predicate Took(bits: seq<bool>, bits': seq<bool>, x: Word, h: Header)
    requires |bits| == NUM_SECTORS && x < NUM_SECTORS
  {
    && h.numSectors == Span(h) <= NUM_DIRECT
    && FirstClear(bits, 0) == Some(x) && Allocated(bits[x := true], bits', h.dataSectors[..h.numSectors])
  }

  ghost predicate CreatedFile(img: Image, img': Image, name: Bytes, size: Word)
    requires Sized(img) && Sized(img')
  {
    exists i: nat, x: Word, h: Header :: Created(img, img', name, size, i, x, h)
  }

  lemma FreshSectors(img: Image, img': Image, name: Bytes, size: Word, i: nat, x: Word, h: Header, s: nat)
    requires Consistent(img) && Sized(img') && Created(img, img', name, size, i, x, h) && s < NUM_SECTORS
    ensures s in [x] + Used(h) ==> !FreeBits(img)[s]
    ensures FreeBits(img')[s] <==> FreeBits(img)[s] || s in [x] + Used(h)
  {
    var bits := FreeBits(img);
    Elements([x], Used(h), s);
    if s in Used(h) {
      var k :| 0 <= k < |Used(h)| && Used(h)[k] == s;
      assert !bits[x := true][s];
    }
  }

  lemma CreateKeepsOthers(img: Image, img': Image, name: Bytes, size: Word, i: nat, x: Word, h: Header)
    requires Consistent(img) && Sized(img') && Created(img, img', name, size, i, x, h)
    ensures KeepsOthers(img, img', i)
  {
    forall g | 0 <= g <= SYSTEM ensures x !in Claims(img, g) {
      UnmarkedApart(img, x, g);
    }
    WritesKeepOthers(img, img', i, [x]);
  }

  lemma CreateNewSlot(img: Image, img': Image, name: Bytes, size: Word, i: nat, x: Word, h: Header)
    requires Consistent(img) && Sized(img') && Created(img, img', name, size, i, x, h)
    requires IndexFrom(Table(img), Key(name), 0).None?
    ensures NewSlot(img, img', i) && Claims(img', i) == [x] + Used(h)
  {
    CopyNameKey(Table(img)[i].name, name);
    FreshIsProper(FreeBits(img), FreeBits(img'), x, Used(h));
    forall g | 0 <= g <= SYSTEM && g != i ensures Disjoint([x] + Used(h), Claims(img, g)) {
      FreshIsApart(img, img', name, size, i, x, h, g);
    }
  }

  lemma FreshIsProper(bits: seq<bool>, bits': seq<bool>, x: Word, list: seq<Word>)
    requires |bits| == NUM_SECTORS && x < NUM_SECTORS && Allocated(bits[x := true], bits', list)
    ensures Proper([x] + list)
  {
    assert x !in list by { assert bits[x := true][x]; }
  }

  lemma FreshIsApart(img: Image, img': Image, name: Bytes, size: Word, i: nat, x: Word, h: Header, g: nat)
    requires Consistent(img) && Sized(img') && Created(img, img', name, size, i, x, h) && g <= SYSTEM
    ensures Disjoint([x] + Used(h), Claims(img, g))
  {
    var claims := [x] + Used(h);
    FreshIsProper(FreeBits(img), FreeBits(img'), x, Used(h));
    forall s | s in claims ensures s !in Claims(img, g) {
      FreshSectors(img, img', name, size, i, x, h, s);
      assert FreeBits(img)[s] <==> Claimed(img, s);
      assert !ClaimedBy(img, s, g);
    }
  }

  /** Create leaves a consistent volume with one more file. */
  lemma CreateConsistent(img: Image, img': Image, name: Bytes, size: Word, i: nat, x: Word, h: Header)
    requires Consistent(img) && Sized(img') && Created(img, img', name, size, i, x, h)
    requires IndexFrom(Table(img), Key(name), 0).None?
    ensures Consistent(img')
    ensures Lookup(img', Key(name)).Some? && |Lookup(img', Key(name)).value| == size
    ensures SameBut(img, img', Key(name))
  {
    CreateKeepsOthers(img, img', name, size, i, x, h);
    CreateNewSlot(img, img', name, size, i, x, h);
    forall s | 0 <= s < NUM_SECTORS
      ensures FreeBits(img')[s] <==> ClaimedBy(img', s, i) || ClaimedByOther(img, s, i)
    {
      FreshSectors(img, img', name, size, i, x, h, s);
      assert FreeBits(img)[s] <==> Claimed(img, s);
      assert !ClaimedBy(img, s, i);
    }
    ReplaceSlot(img, img', i);
    CopyNameKey(Table(img)[i].name, name);
    UniqueIndex(Table(img'), Key(name), i);
    OthersSame(img, img', i, Key(name));
  }

  lemma OthersSame(img: Image, img': Image, i: nat, name: Bytes)
    requires Consistent(img) && Consistent(img') && i < NUM_DIR_ENTRIES && KeepsOthers(img, img', i)
    requires Table(img)[i].inUse ==> Key(Table(img)[i].name) == name
    requires Table(img')[i].inUse ==> Key(Table(img')[i].name) == name
    ensures SameBut(img, img', name)
  {
    forall key | key != name ensures Lookup(img', key) == Lookup(img, key) && HeaderOf(img', key) == HeaderOf(img, key) {
      OthersUnchanged(img, img', i, key);
      HeadersUnchanged(img, img', i, key);
    }
  }

  // ----- Remove, on images -----

  ghost predicate Removed(img: Image, img': Image, i: nat)
    requires Sized(img) && Sized(img')
  {
    && OnlyChanges(img, img', Used(MapHeader(img)) + Used(DirHeader(img)))
    && MapHeader(img') == MapHeader(img) && DirHeader(img') == DirHeader(img)
    && i < NUM_DIR_ENTRIES && Table(img)[i].inUse
    && Table(img') == Table(img)[i := Table(img)[i].(inUse := false)]
    && Cleared(FreeBits(img), FreeBits(img'), Claims(img, i))
  }

  ghost predicate Deleted(img: Image, img': Image, key: Bytes)
    requires Sized(img) && Sized(img')
  {
    exists i: nat :: Removed(img, img', i) && Key(Table(img)[i].name) == key
  }

  /** Remove leaves a consistent volume without the file. */
  lemma RemoveConsistent(img: Image, img': Image, i: nat)
    requires Consistent(img) && Sized(img') && Removed(img, img', i)
    ensures Consistent(img')
    ensures Lookup(img', Key(Table(img)[i].name)).None?
    ensures SameBut(img, img', Key(Table(img)[i].name))
  {
    RemoveKeepsOthers(img, img', i);
    RemoveStaysConsistent(img, img', i);
    RemovedName(Table(img), Table(img'), i);
    OthersSame(img, img', i, Key(Table(img)[i].name));
  }

  lemma RemoveKeepsOthers(img: Image, img': Image, i: nat)
    requires Consistent(img) && Sized(img') && Removed(img, img', i)
    ensures KeepsOthers(img, img', i)
  {
    var data := Used(MapHeader(img)) + Used(DirHeader(img));
    assert data + [] == data;
    WritesKeepOthers(img, img', i, []);
  }

  lemma RemoveStaysConsistent(img: Image, img': Image, i: nat)
    requires Consistent(img) && Sized(img') && Removed(img, img', i) && KeepsOthers(img, img', i)
    ensures Consistent(img')
  {
    assert Claims(img', i) == [];
    forall s | 0 <= s < NUM_SECTORS
      ensures FreeBits(img')[s] <==> ClaimedBy(img', s, i) || ClaimedByOther(img, s, i)
    {
      RemovedBit(img, img', i, s);
    }
    ReplaceSlot(img, img', i);
  }

  lemma RemovedName(t: seq<Entry>, t': seq<Entry>, i: nat)
    requires DistinctNames(t) && i < |t| && t[i].inUse && t' == t[i := t[i].(inUse := false)]
    ensures IndexFrom(t', Key(t[i].name), 0).None?
  {
    UniqueIndex(t, Key(t[i].name), i);
    assert forall g :: 0 <= g < |t'| ==> !Names(t'[g], Key(t[i].name));
  }

  lemma RemovedBit(img: Image, img': Image, i: nat, s: nat)
    requires Consistent(img) && Sized(img') && Removed(img, img', i) && s < NUM_SECTORS
    ensures FreeBits(img')[s] <==> ClaimedByOther(img, s, i)
  {
    assert FreeBits(img)[s] <==> Claimed(img, s);
    if s in Claims(img, i) {
      forall g | 0 <= g <= SYSTEM && g != i ensures !ClaimedBy(img, s, g) {
        Apart(img, i, g, s);
      }
    } else {
      assert !ClaimedBy(img, s, i);
    }
  }

  /** A file whose name was new is removed from the slot it was created in. */
  lemma SameSlot(img: Image, img1: Image, img2: Image, name: Bytes, size: Word, i: nat, x: Word, h: Header)
    requires Sized(img) && Sized(img1) && Sized(img2) && DistinctNames(Table(img1))
    requires Created(img, img1, name, size, i, x, h) && Deleted(img1, img2, Key(name))
    ensures Removed(img1, img2, i)
  {
    CopyNameKey(Table(img)[i].name, name);
    var j: nat :| Removed(img1, img2, j) && Key(Table(img1)[j].name) == Key(name);
    var t := Table(img1);
    assert Names(t[i], Key(name)) && Names(t[j], Key(name));
    UniqueIndex(t, Key(name), i);
    UniqueIndex(t, Key(name), j);
  }

  lemma MapRestored(img: Image, img1: Image, img2: Image, name: Bytes, size: Word, i: nat, x: Word, h: Header)
    requires Consistent(img) && Sized(img1) && Sized(img2) && Created(img, img1, name, size, i, x, h)
    requires Claims(img1, i) == [x] + Used(h) && Cleared(FreeBits(img1), FreeBits(img2), Claims(img1, i))
    ensures FreeBits(img2) == FreeBits(img)
  {
    forall s | 0 <= s < NUM_SECTORS ensures FreeBits(img2)[s] == FreeBits(img)[s] {
      FreshSectors(img, img1, name, size, i, x, h, s);
    }
  }

  /** Creating a file and removing it again restores the free map and every name. */
  lemma CreateRemoveRestores(img: Image, img1: Image, img2: Image, name: Bytes, size: Word)
    requires Consistent(img) && Sized(img1) && Sized(img2) && IndexFrom(Table(img), Key(name), 0).None?
    requires CreatedFile(img, img1, name, size) && Deleted(img1, img2, Key(name))
    ensures FreeBits(img2) == FreeBits(img)
    ensures forall key :: Lookup(img2, key) == Lookup(img, key) && HeaderOf(img2, key) == HeaderOf(img, key)
  {
    var i: nat, x: Word, h: Header :| Created(img, img1, name, size, i, x, h);
    CreateConsistent(img, img1, name, size, i, x, h);
    CreateNewSlot(img, img1, name, size, i, x, h);
    SameSlot(img, img1, img2, name, size, i, x, h);
    MapRestored(img, img1, img2, name, size, i, x, h);
    CopyNameKey(Table(img)[i].name, name);
    assert Key(Table(img1)[i].name) == Key(name);
    RemoveConsistent(img1, img2, i);
    NamesRestored(img, img1, img2, Key(name));
  }

  lemma NamesRestored(img: Image, img1: Image, img2: Image, name: Bytes)
    requires Consistent(img2) && Sized(img) && Sized(img1) && IndexFrom(Table(img), name, 0).None? && Lookup(img2, name).None?
    requires SameBut(img, img1, name) && SameBut(img1, img2, name)
    ensures forall key :: Lookup(img2, key) == Lookup(img, key) && HeaderOf(img2, key) == HeaderOf(img, key)
  {
    HeaderLookup(img2, name);
  }

  // ----- Writing to a file, on images -----

  /** Data written into the sectors of the file in slot `i`. */
  lemma WriteConsistent(img: Image, img': Image, i: nat)
    requires Consistent(img) && i < NUM_DIR_ENTRIES && Table(img)[i].inUse
    requires Table(img)[i].sector < NUM_SECTORS && OnlyChanges(img, img', Used(HeaderAt(img, Table(img)[i].sector)))
    ensures Consistent(img') && Table(img') == Table(img) && FreeBits(img') == FreeBits(img)
    ensures HeaderAt(img', Table(img)[i].sector) == HeaderAt(img, Table(img)[i].sector)
    ensures SameBut(img, img', Key(Table(img)[i].name))
    ensures Lookup(img', Key(Table(img)[i].name)) == Some(Contents(img', HeaderAt(img, Table(img)[i].sector)))
  {
    FileParts(img, i);
    WriteKeepsSystem(img, img', i);
    WriteKeepsOthers(img, img', i);
    WriteStaysConsistent(img, img', i);
    UniqueIndex(Table(img), Key(Table(img)[i].name), i);
    OthersSame(img, img', i, Key(Table(img)[i].name));
  }

  /** Writes confined to the data sectors of the file with a given name and header. */
  lemma WriteByName(img: Image, img': Image, key: Bytes, h: Header)
    requires Consistent(img) && HeaderOf(img, key) == Some(h) && Readable(h)
    requires OnlyChanges(img, img', h.dataSectors[..Span(h)])
    ensures Consistent(img') && SameLayout(img, img') && SameBut(img, img', key)
    ensures MapHeader(img') == MapHeader(img) && DirHeader(img') == DirHeader(img)
    ensures HeaderOf(img', key) == Some(h) && Lookup(img', key) == Some(Contents(img', h))
  {
    var i := IndexFrom(Table(img), key, 0).value;
    FileParts(img, i);
    forall s | 0 <= s < NUM_SECTORS && s !in Used(h) ensures img'[s] == img[s] {
      SpanWithinUsed(h, s);
    }
    WriteConsistent(img, img', i);
    WriteKeepsLayout(img, img', i);
    WriteKeepsSystem(img, img', i);
  }

  lemma WriteKeepsOthers(img: Image, img': Image, i: nat)
    requires Consistent(img) && i < NUM_DIR_ENTRIES && Table(img)[i].inUse
    requires Table(img)[i].sector < NUM_SECTORS && OnlyChanges(img, img', Used(HeaderAt(img, Table(img)[i].sector)))
    ensures KeepsOthers(img, img', i)
  {
    WriteKeepsSystem(img, img', i);
    forall g | 0 <= g < NUM_DIR_ENTRIES && g != i ensures KeepsSlot(img, img', g) {
      WriteApart(img, i, g);
    }
  }

  lemma WriteStaysConsistent(img: Image, img': Image, i: nat)
    requires Consistent(img) && i < NUM_DIR_ENTRIES && Table(img)[i].inUse
    requires Table(img)[i].sector < NUM_SECTORS && KeepsOthers(img, img', i)
    requires Table(img') == Table(img) && FreeBits(img') == FreeBits(img)
    requires img'[Table(img)[i].sector] == img[Table(img)[i].sector]
    ensures Consistent(img')
  {
    assert Claims(img', i) == Claims(img, i);
    WriteNewSlot(img, img', i);
    forall s | 0 <= s < NUM_SECTORS
      ensures FreeBits(img')[s] <==> ClaimedBy(img', s, i) || ClaimedByOther(img, s, i)
    {
      assert FreeBits(img)[s] <==> Claimed(img, s);
      assert ClaimedBy(img', s, i) == ClaimedBy(img, s, i);
    }
    ReplaceSlot(img, img', i);
  }

  lemma WriteApart(img: Image, i: nat, g: nat)
    requires Consistent(img) && i < NUM_DIR_ENTRIES && Table(img)[i].inUse && g <= SYSTEM && g != i
    requires Table(img)[i].sector < NUM_SECTORS
    ensures Disjoint(Used(HeaderAt(img, Table(img)[i].sector)), Claims(img, g))
  {
    var x := Table(img)[i].sector;
    FileParts(img, i);
    forall s | s in Used(HeaderAt(img, x)) ensures s !in Claims(img, g) {
      Elements([x], Used(HeaderAt(img, x)), s);
      Apart(img, i, g, s);
    }
  }

  lemma WriteKeepsSystem(img: Image, img': Image, i: nat)
    requires Consistent(img) && i < NUM_DIR_ENTRIES && Table(img)[i].inUse
    requires Table(img)[i].sector < NUM_SECTORS && OnlyChanges(img, img', Used(HeaderAt(img, Table(img)[i].sector)))
    ensures img'[FREE_MAP_SECTOR] == img[FREE_MAP_SECTOR] && img'[DIRECTORY_SECTOR] == img[DIRECTORY_SECTOR]
    ensures Sized(img') && Table(img') == Table(img) && FreeBits(img') == FreeBits(img)
    ensures img'[Table(img)[i].sector] == img[Table(img)[i].sector]
  {
    var list, m, d := Used(HeaderAt(img, Table(img)[i].sector)), MapHeader(img), DirHeader(img);
    FileParts(img, i);
    WriteApart(img, i, SYSTEM);
    SystemParts(img);
    assert FREE_MAP_SECTOR in Claims(img, SYSTEM) && DIRECTORY_SECTOR in Claims(img, SYSTEM);
    forall s | s in list ensures s !in Used(m) && s !in Used(d) {
      Elements([FREE_MAP_SECTOR, DIRECTORY_SECTOR], Used(m), s);
      Elements([FREE_MAP_SECTOR, DIRECTORY_SECTOR] + Used(m), Used(d), s);
    }
    OtherFileKept(img, img', list, m);
    OtherFileKept(img, img', list, d);
  }

  lemma WriteNewSlot(img: Image, img': Image, i: nat)
    requires Consistent(img) && Sized(img') && i < NUM_DIR_ENTRIES && Table(img') == Table(img)
    requires Claims(img', i) == Claims(img, i)
    requires Table(img)[i].inUse && Table(img)[i].sector < NUM_SECTORS
    requires img'[Table(img)[i].sector] == img[Table(img)[i].sector]
    ensures NewSlot(img, img', i)
  {
    assert SlotOk(img, i) && Proper(Claims(img, i));
    forall g | 0 <= g <= SYSTEM && g != i ensures Disjoint(Claims(img', i), Claims(img, g)) {
      forall s | s in Claims(img, i) ensures s !in Claims(img, g) {
        Apart(img, i, g, s);
      }
    }
  }

  // ----- Accounting for sectors -----

  /** The same directory, headers and free map: only file contents may differ. */
  ghost predicate SameLayout(img: Image, img': Image) {
    && Sized(img) && Sized(img') && Table(img') == Table(img) && FreeBits(img') == FreeBits(img)
    && forall i :: 0 <= i < NUM_DIR_ENTRIES && Table(img)[i].inUse && Table(img)[i].sector < NUM_SECTORS ==>
         HeaderAt(img', Table(img)[i].sector) == HeaderAt(img, Table(img)[i].sector)
  }

  lemma WriteKeepsLayout(img: Image, img': Image, i: nat)
    requires Consistent(img) && i < NUM_DIR_ENTRIES && Table(img)[i].inUse
    requires Table(img)[i].sector < NUM_SECTORS && OnlyChanges(img, img', Used(HeaderAt(img, Table(img)[i].sector)))
    ensures SameLayout(img, img')
  {
    WriteKeepsSystem(img, img', i);
    WriteKeepsOthers(img, img', i);
    forall g | 0 <= g < NUM_DIR_ENTRIES && g != i && Table(img)[g].inUse && Table(img)[g].sector < NUM_SECTORS
      ensures HeaderAt(img', Table(img)[g].sector) == HeaderAt(img, Table(img)[g].sector)
    {
      KeptHeader(img, img', i, g);
    }
  }

  lemma KeptHeader(img: Image, img': Image, i: nat, g: nat)
    requires Consistent(img) && i < NUM_DIR_ENTRIES && KeepsOthers(img, img', i)
    requires g < NUM_DIR_ENTRIES && g != i && Table(img)[g].inUse && Table(img)[g].sector < NUM_SECTORS
    ensures Table(img')[g] == Table(img)[g]
    ensures HeaderAt(img', Table(img)[g].sector) == HeaderAt(img, Table(img)[g].sector)
  {
    assert KeepsSlot(img, img', g);
    assert Table(img)[g].sector in Claims(img, g);
  }

  /** Every file holds exactly the sectors its size calls for, as Create allocates them. */
  ghost predicate Tight(img: Image)
    requires Sized(img)
  {
    forall i :: 0 <= i < NUM_DIR_ENTRIES ==> TightSlot(img, i)
  }

  ghost predicate TightSlot(img: Image, i: nat)
    requires Sized(img) && i < NUM_DIR_ENTRIES
  {
    var e := Table(img)[i];
    e.inUse && e.sector < NUM_SECTORS ==> HeaderAt(img, e.sector).numSectors == Span(HeaderAt(img, e.sector))
  }

  lemma KeptTight(img: Image, img': Image, i: nat)
    requires Consistent(img) && Tight(img) && i < NUM_DIR_ENTRIES && KeepsOthers(img, img', i) && TightSlot(img', i)
    ensures Tight(img')
  {
    forall g | 0 <= g < NUM_DIR_ENTRIES && g != i ensures TightSlot(img', g) {
      assert KeepsSlot(img, img', g) && TightSlot(img, g);
      if Table(img)[g].inUse && Table(img)[g].sector < NUM_SECTORS {
        KeptHeader(img, img', i, g);
      }
    }
  }

  /** Creating a file takes one sector for its header and those its size calls for. */
  lemma CreateAccounts(img: Image, img': Image, name: Bytes, size: Word, i: nat, x: Word, h: Header)
    requires Consistent(img) && Tight(img) && Sized(img') && Created(img, img', name, size, i, x, h)
    ensures Tight(img')
    ensures ClearCount(FreeBits(img')) + 1 + DivRoundUp(size, SECTOR_SIZE) == ClearCount(FreeBits(img))
  {
    CreateKeepsOthers(img, img', name, size, i, x, h);
    KeptTight(img, img', i);
    ClearCountMark(FreeBits(img), x);
    AllocatedCount(FreeBits(img)[x := true], FreeBits(img'), h.dataSectors[..h.numSectors]);
  }

  lemma {:induction false} ClearedCount(bits: seq<bool>, bits': seq<bool>, list: seq<Word>)
    requires Cleared(bits, bits', list) && Distinct(list)
    requires forall k :: 0 <= k < |list| ==> list[k] < |bits| && bits[list[k]]
    ensures ClearCount(bits') == ClearCount(bits) + |list|
    decreases |list|
  {
    if list == [] {
      assert bits' == bits;
    } else {
      var n := |list| - 1;
      var k, init := list[n], list[..n];
      var mid := bits'[k := true];
      assert list == init + [k];
      forall s: Word ensures s in list <==> s in init || s == k {
        Elements(init, [k], s);
      }
      assert k in list;
      ClearedCount(bits, mid, init);
      ClearCountMark(bits', k);
    }
  }

  /** Removing a file gives back its header sector and those its size called for. */
  lemma RemoveAccounts(img: Image, img': Image, i: nat)
    requires Consistent(img) && Tight(img) && Sized(img') && Removed(img, img', i)
    ensures Tight(img')
    ensures Table(img)[i].sector < NUM_SECTORS
    ensures ClearCount(FreeBits(img')) == ClearCount(FreeBits(img)) + 1 + DivRoundUp(|FileOf(img, i)|, SECTOR_SIZE)
  {
    RemoveStaysTight(img, img', i);
    FileParts(img, i);
    assert TightSlot(img, i);
    ClaimsMarked(img, i);
    ClearedCount(FreeBits(img), FreeBits(img'), Claims(img, i));
  }

  lemma RemoveStaysTight(img: Image, img': Image, i: nat)
    requires Consistent(img) && Tight(img) && Sized(img') && Removed(img, img', i)
    ensures Tight(img')
  {
    RemoveKeepsOthers(img, img', i);
    KeptTight(img, img', i);
  }

  lemma ClaimsMarked(img: Image, g: nat)
    requires Consistent(img) && g <= SYSTEM
    ensures Distinct(Claims(img, g))
    ensures forall k :: 0 <= k < |Claims(img, g)| ==> Claims(img, g)[k] < NUM_SECTORS && FreeBits(img)[Claims(img, g)[k]]
  {
    assert Proper(Claims(img, g));
    forall k | 0 <= k < |Claims(img, g)| ensures FreeBits(img)[Claims(img, g)[k]] {
      assert ClaimedBy(img, Claims(img, g)[k], g);
    }
  }

  /** The number of slots in use among the first `n`. */
  ghost function UsedSlots(t: seq<Entry>, n: nat): (r: nat)
    requires n <= |t|
    ensures r <= n
  {
    if n == 0 then 0 else UsedSlots(t, n - 1) + One(t[n - 1].inUse)
  }

  /** The names of the first `n` slots. */
  ghost function KeysUpTo(t: seq<Entry>, n: nat): set<Bytes>
    requires n <= |t|
  {
    if n == 0 then {} else KeysUpTo(t, n - 1) + (if t[n - 1].inUse then {Key(t[n - 1].name)} else {})
  }

  lemma {:induction false} KeysMember(t: seq<Entry>, n: nat, key: Bytes)
    requires n <= |t|
    ensures key in KeysUpTo(t, n) <==> exists i :: 0 <= i < n && Names(t[i], key)
  {
    if n > 0 {
      KeysMember(t, n - 1, key);
      assert key in KeysUpTo(t, n) <==> key in KeysUpTo(t, n - 1) || Names(t[n - 1], key);
    }
  }

  /** Distinct names: as many keys as slots in use. */
  lemma KeysCount(t: seq<Entry>, n: nat)
    requires n <= |t| && DistinctNames(t)
    ensures |KeysUpTo(t, n)| == UsedSlots(t, n)
  {
    forall i | 0 <= i < n ensures AddsKey(t, i) {
      NewKey(t, i);
    }
    KeysAddUp(t, n);
  }

  ghost predicate AddsKey(t: seq<Entry>, i: nat)
    requires i < |t|
  {
    |KeysUpTo(t, i + 1)| == |KeysUpTo(t, i)| + One(t[i].inUse)
  }

  lemma {:induction false} KeysAddUp(t: seq<Entry>, n: nat)
    requires n <= |t| && forall i :: 0 <= i < n ==> AddsKey(t, i)
    ensures |KeysUpTo(t, n)| == UsedSlots(t, n)
  {
    if n > 0 {
      KeysAddUp(t, n - 1);
      assert AddsKey(t, n - 1);
    }
  }

  lemma NewKey(t: seq<Entry>, n: nat)
    requires n < |t| && DistinctNames(t)
    ensures AddsKey(t, n)
  {
    var keys, k := KeysUpTo(t, n), Key(t[n].name);
    if t[n].inUse {
      KeysMember(t, n, k);
      assert k !in keys && KeysUpTo(t, n + 1) == keys + {k};
    }
  }

  lemma {:induction false} AllSlotsUsed(t: seq<Entry>, n: nat)
    requires n <= |t|
    ensures UsedSlots(t, n) == n <==> forall i :: 0 <= i < n ==> t[i].inUse
  {
    if n > 0 {
      AllSlotsUsed(t, n - 1);
    }
  }
}
