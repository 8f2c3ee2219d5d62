/** What a formatted disk means: which sectors each file claims, when the volume is
    consistent, and the map from names to contents that it represents. */
module Volumes {
  import opened Common
  import opened DiskLayout
  import opened DiskBytes
  import opened OpenFiles
  import opened Directories

  const FREE_MAP_SECTOR := 0
  const DIRECTORY_SECTOR := 1

  /** Groups of claims: one per directory slot, and the system's own. */
  const SYSTEM := NUM_DIR_ENTRIES

  function HeaderAt(img: Image, s: nat): Header
    requires IsImage(img) && s < NUM_SECTORS
  {
    DecodeHeader(img[s])
  }

  function MapHeader(img: Image): Header
    requires IsImage(img)
  {
    HeaderAt(img, FREE_MAP_SECTOR)
  }

  function DirHeader(img: Image): Header
    requires IsImage(img)
  {
    HeaderAt(img, DIRECTORY_SECTOR)
  }

  function FreeBits(img: Image): (b: seq<bool>)
    requires IsImage(img) && MapHeader(img).numBytes == FREE_MAP_FILE_SIZE
    ensures |b| == NUM_SECTORS
  {
    DecodeBits(Contents(img, MapHeader(img)))
  }

  function Table(img: Image): (t: seq<Entry>)
    requires IsImage(img) && DirHeader(img).numBytes == DIRECTORY_FILE_SIZE
    ensures |t| == NUM_DIR_ENTRIES
  {
    DecodeTable(Contents(img, DirHeader(img)))
  }

  /** The data sectors a header lists. */
  function Used(h: Header): seq<Word> {
    if h.numSectors <= NUM_DIRECT then h.dataSectors[..h.numSectors] else h.dataSectors
  }

  function EntryClaims(img: Image, e: Entry): seq<Word>
    requires IsImage(img)
  {
    if !e.inUse then []
    else [e.sector] + (if e.sector < NUM_SECTORS then Used(HeaderAt(img, e.sector)) else [])
  }

  function SystemClaims(img: Image): seq<Word>
    requires IsImage(img)
  {
    [FREE_MAP_SECTOR, DIRECTORY_SECTOR] + Used(MapHeader(img)) + Used(DirHeader(img))
  }

  /** The system files have the sizes the code was compiled for. */
  ghost predicate Sized(img: Image) {
    && IsImage(img)
    && MapHeader(img).numBytes == FREE_MAP_FILE_SIZE
    && DirHeader(img).numBytes == DIRECTORY_FILE_SIZE
  }

  function Claims(img: Image, g: nat): seq<Word>
    requires Sized(img) && g <= SYSTEM
  {
    if g == SYSTEM then SystemClaims(img) else EntryClaims(img, Table(img)[g])
  }

  ghost predicate Proper(claims: seq<Word>) {
    && (forall i :: 0 <= i < |claims| ==> claims[i] < NUM_SECTORS)
    && (forall i, j :: 0 <= i < j < |claims| ==> claims[i] != claims[j])
  }

  ghost predicate Disjoint(a: seq<Word>, b: seq<Word>) {
    forall s :: s in a ==> s !in b
  }

  /** A header lists enough sectors for its size, and no more than fit. */
  predicate Fits(h: Header) {
    Span(h) <= h.numSectors <= NUM_DIRECT
  }

  ghost predicate ClaimedBy(img: Image, s: nat, g: nat)
    requires Sized(img) && g <= SYSTEM
  {
    s in Claims(img, g)
  }

  ghost predicate Claimed(img: Image, s: nat)
    requires Sized(img)
  {
    exists g :: 0 <= g <= SYSTEM && ClaimedBy(img, s, g)
  }

  ghost predicate SlotOk(img: Image, i: nat)
    requires Sized(img) && i < NUM_DIR_ENTRIES
  {
    var e := Table(img)[i];
    e.inUse ==> e.sector < NUM_SECTORS && Fits(HeaderAt(img, e.sector))
  }

  ghost predicate DistinctNames(t: seq<Entry>) {
    forall i, j :: 0 <= i < j < |t| && t[i].inUse && t[j].inUse ==> Key(t[i].name) != Key(t[j].name)
  }

  /** Consistency: header and data sectors of all files and of the system are in range and
      pairwise disjoint, the free map marks exactly their union, sector lists cover sizes
      and names are distinct. */
  ghost predicate Consistent(img: Image) {
    && Sized(img) && Fits(MapHeader(img)) && Fits(DirHeader(img))
    && (forall g :: 0 <= g <= SYSTEM ==> Proper(Claims(img, g)))
    && (forall g, g' :: 0 <= g < g' <= SYSTEM ==> Disjoint(Claims(img, g), Claims(img, g')))
    && (forall s :: 0 <= s < NUM_SECTORS ==> (FreeBits(img)[s] <==> Claimed(img, s)))
    && (forall i :: 0 <= i < NUM_DIR_ENTRIES ==> SlotOk(img, i))
    && DistinctNames(Table(img))
  }

  // ----- Consequences -----

  lemma {:induction false} Elements<T>(a: seq<T>, b: seq<T>, x: T)
    ensures x in a + b <==> x in a || x in b
  {
  }

  lemma SpanIsUsed(h: Header, i: nat)
    requires Fits(h) && i < Span(h)
    ensures h.dataSectors[i] in Used(h)
  {
    assert Used(h)[i] == h.dataSectors[i];
  }

  /** Headers whose sectors are proper claims can be read and written. */
  lemma ProperIsWritable(h: Header)
    requires Fits(h) && Proper(Used(h))
    ensures Writable(h)
  {
    assert forall i :: 0 <= i < Span(h) ==> h.dataSectors[i] == Used(h)[i];
  }

  lemma ProperParts(a: seq<Word>, b: seq<Word>)
    requires Proper(a + b)
    ensures Proper(a) && Proper(b) && Disjoint(a, b)
  {
    assert forall i :: 0 <= i < |a| ==> (a + b)[i] == a[i];
    assert forall i :: 0 <= i < |b| ==> (a + b)[|a| + i] == b[i];
    forall s | s in a ensures s !in b {
      var i :| 0 <= i < |a| && a[i] == s;
      forall j | 0 <= j < |b| ensures b[j] != s {
        assert (a + b)[i] != (a + b)[|a| + j];
      }
    }
  }

  /** The system's files and header sectors do not overlap. */
  lemma SystemParts(img: Image)
    requires Consistent(img)
    ensures var m, d := MapHeader(img), DirHeader(img);
            && Writable(m) && Writable(d)
            && Disjoint(Used(m), Used(d))
            && Disjoint([FREE_MAP_SECTOR, DIRECTORY_SECTOR], Used(m))
            && Disjoint([FREE_MAP_SECTOR, DIRECTORY_SECTOR], Used(d))
  {
    var m, d := MapHeader(img), DirHeader(img);
    assert Proper(Claims(img, SYSTEM));
    ProperParts([FREE_MAP_SECTOR, DIRECTORY_SECTOR] + Used(m), Used(d));
    ProperParts([FREE_MAP_SECTOR, DIRECTORY_SECTOR], Used(m));
    ProperIsWritable(m);
    ProperIsWritable(d);
    forall s | s in [FREE_MAP_SECTOR, DIRECTORY_SECTOR] || s in Used(m) ensures s !in Used(d) {
      Elements([FREE_MAP_SECTOR, DIRECTORY_SECTOR], Used(m), s);
    }
  }

  /** A file's header is writable and its sectors belong to its slot. */
  lemma FileParts(img: Image, i: nat)
    requires Consistent(img) && i < NUM_DIR_ENTRIES && Table(img)[i].inUse
    ensures var x := Table(img)[i].sector;
            && x < NUM_SECTORS && Writable(HeaderAt(img, x)) && Fits(HeaderAt(img, x))
            && Claims(img, i) == [x] + Used(HeaderAt(img, x))
            && Proper(Used(HeaderAt(img, x))) && x !in Used(HeaderAt(img, x))
  {
    assert SlotOk(img, i) && Proper(Claims(img, i));
    var x := Table(img)[i].sector;
    ProperParts([x], Used(HeaderAt(img, x)));
    ProperIsWritable(HeaderAt(img, x));
    assert x in [x];
  }

  /** Sectors of one group are not claimed by another. */
  lemma Apart(img: Image, g: nat, g': nat, s: Word)
    requires Consistent(img) && g <= SYSTEM && g' <= SYSTEM && g != g'
    requires s in Claims(img, g)
    ensures s !in Claims(img, g')
  {
    if g < g' {
      assert Disjoint(Claims(img, g), Claims(img, g'));
    } else {
      assert Disjoint(Claims(img, g'), Claims(img, g));
    }
  }

  // ----- The map of files -----

  function FileOf(img: Image, i: nat): Bytes
    requires Sized(img) && i < NUM_DIR_ENTRIES && Table(img)[i].sector < NUM_SECTORS
  {
    Contents(img, HeaderAt(img, Table(img)[i].sector))
  }

  /** The bytes of the file with a given name, if there is one. */
  ghost function Lookup(img: Image, key: Bytes): Option<Bytes>
    requires Sized(img)
  {
    var i := IndexFrom(Table(img), key, 0);
    if i.None? then None
    else if Table(img)[i.value].sector < NUM_SECTORS then Some(FileOf(img, i.value)) else None
  }

  lemma UniqueIndex(t: seq<Entry>, key: Bytes, i: nat)
    requires DistinctNames(t) && i < |t| && Names(t[i], key)
    ensures IndexFrom(t, key, 0) == Some(i)
  {
  }

  // ----- The bytes that this is read from -----

  /** In the bytes of the directory's file, slot `i` is in use under a key. */
  ghost predicate SlotNames(f: Bytes, i: nat, key: Bytes)
    requires ENTRY_SIZE * i + ENTRY_SIZE <= |f|
  {
    f[ENTRY_SIZE * i] != 0 && Key(f[ENTRY_SIZE * i + 8..ENTRY_SIZE * i + 18]) == key
  }

  ghost predicate NoSlotNames(f: Bytes, key: Bytes, n: nat)
    requires ENTRY_SIZE * n <= |f|
  {
    forall i :: 0 <= i < n ==> !SlotNames(f, i, key)
  }

  /** Slot `i` is the first under the key, and the sector it mentions holds header `h`. */
  ghost predicate SlotLeadsTo(img: Image, f: Bytes, key: Bytes, h: Header, i: nat, s: nat)
    requires IsImage(img)
  {
    && i < NUM_DIR_ENTRIES && ENTRY_SIZE * i + ENTRY_SIZE <= |f|
    && SlotNames(f, i, key) && NoSlotNames(f, key, i)
    && WordIn(f, ENTRY_SIZE * i + 4, s) && s < NUM_SECTORS && HeaderIn(img[s], h)
  }

  ghost predicate LeadsTo(img: Image, f: Bytes, key: Bytes, h: Header)
    requires IsImage(img)
  {
    exists i: nat, s: nat :: SlotLeadsTo(img, f, key, h, i, s)
  }

  lemma TableBytes(img: Image, i: nat, key: Bytes)
    requires Sized(img) && i < NUM_DIR_ENTRIES
    ensures var f := Contents(img, DirHeader(img));
            && EntryIn(f, ENTRY_SIZE * i, Table(img)[i])
            && (Names(Table(img)[i], key) <==> SlotNames(f, i, key))
  {
    DecodedTable(Contents(img, DirHeader(img)), i);
  }

  lemma FirstSlot(img: Image, key: Bytes, n: nat)
    requires Sized(img) && n <= NUM_DIR_ENTRIES
    ensures NoSlotNames(Contents(img, DirHeader(img)), key, n) <==> forall i :: 0 <= i < n ==> !Names(Table(img)[i], key)
  {
    forall i | 0 <= i < n ensures Names(Table(img)[i], key) <==> SlotNames(Contents(img, DirHeader(img)), i, key) {
      TableBytes(img, i, key);
    }
  }

  /** A name denotes no file exactly when no slot has it, in the bytes of the directory ... */
  lemma AbsentBytes(img: Image, key: Bytes)
    requires Consistent(img)
    ensures Lookup(img, key).None? <==> NoSlotNames(Contents(img, DirHeader(img)), key, NUM_DIR_ENTRIES)
  {
    FirstSlot(img, key, NUM_DIR_ENTRIES);
    var found := IndexFrom(Table(img), key, 0);
    assert found.Some? ==> SlotOk(img, found.value);
  }

  /** ... and otherwise the file whose header those bytes lead to. */
  lemma LookupBytes(img: Image, key: Bytes, h: Header)
    requires Consistent(img) && LeadsTo(img, Contents(img, DirHeader(img)), key, h)
    ensures Lookup(img, key) == Some(Contents(img, h))
  {
    var i: nat, s: nat :| SlotLeadsTo(img, Contents(img, DirHeader(img)), key, h, i, s);
    LeadsWhere(img, key, h, i, s);
  }

  lemma LookupLeads(img: Image, key: Bytes) returns (h: Header)
    requires Consistent(img) && Lookup(img, key).Some?
    ensures LeadsTo(img, Contents(img, DirHeader(img)), key, h)
  {
    var i := IndexFrom(Table(img), key, 0).value;
    assert SlotOk(img, i);
    h := HeaderAt(img, Table(img)[i].sector);
    LeadsToHeader(img, key, i);
  }

  lemma LeadsToHeader(img: Image, key: Bytes, i: nat)
    requires Sized(img) && IndexFrom(Table(img), key, 0) == Some(i) && Table(img)[i].sector < NUM_SECTORS
    ensures SlotLeadsTo(img, Contents(img, DirHeader(img)), key, HeaderAt(img, Table(img)[i].sector), i, Table(img)[i].sector)
  {
    TableBytes(img, i, key);
    FirstSlot(img, key, i);
    DecodedHeader(img[Table(img)[i].sector]);
  }

  lemma LeadsWhere(img: Image, key: Bytes, h: Header, i: nat, s: nat)
    requires Sized(img) && SlotLeadsTo(img, Contents(img, DirHeader(img)), key, h, i, s)
    ensures IndexFrom(Table(img), key, 0) == Some(i) && Table(img)[i].sector == s && HeaderAt(img, s) == h
  {
    TableBytes(img, i, key);
    FirstSlot(img, key, i);
    DecodedHeader(img[s]);
    HeaderInUnique(img[s], h, HeaderAt(img, s));
  }

  /** A sector is marked as the code marks it: bit s % 32 of word s / 32 of the free map's file. */
  lemma FreeBitBytes(img: Image, s: nat, w: int)
    requires Sized(img) && s < NUM_SECTORS && WordIn(Contents(img, MapHeader(img)), 4 * (s / 32), w)
    ensures w >= 0 && (FreeBits(img)[s] <==> w / Pow2(s % 32) % 2 == 1)
  {
    var f := Contents(img, MapHeader(img));
    BitOfWord(f, s, w);
    DecodedBits(f, s);
  }

  // ----- Replacing one slot -----

  /** `img'` keeps the system headers and every slot but `i`, with all their sectors. */
  ghost predicate KeepsOthers(img: Image, img': Image, i: nat)
    requires Sized(img) && i < NUM_DIR_ENTRIES
  {
    && Sized(img')
    && img'[FREE_MAP_SECTOR] == img[FREE_MAP_SECTOR] && img'[DIRECTORY_SECTOR] == img[DIRECTORY_SECTOR]
    && (forall g :: 0 <= g < NUM_DIR_ENTRIES && g != i ==> KeepsSlot(img, img', g))
  }

  ghost predicate KeepsSlot(img: Image, img': Image, g: nat)
    requires Sized(img) && Sized(img') && g < NUM_DIR_ENTRIES
  {
    && Table(img')[g] == Table(img)[g]
    && forall s :: s in Claims(img, g) && s < NUM_SECTORS ==> img'[s] == img[s]
  }

  lemma KeptClaims(img: Image, img': Image, i: nat, g: nat)
    requires Consistent(img) && i < NUM_DIR_ENTRIES && KeepsOthers(img, img', i) && g <= SYSTEM && g != i
    ensures Claims(img', g) == Claims(img, g)
  {
    if g < SYSTEM && Table(img)[g].inUse {
      FileParts(img, g);
      assert KeepsSlot(img, img', g);
      assert Table(img)[g].sector in Claims(img, g);
    } else if g < SYSTEM {
      assert KeepsSlot(img, img', g);
    }
  }

  lemma KeptFile(img: Image, img': Image, i: nat, g: nat)
    requires Consistent(img) && i < NUM_DIR_ENTRIES && KeepsOthers(img, img', i) && g < NUM_DIR_ENTRIES && g != i
    requires Table(img)[g].inUse
    ensures Table(img')[g] == Table(img)[g] && Table(img)[g].sector < NUM_SECTORS && FileOf(img', g) == FileOf(img, g)
    ensures SlotOk(img', g)
  {
    FileParts(img, g);
    assert KeepsSlot(img, img', g) && SlotOk(img, g);
    var x := Table(img)[g].sector;
    var h := HeaderAt(img, x);
    assert x in Claims(img, g);
    forall k | 0 <= k < Span(h) ensures img'[h.dataSectors[k]] == img[h.dataSectors[k]] {
      SpanIsUsed(h, k);
      Elements([x], Used(h), h.dataSectors[k]);
    }
    ContentsFrame(img, img', h);
  }

  /** The new slot: in order, apart from everybody else, under a name nobody else has. */
  ghost predicate NewSlot(img: Image, img': Image, i: nat)
    requires Sized(img) && Sized(img') && i < NUM_DIR_ENTRIES
  {
    && SlotOk(img', i) && Proper(Claims(img', i))
    && (forall g :: 0 <= g <= SYSTEM && g != i ==> Disjoint(Claims(img', i), Claims(img, g)))
    && (Table(img')[i].inUse ==>
          forall g :: 0 <= g < NUM_DIR_ENTRIES && g != i && Table(img)[g].inUse ==>
            Key(Table(img)[g].name) != Key(Table(img')[i].name))
  }

  ghost predicate ClaimedByOther(img: Image, s: nat, i: nat)
    requires Sized(img)
  {
    exists g :: 0 <= g <= SYSTEM && g != i && ClaimedBy(img, s, g)
  }

  lemma KeptUnion(img: Image, img': Image, i: nat, s: nat)
    requires Consistent(img) && i < NUM_DIR_ENTRIES && KeepsOthers(img, img', i)
    ensures Claimed(img', s) <==> ClaimedBy(img', s, i) || ClaimedByOther(img, s, i)
  {
    forall g | 0 <= g <= SYSTEM && g != i ensures ClaimedBy(img', s, g) == ClaimedBy(img, s, g) {
      KeptClaims(img, img', i, g);
    }
  }

  /** Replacing one slot in order, with a matching free map, keeps the volume consistent. */
  lemma ReplaceSlot(img: Image, img': Image, i: nat)
    requires Consistent(img) && i < NUM_DIR_ENTRIES && KeepsOthers(img, img', i) && NewSlot(img, img', i)
    requires forall s :: 0 <= s < NUM_SECTORS ==>
               (FreeBits(img')[s] <==> ClaimedBy(img', s, i) || ClaimedByOther(img, s, i))
    ensures Consistent(img')
  {
    forall g | 0 <= g <= SYSTEM ensures Proper(Claims(img', g)) {
      if g != i { KeptClaims(img, img', i, g); assert Proper(Claims(img, g)); }
    }
    forall g, g' | 0 <= g < g' <= SYSTEM ensures Disjoint(Claims(img', g), Claims(img', g')) {
      ReplacedDisjoint(img, img', i, g, g');
    }
    forall s | 0 <= s < NUM_SECTORS ensures FreeBits(img')[s] <==> Claimed(img', s) {
      KeptUnion(img, img', i, s);
    }
    forall g | 0 <= g < NUM_DIR_ENTRIES ensures SlotOk(img', g) {
      if g != i { ReplacedSlotOk(img, img', i, g); }
    }
    ReplacedNames(img, img', i);
  }

  lemma ReplacedSlotOk(img: Image, img': Image, i: nat, g: nat)
    requires Consistent(img) && i < NUM_DIR_ENTRIES && KeepsOthers(img, img', i) && g < NUM_DIR_ENTRIES && g != i
    ensures SlotOk(img', g)
  {
    assert KeepsSlot(img, img', g);
    if Table(img)[g].inUse {
      KeptFile(img, img', i, g);
    }
  }

  lemma ReplacedDisjoint(img: Image, img': Image, i: nat, g: nat, g': nat)
    requires Consistent(img) && i < NUM_DIR_ENTRIES && KeepsOthers(img, img', i) && NewSlot(img, img', i)
    requires 0 <= g < g' <= SYSTEM
    ensures Disjoint(Claims(img', g), Claims(img', g'))
  {
    if g != i { KeptClaims(img, img', i, g); }
    if g' != i { KeptClaims(img, img', i, g'); }
    if g != i && g' != i {
      assert Disjoint(Claims(img, g), Claims(img, g'));
    } else if g == i {
      assert Disjoint(Claims(img', i), Claims(img, g'));
    } else {
      assert Disjoint(Claims(img', i), Claims(img, g));
    }
  }

  lemma ReplacedNames(img: Image, img': Image, i: nat)
    requires Consistent(img) && i < NUM_DIR_ENTRIES && KeepsOthers(img, img', i) && NewSlot(img, img', i)
    ensures DistinctNames(Table(img'))
  {
    forall g | 0 <= g < NUM_DIR_ENTRIES && g != i ensures Table(img')[g] == Table(img)[g] {
      assert KeepsSlot(img, img', g);
    }
  }

  /** Every other name denotes what it did. */
  lemma OthersUnchanged(img: Image, img': Image, i: nat, key: Bytes)
    requires Consistent(img) && Consistent(img') && i < NUM_DIR_ENTRIES && KeepsOthers(img, img', i)
    requires !Names(Table(img)[i], key) && !Names(Table(img')[i], key)
    ensures Lookup(img', key) == Lookup(img, key)
  {
    var found := IndexFrom(Table(img), key, 0);
    if found.Some? {
      var g := found.value;
      KeptFile(img, img', i, g);
      UniqueIndex(Table(img'), key, g);
    } else {
      forall g | 0 <= g < NUM_DIR_ENTRIES ensures !Names(Table(img')[g], key) {
        if g != i { assert KeepsSlot(img, img', g); }
      }
    }
  }
}
