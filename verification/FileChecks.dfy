/** The integrity checker: it rebuilds the free map from headers and directory in a shadow
    bitmap and compares.  Its verdict is characterised exactly. */
module FileChecks {
  import opened Common
  import opened DiskLayout
  import opened OpenFiles
  import opened Bitmaps
  import opened Directories
  import opened Volumes

  /** `Crashed`: a header lists more sectors than it has room for, so that the checker reads
      past it, or an entry names a sector the disk refuses to read. */
  datatype Verdict = Passed | Failed | Crashed

  // ----- Shadow marking -----

  /** Marking a list of sectors meets no sector that is out of range or already marked. */
  ghost predicate Fresh(shadow: seq<bool>, list: seq<Word>)
    requires |shadow| == NUM_SECTORS
  {
    Proper(list) && forall s :: s in list && s < NUM_SECTORS ==> !shadow[s]
  }

  ghost function MarkAll(shadow: seq<bool>, list: seq<Word>): (r: seq<bool>)
    requires |shadow| == NUM_SECTORS
    ensures |r| == NUM_SECTORS
  {
    seq(NUM_SECTORS, s requires 0 <= s < NUM_SECTORS => shadow[s] || s in list)
  }

  lemma MarkConcat(shadow: seq<bool>, a: seq<Word>, b: seq<Word>)
    requires |shadow| == NUM_SECTORS
    ensures MarkAll(shadow, a + b) == MarkAll(MarkAll(shadow, a), b)
    ensures Fresh(shadow, a + b) <==> Fresh(shadow, a) && Fresh(MarkAll(shadow, a), b)
  {
    var ab := a + b;
    assert forall i :: 0 <= i < |a| ==> ab[i] == a[i];
    assert forall i :: 0 <= i < |b| ==> ab[|a| + i] == b[i];
    forall s: Word ensures s in ab <==> s in a || s in b {
      Elements(a, b, s);
    }
    if Fresh(shadow, ab) {
      ProperParts(a, b);
    }
    if Fresh(shadow, a) && Fresh(MarkAll(shadow, a), b) {
      forall i, j | 0 <= i < j < |ab| ensures ab[i] != ab[j] {
        if i < |a| <= j {
          assert ab[i] in a && ab[j] in b;
        }
      }
    }
  }

  method CheckSector(sector: Word, shadow: Bitmap) returns (error: bool)
    requires shadow.store.Length == NUM_SECTORS
    modifies shadow.store
    ensures error <==> !Fresh(old(shadow.Bits()), [sector])
    ensures shadow.Bits() == MarkAll(old(shadow.Bits()), [sector])
  {
    assert sector in [sector];
    if sector >= NUM_SECTORS {
      return true;
    }
    var marked := shadow.Test(sector);
    if marked {
      return true;
    }
    shadow.Mark(sector);
    return false;
  }

  /** What the checker demands of a header; the bound is strict. */
  predicate Strict(h: Header) {
    Span(h) <= h.numSectors < NUM_DIRECT
  }

  method CheckFileHeader(h: Header, shadow: Bitmap) returns (error: bool)
    requires shadow.store.Length == NUM_SECTORS && h.numSectors <= NUM_DIRECT
    modifies shadow.store
    ensures error <==> !(Strict(h) && Fresh(old(shadow.Bits()), Used(h)))
    ensures shadow.Bits() == MarkAll(old(shadow.Bits()), Used(h))
  {
    ghost var bits := shadow.Bits();
    error := false;
    if h.numSectors < DivRoundUp(h.numBytes, SECTOR_SIZE) {
      error := true;
    }
    if h.numSectors >= NUM_DIRECT {
      error := true;
    }
    assert shadow.Bits() == MarkAll(bits, Used(h)[..0]);
    for i := 0 to h.numSectors
      invariant error <==> !(Strict(h) && Fresh(bits, Used(h)[..i]))
      invariant shadow.Bits() == MarkAll(bits, Used(h)[..i])
    {
      assert Used(h)[..i + 1] == Used(h)[..i] + [h.dataSectors[i]];
      MarkConcat(bits, Used(h)[..i], [h.dataSectors[i]]);
      var e := CheckSector(h.dataSectors[i], shadow);
      error := error || e;
    }
    assert Used(h)[..h.numSectors] == Used(h);
  }

  method CheckBitmaps(freeMap: Bitmap, shadow: Bitmap) returns (error: bool)
    requires freeMap.store.Length == shadow.store.Length == NUM_SECTORS
    ensures error <==> freeMap.Bits() != shadow.Bits()
  {
    error := false;
    for i := 0 to NUM_SECTORS
      invariant error <==> freeMap.store[..i] != shadow.store[..i]
    {
      var a, b := freeMap.store[..i + 1], shadow.store[..i + 1];
      assert a == freeMap.store[..i] + [freeMap.store[i]] && b == shadow.store[..i] + [shadow.store[i]];
      assert a[..i] == freeMap.store[..i] && b[..i] == shadow.store[..i];
      var x := freeMap.Test(i);
      var y := shadow.Test(i);
      assert a == b ==> a[i] == b[i];
      error := error || x != y;
    }
    assert freeMap.store[..NUM_SECTORS] == freeMap.store[..] && shadow.store[..NUM_SECTORS] == shadow.store[..];
  }

  // ----- The directory -----

  /** The stored name up to its terminator; ten bytes long when there is none. */
  function Full(e: Entry): Bytes { CString(e.name, FILE_NAME_MAX_LEN + 1) }

  predicate Terminated(e: Entry) { |Full(e)| <= FILE_NAME_MAX_LEN }

  /** All claims of a table, slot by slot. */
  ghost function SlotClaims(img: Image, t: seq<Entry>): (lists: seq<seq<Word>>)
    requires IsImage(img)
    ensures |lists| == |t| && forall g :: 0 <= g < |t| ==> lists[g] == EntryClaims(img, t[g])
  {
    seq(|t|, g requires 0 <= g < |t| => EntryClaims(img, t[g]))
  }

  /** The first `n` lists, one after the other. */
  function Flat(lists: seq<seq<Word>>, n: nat): seq<Word>
    requires n <= |lists|
  {
    if n == 0 then [] else Flat(lists, n - 1) + lists[n - 1]
  }

  /** The claims of the first `n` entries. */
  ghost function TableClaims(img: Image, t: seq<Entry>, n: nat): seq<Word>
    requires IsImage(img) && n <= |t|
  {
    Flat(SlotClaims(img, t), n)
  }

  ghost predicate GoodEntry(img: Image, e: Entry)
    requires IsImage(img)
  {
    e.inUse ==> Terminated(e) && (e.sector < NUM_SECTORS ==> Strict(HeaderAt(img, e.sector)))
  }

  ghost predicate NewName(t: seq<Entry>, n: nat)
    requires n < |t|
  {
    t[n].inUse ==> forall j :: 0 <= j < n && t[j].inUse ==> Full(t[j]) != Full(t[n])
  }

  /** What the first `n` entries must satisfy for the checker to stay silent. */
  ghost predicate GoodTable(img: Image, shadow: seq<bool>, t: seq<Entry>, n: nat)
    requires IsImage(img) && |shadow| == NUM_SECTORS && n <= |t|
  {
    Fresh(shadow, TableClaims(img, t, n)) && GoodEntries(img, t, n)
  }

  ghost predicate GoodEntries(img: Image, t: seq<Entry>, n: nat)
    requires IsImage(img) && n <= |t|
  {
    forall j :: 0 <= j < n ==> GoodEntry(img, t[j]) && NewName(t, j)
  }

  ghost predicate CrashesAt(img: Image, e: Entry)
    requires IsImage(img)
  {
    e.inUse && (e.sector >= NUM_SECTORS || HeaderAt(img, e.sector).numSectors > NUM_DIRECT)
  }

  ghost predicate Crashes(img: Image, t: seq<Entry>)
    requires IsImage(img)
  {
    exists i :: 0 <= i < |t| && CrashesAt(img, t[i])
  }

  lemma CrashesStep(img: Image, t: seq<Entry>, n: nat)
    requires IsImage(img) && n < |t|
    ensures Crashes(img, t[..n + 1]) <==> Crashes(img, t[..n]) || CrashesAt(img, t[n])
    ensures CrashesAt(img, t[n]) ==> Crashes(img, t)
    ensures t[..|t|] == t
  {
    assert t[..n + 1] == t[..n] + [t[n]];
    assert t[..n + 1][n] == t[n];
    if Crashes(img, t[..n]) {
      var i :| 0 <= i < n && CrashesAt(img, t[..n][i]);
      assert t[..n + 1][i] == t[..n][i];
    }
  }

  lemma GoodTableStep(img: Image, shadow: seq<bool>, t: seq<Entry>, n: nat)
    requires IsImage(img) && |shadow| == NUM_SECTORS && n < |t|
    ensures var mid := MarkAll(shadow, TableClaims(img, t, n));
            && MarkAll(shadow, TableClaims(img, t, n + 1)) == MarkAll(mid, EntryClaims(img, t[n]))
            && (GoodTable(img, shadow, t, n + 1) <==>
                GoodTable(img, shadow, t, n) && Fresh(mid, EntryClaims(img, t[n])) && GoodEntry(img, t[n]) && NewName(t, n))
  {
    TableClaimsStep(img, t, n);
    GoodEntriesStep(img, t, n);
    MarkConcat(shadow, TableClaims(img, t, n), EntryClaims(img, t[n]));
  }

  lemma TableClaimsStep(img: Image, t: seq<Entry>, n: nat)
    requires IsImage(img) && n < |t|
    ensures TableClaims(img, t, n + 1) == TableClaims(img, t, n) + EntryClaims(img, t[n])
  {
  }

  lemma GoodEntriesStep(img: Image, t: seq<Entry>, n: nat)
    requires IsImage(img) && n < |t|
    ensures GoodEntries(img, t, n + 1) <==> GoodEntries(img, t, n) && GoodEntry(img, t[n]) && NewName(t, n)
  {
  }

  /** The names met so far, without repetitions. */
  ghost predicate Known(t: seq<Entry>, n: nat, known: seq<Bytes>)
    requires n <= |t|
  {
    && (forall j :: 0 <= j < n && t[j].inUse ==> Full(t[j]) in known)
    && (forall k :: k in known ==> exists j :: 0 <= j < n && t[j].inUse && Full(t[j]) == k)
  }

  method IsRepeated(known: seq<Bytes>, name: Bytes) returns (repeated: bool)
    ensures repeated <==> name in known
  {
    repeated := false;
    for j := 0 to |known|
      invariant repeated <==> name in known[..j]
    {
      if known[j] == name {
        repeated := true;
      }
    }
    assert known[..|known|] == known;
  }

  /** The header sector of an entry and the sectors its header lists; None on a crash. */
  method CheckHeaderOf(disk: Disk, e: Entry, shadow: Bitmap, garbage: Header) returns (r: Option<bool>)
    requires disk.Valid() && shadow.store.Length == NUM_SECTORS && e.inUse
    modifies shadow.store
    ensures r.None? <==> CrashesAt(disk.sectors, e)
    ensures r.Some? ==>
              && (r.value <==> !(Strict(HeaderAt(disk.sectors, e.sector)) &&
                                 Fresh(old(shadow.Bits()), EntryClaims(disk.sectors, e))))
              && shadow.Bits() == MarkAll(old(shadow.Bits()), EntryClaims(disk.sectors, e))
  {
    var error := CheckSector(e.sector, shadow);
    if e.sector >= NUM_SECTORS {
      return None;
    }
    var h := new FileHeader(garbage);
    var data := disk.ReadSector(e.sector);
    h.raw := DecodeHeader(data);
    if h.raw.numSectors > NUM_DIRECT {
      return None;
    }
    MarkConcat(old(shadow.Bits()), [e.sector], Used(h.raw));
    var e2 := CheckFileHeader(h.raw, shadow);
    return Some(error || e2);
  }

  /** One entry that is in use: length of its name, repetition, sectors. */
  method CheckEntry(disk: Disk, e: Entry, known: seq<Bytes>, shadow: Bitmap, garbage: Header)
    returns (r: Option<bool>, known': seq<Bytes>)
    requires disk.Valid() && shadow.store.Length == NUM_SECTORS && e.inUse
    modifies shadow.store
    ensures r.None? <==> CrashesAt(disk.sectors, e)
    ensures r.Some? ==>
              && (r.value <==> !(GoodEntry(disk.sectors, e) && Full(e) !in known &&
                                 Fresh(old(shadow.Bits()), EntryClaims(disk.sectors, e))))
              && shadow.Bits() == MarkAll(old(shadow.Bits()), EntryClaims(disk.sectors, e))
    ensures known' == if Full(e) in known then known else known + [Full(e)]
  {
    var error := !Terminated(e);
    var repeated := IsRepeated(known, Full(e));
    known' := if repeated then known else known + [Full(e)];
    var r1 := CheckHeaderOf(disk, e, shadow, garbage);
    if r1.None? {
      return None, known';
    }
    return Some(error || repeated || r1.value), known';
  }

  /** None when the checker crashes on an entry. */
  method CheckDirectory(disk: Disk, dir: Directory, shadow: Bitmap, garbage: Header) returns (r: Option<bool>)
    requires disk.Valid() && dir.Valid() && shadow.store.Length == NUM_SECTORS
    modifies shadow.store
    ensures r.None? <==> Crashes(disk.sectors, dir.Entries())
    ensures r.Some? ==>
              && (r.value <==> !GoodTable(disk.sectors, old(shadow.Bits()), dir.Entries(), NUM_DIR_ENTRIES))
              && shadow.Bits() == MarkAll(old(shadow.Bits()), TableClaims(disk.sectors, dir.Entries(), NUM_DIR_ENTRIES))
  {
    var error := false;
    var known: seq<Bytes> := [];
    ghost var bits, t := shadow.Bits(), dir.Entries();
    assert shadow.Bits() == MarkAll(bits, []);
    for i := 0 to NUM_DIR_ENTRIES
      invariant dir.Entries() == t
      invariant !Crashes(disk.sectors, t[..i])
      invariant Known(t, i, known)
      invariant error <==> !GoodTable(disk.sectors, bits, t, i)
      invariant shadow.Bits() == MarkAll(bits, TableClaims(disk.sectors, t, i))
    {
      GoodTableStep(disk.sectors, bits, t, i);
      CrashesStep(disk.sectors, t, i);
      KnownStep(t, i, known);
      var e := dir.table[i];
      assert e == t[i];
      if e.inUse {
        var e1;
        e1, known := CheckEntry(disk, e, known, shadow, garbage);
        if e1.None? {
          return None;
        }
        error := error || e1.value;
      } else {
        assert shadow.Bits() == MarkAll(shadow.Bits(), []);
      }
    }
    assert t[..NUM_DIR_ENTRIES] == t;
    return Some(error);
  }

  lemma KnownStep(t: seq<Entry>, n: nat, known: seq<Bytes>)
    requires n < |t| && Known(t, n, known)
    ensures !t[n].inUse ==> NewName(t, n) && Known(t, n + 1, known)
    ensures t[n].inUse ==> (Full(t[n]) in known <==> !NewName(t, n))
    ensures t[n].inUse ==> Known(t, n + 1, if Full(t[n]) in known then known else known + [Full(t[n])])
  {
    var known' := if !t[n].inUse || Full(t[n]) in known then known else known + [Full(t[n])];
    forall k | k in known' ensures exists j :: 0 <= j < n + 1 && t[j].inUse && Full(t[j]) == k {
      if k in known {
        var j :| 0 <= j < n && t[j].inUse && Full(t[j]) == k;
      }
    }
  }

  // ----- The whole check -----

  /** The shadow map before any file is looked at. */
  ghost function Base(): (b: seq<bool>)
    ensures |b| == NUM_SECTORS
  {
    MarkAll(seq(NUM_SECTORS, _ => false), [FREE_MAP_SECTOR, DIRECTORY_SECTOR])
  }

  /** The directory and the free map as the checker sees them: whatever the sizes of their
      files, read over memory that was not cleared but for the marks. */
  function TableFrom(img: Image, memory: seq<Entry>): (t: seq<Entry>)
    requires IsImage(img)
    ensures |t| == |memory|
  {
    LoadedTable(Blank(memory), Contents(img, DirHeader(img)))
  }

  function BitsFrom(img: Image): (bits: seq<bool>)
    requires IsImage(img)
    ensures |bits| == NUM_SECTORS
  {
    LoadedBits(Contents(img, MapHeader(img)))
  }

  ghost predicate CrashesOn(img: Image, t: seq<Entry>)
    requires IsImage(img)
  {
    var m, d := MapHeader(img), DirHeader(img);
    || m.numSectors > NUM_DIRECT || d.numSectors > NUM_DIRECT
    || !Fetchable(m, FREE_MAP_FILE_SIZE) || !Fetchable(d, DIRECTORY_FILE_SIZE)
    || Crashes(img, t)
  }

  /** No test of the checker reports an error. */
  ghost predicate Silent(img: Image, bits: seq<bool>, t: seq<Entry>)
    requires IsImage(img) && |t| == NUM_DIR_ENTRIES
  {
    var m, d := MapHeader(img), DirHeader(img);
    && m.numBytes == FREE_MAP_FILE_SIZE && m.numSectors == FREE_MAP_FILE_SIZE / SECTOR_SIZE
    && Strict(m) && Fresh(Base(), Used(m))
    && Strict(d) && Fresh(MarkAll(Base(), Used(m)), Used(d))
    && GoodTable(img, MarkAll(MarkAll(Base(), Used(m)), Used(d)), t, NUM_DIR_ENTRIES)
    && bits == MarkAll(MarkAll(MarkAll(Base(), Used(m)), Used(d)), TableClaims(img, t, NUM_DIR_ENTRIES))
  }

  /** The two system headers, against a shadow map that has only their own sectors marked. */
  method CheckSystem(m: Header, d: Header) returns (error: bool, shadow: Bitmap)
    requires m.numSectors <= NUM_DIRECT && d.numSectors <= NUM_DIRECT
    ensures fresh(shadow) && fresh(shadow.store) && shadow.store.Length == NUM_SECTORS
    ensures error <==> !(m.numBytes == FREE_MAP_FILE_SIZE && m.numSectors == FREE_MAP_FILE_SIZE / SECTOR_SIZE &&
                         Strict(m) && Fresh(Base(), Used(m)) &&
                         Strict(d) && Fresh(MarkAll(Base(), Used(m)), Used(d)))
    ensures shadow.Bits() == MarkAll(MarkAll(Base(), Used(m)), Used(d))
  {
    shadow := new Bitmap(NUM_SECTORS);
    shadow.Mark(FREE_MAP_SECTOR);
    shadow.Mark(DIRECTORY_SECTOR);
    assert shadow.Bits() == Base();
    error := m.numBytes != FREE_MAP_FILE_SIZE || m.numSectors != FREE_MAP_FILE_SIZE / SECTOR_SIZE;
    var e1 := CheckFileHeader(m, shadow);
    var e2 := CheckFileHeader(d, shadow);
    error := error || e1 || e2;
  }

  /** The disk refuses to read the first `n` bytes of a file. */
  predicate Refused(h: Header, n: nat)
    requires n <= MAX_FILE_SIZE
  {
    var len := if h.numBytes < n then h.numBytes else n;
    exists i :: 0 <= i < DivRoundUp(len, SECTOR_SIZE) && h.dataSectors[i] >= NUM_SECTORS
  }

  lemma RefusedIff(h: Header, n: nat)
    requires n <= MAX_FILE_SIZE
    ensures Refused(h, n) <==> !Fetchable(h, n)
  {
    var len := if h.numBytes < n then h.numBytes else n;
    forall i | 0 <= i < DivRoundUp(len, SECTOR_SIZE) ensures SectorOk(h, i) <==> h.dataSectors[i] < NUM_SECTORS {
    }
    if len > 0 {
      assert (len - 1) / SECTOR_SIZE + 1 == DivRoundUp(len, SECTOR_SIZE);
    }
  }

  /** The checker's verdict on any disk whose system files are open. */
  method Check(disk: Disk, freeMapFile: OpenFile, directoryFile: OpenFile, garbage: Garbage) returns (v: Verdict)
    requires disk.Valid() && freeMapFile.disk == disk == directoryFile.disk
    requires freeMapFile.hdr == MapHeader(disk.sectors) && directoryFile.hdr == DirHeader(disk.sectors)
    ensures v.Crashed? <==> CrashesOn(disk.sectors, TableFrom(disk.sectors, garbage.table))
    ensures v.Passed? <==> Passes(disk.sectors, BitsFrom(disk.sectors), TableFrom(disk.sectors, garbage.table))
  {
    PassesIff(disk.sectors, BitsFrom(disk.sectors), TableFrom(disk.sectors, garbage.table));
    var bitH := disk.ReadSector(FREE_MAP_SECTOR);
    var dirH := disk.ReadSector(DIRECTORY_SECTOR);
    var m, d := DecodeHeader(bitH), DecodeHeader(dirH);
    RefusedIff(m, FREE_MAP_FILE_SIZE);
    RefusedIff(d, DIRECTORY_FILE_SIZE);
    if m.numSectors > NUM_DIRECT || d.numSectors > NUM_DIRECT || Refused(m, FREE_MAP_FILE_SIZE) || Refused(d, DIRECTORY_FILE_SIZE) {
      return Crashed;
    }
    var error, shadow := CheckSystem(m, d);
    var freeMap := FetchMap(freeMapFile);
    var dir := new Directory(garbage.table);
    dir.FetchFrom(directoryFile);
    var r := CheckDirectory(disk, dir, shadow, garbage.header);
    if r.None? {
      return Crashed;
    }
    var e := CheckBitmaps(freeMap, shadow);
    return if error || r.value || e then Failed else Passed;
  }

  /** Mounting whatever is on a disk and checking it. */
  method MountAndCheck(disk: Disk, garbage: Garbage) returns (v: Verdict)
    requires disk.Valid()
    ensures v.Crashed? <==> CrashesOn(disk.sectors, TableFrom(disk.sectors, garbage.table))
    ensures v.Passed? <==> Passes(disk.sectors, BitsFrom(disk.sectors), TableFrom(disk.sectors, garbage.table))
    ensures v.Passed? ==> (Consistent(disk.sectors) <==> DirHeader(disk.sectors).numBytes == DIRECTORY_FILE_SIZE)
  {
    PassedIsConsistentIff(disk.sectors, garbage.table);
    var freeMapFile := new OpenFile(disk, FREE_MAP_SECTOR);
    var directoryFile := new OpenFile(disk, DIRECTORY_SECTOR);
    v := Check(disk, freeMapFile, directoryFile, garbage);
  }

  // ----- What a silent check means -----

  lemma ProperIff(a: seq<Word>, b: seq<Word>)
    ensures Proper(a + b) <==> Proper(a) && Proper(b) && Disjoint(a, b)
  {
    if Proper(a + b) {
      ProperParts(a, b);
    }
    if Proper(a) && Proper(b) && Disjoint(a, b) {
      var ab := a + b;
      forall i, j | 0 <= i < j < |ab| ensures ab[i] != ab[j] {
        if i < |a| <= j {
          assert ab[i] == a[i] && ab[j] == b[j - |a|];
          assert a[i] in a && b[j - |a|] in b;
        }
      }
    }
  }

  ghost predicate InList(lists: seq<seq<Word>>, g: nat, s: Word)
    requires g < |lists|
  {
    s in lists[g]
  }

  lemma {:induction false} FlatMember(lists: seq<seq<Word>>, n: nat, s: Word)
    requires n <= |lists|
    ensures s in Flat(lists, n) <==> exists g :: 0 <= g < n && InList(lists, g, s)
  {
    if n > 0 {
      FlatMember(lists, n - 1, s);
      Elements(Flat(lists, n - 1), lists[n - 1], s);
      assert InList(lists, n - 1, s) <==> s in lists[n - 1];
    }
  }

  lemma FlatDisjoint(lists: seq<seq<Word>>, n: nat, list: seq<Word>)
    requires n <= |lists|
    ensures Disjoint(Flat(lists, n), list) <==> forall g :: 0 <= g < n ==> Disjoint(lists[g], list)
  {
    if Disjoint(Flat(lists, n), list) {
      forall g, s | 0 <= g < n && s in lists[g] ensures s !in list {
        assert InList(lists, g, s);
        FlatMember(lists, n, s);
      }
    }
    if forall g :: 0 <= g < n ==> Disjoint(lists[g], list) {
      forall s | s in Flat(lists, n) ensures s !in list {
        FlatMember(lists, n, s);
        var g :| 0 <= g < n && InList(lists, g, s);
        assert Disjoint(lists[g], list);
      }
    }
  }

  ghost predicate AllApart(lists: seq<seq<Word>>, n: nat)
    requires n <= |lists|
  {
    && (forall g :: 0 <= g < n ==> Proper(lists[g]))
    && (forall g, g' :: 0 <= g < g' < n ==> Disjoint(lists[g], lists[g']))
  }

  /** A concatenation is proper when its parts are, and are pairwise disjoint. */
  lemma {:induction false} FlatProper(lists: seq<seq<Word>>, n: nat)
    requires n <= |lists|
    ensures Proper(Flat(lists, n)) <==> AllApart(lists, n)
  {
    if n > 0 {
      FlatProper(lists, n - 1);
      ProperIff(Flat(lists, n - 1), lists[n - 1]);
      FlatDisjoint(lists, n - 1, lists[n - 1]);
      AllApartStep(lists, n);
    }
  }

  lemma AllApartStep(lists: seq<seq<Word>>, n: nat)
    requires 0 < n <= |lists|
    ensures AllApart(lists, n) <==>
            AllApart(lists, n - 1) && Proper(lists[n - 1]) && forall g :: 0 <= g < n - 1 ==> Disjoint(lists[g], lists[n - 1])
  {
  }

  /** One more list in front of the flat rest. */
  lemma ApartIff(slots: seq<seq<Word>>, sys: seq<Word>)
    ensures AllApart(slots + [sys], |slots| + 1) <==> Proper(sys + Flat(slots, |slots|))
  {
    var n, lists := |slots|, slots + [sys];
    FlatProper(slots, n);
    FlatDisjoint(slots, n, sys);
    ProperIff(sys, Flat(slots, n));
    AllApartStep(lists, n + 1);
    assert forall g :: 0 <= g < n ==> lists[g] == slots[g];
    assert AllApart(lists, n) <==> AllApart(slots, n);
  }

  // ----- Soundness of what was read -----

  /** The claims of a group, by a directory table as it is in memory. */
  function ClaimsIn(img: Image, t: seq<Entry>, g: nat): seq<Word>
    requires IsImage(img) && |t| == NUM_DIR_ENTRIES && g <= SYSTEM
  {
    if g == SYSTEM then SystemClaims(img) else EntryClaims(img, t[g])
  }

  ghost predicate ClaimedIn(img: Image, t: seq<Entry>, s: nat)
    requires IsImage(img) && |t| == NUM_DIR_ENTRIES
  {
    exists g :: 0 <= g <= SYSTEM && s in ClaimsIn(img, t, g)
  }

  ghost predicate GroupsApart(img: Image, t: seq<Entry>)
    requires IsImage(img) && |t| == NUM_DIR_ENTRIES
  {
    && (forall g :: 0 <= g <= SYSTEM ==> Proper(ClaimsIn(img, t, g)))
    && (forall g, g' :: 0 <= g < g' <= SYSTEM ==> Disjoint(ClaimsIn(img, t, g), ClaimsIn(img, t, g')))
  }

  ghost predicate EntryOk(img: Image, e: Entry)
    requires IsImage(img)
  {
    e.inUse ==> e.sector < NUM_SECTORS && Fits(HeaderAt(img, e.sector))
  }

  ghost predicate MapMatches(img: Image, bits: seq<bool>, t: seq<Entry>)
    requires IsImage(img) && |bits| == NUM_SECTORS && |t| == NUM_DIR_ENTRIES
  {
    forall s :: 0 <= s < NUM_SECTORS ==> (bits[s] <==> ClaimedIn(img, t, s))
  }

  /** Consistency of a free map and a directory in memory with the headers on the disk:
      everything that `Consistent` asks for, but the sizes of the system's files. */
  ghost predicate Sound(img: Image, bits: seq<bool>, t: seq<Entry>)
    requires IsImage(img) && |bits| == NUM_SECTORS && |t| == NUM_DIR_ENTRIES
  {
    && Fits(MapHeader(img)) && Fits(DirHeader(img))
    && GroupsApart(img, t) && MapMatches(img, bits, t)
    && (forall i :: 0 <= i < NUM_DIR_ENTRIES ==> EntryOk(img, t[i]))
    && DistinctNames(t)
  }

  /** What the checker wants beyond that: a free map of its one sector, fewer sectors per file
      than a header has room for, and terminated names. */
  ghost predicate Accepted(img: Image, t: seq<Entry>)
    requires IsImage(img)
  {
    && MapHeader(img).numBytes == FREE_MAP_FILE_SIZE && MapHeader(img).numSectors == 1
    && DirHeader(img).numSectors < NUM_DIRECT
    && forall i :: 0 <= i < |t| ==> AcceptedEntry(img, t[i])
  }

  ghost predicate AcceptedEntry(img: Image, e: Entry)
    requires IsImage(img)
  {
    e.inUse ==> Terminated(e) && (e.sector < NUM_SECTORS ==> HeaderAt(img, e.sector).numSectors < NUM_DIRECT)
  }

  ghost predicate Passes(img: Image, bits: seq<bool>, t: seq<Entry>)
    requires IsImage(img) && |bits| == NUM_SECTORS && |t| == NUM_DIR_ENTRIES
  {
    Sound(img, bits, t) && Accepted(img, t)
  }

  /** Consistency of a volume is soundness of what its system files hold, at the right sizes. */
  lemma ConsistentIff(img: Image)
    requires Sized(img)
    ensures Consistent(img) <==> Sound(img, FreeBits(img), Table(img))
  {
    var t := Table(img);
    assert forall g :: 0 <= g <= SYSTEM ==> ClaimsIn(img, t, g) == Claims(img, g);
    forall s | 0 <= s < NUM_SECTORS ensures Claimed(img, s) <==> ClaimedIn(img, t, s) {
      assert forall g :: 0 <= g <= SYSTEM ==> (ClaimedBy(img, s, g) <==> s in ClaimsIn(img, t, g));
    }
    assert forall i :: 0 <= i < NUM_DIR_ENTRIES ==> SlotOk(img, i) == EntryOk(img, t[i]);
  }

  /** At the right sizes the checker reads the volume's own directory and free map. */
  lemma SizedReads(img: Image, memory: seq<Entry>)
    requires IsImage(img) && |memory| == NUM_DIR_ENTRIES
    ensures DirHeader(img).numBytes == DIRECTORY_FILE_SIZE ==> TableFrom(img, memory) == Table(img)
    ensures MapHeader(img).numBytes == FREE_MAP_FILE_SIZE ==> BitsFrom(img) == FreeBits(img)
  {
  }

  /** A volume that passes is consistent exactly when its directory file has the right size,
      which is the one thing about the system's files that the checker does not look at. */
  lemma PassedIsConsistentIff(img: Image, memory: seq<Entry>)
    requires IsImage(img) && |memory| == NUM_DIR_ENTRIES
    ensures Passes(img, BitsFrom(img), TableFrom(img, memory)) ==>
            (Consistent(img) <==> DirHeader(img).numBytes == DIRECTORY_FILE_SIZE)
    ensures DirHeader(img).numBytes == DIRECTORY_FILE_SIZE ==>
            (Passes(img, BitsFrom(img), TableFrom(img, memory)) <==> Consistent(img) && Accepted(img, Table(img)))
  {
    SizedReads(img, memory);
    if Sized(img) {
      ConsistentIff(img);
    }
  }

  ghost function Everything(img: Image, t: seq<Entry>): seq<Word>
    requires IsImage(img)
  {
    SystemClaims(img) + TableClaims(img, t, |t|)
  }

  lemma GroupsApartIff(img: Image, t: seq<Entry>)
    requires IsImage(img) && |t| == NUM_DIR_ENTRIES
    ensures GroupsApart(img, t) <==> Proper(Everything(img, t))
  {
    var slots, sys := SlotClaims(img, t), SystemClaims(img);
    var lists := slots + [sys];
    ApartIff(slots, sys);
    assert forall g :: 0 <= g <= SYSTEM ==> lists[g] == ClaimsIn(img, t, g);
    assert GroupsApart(img, t) <==> AllApart(lists, NUM_DIR_ENTRIES + 1);
  }

  lemma EverythingIsClaimed(img: Image, t: seq<Entry>, s: Word)
    requires IsImage(img) && |t| == NUM_DIR_ENTRIES
    ensures s in Everything(img, t) <==> ClaimedIn(img, t, s)
  {
    var slots := SlotClaims(img, t);
    FlatMember(slots, NUM_DIR_ENTRIES, s);
    Elements(SystemClaims(img), Flat(slots, NUM_DIR_ENTRIES), s);
    assert forall g :: 0 <= g < NUM_DIR_ENTRIES ==> InList(slots, g, s) == (s in ClaimsIn(img, t, g));
    assert s in ClaimsIn(img, t, SYSTEM) <==> s in SystemClaims(img);
  }

  /** Marking one list after another is marking their concatenation. */
  lemma MarkingInStages(a: seq<Word>, b: seq<Word>, c: seq<Word>)
    ensures var all := [FREE_MAP_SECTOR, DIRECTORY_SECTOR] + a + b + c;
            && (Proper(all) <==> Fresh(Base(), a) && Fresh(MarkAll(Base(), a), b) &&
                                 Fresh(MarkAll(MarkAll(Base(), a), b), c))
            && MarkAll(MarkAll(MarkAll(Base(), a), b), c) == MarkAll(seq(NUM_SECTORS, _ => false), all)
  {
    var zero := seq(NUM_SECTORS, _ => false);
    var sys := [FREE_MAP_SECTOR, DIRECTORY_SECTOR];
    MarkConcat(zero, sys, a);
    MarkConcat(zero, sys + a, b);
    MarkConcat(zero, sys + a + b, c);
    assert Fresh(zero, sys);
  }

  lemma {:induction false} ShorterString(b: Bytes, n: nat)
    requires |CString(b, n + 1)| <= n
    ensures CString(b, n + 1) == CString(b, n)
  {
    if n > 0 && b != [] && b[0] != 0 {
      ShorterString(b[1..], n - 1);
    }
  }

  lemma {:induction false} StringEnds(b: Bytes, n: nat)
    requires |b| == n + 1
    ensures |CString(b, n + 1)| <= n <==> |CString(b, n)| < n || b[n] == 0
  {
    if n > 0 && b[0] != 0 {
      StringEnds(b[1..], n - 1);
    }
  }

  /** A stored name is terminated exactly when it is short or the last byte of its field is
      zero. */
  lemma TerminatedIff(e: Entry)
    ensures Terminated(e) <==> |Key(e.name)| < FILE_NAME_MAX_LEN || e.name[FILE_NAME_MAX_LEN] == 0
  {
    StringEnds(e.name, FILE_NAME_MAX_LEN);
  }

  /** What the caller of Create can tell: the name is short, or the field ended in zero. */
  lemma CreatedTerminatedIff(e: Entry, x: Word, name: Bytes)
    ensures Terminated(Filled(e, x, name)) <==> |Key(name)| < FILE_NAME_MAX_LEN || e.name[FILE_NAME_MAX_LEN] == 0
  {
    CopyNameKey(e.name, name);
    TerminatedIff(Filled(e, x, name));
  }

  /** A name of nine times `c`, put into a field that held nothing else. */
  lemma UnterminatedExample(c: Byte, x: Word)
    requires c != 0
    ensures !Terminated(Filled(Entry(false, 0, seq(FILE_NAME_MAX_LEN + 1, _ => c)), x, seq(FILE_NAME_MAX_LEN, _ => c)))
  {
    var name := seq(FILE_NAME_MAX_LEN, _ => c);
    CStringOfPadded(name, [], FILE_NAME_MAX_LEN);
    assert name + [] == name;
    CreatedTerminatedIff(Entry(false, 0, seq(FILE_NAME_MAX_LEN + 1, _ => c)), x, name);
  }

  lemma NamesIff(t: seq<Entry>)
    requires forall i :: 0 <= i < |t| && t[i].inUse ==> Terminated(t[i])
    ensures DistinctNames(t) <==> forall i :: 0 <= i < |t| ==> NewName(t, i)
  {
    forall i | 0 <= i < |t| && t[i].inUse ensures Full(t[i]) == Key(t[i].name) {
      ShorterString(t[i].name, FILE_NAME_MAX_LEN);
    }
    if forall i :: 0 <= i < |t| ==> NewName(t, i) {
      forall i, j | 0 <= i < j < |t| && t[i].inUse && t[j].inUse ensures Key(t[i].name) != Key(t[j].name) {
        assert NewName(t, j);
      }
    }
  }

  /** Entries that pass are entries whose header fits and that are accepted. */
  lemma EntryIff(img: Image, e: Entry)
    requires IsImage(img) && Proper(EntryClaims(img, e))
    ensures GoodEntry(img, e) <==> EntryOk(img, e) && AcceptedEntry(img, e)
    ensures GoodEntry(img, e) ==> !CrashesAt(img, e)
  {
    if e.inUse {
      assert EntryClaims(img, e)[0] == e.sector;
    }
  }

  lemma FreeMapIff(img: Image, bits: seq<bool>, t: seq<Entry>)
    requires IsImage(img) && |bits| == NUM_SECTORS && |t| == NUM_DIR_ENTRIES
    ensures bits == MarkAll(seq(NUM_SECTORS, _ => false), Everything(img, t)) <==> MapMatches(img, bits, t)
  {
    var marked := MarkAll(seq(NUM_SECTORS, _ => false), Everything(img, t));
    forall s | 0 <= s < NUM_SECTORS ensures marked[s] <==> ClaimedIn(img, t, s) {
      EverythingIsClaimed(img, t, s);
    }
    assert bits == marked <==> forall s :: 0 <= s < NUM_SECTORS ==> bits[s] == marked[s];
  }

  /** The tests of the directory, given that claims do not collide. */
  lemma TableIff(img: Image, t: seq<Entry>)
    requires IsImage(img) && |t| == NUM_DIR_ENTRIES && GroupsApart(img, t)
    ensures (forall i :: 0 <= i < NUM_DIR_ENTRIES ==> GoodEntry(img, t[i]) && NewName(t, i)) <==>
            ((forall i :: 0 <= i < NUM_DIR_ENTRIES ==> EntryOk(img, t[i]) && AcceptedEntry(img, t[i])) && DistinctNames(t))
    ensures (forall i :: 0 <= i < NUM_DIR_ENTRIES ==> GoodEntry(img, t[i])) ==> !Crashes(img, t)
  {
    forall i | 0 <= i < NUM_DIR_ENTRIES
      ensures GoodEntry(img, t[i]) <==> EntryOk(img, t[i]) && AcceptedEntry(img, t[i])
      ensures GoodEntry(img, t[i]) ==> !CrashesAt(img, t[i])
    {
      assert ClaimsIn(img, t, i) == EntryClaims(img, t[i]);
      EntryIff(img, t[i]);
    }
    if forall i :: 0 <= i < NUM_DIR_ENTRIES ==> GoodEntry(img, t[i]) {
      NamesIff(t);
    }
  }

  /** A silent run of the tests is soundness and acceptance. */
  lemma SilentIff(img: Image, bits: seq<bool>, t: seq<Entry>)
    requires IsImage(img) && |bits| == NUM_SECTORS && |t| == NUM_DIR_ENTRIES
    ensures Silent(img, bits, t) <==> Passes(img, bits, t)
  {
    MarkingInStages(Used(MapHeader(img)), Used(DirHeader(img)), TableClaims(img, t, NUM_DIR_ENTRIES));
    GroupsApartIff(img, t);
    FreeMapIff(img, bits, t);
    if GroupsApart(img, t) {
      TableIff(img, t);
    }
  }

  /** Headers whose sectors are proper claims can be fetched from. */
  lemma FitsFetchable(h: Header, n: nat)
    requires Fits(h) && Proper(Used(h))
    ensures Fetchable(h, n)
  {
    ProperIsWritable(h);
    ReadableReachable(h, 0, if h.numBytes < n then h.numBytes else n);
  }

  /** Nothing that passes crashes the checker. */
  lemma SoundNeverCrashes(img: Image, bits: seq<bool>, t: seq<Entry>)
    requires IsImage(img) && |bits| == NUM_SECTORS && |t| == NUM_DIR_ENTRIES && Sound(img, bits, t)
    ensures !CrashesOn(img, t)
  {
    var m, d := MapHeader(img), DirHeader(img);
    assert Proper(ClaimsIn(img, t, SYSTEM));
    ProperParts([FREE_MAP_SECTOR, DIRECTORY_SECTOR] + Used(m), Used(d));
    ProperParts([FREE_MAP_SECTOR, DIRECTORY_SECTOR], Used(m));
    FitsFetchable(m, FREE_MAP_FILE_SIZE);
    FitsFetchable(d, DIRECTORY_FILE_SIZE);
    assert forall i :: 0 <= i < NUM_DIR_ENTRIES ==> EntryOk(img, t[i]);
  }

  /** The verdict: a volume passes exactly when the checker survives it without a report. */
  lemma PassesIff(img: Image, bits: seq<bool>, t: seq<Entry>)
    requires IsImage(img) && |bits| == NUM_SECTORS && |t| == NUM_DIR_ENTRIES
    ensures !CrashesOn(img, t) && Silent(img, bits, t) <==> Passes(img, bits, t)
  {
    SilentIff(img, bits, t);
    if Passes(img, bits, t) {
      SoundNeverCrashes(img, bits, t);
    }
  }

  // ----- A volume that passes and is not in order -----

  /** A free map in sector `x` that marks the system's three sectors, and a directory file of
      no bytes. */
  ghost predicate IsUnsized(img: Image, x: Word, bits: seq<bool>) {
    && IsImage(img) && 2 <= x < NUM_SECTORS && |bits| == NUM_SECTORS
    && (forall s :: 0 <= s < NUM_SECTORS ==> (bits[s] <==> s < 2 || s == x))
    && MapIn(MapHeader(img), x) && NoBytes(DirHeader(img)) && img[x] == EncodeBits(bits)
  }

  ghost predicate MapIn(m: Header, x: Word) {
    m.numBytes == FREE_MAP_FILE_SIZE && m.numSectors == 1 && m.dataSectors[0] == x
  }

  ghost predicate NoBytes(d: Header) {
    d.numBytes == 0 == d.numSectors
  }

  /** Any disk can be made into one. */
  lemma UnsizedImage(img: Image, x: Word, bits: seq<bool>, m: Header, d: Header)
    requires IsImage(img) && 2 <= x < NUM_SECTORS && |bits| == NUM_SECTORS
    requires forall s :: 0 <= s < NUM_SECTORS ==> (bits[s] <==> s < 2 || s == x)
    requires MapIn(m, x) && NoBytes(d)
    ensures var img1 := img[FREE_MAP_SECTOR := EncodeHeader(m)][DIRECTORY_SECTOR := EncodeHeader(d)];
            IsUnsized(img1[x := EncodeBits(bits)], x, bits)
  {
    HeaderRoundTrip(m);
    HeaderRoundTrip(d);
  }

  lemma UnsizedReads(img: Image, x: Word, bits: seq<bool>, memory: seq<Entry>)
    requires IsUnsized(img, x, bits) && |memory| == NUM_DIR_ENTRIES
    ensures TableFrom(img, memory) == Blank(memory) && BitsFrom(img) == bits
  {
    TableRoundTrip(Blank(memory));
    assert Overlaid(EncodeTable(Blank(memory)), []) == EncodeTable(Blank(memory));
    assert Contents(img, DirHeader(img)) == [];
    assert Contents(img, MapHeader(img)) == img[x];
    BitsRoundTrip(bits);
  }

  /** The checker passes it, whatever is in memory, and it is not consistent. */
  lemma UnsizedPasses(img: Image, x: Word, bits: seq<bool>, memory: seq<Entry>)
    requires IsUnsized(img, x, bits) && |memory| == NUM_DIR_ENTRIES
    ensures !Consistent(img)
    ensures Passes(img, BitsFrom(img), TableFrom(img, memory))
  {
    UnsizedReads(img, x, bits, memory);
    assert Used(MapHeader(img)) == [x] && Used(DirHeader(img)) == [];
    assert SystemClaims(img) == [0, 1, x];
    EmptyPasses(img, bits, Blank(memory));
  }

  /** A volume without files passes when the system's sectors are in order and marked. */
  lemma EmptyPasses(img: Image, bits: seq<bool>, t: seq<Entry>)
    requires IsImage(img) && |t| == NUM_DIR_ENTRIES && forall i :: 0 <= i < NUM_DIR_ENTRIES ==> !t[i].inUse
    requires Fits(MapHeader(img)) && Fits(DirHeader(img)) && Proper(SystemClaims(img)) && |bits| == NUM_SECTORS
    requires forall s :: 0 <= s < NUM_SECTORS ==> (bits[s] <==> s in SystemClaims(img))
    requires Accepted(img, [])
    ensures Passes(img, bits, t)
  {
    assert forall g :: 0 <= g < SYSTEM ==> ClaimsIn(img, t, g) == [];
    assert ClaimsIn(img, t, SYSTEM) == SystemClaims(img);
  }
}
