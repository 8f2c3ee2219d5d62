/** Whole runs of the file system, with files open across operations, against the simplest
    thing it could be: a map from names to byte strings, a count of free sectors, and a table of
    open files, each a name and a position. */
module FileRuns {
  import opened Common
  import opened DiskLayout
  import opened OpenFiles
  import opened Bitmaps
  import opened Directories
  import opened Volumes
  import opened FileSystems
  import opened FileChecks
  import opened FileSystemClass

  // ----- What a volume stands for -----

  /** `open` has the name behind each handle, until that file is removed; `positions` has where
      each handle stands. */
  datatype Model = Model(files: map<Bytes, Bytes>, free: nat, open: map<nat, Bytes>, positions: seq<nat>)

  ghost function Keys(img: Image): set<Bytes>
    requires Sized(img)
  {
    KeysUpTo(Table(img), NUM_DIR_ENTRIES)
  }

  /** The files of a volume. */
  ghost function Files(img: Image): map<Bytes, Bytes>
    requires Sized(img)
  {
    map key | key in Keys(img) && Lookup(img, key).Some? :: Lookup(img, key).value
  }

  ghost function ModelOf(img: Image, open: map<nat, Bytes>, ps: seq<nat>): Model
    requires Sized(img)
  {
    Model(Files(img), ClearCount(FreeBits(img)), open, ps)
  }

  /** A map lists exactly what lookups find. */
  ghost predicate Lists(m: map<Bytes, Bytes>, img: Image)
    requires Sized(img)
  {
    forall key :: ListsKey(m, img, key)
  }

  ghost predicate ListsKey(m: map<Bytes, Bytes>, img: Image, key: Bytes)
    requires Sized(img)
  {
    Lookup(img, key) == if key in m then Some(m[key]) else None
  }

  lemma FilesLists(img: Image)
    requires Consistent(img)
    ensures Lists(Files(img), img)
  {
    forall key ensures ListsKey(Files(img), img, key) {
      LookupPresent(img, key);
      KeysMember(Table(img), NUM_DIR_ENTRIES, key);
    }
  }

  lemma PresentIff(img: Image, key: Bytes)
    requires Consistent(img)
    ensures key in Files(img) <==> Lookup(img, key).Some?
    ensures key in Files(img) ==> Files(img)[key] == Lookup(img, key).value
  {
    FilesLists(img);
    assert ListsKey(Files(img), img, key);
  }

  /** The directory is full exactly when the map has as many names as there are slots. */
  lemma SlotFreeIff(img: Image)
    requires Consistent(img)
    ensures |Files(img)| < NUM_DIR_ENTRIES <==> FreeFrom(Table(img), 0).Some?
  {
    KeysCount(Table(img), NUM_DIR_ENTRIES);
    AllSlotsUsed(Table(img), NUM_DIR_ENTRIES);
    forall key | key in Keys(img) ensures Lookup(img, key).Some? {
      KeysMember(Table(img), NUM_DIR_ENTRIES, key);
      LookupPresent(img, key);
    }
    assert Files(img).Keys == Keys(img);
  }

  // ----- Operations on the model -----

  datatype Op =
    | CreateOp(name: Bytes, size: Word)
    | RemoveOp(name: Bytes)
    | OpenOp(name: Bytes)
    | SeekOp(handle: nat, position: Word)
    | ReadOp(handle: nat, n: Word)
    | WriteOp(handle: nat, from: Bytes)

  datatype Outcome = Answered(ok: bool) | Got(data: Bytes) | Put(count: nat)

  /** A handle whose file is still the one it was opened on. */
  predicate Live(m: Model, handle: nat) {
    handle < |m.positions| && handle in m.open && m.open[handle] in m.files
  }

  function FileBehind(m: Model, handle: nat): Bytes
    requires Live(m, handle)
  {
    m.files[m.open[handle]]
  }

  /** What callers must respect: Create's bound on sizes, transfers that are not empty and do
      not wrap, and no transfer through a handle whose file was removed. */
  predicate Allowed(m: Model, op: Op) {
    match op
    case CreateOp(_, size) => size < MAX_FILE_SIZE
    case RemoveOp(_) => true
    case OpenOp(_) => true
    case SeekOp(handle, _) => handle < |m.positions|
    case ReadOp(handle, n) => Live(m, handle) && n > 0 && Straight(m, handle, n)
    case WriteOp(handle, from) => Live(m, handle) && |from| > 0 && Straight(m, handle, |from|)
  }

  predicate Straight(m: Model, handle: nat, n: nat)
    requires Live(m, handle)
  {
    n < WORD && (m.positions[handle] < |FileBehind(m, handle)| ==> m.positions[handle] + n < WORD)
  }

  /** Sectors a file of a given size takes, with its header. */
  function Cost(size: nat): nat { 1 + DivRoundUp(size, SECTOR_SIZE) }

  predicate Creatable(m: Model, key: Bytes, size: nat) {
    key !in m.files && |m.files| < NUM_DIR_ENTRIES && Cost(size) <= m.free
  }

  /** How many of `n` bytes there are from a position on. */
  function Count(file: Bytes, position: nat, n: nat): (r: nat)
    ensures r <= n && (position <= |file| ==> position + r <= |file|) && (position > |file| ==> r == 0)
  {
    if position >= |file| then 0 else if position + n > |file| then |file| - position else n
  }

  function Excerpt(file: Bytes, position: nat, n: nat): Bytes {
    var r := Count(file, position, n);
    if r == 0 then [] else file[position..position + r]
  }

  /** `file` with as much of `from` as fits written at a position. */
  function Overwritten(file: Bytes, position: nat, from: Bytes): (r: Bytes)
    ensures |r| == |file|
  {
    var n := Count(file, position, |from|);
    if n == 0 then file else Splice(file, position, from[..n])
  }

  function Closed(open: map<nat, Bytes>, key: Bytes): map<nat, Bytes> {
    map handle | handle in open && open[handle] != key :: open[handle]
  }

  /** One operation on the model; the initial bytes of a new file are whatever was on the disk. */
  ghost predicate ModelStep(m: Model, op: Op, out: Outcome, m': Model) {
    match op
    case CreateOp(name, size) =>
      var key := Key(name);
      && out == Answered(Creatable(m, key, size))
      && if !Creatable(m, key, size) then m' == m
         else && key in m'.files && |m'.files[key]| == size
              && m' == m.(files := m.files[key := m'.files[key]], free := m.free - Cost(size))
    case RemoveOp(name) =>
      var key := Key(name);
      && out == Answered(key in m.files)
      && m' == if key !in m.files then m
               else m.(files := m.files - {key}, free := m.free + Cost(|m.files[key]|), open := Closed(m.open, key))
    case OpenOp(name) =>
      var key := Key(name);
      && out == Answered(key in m.files)
      && m' == if key !in m.files then m
               else m.(open := m.open[|m.positions| := key], positions := m.positions + [0])
    case SeekOp(handle, position) =>
      && out == Answered(true) && handle < |m.positions|
      && m' == m.(positions := m.positions[handle := position])
    case ReadOp(handle, n) =>
      && Live(m, handle)
      && var file, p := FileBehind(m, handle), m.positions[handle];
         && out == Got(Excerpt(file, p, n))
         && m' == m.(positions := m.positions[handle := p + Count(file, p, n)])
    case WriteOp(handle, from) =>
      && Live(m, handle)
      && var file, p := FileBehind(m, handle), m.positions[handle];
         var n := Count(file, p, |from|);
         && out == Put(n)
         && m' == m.(files := m.files[m.open[handle] := Overwritten(file, p, from)],
                     positions := m.positions[handle := p + n])
  }

  // The steps, on the parts of a model.

  lemma CreateStep(files: map<Bytes, Bytes>, files': map<Bytes, Bytes>, free: nat, free': nat, open: map<nat, Bytes>, ps: seq<nat>,
                   name: Bytes, size: Word)
    requires Creatable(Model(files, free, open, ps), Key(name), size)
    requires Key(name) in files' && |files'[Key(name)]| == size && files' == files[Key(name) := files'[Key(name)]]
    requires free' + Cost(size) == free
    ensures ModelStep(Model(files, free, open, ps), CreateOp(name, size), Answered(true), Model(files', free', open, ps))
  {
  }

  lemma RemoveStep(files: map<Bytes, Bytes>, files': map<Bytes, Bytes>, free: nat, free': nat, open: map<nat, Bytes>, ps: seq<nat>,
                   name: Bytes)
    requires Key(name) in files && files' == files - {Key(name)} && free' == free + Cost(|files[Key(name)]|)
    ensures ModelStep(Model(files, free, open, ps), RemoveOp(name), Answered(true),
                      Model(files', free', Closed(open, Key(name)), ps))
  {
  }

  lemma OpenStep(files: map<Bytes, Bytes>, free: nat, open: map<nat, Bytes>, ps: seq<nat>, name: Bytes)
    requires Key(name) in files
    ensures ModelStep(Model(files, free, open, ps), OpenOp(name), Answered(true),
                      Model(files, free, open[|ps| := Key(name)], ps + [0]))
  {
  }

  lemma SeekStep(files: map<Bytes, Bytes>, free: nat, open: map<nat, Bytes>, ps: seq<nat>, handle: nat, position: Word)
    requires handle < |ps|
    ensures ModelStep(Model(files, free, open, ps), SeekOp(handle, position), Answered(true),
                      Model(files, free, open, ps[handle := position]))
  {
  }

  lemma ReadStep(files: map<Bytes, Bytes>, free: nat, open: map<nat, Bytes>, ps: seq<nat>, handle: nat, n: Word)
    requires handle < |ps| && handle in open && open[handle] in files
    ensures var file, p := files[open[handle]], ps[handle];
            ModelStep(Model(files, free, open, ps), ReadOp(handle, n), Got(Excerpt(file, p, n)),
                      Model(files, free, open, ps[handle := p + Count(file, p, n)]))
  {
  }

  lemma WriteStep(files: map<Bytes, Bytes>, files': map<Bytes, Bytes>, free: nat, open: map<nat, Bytes>, ps: seq<nat>,
                  handle: nat, from: Bytes, n: nat)
    requires handle < |ps| && handle in open && open[handle] in files && n == Count(files[open[handle]], ps[handle], |from|)
    requires files' == files[open[handle] := Overwritten(files[open[handle]], ps[handle], from)]
    ensures ModelStep(Model(files, free, open, ps), WriteOp(handle, from), Put(n),
                      Model(files', free, open, ps[handle := ps[handle] + n]))
  {
  }

  // ----- Each operation refines the model -----

  /** The table of open files agrees with the volume: every header kept in memory is the one on
      the disk, as long as its file has not been removed. */
  ghost predicate HeadersHold(img: Image, headers: seq<Header>, open: map<nat, Bytes>)
    requires Sized(img)
  {
    forall i :: i in open ==> i < |headers| && HeaderOf(img, open[i]) == Some(headers[i])
  }

  /** A volume with its open files, between operations. */
  ghost predicate Good(img: Image, headers: seq<Header>, open: map<nat, Bytes>) {
    Consistent(img) && Tight(img) && HeadersHold(img, headers, open)
  }

  /** What one operation does to it. */
  ghost predicate StepsTo(img: Image, open: map<nat, Bytes>, ps: seq<nat>, op: Op, out: Outcome,
                          img': Image, open': map<nat, Bytes>, ps': seq<nat>)
    requires Sized(img) && Sized(img')
  {
    Tenths(img') == Tenths(img) && ModelStep(ModelOf(img, open, ps), op, out, ModelOf(img', open', ps'))
  }

  /** Volumes that differ in one name stand for maps that differ in one name. */
  lemma MapsDiffer(m: map<Bytes, Bytes>, m': map<Bytes, Bytes>, img: Image, img': Image, key: Bytes)
    requires Sized(img) && Sized(img') && Lists(m, img) && Lists(m', img') && SameBut(img, img', key)
    ensures key !in m' ==> m' == m - {key}
    ensures key in m' ==> m' == m[key := m'[key]]
  {
    forall k | k != key
      ensures k in m' <==> k in m
      ensures k in m ==> m'[k] == m[k]
    {
      assert ListsKey(m, img, k) && ListsKey(m', img', k);
    }
  }

  /** Both volumes, and how they differ at one name. */
  lemma FilesDiffer(img: Image, img': Image, key: Bytes)
    requires Consistent(img) && Consistent(img') && SameBut(img, img', key)
    ensures ListsKey(Files(img), img, key) && ListsKey(Files(img'), img', key)
    ensures key !in Files(img') ==> Files(img') == Files(img) - {key}
    ensures key in Files(img') ==> Files(img') == Files(img)[key := Files(img')[key]]
  {
    FilesLists(img);
    FilesLists(img');
    MapsDiffer(Files(img), Files(img'), img, img', key);
  }

  /** Open files other than the one an operation works on keep their headers. */
  lemma OthersHold(img: Image, img': Image, headers: seq<Header>, open: map<nat, Bytes>, key: Bytes)
    requires Sized(img) && Sized(img') && HeadersHold(img, headers, open) && SameBut(img, img', key)
    requires key !in open.Values
    ensures HeadersHold(img', headers, open)
  {
    assert forall i :: i in open ==> open[i] != key;
  }

  lemma CreateRefines(img: Image, img': Image, headers: seq<Header>, open: map<nat, Bytes>, ps: seq<nat>, name: Bytes, size: Word)
    requires Good(img, headers, open) && Consistent(img') && CreatedFile(img, img', name, size)
    requires Creatable(ModelOf(img, open, ps), Key(name), size) && Lookup(img, Key(name)).None?
    requires Lookup(img', Key(name)).Some? && |Lookup(img', Key(name)).value| == size && SameBut(img, img', Key(name))
    ensures Good(img', headers, open)
    ensures StepsTo(img, open, ps, CreateOp(name, size), Answered(true), img', open, ps)
  {
    var key := Key(name);
    CreatedAccounts(img, img', name, size);
    FilesDiffer(img, img', key);
    HeaderLookup(img, key);
    OthersHold(img, img', headers, open, key);
    CreateStep(Files(img), Files(img'), ClearCount(FreeBits(img)), ClearCount(FreeBits(img')), open, ps, name, size);
  }

  lemma CreatableIff(img: Image, open: map<nat, Bytes>, ps: seq<nat>, name: Bytes, size: Word)
    requires Consistent(img)
    ensures Creatable(ModelOf(img, open, ps), Key(name), size) <==>
            Lookup(img, Key(name)).None? && FreeFrom(Table(img), 0).Some? &&
            1 + DivRoundUp(size, SECTOR_SIZE) <= ClearCount(FreeBits(img))
  {
    PresentIff(img, Key(name));
    SlotFreeIff(img);
  }

  lemma CreatedAccounts(img: Image, img': Image, name: Bytes, size: Word)
    requires Consistent(img) && Tight(img) && Sized(img') && CreatedFile(img, img', name, size)
    ensures Tight(img') && Tenths(img') == Tenths(img)
    ensures ClearCount(FreeBits(img')) + Cost(size) == ClearCount(FreeBits(img))
  {
    var i: nat, x: Word, h: Header :| Created(img, img', name, size, i, x, h);
    CreateAccounts(img, img', name, size, i, x, h);
    TenthsKept(img, img', i);
  }

  lemma RemoveRefines(img: Image, img': Image, headers: seq<Header>, open: map<nat, Bytes>, ps: seq<nat>, name: Bytes)
    requires Good(img, headers, open) && Consistent(img') && Deleted(img, img', Key(name))
    requires Lookup(img', Key(name)).None? && SameBut(img, img', Key(name))
    ensures Good(img', headers, Closed(open, Key(name)))
    ensures StepsTo(img, open, ps, RemoveOp(name), Answered(true), img', Closed(open, Key(name)), ps)
  {
    var key := Key(name);
    DeletedAccounts(img, img', key);
    FilesDiffer(img, img', key);
    OthersHold(img, img', headers, Closed(open, key), key);
    RemoveStep(Files(img), Files(img'), ClearCount(FreeBits(img)), ClearCount(FreeBits(img')), open, ps, name);
  }

  lemma DeletedAccounts(img: Image, img': Image, key: Bytes)
    requires Consistent(img) && Tight(img) && Sized(img') && Deleted(img, img', key)
    ensures Tight(img') && Tenths(img') == Tenths(img) && Lookup(img, key).Some?
    ensures ClearCount(FreeBits(img')) == ClearCount(FreeBits(img)) + Cost(|Lookup(img, key).value|)
  {
    var i: nat :| Removed(img, img', i) && Key(Table(img)[i].name) == key;
    RemovedAccounts(img, img', i);
  }

  lemma RemovedAccounts(img: Image, img': Image, i: nat)
    requires Consistent(img) && Tight(img) && Sized(img') && Removed(img, img', i)
    ensures Tight(img') && Tenths(img') == Tenths(img) && Lookup(img, Key(Table(img)[i].name)).Some?
    ensures ClearCount(FreeBits(img')) == ClearCount(FreeBits(img)) + Cost(|Lookup(img, Key(Table(img)[i].name)).value|)
  {
    LookupSlot(img, i);
    RemoveAccounts(img, img', i);
    TenthsKept(img, img', i);
  }

  lemma TenthsKept(img: Image, img': Image, i: nat)
    requires Sized(img) && Sized(img') && i < NUM_DIR_ENTRIES
    requires Table(img') == Table(img)[i := Table(img')[i]]
    requires Table(img')[i].name[FILE_NAME_MAX_LEN] == Table(img)[i].name[FILE_NAME_MAX_LEN]
    ensures Tenths(img') == Tenths(img)
  {
  }

  lemma LookupSlot(img: Image, i: nat)
    requires Consistent(img) && i < NUM_DIR_ENTRIES && Table(img)[i].inUse
    ensures Table(img)[i].sector < NUM_SECTORS && Lookup(img, Key(Table(img)[i].name)) == Some(FileOf(img, i))
  {
    assert SlotOk(img, i);
    UniqueIndex(Table(img), Key(Table(img)[i].name), i);
  }

  lemma OpenRefines(img: Image, headers: seq<Header>, open: map<nat, Bytes>, ps: seq<nat>, name: Bytes, h: Header)
    requires Good(img, headers, open) && HeaderOf(img, Key(name)) == Some(h) && |headers| == |ps|
    ensures Good(img, headers + [h], open[|ps| := Key(name)])
    ensures StepsTo(img, open, ps, OpenOp(name), Answered(true), img, open[|ps| := Key(name)], ps + [0])
  {
    PresentIff(img, Key(name));
    HeaderLookup(img, Key(name));
    OpenStep(Files(img), ClearCount(FreeBits(img)), open, ps, name);
  }

  /** What a live handle gives access to. */
  lemma HandleParts(img: Image, headers: seq<Header>, open: map<nat, Bytes>, ps: seq<nat>, handle: nat)
    requires Good(img, headers, open) && Live(ModelOf(img, open, ps), handle)
    ensures handle < |headers|
    ensures var key, h := open[handle], headers[handle];
            && Writable(h) && HeaderOf(img, key) == Some(h) && Lookup(img, key) == Some(Contents(img, h))
            && Files(img)[key] == Contents(img, h)
  {
    var key := open[handle];
    FileParts(img, IndexFrom(Table(img), key, 0).value);
    HeaderLookup(img, key);
    PresentIff(img, key);
  }

  lemma ReadRefines(img: Image, open: map<nat, Bytes>, ps: seq<nat>, handle: nat, n: Word, data: Bytes, p: nat)
    requires Sized(img) && Live(ModelOf(img, open, ps), handle)
    requires var file := Files(img)[open[handle]];
             data == Excerpt(file, ps[handle], n) && p == ps[handle] + Count(file, ps[handle], n)
    ensures StepsTo(img, open, ps, ReadOp(handle, n), Got(data), img, open, ps[handle := p])
  {
    ReadStep(Files(img), ClearCount(FreeBits(img)), open, ps, handle, n);
  }

  lemma WriteRefines(img: Image, img': Image, headers: seq<Header>, open: map<nat, Bytes>, ps: seq<nat>,
                     handle: nat, from: Bytes, n: nat)
    requires Good(img, headers, open) && Live(ModelOf(img, open, ps), handle)
    requires handle < |headers| && Writable(headers[handle])
    requires OnlyChanges(img, img', headers[handle].dataSectors[..Span(headers[handle])])
    requires n == Count(Contents(img, headers[handle]), ps[handle], |from|)
    requires Contents(img', headers[handle]) == Overwritten(Contents(img, headers[handle]), ps[handle], from)
    ensures Good(img', headers, open) && MapHeader(img') == MapHeader(img) && DirHeader(img') == DirHeader(img)
    ensures StepsTo(img, open, ps, WriteOp(handle, from), Put(n), img', open, ps[handle := ps[handle] + n])
  {
    HandleParts(img, headers, open, ps, handle);
    WriteHolds(img, img', headers, open, open[handle], headers[handle]);
    WriteStep(Files(img), Files(img'), ClearCount(FreeBits(img)), open, ps, handle, from, n);
  }

  /** Writing within a file keeps every open file's header and changes one name. */
  lemma WriteHolds(img: Image, img': Image, headers: seq<Header>, open: map<nat, Bytes>, key: Bytes, h: Header)
    requires Good(img, headers, open) && HeaderOf(img, key) == Some(h) && Writable(h)
    requires OnlyChanges(img, img', h.dataSectors[..Span(h)])
    ensures Good(img', headers, open) && Tenths(img') == Tenths(img) && FreeBits(img') == FreeBits(img)
    ensures Files(img') == Files(img)[key := Contents(img', h)]
    ensures MapHeader(img') == MapHeader(img) && DirHeader(img') == DirHeader(img)
  {
    WriteByName(img, img', key, h);
    FilesDiffer(img, img', key);
    LayoutTight(img, img');
    assert HeadersHold(img', headers, open);
  }

  lemma LayoutTight(img: Image, img': Image)
    requires SameLayout(img, img') && Tight(img)
    ensures Tight(img') && Tenths(img') == Tenths(img)
  {
    forall i | 0 <= i < NUM_DIR_ENTRIES ensures TightSlot(img', i) {
      assert TightSlot(img, i);
    }
  }

  // ----- The table of open files -----

  /** The objects behind the handles: all on this disk, with these headers, and no two the same. */
  ghost predicate Attached(disk: Disk, handles: seq<OpenFile>, headers: seq<Header>) {
    && |handles| == |headers|
    && (forall i :: 0 <= i < |handles| ==> handles[i].disk == disk && handles[i].hdr == headers[i])
    && (forall i, j :: 0 <= i < j < |handles| ==> handles[i] != handles[j])
  }

  ghost predicate Standing(handles: seq<OpenFile>, ps: seq<nat>)
    reads handles
  {
    |ps| == |handles| && forall i :: 0 <= i < |handles| ==> handles[i].seekPosition == ps[i]
  }

  lemma ClipIsCount(file: Bytes, position: Word, n: Word)
    requires |file| < WORD && !Wraps(position, n, |file|)
    ensures Clip(position, n, |file|) == Count(file, position, n)
  {
  }

  /** The positions with one handle moved on. */
  ghost predicate Moved(handles: seq<OpenFile>, ps: seq<nat>, handle: nat, n: nat)
    reads handles
  {
    handle < |ps| && Standing(handles, ps[handle := ps[handle] + n])
  }

  /** Read and Write of an open file, on its contents. */
  method ReadNext(disk: Disk, handles: seq<OpenFile>, handle: nat, n: Word, ghost headers: seq<Header>, ghost ps: seq<nat>)
    returns (data: Bytes)
    requires disk.Valid() && Attached(disk, handles, headers) && Standing(handles, ps) && handle < |headers|
    requires Readable(headers[handle]) && n > 0 && !Wraps(handles[handle].seekPosition, n, headers[handle].numBytes)
    modifies handles[handle]
    ensures data == Excerpt(Contents(disk.sectors, headers[handle]), ps[handle], n)
    ensures Moved(handles, ps, handle, Count(Contents(disk.sectors, headers[handle]), ps[handle], n))
  {
    var file := handles[handle];
    ClipIsCount(file.Bytes(), file.seekPosition, n);
    var r;
    r, data := file.Read(n);
  }

  method WriteNext(disk: Disk, handles: seq<OpenFile>, handle: nat, from: Bytes, ghost headers: seq<Header>, ghost ps: seq<nat>)
    returns (count: nat)
    requires disk.Valid() && Attached(disk, handles, headers) && Standing(handles, ps) && handle < |headers|
    requires Writable(headers[handle]) && 0 < |from| < WORD && !Wraps(handles[handle].seekPosition, |from|, headers[handle].numBytes)
    modifies handles[handle], disk
    ensures disk.Valid() && Moved(handles, ps, handle, count)
    ensures count == Count(Contents(old(disk.sectors), headers[handle]), ps[handle], |from|)
    ensures Contents(disk.sectors, headers[handle]) == Overwritten(Contents(old(disk.sectors), headers[handle]), ps[handle], from)
    ensures OnlyChanges(old(disk.sectors), disk.sectors, headers[handle].dataSectors[..Span(headers[handle])])
  {
    var file := handles[handle];
    ClipIsCount(file.Bytes(), file.seekPosition, |from|);
    var r := file.Write(from);
    count := r.count;
  }

  // ----- Operations, with the table of open files as values -----

  method CreateFile(fs: FileSystem, name: Bytes, size: Word, garbage: Garbage,
                    ghost headers: seq<Header>, ghost open: map<nat, Bytes>, ghost ps: seq<nat>) returns (ok: bool)
    requires fs.Valid() && Good(fs.disk.sectors, headers, open) && size < MAX_FILE_SIZE
    modifies fs.disk
    ensures fs.Valid() && Good(fs.disk.sectors, headers, open)
    ensures StepsTo(old(fs.disk.sectors), open, ps, CreateOp(name, size), Answered(ok), fs.disk.sectors, open, ps)
  {
    ghost var img := fs.disk.sectors;
    CreatableIff(img, open, ps, name, size);
    ok := fs.Create(name, size, garbage);
    ghost var img' := fs.disk.sectors;
    if ok {
      CreateRefines(img, img', headers, open, ps, name, size);
    } else {
      assert StepsTo(img, open, ps, CreateOp(name, size), Answered(false), img, open, ps);
    }
  }

  method RemoveFile(fs: FileSystem, name: Bytes, garbage: Garbage,
                    ghost headers: seq<Header>, ghost open: map<nat, Bytes>, ghost ps: seq<nat>)
    returns (ok: bool, ghost open': map<nat, Bytes>)
    requires fs.Valid() && Good(fs.disk.sectors, headers, open)
    modifies fs.disk
    ensures fs.Valid() && Good(fs.disk.sectors, headers, open')
    ensures StepsTo(old(fs.disk.sectors), open, ps, RemoveOp(name), Answered(ok), fs.disk.sectors, open', ps)
  {
    ghost var img := fs.disk.sectors;
    PresentIff(img, Key(name));
    ok := fs.Remove(name, garbage);
    ghost var img' := fs.disk.sectors;
    open' := if ok then Closed(open, Key(name)) else open;
    if ok {
      RemoveRefines(img, img', headers, open, ps, name);
    } else {
      assert StepsTo(img, open, ps, RemoveOp(name), Answered(false), img, open, ps);
    }
  }

  method OpenByName(fs: FileSystem, name: Bytes, garbage: Garbage,
                    ghost headers: seq<Header>, ghost open: map<nat, Bytes>, ghost ps: seq<nat>)
    returns (file: OpenFile?)
    requires fs.Valid() && Good(fs.disk.sectors, headers, open) && |headers| == |ps|
    ensures file != null ==> fresh(file) && file.disk == fs.disk && file.seekPosition == 0
    ensures file != null ==> Good(fs.disk.sectors, headers + [file.hdr], open[|ps| := Key(name)])
    ensures file != null ==> StepsTo(fs.disk.sectors, open, ps, OpenOp(name), Answered(true),
                                     fs.disk.sectors, open[|ps| := Key(name)], ps + [0])
    ensures file == null ==> StepsTo(fs.disk.sectors, open, ps, OpenOp(name), Answered(false), fs.disk.sectors, open, ps)
  {
    ghost var img := fs.disk.sectors;
    PresentIff(img, Key(name));
    file := fs.Open(name, garbage);
    if file != null {
      OpenRefines(img, headers, open, ps, name, file.hdr);
    } else {
      assert StepsTo(img, open, ps, OpenOp(name), Answered(false), img, open, ps);
    }
  }

  method ReadLive(disk: Disk, handles: seq<OpenFile>, handle: nat, n: Word,
                  ghost headers: seq<Header>, ghost open: map<nat, Bytes>, ghost ps: seq<nat>) returns (data: Bytes, ghost ps': seq<nat>)
    requires disk.Valid() && Attached(disk, handles, headers) && Standing(handles, ps) && Good(disk.sectors, headers, open)
    requires Allowed(ModelOf(disk.sectors, open, ps), ReadOp(handle, n))
    modifies handles[handle]
    ensures Standing(handles, ps')
    ensures StepsTo(disk.sectors, open, ps, ReadOp(handle, n), Got(data), disk.sectors, open, ps')
  {
    ghost var img := disk.sectors;
    HandleParts(img, headers, open, ps, handle);
    ghost var count := Count(Contents(img, headers[handle]), ps[handle], n);
    data := ReadNext(disk, handles, handle, n, headers, ps);
    assert Moved(handles, ps, handle, count);
    ps' := ps[handle := ps[handle] + count];
    ReadRefines(img, open, ps, handle, n, data, ps'[handle]);
  }

  method WriteLive(fs: FileSystem, handles: seq<OpenFile>, handle: nat, from: Bytes,
                   ghost headers: seq<Header>, ghost open: map<nat, Bytes>, ghost ps: seq<nat>)
    returns (count: nat, ghost ps': seq<nat>)
    requires fs.Valid() && Attached(fs.disk, handles, headers) && Standing(handles, ps) && Good(fs.disk.sectors, headers, open)
    requires Allowed(ModelOf(fs.disk.sectors, open, ps), WriteOp(handle, from))
    modifies handles[handle], fs.disk
    ensures fs.Valid() && Good(fs.disk.sectors, headers, open) && Standing(handles, ps')
    ensures StepsTo(old(fs.disk.sectors), open, ps, WriteOp(handle, from), Put(count), fs.disk.sectors, open, ps')
  {
    ghost var img := fs.disk.sectors;
    HandleParts(img, headers, open, ps, handle);
    count := WriteNext(fs.disk, handles, handle, from, headers, ps);
    ghost var img' := fs.disk.sectors;
    ps' := ps[handle := ps[handle] + count];
    WriteRefines(img, img', headers, open, ps, handle, from, count);
  }

  /** A file system, the objects behind the handles, and what they stand for. */
  ghost predicate Ready(fs: FileSystem, handles: seq<OpenFile>, headers: seq<Header>, open: map<nat, Bytes>, ps: seq<nat>)
    reads fs.disk, handles
  {
    && fs.Valid() && Good(fs.disk.sectors, headers, open)
    && Attached(fs.disk, handles, headers) && Standing(handles, ps)
  }

  method PerformCreate(fs: FileSystem, ghost handles: seq<OpenFile>, op: Op, garbage: Garbage,
                       ghost headers: seq<Header>, ghost open: map<nat, Bytes>, ghost ps: seq<nat>) returns (out: Outcome)
    requires Ready(fs, handles, headers, open, ps) && op.CreateOp? && Allowed(ModelOf(fs.disk.sectors, open, ps), op)
    modifies fs.disk
    ensures Ready(fs, handles, headers, open, ps)
    ensures StepsTo(old(fs.disk.sectors), open, ps, op, out, fs.disk.sectors, open, ps)
  {
    var ok := CreateFile(fs, op.name, op.size, garbage, headers, open, ps);
    out := Answered(ok);
  }

  method PerformRemove(fs: FileSystem, ghost handles: seq<OpenFile>, op: Op, garbage: Garbage,
                       ghost headers: seq<Header>, ghost open: map<nat, Bytes>, ghost ps: seq<nat>)
    returns (out: Outcome, ghost open': map<nat, Bytes>)
    requires Ready(fs, handles, headers, open, ps) && op.RemoveOp?
    modifies fs.disk
    ensures Ready(fs, handles, headers, open', ps)
    ensures StepsTo(old(fs.disk.sectors), open, ps, op, out, fs.disk.sectors, open', ps)
  {
    var ok;
    ok, open' := RemoveFile(fs, op.name, garbage, headers, open, ps);
    out := Answered(ok);
  }

  lemma AttachOne(disk: Disk, handles: seq<OpenFile>, headers: seq<Header>, file: OpenFile)
    requires Attached(disk, handles, headers) && file.disk == disk && file !in handles
    ensures Attached(disk, handles + [file], headers + [file.hdr])
  {
  }

  lemma StandOne(handles: seq<OpenFile>, ps: seq<nat>, file: OpenFile)
    requires Standing(handles, ps) && file.seekPosition == 0
    ensures Standing(handles + [file], ps + [0])
  {
  }

  method OpenInto(fs: FileSystem, handles: seq<OpenFile>, name: Bytes, garbage: Garbage,
                  ghost headers: seq<Header>, ghost open: map<nat, Bytes>, ghost ps: seq<nat>)
    returns (ok: bool, handles': seq<OpenFile>, ghost headers': seq<Header>, ghost open': map<nat, Bytes>, ghost ps': seq<nat>)
    requires Ready(fs, handles, headers, open, ps)
    ensures |handles| <= |handles'| && forall k :: 0 <= k < |handles| ==> handles'[k] == handles[k]
    ensures forall k :: |handles| <= k < |handles'| ==> fresh(handles'[k])
    ensures Ready(fs, handles', headers', open', ps')
    ensures StepsTo(fs.disk.sectors, open, ps, OpenOp(name), Answered(ok), fs.disk.sectors, open', ps')
  {
    var file := OpenByName(fs, name, garbage, headers, open, ps);
    ok := file != null;
    if ok {
      AttachOne(fs.disk, handles, headers, file);
      StandOne(handles, ps, file);
      handles', headers', open', ps' := handles + [file], headers + [file.hdr], open[|ps| := Key(name)], ps + [0];
      assert forall k :: |handles| <= k < |handles'| ==> handles'[k] == file;
    } else {
      handles', headers', open', ps' := handles, headers, open, ps;
    }
  }

  method PerformOpen(fs: FileSystem, handles: seq<OpenFile>, op: Op, garbage: Garbage,
                     ghost headers: seq<Header>, ghost open: map<nat, Bytes>, ghost ps: seq<nat>)
    returns (out: Outcome, handles': seq<OpenFile>, ghost headers': seq<Header>, ghost open': map<nat, Bytes>, ghost ps': seq<nat>)
    requires Ready(fs, handles, headers, open, ps) && op.OpenOp?
    ensures |handles| <= |handles'| && forall k :: 0 <= k < |handles| ==> handles'[k] == handles[k]
    ensures forall k :: |handles| <= k < |handles'| ==> fresh(handles'[k])
    ensures Ready(fs, handles', headers', open', ps')
    ensures StepsTo(fs.disk.sectors, open, ps, op, out, fs.disk.sectors, open', ps')
  {
    var ok;
    ok, handles', headers', open', ps' := OpenInto(fs, handles, op.name, garbage, headers, open, ps);
    out := Answered(ok);
  }

  method PerformSeek(fs: FileSystem, handles: seq<OpenFile>, op: Op,
                     ghost headers: seq<Header>, ghost open: map<nat, Bytes>, ghost ps: seq<nat>)
    returns (out: Outcome, ghost ps': seq<nat>)
    requires Ready(fs, handles, headers, open, ps) && op.SeekOp? && Allowed(ModelOf(fs.disk.sectors, open, ps), op)
    modifies handles
    ensures Ready(fs, handles, headers, open, ps')
    ensures StepsTo(fs.disk.sectors, open, ps, op, out, fs.disk.sectors, open, ps')
  {
    SeekStep(Files(fs.disk.sectors), ClearCount(FreeBits(fs.disk.sectors)), open, ps, op.handle, op.position);
    handles[op.handle].Seek(op.position);
    ps' := ps[op.handle := op.position];
    out := Answered(true);
  }

  method PerformRead(fs: FileSystem, handles: seq<OpenFile>, op: Op,
                     ghost headers: seq<Header>, ghost open: map<nat, Bytes>, ghost ps: seq<nat>)
    returns (out: Outcome, ghost ps': seq<nat>)
    requires Ready(fs, handles, headers, open, ps) && op.ReadOp? && Allowed(ModelOf(fs.disk.sectors, open, ps), op)
    modifies handles
    ensures Ready(fs, handles, headers, open, ps')
    ensures StepsTo(fs.disk.sectors, open, ps, op, out, fs.disk.sectors, open, ps')
  {
    var data;
    data, ps' := ReadLive(fs.disk, handles, op.handle, op.n, headers, open, ps);
    out := Got(data);
  }

  method PerformWrite(fs: FileSystem, handles: seq<OpenFile>, op: Op,
                      ghost headers: seq<Header>, ghost open: map<nat, Bytes>, ghost ps: seq<nat>)
    returns (out: Outcome, ghost ps': seq<nat>)
    requires Ready(fs, handles, headers, open, ps) && op.WriteOp? && Allowed(ModelOf(fs.disk.sectors, open, ps), op)
    modifies handles, fs.disk
    ensures Ready(fs, handles, headers, open, ps')
    ensures StepsTo(old(fs.disk.sectors), open, ps, op, out, fs.disk.sectors, open, ps')
  {
    var count;
    count, ps' := WriteLive(fs, handles, op.handle, op.from, headers, open, ps);
    out := Put(count);
  }

  /** One operation: the volume and the table of open files take one step of the model, and no
      header kept in memory goes out of date before its file is removed. */
  method Perform(fs: FileSystem, handles: seq<OpenFile>, op: Op, garbage: Garbage,
                 ghost headers: seq<Header>, ghost open: map<nat, Bytes>, ghost ps: seq<nat>)
    returns (out: Outcome, handles': seq<OpenFile>, ghost headers': seq<Header>, ghost open': map<nat, Bytes>, ghost ps': seq<nat>)
    requires Ready(fs, handles, headers, open, ps) && Allowed(ModelOf(fs.disk.sectors, open, ps), op)
    modifies fs.disk, handles
    ensures |handles| <= |handles'| && forall k :: 0 <= k < |handles| ==> handles'[k] == handles[k]
    ensures forall k :: |handles| <= k < |handles'| ==> fresh(handles'[k])
    ensures Ready(fs, handles', headers', open', ps')
    ensures StepsTo(old(fs.disk.sectors), open, ps, op, out, fs.disk.sectors, open', ps')
  {
    if op.CreateOp? || op.RemoveOp? || op.OpenOp? {
      out, handles', headers', open', ps' := PerformByName(fs, handles, op, garbage, headers, open, ps);
    } else {
      out, ps' := PerformByHandle(fs, handles, op, headers, open, ps);
      handles', headers', open' := handles, headers, open;
    }
  }

  method PerformByName(fs: FileSystem, handles: seq<OpenFile>, op: Op, garbage: Garbage,
                       ghost headers: seq<Header>, ghost open: map<nat, Bytes>, ghost ps: seq<nat>)
    returns (out: Outcome, handles': seq<OpenFile>, ghost headers': seq<Header>, ghost open': map<nat, Bytes>, ghost ps': seq<nat>)
    requires op.CreateOp? || op.RemoveOp? || op.OpenOp?
    requires Ready(fs, handles, headers, open, ps) && Allowed(ModelOf(fs.disk.sectors, open, ps), op)
    modifies fs.disk
    ensures |handles| <= |handles'| && forall k :: 0 <= k < |handles| ==> handles'[k] == handles[k]
    ensures forall k :: |handles| <= k < |handles'| ==> fresh(handles'[k])
    ensures Ready(fs, handles', headers', open', ps')
    ensures StepsTo(old(fs.disk.sectors), open, ps, op, out, fs.disk.sectors, open', ps')
  {
    handles', headers', open', ps' := handles, headers, open, ps;
    if op.CreateOp? {
      out := PerformCreate(fs, handles, op, garbage, headers, open, ps);
    } else if op.RemoveOp? {
      out, open' := PerformRemove(fs, handles, op, garbage, headers, open, ps);
    } else {
      out, handles', headers', open', ps' := PerformOpen(fs, handles, op, garbage, headers, open, ps);
    }
  }

  method PerformByHandle(fs: FileSystem, handles: seq<OpenFile>, op: Op,
                         ghost headers: seq<Header>, ghost open: map<nat, Bytes>, ghost ps: seq<nat>)
    returns (out: Outcome, ghost ps': seq<nat>)
    requires op.SeekOp? || op.ReadOp? || op.WriteOp?
    requires Ready(fs, handles, headers, open, ps) && Allowed(ModelOf(fs.disk.sectors, open, ps), op)
    modifies fs.disk, handles
    ensures Ready(fs, handles, headers, open, ps')
    ensures StepsTo(old(fs.disk.sectors), open, ps, op, out, fs.disk.sectors, open, ps')
  {
    if op.SeekOp? {
      out, ps' := PerformSeek(fs, handles, op, headers, open, ps);
    } else if op.ReadOp? {
      out, ps' := PerformRead(fs, handles, op, headers, open, ps);
    } else {
      out, ps' := PerformWrite(fs, handles, op, headers, open, ps);
    }
  }

  // ----- Runs -----

  /** A trace of the model through the operations of a list, as far as there are outcomes. */
  ghost predicate IsTrace(trace: seq<Model>, ops: seq<Op>, outs: seq<Outcome>) {
    && |outs| <= |ops| && |trace| == |outs| + 1
    && forall i :: 0 <= i < |outs| ==> TraceStep(trace, ops, outs, i)
  }

  ghost predicate TraceStep(trace: seq<Model>, ops: seq<Op>, outs: seq<Outcome>, i: nat)
    requires i < |outs| <= |ops| && |trace| == |outs| + 1
  {
    ModelStep(trace[i], ops[i], outs[i], trace[i + 1])
  }

  lemma TraceExtends(trace: seq<Model>, ops: seq<Op>, outs: seq<Outcome>, out: Outcome, m: Model)
    requires IsTrace(trace, ops, outs) && |outs| < |ops| && ModelStep(trace[|outs|], ops[|outs|], out, m)
    ensures IsTrace(trace + [m], ops, outs + [out])
  {
    var trace', outs' := trace + [m], outs + [out];
    forall i | 0 <= i < |outs'| ensures TraceStep(trace', ops, outs', i) {
      if i < |outs| {
        assert TraceStep(trace, ops, outs, i);
      }
    }
  }

  /** Whatever the model does, callers respect what they must. */
  ghost predicate Legal(m: Model, ops: seq<Op>) {
    forall trace, outs :: IsTrace(trace, ops, outs) && trace[0] == m && |outs| < |ops| ==>
      Allowed(trace[|outs|], ops[|outs|])
  }

  /** The next operation of a run. */
  method Next(fs: FileSystem, handles: seq<OpenFile>, ops: seq<Op>, outs: seq<Outcome>, garbage: Garbage, ghost trace: seq<Model>,
              ghost headers: seq<Header>, ghost open: map<nat, Bytes>, ghost ps: seq<nat>)
    returns (out: Outcome, handles': seq<OpenFile>, ghost m: Model,
             ghost headers': seq<Header>, ghost open': map<nat, Bytes>, ghost ps': seq<nat>)
    requires Ready(fs, handles, headers, open, ps) && |outs| < |ops| && IsTrace(trace, ops, outs)
    requires trace[|outs|] == ModelOf(fs.disk.sectors, open, ps) && Legal(trace[0], ops)
    modifies fs.disk, handles
    ensures |handles| <= |handles'| && forall k :: 0 <= k < |handles| ==> handles'[k] == handles[k]
    ensures forall k :: |handles| <= k < |handles'| ==> fresh(handles'[k])
    ensures Ready(fs, handles', headers', open', ps') && Tenths(fs.disk.sectors) == old(Tenths(fs.disk.sectors))
    ensures m == ModelOf(fs.disk.sectors, open', ps') && IsTrace(trace + [m], ops, outs + [out])
  {
    out, handles', headers', open', ps' := Perform(fs, handles, ops[|outs|], garbage, headers, open, ps);
    m := ModelOf(fs.disk.sectors, open', ps');
    TraceExtends(trace, ops, outs, out, m);
  }

  /** Any run on a volume refines the same run of the model: the same operations succeed, every
      read delivers the model's bytes, every file holds the same bytes throughout, and the count
      of free sectors is exact. */
  method Run(fs: FileSystem, ops: seq<Op>, garbage: Garbage) returns (outs: seq<Outcome>, ghost trace: seq<Model>)
    requires fs.Valid() && Tight(fs.disk.sectors) && Legal(ModelOf(fs.disk.sectors, map[], []), ops)
    modifies fs.disk
    ensures fs.Valid() && Tight(fs.disk.sectors) && Tenths(fs.disk.sectors) == old(Tenths(fs.disk.sectors))
    ensures IsTrace(trace, ops, outs) && |outs| == |ops| && trace[0] == old(ModelOf(fs.disk.sectors, map[], []))
    ensures trace[|ops|].files == Files(fs.disk.sectors) && trace[|ops|].free == ClearCount(FreeBits(fs.disk.sectors))
  {
    var handles: seq<OpenFile> := [];
    ghost var headers: seq<Header>, open: map<nat, Bytes>, ps: seq<nat> := [], map[], [];
    ghost var m := ModelOf(fs.disk.sectors, open, ps);
    outs, trace := [], [m];
    for i := 0 to |ops|
      invariant forall k :: 0 <= k < |handles| ==> fresh(handles[k])
      invariant Ready(fs, handles, headers, open, ps) && Tenths(fs.disk.sectors) == old(Tenths(fs.disk.sectors))
      invariant IsTrace(trace, ops, outs) && |outs| == i && trace[0] == m && trace[i] == ModelOf(fs.disk.sectors, open, ps)
    {
      var out;
      ghost var m';
      out, handles, m', headers, open, ps := Next(fs, handles, ops, outs, garbage, trace, headers, open, ps);
      outs, trace := outs + [out], trace + [m'];
    }
  }

  const BLANK_MODEL := Model(map[], NUM_SECTORS - 5, map[], [])

  /** From a blank disk: format, then any run.  The model starts with no files and all sectors
      free but the system's five. */
  method FormatAndRun(disk: Disk, ops: seq<Op>, garbage: Garbage)
    returns (fs: FileSystem, outs: seq<Outcome>, ghost trace: seq<Model>)
    requires disk.Valid() && Legal(BLANK_MODEL, ops)
    modifies disk
    ensures fs.disk == disk && fs.Valid() && Tight(disk.sectors)
    ensures fs.freeMapFile.hdr.numSectors == 1 && fs.directoryFile.hdr.numSectors == 2
    ensures forall i :: 0 <= i < NUM_DIR_ENTRIES ==> Tenths(disk.sectors)[i] == garbage.table[i].name[FILE_NAME_MAX_LEN]
    ensures IsTrace(trace, ops, outs) && |outs| == |ops| && trace[0] == BLANK_MODEL
    ensures trace[|ops|].files == Files(disk.sectors) && trace[|ops|].free == ClearCount(FreeBits(disk.sectors))
  {
    fs := new FileSystem.Format(disk, garbage);
    EmptyModel(disk.sectors);
    outs, trace := Run(fs, ops, garbage);
  }

  lemma EmptyModel(img: Image)
    requires IsEmpty(img)
    ensures Tight(img) && ModelOf(img, map[], []) == BLANK_MODEL
  {
    assert Files(img) == map[];
  }

  // ----- What the checker says after a run -----

  const CHECKED_SIZE := (NUM_DIRECT - 1) * SECTOR_SIZE

  /** No file that fills its header; no name of nine characters. */
  ghost predicate Small(files: map<Bytes, Bytes>) {
    forall key :: key in files ==> |files[key]| <= CHECKED_SIZE
  }

  ghost predicate Short(files: map<Bytes, Bytes>) {
    forall key :: key in files ==> |key| < FILE_NAME_MAX_LEN
  }

  /** What the checker asks of a slot, in terms of its file and the byte behind its name. */
  ghost predicate TameSlot(img: Image, i: nat)
    requires Sized(img) && i < NUM_DIR_ENTRIES
  {
    var e := Table(img)[i];
    e.inUse && e.sector < NUM_SECTORS ==>
      |FileOf(img, i)| <= CHECKED_SIZE && (|Key(e.name)| < FILE_NAME_MAX_LEN || Tenths(img)[i] == 0)
  }

  lemma TameIff(img: Image, i: nat)
    requires Consistent(img) && Tight(img) && i < NUM_DIR_ENTRIES
    ensures AcceptedEntry(img, Table(img)[i]) <==> TameSlot(img, i)
  {
    assert SlotOk(img, i) && TightSlot(img, i);
    TerminatedIff(Table(img)[i]);
  }

  ghost predicate AllTame(img: Image)
    requires Sized(img)
  {
    forall i :: 0 <= i < NUM_DIR_ENTRIES ==> TameSlot(img, i)
  }

  /** The slot of a file, and the file of a slot. */
  lemma SlotOfKey(img: Image, key: Bytes) returns (i: nat)
    requires Consistent(img) && key in Files(img)
    ensures i < NUM_DIR_ENTRIES && Names(Table(img)[i], key)
    ensures Table(img)[i].sector < NUM_SECTORS && Files(img)[key] == FileOf(img, i)
  {
    KeysMember(Table(img), NUM_DIR_ENTRIES, key);
    i :| 0 <= i < NUM_DIR_ENTRIES && Names(Table(img)[i], key);
    LookupSlot(img, i);
    PresentIff(img, key);
  }

  lemma FileOfSlot(img: Image, i: nat)
    requires Consistent(img) && i < NUM_DIR_ENTRIES && Table(img)[i].inUse
    ensures Table(img)[i].sector < NUM_SECTORS && Key(Table(img)[i].name) in Files(img)
    ensures Files(img)[Key(Table(img)[i].name)] == FileOf(img, i)
  {
    LookupSlot(img, i);
    PresentIff(img, Key(Table(img)[i].name));
  }

  /** The same in terms of the map of files. */
  lemma TameFiles(img: Image)
    requires Consistent(img) && AllTame(img)
    ensures Small(Files(img))
    ensures (forall i :: 0 <= i < NUM_DIR_ENTRIES ==> Tenths(img)[i] != 0) ==> Short(Files(img))
  {
    forall key | key in Files(img)
      ensures |Files(img)[key]| <= CHECKED_SIZE
      ensures (forall i :: 0 <= i < NUM_DIR_ENTRIES ==> Tenths(img)[i] != 0) ==> |key| < FILE_NAME_MAX_LEN
    {
      var i := SlotOfKey(img, key);
      assert TameSlot(img, i);
    }
  }

  lemma FilesTame(img: Image)
    requires Consistent(img) && Small(Files(img))
    requires Short(Files(img)) || forall i :: 0 <= i < NUM_DIR_ENTRIES ==> Tenths(img)[i] == 0
    ensures AllTame(img)
  {
    forall i | 0 <= i < NUM_DIR_ENTRIES ensures TameSlot(img, i) {
      if Table(img)[i].inUse {
        FileOfSlot(img, i);
      }
    }
  }

  lemma VerdictByFiles(img: Image, files: map<Bytes, Bytes>)
    requires Consistent(img) && files == Files(img)
    ensures Small(files) && Short(files) ==> AllTame(img)
    ensures (forall i :: 0 <= i < NUM_DIR_ENTRIES ==> Tenths(img)[i] == 0) ==> (AllTame(img) <==> Small(files))
    ensures (forall i :: 0 <= i < NUM_DIR_ENTRIES ==> Tenths(img)[i] != 0) ==> (AllTame(img) <==> Small(files) && Short(files))
  {
    if AllTame(img) {
      TameFiles(img);
    }
    if Small(files) && (Short(files) || forall i :: 0 <= i < NUM_DIR_ENTRIES ==> Tenths(img)[i] == 0) {
      FilesTame(img);
    }
  }

  predicate ModestOp(op: Op) {
    op.CreateOp? ==> |Key(op.name)| < FILE_NAME_MAX_LEN && op.size <= CHECKED_SIZE
  }

  lemma {:induction false} ModestRun(trace: seq<Model>, ops: seq<Op>, outs: seq<Outcome>, n: nat)
    requires IsTrace(trace, ops, outs) && trace[0].files == map[] && n <= |outs| && forall i :: 0 <= i < |ops| ==> ModestOp(ops[i])
    ensures Small(trace[n].files) && Short(trace[n].files)
  {
    if n > 0 {
      ModestRun(trace, ops, outs, n - 1);
      assert TraceStep(trace, ops, outs, n - 1);
    }
  }

  /** After formatting and any run the checker never crashes.  It passes exactly when every slot
      in use has a file of at most 29 sectors and a name that is short or stands before a zero
      byte that was in memory when the disk was formatted. */
  method FormatRunCheck(disk: Disk, ops: seq<Op>, garbage: Garbage)
    returns (v: Verdict, outs: seq<Outcome>, ghost trace: seq<Model>)
    requires disk.Valid() && Legal(BLANK_MODEL, ops)
    modifies disk
    ensures disk.Valid() && Consistent(disk.sectors) && IsTrace(trace, ops, outs) && |outs| == |ops| && trace[0] == BLANK_MODEL
    ensures !v.Crashed?
    ensures v.Passed? <==> AllTame(disk.sectors)
    ensures (forall i :: 0 <= i < |ops| ==> ModestOp(ops[i])) ==> v.Passed?
    ensures (forall i :: 0 <= i < NUM_DIR_ENTRIES ==> garbage.table[i].name[FILE_NAME_MAX_LEN] == 0) ==>
              (v.Passed? <==> Small(trace[|ops|].files))
    ensures (forall i :: 0 <= i < NUM_DIR_ENTRIES ==> garbage.table[i].name[FILE_NAME_MAX_LEN] != 0) ==>
              (v.Passed? <==> Small(trace[|ops|].files) && Short(trace[|ops|].files))
  {
    var fs;
    fs, outs, trace := FormatAndRun(disk, ops, garbage);
    v := fs.CheckVolume(garbage);
    forall i | 0 <= i < NUM_DIR_ENTRIES ensures AcceptedEntry(disk.sectors, Table(disk.sectors)[i]) <==> TameSlot(disk.sectors, i) {
      TameIff(disk.sectors, i);
    }
    VerdictByFiles(disk.sectors, trace[|ops|].files);
    if forall i :: 0 <= i < |ops| ==> ModestOp(ops[i]) {
      ModestRun(trace, ops, outs, |ops|);
    }
  }

  // ----- Outcomes depend on names and sizes only -----

  ghost predicate SameShape(a: Model, b: Model) {
    && a.free == b.free && a.open == b.open && a.positions == b.positions && a.files.Keys == b.files.Keys
    && forall key :: key in a.files ==> |a.files[key]| == |b.files[key]|
  }

  ghost predicate SameAnswer(a: Outcome, b: Outcome) {
    match a
    case Got(data) => b.Got? && |b.data| == |data|
    case _ => b == a
  }

  lemma StepDetermined(a: Model, b: Model, op: Op, outA: Outcome, outB: Outcome, a': Model, b': Model)
    requires SameShape(a, b) && ModelStep(a, op, outA, a') && ModelStep(b, op, outB, b')
    ensures SameAnswer(outA, outB) && SameShape(a', b')
  {
    assert |a.files| == |a.files.Keys| && |b.files| == |b.files.Keys|;
  }

  lemma {:induction false} ShapesAgree(a: seq<Model>, b: seq<Model>, ops: seq<Op>, outsA: seq<Outcome>, outsB: seq<Outcome>, i: nat)
    requires IsTrace(a, ops, outsA) && IsTrace(b, ops, outsB) && SameShape(a[0], b[0]) && i <= |outsA| && i <= |outsB|
    ensures SameShape(a[i], b[i])
  {
    if i > 0 {
      ShapesAgree(a, b, ops, outsA, outsB, i - 1);
      assert TraceStep(a, ops, outsA, i - 1) && TraceStep(b, ops, outsB, i - 1);
      StepDetermined(a[i - 1], b[i - 1], ops[i - 1], outsA[i - 1], outsB[i - 1], a[i], b[i]);
    }
  }

  /** Two disks that start alike answer a run alike, whatever bytes they hold: the same calls
      succeed and the same numbers of bytes are transferred. */
  lemma OutcomesDetermined(a: seq<Model>, b: seq<Model>, ops: seq<Op>, outsA: seq<Outcome>, outsB: seq<Outcome>, i: nat)
    requires IsTrace(a, ops, outsA) && IsTrace(b, ops, outsB) && SameShape(a[0], b[0]) && i < |outsA| && i < |outsB|
    ensures SameAnswer(outsA[i], outsB[i])
  {
    ShapesAgree(a, b, ops, outsA, outsB, i);
    assert TraceStep(a, ops, outsA, i) && TraceStep(b, ops, outsB, i);
    StepDetermined(a[i], b[i], ops[i], outsA[i], outsB[i], a[i + 1], b[i + 1]);
  }
}
