/** Open files: byte ranges read and written through whole sectors. */
module OpenFiles {
  import opened DiskLayout

  type Image = seq<Bytes>

  ghost predicate IsImage(img: Image) {
    && |img| == NUM_SECTORS
    && forall s :: 0 <= s < NUM_SECTORS ==> |img[s]| == SECTOR_SIZE
  }

  /** The disk as its users see it: synchronous access to an array of sectors. */
  class Disk {
    var sectors: Image

    ghost predicate Valid()
      reads this
    {
      IsImage(sectors)
    }

    constructor (img: Image)
      requires IsImage(img)
      ensures Valid() && sectors == img
    {
      sectors := img;
    }

    method ReadSector(s: nat) returns (data: Bytes)
      requires Valid() && s < NUM_SECTORS
      ensures data == sectors[s]
    {
      data := sectors[s];
    }

    method WriteSector(s: nat, data: Bytes)
      requires Valid() && s < NUM_SECTORS && |data| == SECTOR_SIZE
      modifies this
      ensures Valid() && sectors == old(sectors)[s := data]
    {
      sectors := sectors[s := data];
    }
  }

  // ----- What a header denotes -----

  /** Byte `k` of the file. */
  function ByteAt(img: Image, h: Header, k: nat): Byte {
    var i := k / SECTOR_SIZE;
    if i < NUM_DIRECT && h.dataSectors[i] < |img| && k % SECTOR_SIZE < |img[h.dataSectors[i]]|
    then img[h.dataSectors[i]][k % SECTOR_SIZE] else 0
  }

  function Contents(img: Image, h: Header): (c: Bytes)
    ensures |c| == h.numBytes
  {
    seq(h.numBytes, k requires 0 <= k => ByteAt(img, h, k))
  }

  /** Sectors the file's bytes occupy. */
  function Span(h: Header): nat { DivRoundUp(h.numBytes, SECTOR_SIZE) }

  ghost predicate Readable(h: Header) {
    && h.numBytes <= MAX_FILE_SIZE
    && forall i :: 0 <= i < Span(h) ==> h.dataSectors[i] < NUM_SECTORS
  }

  ghost predicate Writable(h: Header) {
    && Readable(h)
    && forall i, j :: 0 <= i < j < Span(h) ==> h.dataSectors[i] != h.dataSectors[j]
  }

  /** The sectors that hold a range of bytes exist. */
  ghost predicate Reachable(h: Header, position: nat, n: nat) {
    n > 0 ==> forall i :: position / SECTOR_SIZE <= i <= (position + n - 1) / SECTOR_SIZE ==> SectorOk(h, i)
  }

  ghost predicate SectorOk(h: Header, i: nat) {
    i < NUM_DIRECT && h.dataSectors[i] < NUM_SECTORS
  }

  lemma ReadableReachable(h: Header, position: nat, n: nat)
    requires Readable(h) && position + n <= h.numBytes
    ensures Reachable(h, position, n)
  {
  }

  /** Which byte of which sector each byte of a file is. */
  lemma ContentsByte(img: Image, h: Header, k: nat)
    requires IsImage(img) && Readable(h) && k < h.numBytes
    ensures k / 128 < 30 && h.dataSectors[k / 128] < 1024
    ensures Contents(img, h)[k] == img[h.dataSectors[k / 128]][k % 128]
  {
    assert k / SECTOR_SIZE < Span(h);
  }

  /** A file depends only on the sectors it occupies. */
  lemma ContentsFrame(img: Image, img': Image, h: Header)
    requires IsImage(img) && IsImage(img') && Readable(h)
    requires forall i :: 0 <= i < Span(h) ==> img'[h.dataSectors[i]] == img[h.dataSectors[i]]
    ensures Contents(img', h) == Contents(img, h)
  {
    forall k | 0 <= k < h.numBytes ensures ByteAt(img', h, k) == ByteAt(img, h, k) {
      assert k / SECTOR_SIZE < Span(h);
    }
  }

  // ----- Requests -----

  /** The length of a request after the end-of-file test, in 32-bit arithmetic. */
  function Clip(position: Word, numBytes: Word, length: Word): (n: Word) {
    if position >= length then 0
    else if (position + numBytes) % WORD > length then length - position
    else numBytes
  }

  /** The test clips a request to the file exactly when its end does not wrap around. */
  lemma ClipIff(position: Word, numBytes: Word, length: Word)
    requires numBytes > 0 && position < length
    ensures Clip(position, numBytes, length) == (if numBytes <= length - position then numBytes else length - position)
            <==> position + numBytes < WORD
    ensures position + Clip(position, numBytes, length) <= length <==> position + numBytes < WORD
  {
  }

  /** A request that wraps around is not clipped: reading 8 bytes short of 2^32 from
      position 10 of a 100-byte file asks for all of them. */
  lemma ClipCounterexample()
    ensures Clip(10, WORD - 8, 100) == WORD - 8
  {
  }

  predicate Wraps(position: Word, numBytes: Word, length: Word) {
    position < length && position + numBytes >= WORD
  }

  /** `Overrun` is the wrapped request, which the code would carry out of its buffers. */
  datatype Transfer = Transferred(count: nat) | Overrun

  /** A whole sector of a file, or what there is of it. */
  lemma SectorClip(h: Header, i: nat)
    requires Readable(h) && i < Span(h)
    ensures var p := i * SECTOR_SIZE;
            var n := Clip(p, SECTOR_SIZE, h.numBytes);
            && p < h.numBytes && !Wraps(p, SECTOR_SIZE, h.numBytes) && p / SECTOR_SIZE == i
            && 0 < n <= SECTOR_SIZE && p + n <= h.numBytes && (n == SECTOR_SIZE || p + n == h.numBytes)
            && Reachable(h, p, n)
  {
    var p := i * SECTOR_SIZE;
    ReadableReachable(h, p, Clip(p, SECTOR_SIZE, h.numBytes));
  }

  // ----- Buffers -----

  function Splice(s: Bytes, at: nat, d: Bytes): (r: Bytes)
    requires at + |d| <= |s|
    ensures |r| == |s|
    ensures forall k :: 0 <= k < |s| ==> r[k] == if at <= k < at + |d| then d[k - at] else s[k]
  {
    s[..at] + d + s[at + |d|..]
  }

  /** As much of `d` as fits, over the beginning of `s`. */
  function Overlaid(s: Bytes, d: Bytes): (r: Bytes)
    ensures |r| == |s|
    ensures |d| == |s| ==> r == d
    ensures |d| < |s| ==> r == d + s[|d|..]
    ensures |d| > |s| ==> r == d[..|s|]
  {
    var n := if |d| < |s| then |d| else |s|;
    d[..n] + s[n..]
  }

  lemma OverlaidBy(s: Bytes, d: Bytes, into: Bytes)
    requires into == if |d| < |s| then d else d[..|s|]
    ensures into + s[|into|..] == Overlaid(s, d)
  {
  }

  /** The first `n` bytes of a file, or as many as it has, can be read. */
  ghost predicate Fetchable(h: Header, n: nat) {
    Reachable(h, 0, if h.numBytes < n then h.numBytes else n)
  }

  method CopyInto(buf: array<Byte>, at: nat, data: Bytes)
    requires at + |data| <= buf.Length
    modifies buf
    ensures buf[..] == Splice(old(buf[..]), at, data)
  {
    forall k | 0 <= k < |data| {
      buf[at + k] := data[k];
    }
  }

  /** Positions of the file that buffer positions stand for, from sector `first`. */
  ghost predicate Holds(buf: seq<Byte>, first: nat, file: Bytes, from: nat, to: nat) {
    forall k :: from <= k < to && first * SECTOR_SIZE <= k < |file| && k - first * SECTOR_SIZE < |buf| ==>
      buf[k - first * SECTOR_SIZE] == file[k]
  }

  lemma HoldsExtend(buf: seq<Byte>, first: nat, img: Image, h: Header, i: nat)
    requires IsImage(img) && first <= i && SectorOk(h, i) && (i + 1 - first) * SECTOR_SIZE <= |buf|
    requires Holds(buf, first, Contents(img, h), first * SECTOR_SIZE, i * SECTOR_SIZE)
    ensures Holds(Splice(buf, (i - first) * SECTOR_SIZE, img[h.dataSectors[i]]), first, Contents(img, h),
                  first * SECTOR_SIZE, (i + 1) * SECTOR_SIZE)
  {
    var at, data := (i - first) * SECTOR_SIZE, img[h.dataSectors[i]];
    var buf', file := Splice(buf, at, data), Contents(img, h);
    forall k | first * SECTOR_SIZE <= k < (i + 1) * SECTOR_SIZE && k < |file| && k - first * SECTOR_SIZE < |buf|
      ensures buf'[k - first * SECTOR_SIZE] == file[k]
    {
      if k >= i * SECTOR_SIZE {
        assert k / SECTOR_SIZE == i && k % SECTOR_SIZE == k - i * SECTOR_SIZE;
        assert file[k] == ByteAt(img, h, k);
      }
    }
  }

  /** Sector `i` of a file, or what there is of it. */
  function Piece(file: Bytes, i: nat): (d: Bytes)
    requires i * SECTOR_SIZE < |file|
    ensures 0 < |d| <= SECTOR_SIZE && i * SECTOR_SIZE + |d| <= |file|
  {
    var p := i * SECTOR_SIZE;
    if p + SECTOR_SIZE <= |file| then file[p..p + SECTOR_SIZE] else file[p..]
  }

  /** Bringing a sector into a buffer keeps what it holds and adds a range. */
  lemma HoldsPiece(buf: seq<Byte>, first: nat, file: Bytes, i: nat, a: nat, b: nat)
    requires first <= i && i * SECTOR_SIZE < |file| && (i - first + 1) * SECTOR_SIZE <= |buf|
    requires Holds(buf, first, file, a, b)
    ensures var buf' := Splice(buf, (i - first) * SECTOR_SIZE, Piece(file, i));
            Holds(buf', first, file, a, b) && Holds(buf', first, file, i * SECTOR_SIZE, (i + 1) * SECTOR_SIZE)
  {
    var at, piece := (i - first) * SECTOR_SIZE, Piece(file, i);
    var buf' := Splice(buf, at, piece);
    forall k | first * SECTOR_SIZE <= k < |file| && k - first * SECTOR_SIZE < |buf|
      ensures var p := k - first * SECTOR_SIZE;
              buf'[p] == if i * SECTOR_SIZE <= k < (i + 1) * SECTOR_SIZE then file[k] else buf[p]
    {
      var p := k - first * SECTOR_SIZE;
      assert at <= p < at + |piece| <==> i * SECTOR_SIZE <= k < (i + 1) * SECTOR_SIZE;
    }
  }

  /** A buffer into which the partial sectors at either end of a range were read. */
  ghost predicate EndsRead(buf: seq<Byte>, buf': seq<Byte>, first: nat, last: nat, file: Bytes, position: nat, n: nat)
    requires first <= last && last * SECTOR_SIZE < |file| && |buf| == (1 + last - first) * SECTOR_SIZE
  {
    var firstAligned := position == first * SECTOR_SIZE;
    var lastAligned := position + n == (last + 1) * SECTOR_SIZE;
    var mid := if firstAligned then buf else Splice(buf, 0, Piece(file, first));
    buf' == if !lastAligned && (first != last || firstAligned)
            then Splice(mid, (last - first) * SECTOR_SIZE, Piece(file, last)) else mid
  }

  lemma EndsHold(buf: seq<Byte>, buf': seq<Byte>, first: nat, last: nat, file: Bytes, position: nat, n: nat)
    requires n > 0 && position + n <= |file| && |buf| == (1 + last - first) * SECTOR_SIZE
    requires first == position / SECTOR_SIZE && last == (position + n - 1) / SECTOR_SIZE
    requires EndsRead(buf, buf', first, last, file, position, n)
    ensures |buf'| == |buf| && Holds(buf', first, file, first * SECTOR_SIZE, position)
    ensures Holds(buf', first, file, position + n, (last + 1) * SECTOR_SIZE)
  {
    var mid := if position == first * SECTOR_SIZE then buf else Splice(buf, 0, Piece(file, first));
    HoldsPiece(buf, first, file, first, 0, 0);
    assert Holds(mid, first, file, first * SECTOR_SIZE, position);
    HoldsPiece(mid, first, file, last, first * SECTOR_SIZE, position);
  }

  /** Overlaying the new bytes turns a buffer that holds the rest of the old file into one
      that holds the new file. */
  lemma SpliceHolds(buf: seq<Byte>, first: nat, file: Bytes, p: nat, from: Bytes, last: nat)
    requires first * SECTOR_SIZE <= p && p - first * SECTOR_SIZE + |from| <= |buf| && p + |from| <= |file|
    requires Holds(buf, first, file, first * SECTOR_SIZE, p)
    requires Holds(buf, first, file, p + |from|, (last + 1) * SECTOR_SIZE)
    ensures Holds(Splice(buf, p - first * SECTOR_SIZE, from), first, Splice(file, p, from),
                  first * SECTOR_SIZE, (last + 1) * SECTOR_SIZE)
  {
  }

  /** Sector `k` of a buffer. */
  function Chunk(buf: seq<Byte>, k: nat): (d: Bytes)
    requires (k + 1) * SECTOR_SIZE <= |buf|
    ensures |d| == SECTOR_SIZE && forall r :: 0 <= r < SECTOR_SIZE ==> d[r] == buf[k * SECTOR_SIZE + r]
  {
    buf[k * SECTOR_SIZE..(k + 1) * SECTOR_SIZE]
  }

  /** The two steps together: what the buffer holds when the new bytes are in. */
  lemma FilledHolds(buf: seq<Byte>, first: nat, last: nat, file: Bytes, position: nat, from: Bytes)
    requires |from| > 0 && position + |from| <= |file| && |buf| == (1 + last - first) * SECTOR_SIZE
    requires first == position / SECTOR_SIZE && last == (position + |from| - 1) / SECTOR_SIZE
    requires exists empty: seq<Byte> :: |empty| == |buf| && EndsRead(empty, buf, first, last, file, position, |from|)
    ensures Holds(Splice(buf, position - first * SECTOR_SIZE, from), first, Splice(file, position, from),
                  first * SECTOR_SIZE, (last + 1) * SECTOR_SIZE)
  {
    var empty: seq<Byte> :| |empty| == |buf| && EndsRead(empty, buf, first, last, file, position, |from|);
    EndsHold(empty, buf, first, last, file, position, |from|);
    SpliceHolds(buf, first, file, position, from, last);
  }

  /** The sectors from `first` up to `end` of a file replaced from a buffer, nothing else. */
  ghost predicate Written(img: Image, img': Image, h: Header, first: nat, end: nat, buf: seq<Byte>)
    requires IsImage(img) && IsImage(img') && Readable(h) && first <= end <= Span(h)
    requires |buf| >= (end - first) * SECTOR_SIZE
  {
    && (forall i :: first <= i < end ==> img'[h.dataSectors[i]] == Chunk(buf, i - first))
    && (forall s :: 0 <= s < NUM_SECTORS && s !in h.dataSectors[first..end] ==> img'[s] == img[s])
  }

  lemma WrittenStep(img: Image, img': Image, h: Header, first: nat, i: nat, buf: seq<Byte>)
    requires IsImage(img) && IsImage(img') && Writable(h) && first <= i < Span(h)
    requires |buf| >= (i + 1 - first) * SECTOR_SIZE && Written(img, img', h, first, i, buf)
    ensures Written(img, img'[h.dataSectors[i] := Chunk(buf, i - first)], h, first, i + 1, buf)
  {
    var list, s := h.dataSectors[first..i], h.dataSectors[i];
    assert h.dataSectors[first..i + 1] == list + [s];
    var img'' := img'[s := Chunk(buf, i - first)];
    forall j | first <= j < i ensures img''[h.dataSectors[j]] == Chunk(buf, j - first) {
      assert h.dataSectors[j] != s;
    }
    forall r | 0 <= r < NUM_SECTORS && r !in list + [s] ensures img''[r] == img[r] {
      assert r !in list && r != s;
    }
  }

  lemma WrittenContents(img: Image, img': Image, h: Header, first: nat, last: nat, buf: seq<Byte>, file: Bytes)
    requires IsImage(img) && IsImage(img') && Writable(h) && first <= last < Span(h)
    requires |buf| == (last + 1 - first) * SECTOR_SIZE && |file| == h.numBytes
    requires Written(img, img', h, first, last + 1, buf)
    requires Holds(buf, first, file, first * SECTOR_SIZE, (last + 1) * SECTOR_SIZE)
    requires forall k :: 0 <= k < |file| && !(first * SECTOR_SIZE <= k < (last + 1) * SECTOR_SIZE) ==>
               file[k] == Contents(img, h)[k]
    ensures Contents(img', h) == file
  {
    forall k | 0 <= k < |file| ensures ByteAt(img', h, k) == file[k] {
      WrittenByte(img, img', h, first, last, buf, file, k);
    }
  }

  /** One byte of it: from the buffer, or from a sector that was not written. */
  lemma WrittenByte(img: Image, img': Image, h: Header, first: nat, last: nat, buf: seq<Byte>, file: Bytes, k: nat)
    requires IsImage(img) && IsImage(img') && Writable(h) && first <= last < Span(h)
    requires |buf| == (last + 1 - first) * SECTOR_SIZE && |file| == h.numBytes && k < |file|
    requires Written(img, img', h, first, last + 1, buf)
    requires Holds(buf, first, file, first * SECTOR_SIZE, (last + 1) * SECTOR_SIZE)
    requires !(first * SECTOR_SIZE <= k < (last + 1) * SECTOR_SIZE) ==> file[k] == Contents(img, h)[k]
    ensures ByteAt(img', h, k) == file[k]
  {
    var i, r := k / SECTOR_SIZE, k % SECTOR_SIZE;
    assert i < Span(h);
    if first <= i <= last {
      assert img'[h.dataSectors[i]] == Chunk(buf, i - first);
      assert (i - first) * SECTOR_SIZE + r == k - first * SECTOR_SIZE;
    } else {
      assert h.dataSectors[i] !in h.dataSectors[first..last + 1];
      assert ByteAt(img', h, k) == ByteAt(img, h, k);
    }
  }

  class OpenFile {
    const disk: Disk
    const hdr: Header
    var seekPosition: Word

    /** Opening reads the header and keeps it. */
    constructor (disk: Disk, sector: nat)
      requires disk.Valid() && sector < NUM_SECTORS
      ensures this.disk == disk && hdr == DecodeHeader(disk.sectors[sector]) && seekPosition == 0
    {
      this.disk := disk;
      var data := disk.ReadSector(sector);
      hdr := DecodeHeader(data);
      seekPosition := 0;
    }

    ghost predicate Valid()
      reads disk
    {
      disk.Valid() && Readable(hdr)
    }

    ghost function Bytes(): (c: DiskLayout.Bytes)
      reads disk
    {
      Contents(disk.sectors, hdr)
    }

    function ByteToSector(offset: nat): Word
      requires offset / SECTOR_SIZE < NUM_DIRECT
    {
      hdr.dataSectors[offset / SECTOR_SIZE]
    }

    /** The sectors `first` to `last`, one after the other. */
    method ReadSectors(first: nat, last: nat) returns (buf: array<Byte>)
      requires disk.Valid() && first <= last && forall i :: first <= i <= last ==> SectorOk(hdr, i)
      ensures fresh(buf) && buf.Length == (1 + last - first) * SECTOR_SIZE
      ensures Holds(buf[..], first, Bytes(), first * SECTOR_SIZE, (last + 1) * SECTOR_SIZE)
    {
      buf := new Byte[(1 + last - first) * SECTOR_SIZE];
      for i := first to last + 1
        invariant fresh(buf) && buf.Length == (1 + last - first) * SECTOR_SIZE
        invariant Holds(buf[..], first, Bytes(), first * SECTOR_SIZE, i * SECTOR_SIZE)
      {
        assert SectorOk(hdr, i);
        var data := disk.ReadSector(ByteToSector(i * SECTOR_SIZE));
        HoldsExtend(buf[..], first, disk.sectors, hdr, i);
        CopyInto(buf, (i - first) * SECTOR_SIZE, data);
      }
    }

    /** Reads a range, clipped to the end of the file; the disk refuses sectors that it lacks. */
    method ReadAt(numBytes: Word, position: Word) returns (r: Transfer, into: DiskLayout.Bytes)
      requires disk.Valid() && numBytes > 0
      requires !Wraps(position, numBytes, hdr.numBytes) ==>
                 Reachable(hdr, position, Clip(position, numBytes, hdr.numBytes))
      ensures r.Overrun? <==> Wraps(position, numBytes, hdr.numBytes)
      ensures r.Transferred? ==>
                && r.count == Clip(position, numBytes, hdr.numBytes)
                && (r.count > 0 ==> position + r.count <= hdr.numBytes)
                && into == if r.count == 0 then [] else Bytes()[position..position + r.count]
    {
      if position >= hdr.numBytes {
        return Transferred(0), [];
      }
      ClipIff(position, numBytes, hdr.numBytes);
      if position + numBytes >= WORD {
        return Overrun, [];
      }
      var n: nat := if position + numBytes > hdr.numBytes then hdr.numBytes - position else numBytes;
      var first, last := position / SECTOR_SIZE, (position + n - 1) / SECTOR_SIZE;
      var buf := ReadSectors(first, last);
      var off := position - first * SECTOR_SIZE;
      into := buf[off..off + n];
      assert into == Bytes()[position..position + n];
      return Transferred(n), into;
    }

    /** Sector `i` of the file, or what there is of it. */
    method ReadPiece(i: nat) returns (data: DiskLayout.Bytes)
      requires Valid() && i < Span(hdr)
      ensures data == Piece(Bytes(), i)
    {
      SectorClip(hdr, i);
      var r;
      r, data := ReadAt(SECTOR_SIZE, i * SECTOR_SIZE);
    }

    /** Brings sector `i` of the file into its place in a buffer that starts at `first`. */
    method ReadInto(buf: array<Byte>, first: nat, i: nat)
      requires Valid() && first <= i < Span(hdr) && (i - first + 1) * SECTOR_SIZE <= buf.Length
      modifies buf
      ensures buf[..] == Splice(old(buf[..]), (i - first) * SECTOR_SIZE, Piece(Bytes(), i))
    {
      var data := ReadPiece(i);
      CopyInto(buf, (i - first) * SECTOR_SIZE, data);
    }

    /** A new buffer with the partial sectors at either end of a range read in. */
    method ReadEnds(position: nat, n: nat, first: nat, last: nat) returns (buf: array<Byte>)
      requires Valid() && n > 0 && position + n <= hdr.numBytes
      requires first == position / SECTOR_SIZE && last == (position + n - 1) / SECTOR_SIZE
      ensures fresh(buf) && buf.Length == (1 + last - first) * SECTOR_SIZE
      ensures exists empty: seq<Byte> ::
                |empty| == buf.Length && EndsRead(empty, buf[..], first, last, Bytes(), position, n)
    {
      buf := new Byte[(1 + last - first) * SECTOR_SIZE];
      ghost var empty := buf[..];
      var firstAligned := position == first * SECTOR_SIZE;
      var lastAligned := position + n == (last + 1) * SECTOR_SIZE;
      if !firstAligned {
        ReadInto(buf, first, first);
      }
      if !lastAligned && (first != last || firstAligned) {
        ReadInto(buf, first, last);
      }
      assert EndsRead(empty, buf[..], first, last, Bytes(), position, n);
    }

    /** The buffer WriteAt sends out: partial sectors at either end are read first. */
    method FillBuffer(from: DiskLayout.Bytes, position: nat, first: nat, last: nat) returns (buf: array<Byte>)
      requires Valid() && |from| > 0 && position + |from| <= hdr.numBytes
      requires first == position / SECTOR_SIZE && last == (position + |from| - 1) / SECTOR_SIZE
      ensures fresh(buf) && buf.Length == (1 + last - first) * SECTOR_SIZE
      ensures Holds(buf[..], first, Splice(Bytes(), position, from), first * SECTOR_SIZE, (last + 1) * SECTOR_SIZE)
    {
      buf := ReadEnds(position, |from|, first, last);
      FilledHolds(buf[..], first, last, Bytes(), position, from);
      CopyInto(buf, position - first * SECTOR_SIZE, from);
    }

    method WriteSectors(first: nat, last: nat, buf: DiskLayout.Bytes)
      requires Valid() && Writable(hdr) && first <= last < Span(hdr)
      requires |buf| == (1 + last - first) * SECTOR_SIZE
      modifies disk
      ensures Valid() && Written(old(disk.sectors), disk.sectors, hdr, first, last + 1, buf)
    {
      for i := first to last + 1
        invariant disk.Valid() && Written(old(disk.sectors), disk.sectors, hdr, first, i, buf)
      {
        WrittenStep(old(disk.sectors), disk.sectors, hdr, first, i, buf);
        disk.WriteSector(ByteToSector(i * SECTOR_SIZE), Chunk(buf, i - first));
      }
    }

    /** Writes a range, clipped to the end of the file: the contents become the old ones
        with that range replaced, and no sector outside the file changes. */
    method WriteAt(from: DiskLayout.Bytes, position: Word) returns (r: Transfer)
      requires Valid() && Writable(hdr) && 0 < |from| < WORD
      modifies disk
      ensures disk.Valid()
      ensures r.Overrun? <==> Wraps(position, |from|, hdr.numBytes)
      ensures r.Transferred? ==>
                && r.count == Clip(position, |from|, hdr.numBytes)
                && r.count <= |from|
                && (r.count > 0 ==> position + r.count <= hdr.numBytes)
                && Bytes() == if r.count == 0 then old(Bytes()) else Splice(old(Bytes()), position, from[..r.count])
      ensures r.Transferred? ==>
                forall s :: 0 <= s < NUM_SECTORS && s !in hdr.dataSectors[..Span(hdr)] ==>
                  disk.sectors[s] == old(disk.sectors)[s]
    {
      if position >= hdr.numBytes {
        return Transferred(0);
      }
      ClipIff(position, |from|, hdr.numBytes);
      if position + |from| >= WORD {
        return Overrun;
      }
      var n: nat := if position + |from| > hdr.numBytes then hdr.numBytes - position else |from|;
      var first, last := position / SECTOR_SIZE, (position + n - 1) / SECTOR_SIZE;
      var buf := FillBuffer(from[..n], position, first, last);
      ghost var file := Splice(Bytes(), position, from[..n]);
      WriteSectors(first, last, buf[..]);
      WrittenContents(old(disk.sectors), disk.sectors, hdr, first, last, buf[..], file);
      return Transferred(n);
    }

    /** Brings the beginning of the file over a piece of memory. */
    method Fetch(memory: DiskLayout.Bytes) returns (data: DiskLayout.Bytes)
      requires disk.Valid() && 0 < |memory| < WORD && Fetchable(hdr, |memory|)
      ensures data == Overlaid(memory, Bytes())
    {
      var r, into := ReadAt(|memory|, 0);
      OverlaidBy(memory, Bytes(), into);
      data := into + memory[|into|..];
    }

    /** Writes a piece of memory over the beginning of the file, as far as the file goes. */
    method Save(memory: DiskLayout.Bytes)
      requires Valid() && Writable(hdr) && 0 < |memory| < WORD
      modifies disk
      ensures disk.Valid() && Bytes() == Overlaid(old(Bytes()), memory)
      ensures forall s :: 0 <= s < NUM_SECTORS && s !in hdr.dataSectors[..Span(hdr)] ==>
                disk.sectors[s] == old(disk.sectors)[s]
    {
      var r := WriteAt(memory, 0);
    }

    method Seek(position: Word)
      modifies this`seekPosition
      ensures seekPosition == position
    {
      seekPosition := position;
    }

    /** Sequential reading: successive calls deliver consecutive pieces of the file. */
    method Read(numBytes: Word) returns (r: Transfer, into: DiskLayout.Bytes)
      requires Valid() && numBytes > 0
      modifies this`seekPosition
      ensures r.Overrun? <==> Wraps(old(seekPosition), numBytes, hdr.numBytes)
      ensures r.Transferred? ==>
                && seekPosition == old(seekPosition) + r.count
                && r.count == Clip(old(seekPosition), numBytes, hdr.numBytes)
                && (r.count > 0 ==> seekPosition <= hdr.numBytes)
                && into == if r.count == 0 then [] else Bytes()[old(seekPosition)..seekPosition]
    {
      if !Wraps(seekPosition, numBytes, hdr.numBytes) && seekPosition < hdr.numBytes {
        ReadableReachable(hdr, seekPosition, Clip(seekPosition, numBytes, hdr.numBytes));
      }
      r, into := ReadAt(numBytes, seekPosition);
      if r.Transferred? {
        seekPosition := seekPosition + r.count;
      }
    }

    method Write(from: DiskLayout.Bytes) returns (r: Transfer)
      requires Valid() && Writable(hdr) && 0 < |from| < WORD
      modifies this`seekPosition, disk
      ensures disk.Valid()
      ensures r.Overrun? <==> Wraps(old(seekPosition), |from|, hdr.numBytes)
      ensures r.Transferred? ==>
                && seekPosition == old(seekPosition) + r.count
                && r.count == Clip(old(seekPosition), |from|, hdr.numBytes) <= |from|
                && (r.count > 0 ==> seekPosition <= hdr.numBytes)
                && Bytes() == if r.count == 0 then old(Bytes())
                              else Splice(old(Bytes()), old(seekPosition), from[..r.count])
      ensures r.Transferred? ==>
                forall s :: 0 <= s < NUM_SECTORS && s !in hdr.dataSectors[..Span(hdr)] ==>
                  disk.sectors[s] == old(disk.sectors)[s]
    {
      r := WriteAt(from, seekPosition);
      if r.Transferred? {
        seekPosition := seekPosition + r.count;
      }
    }
  }
}
