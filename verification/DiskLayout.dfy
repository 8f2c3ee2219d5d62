/** How file headers, the free map and the directory are laid out in 128-byte sectors:
    32-bit little-endian words, bits packed from the low end, 20-byte directory entries. */
module DiskLayout {
  import opened Common

  const SECTOR_SIZE := 128
  const NUM_SECTORS := 1024
  const NUM_DIRECT := 30
  const MAX_FILE_SIZE := 3840
  const NUM_DIR_ENTRIES := 10
  const ENTRY_SIZE := 20
  const FREE_MAP_FILE_SIZE := 128
  const DIRECTORY_FILE_SIZE := 200
  const FILE_NAME_MAX_LEN := 9
  const WORD := 0x1_0000_0000

  type Byte = b: int | 0 <= b < 256
  type Bytes = seq<Byte>
  type Word = w: int | 0 <= w < WORD

  function DivRoundUp(n: nat, s: nat): (r: nat)
    requires s > 0
  {
    n / s + (if n % s > 0 then 1 else 0)
  }

  /** As many pieces as are needed, and no more. */
  lemma DivRoundUpLeast(n: nat, s: nat)
    requires s > 0
    ensures n <= DivRoundUp(n, s) * s < n + s
  {
    assert n == n / s * s + n % s;
    assert (n / s + 1) * s == n / s * s + s;
  }

  // ----- Words -----

  function EncodeWord(w: Word): (b: Bytes)
    ensures |b| == 4
  {
    [w % 256, w / 0x100 % 256, w / 0x1_0000 % 256, w / 0x100_0000]
  }

  function DecodeWord(b: Bytes): Word
    requires |b| == 4
  {
    var b0: int, b1: int, b2: int, b3: int := b[0], b[1], b[2], b[3];
    b0 + 0x100 * b1 + 0x1_0000 * b2 + 0x100_0000 * b3
  }

  lemma WordRoundTrip(w: Word)
    ensures DecodeWord(EncodeWord(w)) == w
  {
    var q := w / 0x100;
    var r := q / 0x100;
    assert w / 0x1_0000 == r && w / 0x100_0000 == r / 0x100;
    assert w == w % 0x100 + 0x100 * (q % 0x100) + 0x1_0000 * r;
  }

  function EncodeWords(ws: seq<Word>): (b: Bytes)
    ensures |b| == 4 * |ws|
  {
    if ws == [] then [] else EncodeWord(ws[0]) + EncodeWords(ws[1..])
  }

  function DecodeWords(b: Bytes): (ws: seq<Word>)
    ensures |ws| == |b| / 4
  {
    if |b| < 4 then [] else [DecodeWord(b[..4])] + DecodeWords(b[4..])
  }

  lemma {:induction false} WordsRoundTrip(ws: seq<Word>)
    ensures DecodeWords(EncodeWords(ws)) == ws
  {
    if ws != [] {
      var b := EncodeWords(ws);
      assert b[..4] == EncodeWord(ws[0]) && b[4..] == EncodeWords(ws[1..]);
      WordRoundTrip(ws[0]);
      WordsRoundTrip(ws[1..]);
    }
  }

  // ----- File headers -----

  datatype HeaderBlock = Header(numBytes: Word, numSectors: Word, dataSectors: seq<Word>)

  type Header = h: HeaderBlock | |h.dataSectors| == NUM_DIRECT
    witness Header(0, 0, seq(NUM_DIRECT, _ => 0))

  function EncodeHeader(h: Header): (b: Bytes)
    ensures |b| == SECTOR_SIZE
  {
    EncodeWords([h.numBytes, h.numSectors] + h.dataSectors)
  }

  function DecodeHeader(b: Bytes): Header
    requires |b| == SECTOR_SIZE
  {
    var ws := DecodeWords(b);
    Header(ws[0], ws[1], ws[2..])
  }

  lemma HeaderRoundTrip(h: Header)
    ensures DecodeHeader(EncodeHeader(h)) == h
  {
    var ws := [h.numBytes, h.numSectors] + h.dataSectors;
    WordsRoundTrip(ws);
    assert ws[2..] == h.dataSectors;
  }

  // ----- Bitmaps -----

  function Bit(b: bool): Byte { if b then 1 else 0 }

  function Pack(b: seq<bool>): (r: nat)
    ensures r < Pow2(|b|)
  {
    if b == [] then 0 else (if b[0] then 1 else 0) + 2 * Pack(b[1..])
  }

  function Unpack(x: nat, n: nat): (b: seq<bool>)
    ensures |b| == n
  {
    if n == 0 then [] else [x % 2 == 1] + Unpack(x / 2, n - 1)
  }

  lemma {:induction false} PackRoundTrip(b: seq<bool>)
    ensures Unpack(Pack(b), |b|) == b
  {
    if b != [] {
      PackRoundTrip(b[1..]);
    }
  }

  function PackByte(b: seq<bool>): Byte
    requires |b| == 8
  {
    assert Pow2(8) == 256;
    Pack(b)
  }

  function EncodeBits(bits: seq<bool>): (b: Bytes)
    ensures |b| == |bits| / 8
  {
    if |bits| < 8 then [] else [PackByte(bits[..8])] + EncodeBits(bits[8..])
  }

  function DecodeBits(b: Bytes): (bits: seq<bool>)
    ensures |bits| == 8 * |b|
  {
    if b == [] then [] else Unpack(b[0], 8) + DecodeBits(b[1..])
  }

  lemma {:induction false} BitsRoundTrip(bits: seq<bool>)
    requires |bits| % 8 == 0
    ensures DecodeBits(EncodeBits(bits)) == bits
  {
    if bits != [] {
      PackRoundTrip(bits[..8]);
      BitsRoundTrip(bits[8..]);
      assert bits == bits[..8] + bits[8..];
    }
  }

  // ----- Directory entries -----

  datatype EntryBlock = Entry(inUse: bool, sector: Word, name: Bytes)

  type Entry = e: EntryBlock | |e.name| == FILE_NAME_MAX_LEN + 1
    witness Entry(false, 0, seq(FILE_NAME_MAX_LEN + 1, _ => 0))

  function EncodeEntry(e: Entry): (b: Bytes)
    ensures |b| == ENTRY_SIZE
  {
    [Bit(e.inUse), 0, 0, 0] + EncodeWord(e.sector) + e.name + [0, 0]
  }

  function DecodeEntry(b: Bytes): Entry
    requires |b| == ENTRY_SIZE
  {
    Entry(b[0] != 0, DecodeWord(b[4..8]), b[8..18])
  }

  lemma EntryRoundTrip(e: Entry)
    ensures DecodeEntry(EncodeEntry(e)) == e
  {
    var b := EncodeEntry(e);
    assert b[4..8] == EncodeWord(e.sector);
    assert b[8..18] == e.name;
    WordRoundTrip(e.sector);
  }

  function EncodeTable(t: seq<Entry>): (b: Bytes)
    ensures |b| == ENTRY_SIZE * |t|
  {
    if t == [] then [] else EncodeEntry(t[0]) + EncodeTable(t[1..])
  }

  function DecodeTable(b: Bytes): (t: seq<Entry>)
    ensures |t| == |b| / ENTRY_SIZE
  {
    if |b| < ENTRY_SIZE then [] else [DecodeEntry(b[..ENTRY_SIZE])] + DecodeTable(b[ENTRY_SIZE..])
  }

  lemma {:induction false} TableRoundTrip(t: seq<Entry>)
    ensures DecodeTable(EncodeTable(t)) == t
  {
    if t != [] {
      var b := EncodeTable(t);
      assert b[..ENTRY_SIZE] == EncodeEntry(t[0]) && b[ENTRY_SIZE..] == EncodeTable(t[1..]);
      EntryRoundTrip(t[0]);
      TableRoundTrip(t[1..]);
    }
  }

  // ----- Names -----

  /** The bytes before the first NUL among the first `n`. */
  function CString(b: Bytes, n: nat): (s: Bytes)
    ensures |s| <= n && |s| <= |b| && 0 !in s
    ensures s == b[..|s|]
  {
    if n == 0 || b == [] || b[0] == 0 then [] else [b[0]] + CString(b[1..], n - 1)
  }

  /** It goes on until a NUL, or as far as there are bytes. */
  lemma {:induction false} CStringEnds(b: Bytes, n: nat)
    ensures var k := |CString(b, n)|; k < n && k < |b| ==> b[k] == 0
  {
    if n > 0 && b != [] && b[0] != 0 {
      CStringEnds(b[1..], n - 1);
    }
  }

  /** Names are compared, and therefore identified, by their first nine characters. */
  function Key(name: Bytes): (k: Bytes)
    ensures |k| <= FILE_NAME_MAX_LEN
  {
    CString(name, FILE_NAME_MAX_LEN)
  }

  /** strncpy into a name field: nine bytes copied or zeroed, the tenth left alone. */
  function CopyName(field: Bytes, name: Bytes): (r: Bytes)
    requires |field| == FILE_NAME_MAX_LEN + 1
    ensures |r| == FILE_NAME_MAX_LEN + 1 && r[FILE_NAME_MAX_LEN] == field[FILE_NAME_MAX_LEN]
  {
    var k := Key(name);
    k + seq(FILE_NAME_MAX_LEN - |k|, _ => 0) + [field[FILE_NAME_MAX_LEN]]
  }

  lemma {:induction false} CStringOfPadded(k: Bytes, rest: Bytes, n: nat)
    requires 0 !in k && |k| <= n && (|k| < n ==> rest != [] && rest[0] == 0)
    ensures CString(k + rest, n) == k
  {
    if k != [] {
      assert (k + rest)[1..] == k[1..] + rest;
      CStringOfPadded(k[1..], rest, n - 1);
    } else {
      assert k + rest == rest;
    }
  }

  /** A copied name is found again under the same key. */
  lemma CopyNameKey(field: Bytes, name: Bytes)
    requires |field| == FILE_NAME_MAX_LEN + 1
    ensures Key(CopyName(field, name)) == Key(name)
  {
    var k := Key(name);
    var rest := seq(FILE_NAME_MAX_LEN - |k|, _ => 0) + [field[FILE_NAME_MAX_LEN]];
    assert CopyName(field, name) == k + rest;
    CStringOfPadded(k, rest, FILE_NAME_MAX_LEN);
  }

  /** Byte by byte: the name as far as it goes, zeros up to the ninth byte. */
  lemma CopyNameBytes(field: Bytes, name: Bytes, j: nat)
    requires |field| == FILE_NAME_MAX_LEN + 1 && j < 9
    ensures (forall i :: 0 <= i <= j && i < |name| ==> name[i] != 0) && j < |name| ==> CopyName(field, name)[j] == name[j]
    ensures (exists i :: 0 <= i <= j && i < |name| && name[i] == 0) || j >= |name| ==> CopyName(field, name)[j] == 0
  {
    CStringEnds(name, FILE_NAME_MAX_LEN);
    var k := Key(name);
    assert forall i :: 0 <= i < |k| ==> k[i] == name[i];
  }
}
