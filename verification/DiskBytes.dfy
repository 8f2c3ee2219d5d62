/** The layout on disk, byte by byte and without the codec: what each byte of a header, of the
    free map and of a directory entry stands for. */
module DiskBytes {
  import opened Common
  import opened DiskLayout

  /** The four bytes at `p` are a number, lowest byte first. */
  ghost predicate WordIn(f: Bytes, p: nat, w: int)
    requires p + 4 <= |f|
  {
    var b0: int, b1: int, b2: int, b3: int := f[p], f[p + 1], f[p + 2], f[p + 3];
    w == b0 + 0x100 * b1 + 0x1_0000 * b2 + 0x100_0000 * b3
  }

  /** A directory entry at `p`: a flag, three bytes of padding, the sector and ten bytes of name. */
  ghost predicate EntryIn(f: Bytes, p: nat, e: Entry)
    requires p + ENTRY_SIZE <= |f|
  {
    (e.inUse <==> f[p] != 0) && WordIn(f, p + 4, e.sector) && e.name == f[p + 8..p + 18]
  }

  /** A header's sector: the size, the number of sectors and the thirty sectors. */
  ghost predicate HeaderIn(b: Bytes, h: Header)
    requires |b| == SECTOR_SIZE
  {
    && WordIn(b, 0, h.numBytes) && WordIn(b, 4, h.numSectors)
    && forall k :: 0 <= k < NUM_DIRECT ==> WordIn(b, 8 + 4 * k, h.dataSectors[k])
  }

  /** Bit `s` of a bitmap's file. */
  ghost predicate BitIn(f: Bytes, s: nat, bit: bool)
    requires s / 8 < |f|
  {
    bit <==> f[s / 8] / Pow2(s % 8) % 2 == 1
  }

  // ----- Words and headers -----

  lemma {:induction false} DecodedWords(b: Bytes, k: nat)
    requires 4 * k + 4 <= |b|
    ensures WordIn(b, 4 * k, DecodeWords(b)[k])
  {
    if k == 0 {
      assert b[..4] == [b[0], b[1], b[2], b[3]];
    } else {
      DecodedWords(b[4..], k - 1);
    }
  }

  lemma DecodedHeader(b: Bytes)
    requires |b| == SECTOR_SIZE
    ensures HeaderIn(b, DecodeHeader(b))
  {
    DecodedWords(b, 0);
    DecodedWords(b, 1);
    forall k | 0 <= k < NUM_DIRECT ensures WordIn(b, 8 + 4 * k, DecodeHeader(b).dataSectors[k]) {
      DecodedWords(b, k + 2);
    }
  }

  lemma EncodedHeader(h: Header)
    ensures HeaderIn(EncodeHeader(h), h)
  {
    HeaderRoundTrip(h);
    DecodedHeader(EncodeHeader(h));
  }

  /** The bytes decide. */
  lemma HeaderInUnique(b: Bytes, h: Header, h': Header)
    requires |b| == SECTOR_SIZE && HeaderIn(b, h) && HeaderIn(b, h')
    ensures h == h'
  {
    forall k | 0 <= k < NUM_DIRECT ensures h.dataSectors[k] == h'.dataSectors[k] {
      assert WordIn(b, 8 + 4 * k, h.dataSectors[k]) && WordIn(b, 8 + 4 * k, h'.dataSectors[k]);
    }
  }

  // ----- Directory entries -----

  lemma DecodedEntry(b: Bytes)
    requires |b| == ENTRY_SIZE
    ensures EntryIn(b, 0, DecodeEntry(b))
  {
    assert b[4..8] == [b[4], b[5], b[6], b[7]];
  }

  lemma {:induction false} TableEntry(f: Bytes, i: nat)
    requires ENTRY_SIZE * i + ENTRY_SIZE <= |f|
    ensures DecodeTable(f)[i] == DecodeEntry(f[ENTRY_SIZE * i..ENTRY_SIZE * i + ENTRY_SIZE])
  {
    if i > 0 {
      var rest, p := f[ENTRY_SIZE..], ENTRY_SIZE * (i - 1);
      TableEntry(rest, i - 1);
      assert rest[p..p + ENTRY_SIZE] == f[ENTRY_SIZE + p..ENTRY_SIZE + p + ENTRY_SIZE];
    }
  }

  lemma EntryAt(f: Bytes, p: nat)
    requires p + ENTRY_SIZE <= |f|
    ensures EntryIn(f, p, DecodeEntry(f[p..p + ENTRY_SIZE]))
  {
    var b := f[p..p + ENTRY_SIZE];
    DecodedEntry(b);
    var name, field := b[8..18], f[p + 8..p + 18];
    assert forall k :: 0 <= k < 10 ==> field[k] == f[p + (8 + k)] && name[k] == b[8 + k];
  }

  lemma DecodedTable(f: Bytes, i: nat)
    requires ENTRY_SIZE * i + ENTRY_SIZE <= |f|
    ensures EntryIn(f, ENTRY_SIZE * i, DecodeTable(f)[i])
  {
    TableEntry(f, i);
    EntryAt(f, ENTRY_SIZE * i);
  }

  lemma EncodedTable(t: seq<Entry>, i: nat)
    requires i < |t|
    ensures EntryIn(EncodeTable(t), ENTRY_SIZE * i, t[i])
  {
    TableRoundTrip(t);
    DecodedTable(EncodeTable(t), i);
  }

  /** The flag is stored as one. */
  lemma {:induction false} EncodedFlag(t: seq<Entry>, i: nat)
    requires i < |t|
    ensures EncodeTable(t)[ENTRY_SIZE * i] == if t[i].inUse then 1 else 0
  {
    if i > 0 {
      EncodedFlag(t[1..], i - 1);
    }
  }

  /** An entry depends on its own twenty bytes. */
  lemma EntrySame(f: Bytes, g: Bytes, p: nat, e: Entry)
    requires p + ENTRY_SIZE <= |f| && p + ENTRY_SIZE <= |g| && f[p..p + ENTRY_SIZE] == g[p..p + ENTRY_SIZE]
    requires EntryIn(f, p, e)
    ensures EntryIn(g, p, e)
  {
    var a, b := f[p..p + ENTRY_SIZE], g[p..p + ENTRY_SIZE];
    assert forall k :: 0 <= k < ENTRY_SIZE ==> f[p + k] == a[k] && g[p + k] == b[k];
    assert f[p + 8..p + 18] == a[8..18];
    assert g[p + 8..p + 18] == b[8..18];
  }

  lemma EntryInUnique(f: Bytes, p: nat, e: Entry, e': Entry)
    requires p + ENTRY_SIZE <= |f| && EntryIn(f, p, e) && EntryIn(f, p, e')
    ensures e == e'
  {
  }

  // ----- Bitmaps -----

  lemma {:induction false} UnpackedBit(x: nat, n: nat, j: nat)
    requires j < n
    ensures Unpack(x, n)[j] <==> x / Pow2(j) % 2 == 1
  {
    if j > 0 {
      UnpackedBit(x / 2, n - 1, j - 1);
      var p := Pow2(j - 1);
      Halves(x, p);
      assert Pow2(j) == 2 * p && Unpack(x, n)[j] == Unpack(x / 2, n - 1)[j - 1];
    }
  }

  lemma Halves(x: nat, p: nat)
    requires p > 0
    ensures x / 2 / p == x / (2 * p)
  {
    var q, r := x / 2 / p, x / 2 % p;
    assert x / 2 == q * p + r;
    QuotientIs(x, 2 * p, q, 2 * r + x % 2);
  }

  lemma QuotientIs(x: nat, d: nat, q: nat, r: nat)
    requires r < d && x == q * d + r
    ensures x / d == q
  {
    var q', r' := x / d, x % d;
    assert x == q' * d + r';
    assert (q' - q) * d == r - r';
    NoGap(q' - q, d, r - r');
  }

  lemma NoGap(a: int, d: int, e: int)
    requires a * d == e && -d < e < d
    ensures a == 0
  {
    assert a >= 1 ==> a * d >= d;
    assert a <= -1 ==> a * d <= -d;
  }

  lemma {:induction false} DecodedBits(f: Bytes, s: nat)
    requires s < 8 * |f|
    ensures BitIn(f, s, DecodeBits(f)[s])
  {
    if s < 8 {
      UnpackedBit(f[0], 8, s);
    } else {
      DecodedBits(f[1..], s - 8);
      assert s / 8 == (s - 8) / 8 + 1 && s % 8 == (s - 8) % 8;
    }
  }

  lemma EncodedBits(bits: seq<bool>, s: nat)
    requires |bits| % 8 == 0 && s < |bits|
    ensures BitIn(EncodeBits(bits), s, bits[s])
  {
    BitsRoundTrip(bits);
    DecodedBits(EncodeBits(bits), s);
  }

  /** In the code's terms: bit `s` is bit s % 32 of the 32-bit word s / 32. */
  lemma BitOfWord(f: Bytes, s: nat, w: int)
    requires 4 * (s / 32) + 4 <= |f| && WordIn(f, 4 * (s / 32), w)
    ensures s / 8 < |f| && w >= 0
    ensures BitIn(f, s, w / Pow2(s % 32) % 2 == 1)
  {
    var p, j, k := 4 * (s / 32), s % 32 / 8, s % 8;
    WhichByte(s);
    WordBit(f[p], f[p + 1], f[p + 2], f[p + 3], j, k);
    assert [f[p], f[p + 1], f[p + 2], f[p + 3]][j] == f[s / 8];
  }

  lemma WhichByte(s: nat)
    ensures s / 8 == 4 * (s / 32) + s % 32 / 8 && s % 32 == 8 * (s % 32 / 8) + s % 8
  {
  }

  lemma WordBit(b0: Byte, b1: Byte, b2: Byte, b3: Byte, j: nat, k: nat)
    requires j < 4 && k < 8
    ensures var w: int := b0 as int + 0x100 * b1 as int + 0x1_0000 * b2 as int + 0x100_0000 * b3 as int;
            w / Pow2(8 * j + k) % 2 == [b0, b1, b2, b3][j] / Pow2(k) % 2
  {
    var w: int := b0 as int + 0x100 * b1 as int + 0x1_0000 * b2 as int + 0x100_0000 * b3 as int;
    BytePowers();
    match j {
      case 0 => ByteOfWord(w, 0, 0, b0, b1 as int + 0x100 * b2 as int + 0x1_0000 * b3 as int, k);
      case 1 => ByteOfWord(w, 1, b0, b1, b2 as int + 0x100 * b3 as int, k);
      case 2 => ByteOfWord(w, 2, b0 as int + 0x100 * b1 as int, b2, b3, k);
      case 3 => ByteOfWord(w, 3, b0 as int + 0x100 * b1 as int + 0x1_0000 * b2 as int, b3, 0, k);
    }
  }

  lemma BytePowers()
    ensures Pow2(8 * 0) == 1 && Pow2(8 * 1) == 0x100 && Pow2(8 * 2) == 0x1_0000 && Pow2(8 * 3) == 0x100_0000
  {
    assert Pow2(8) == 0x100;
    PowerSum(8, 8);
    PowerSum(16, 8);
  }

  /** A number cut into what is below byte `j`, that byte, and what is above. */
  lemma ByteOfWord(w: int, j: nat, low: nat, b: nat, high: nat, k: nat)
    requires j < 4 && k < 8 && b < 256 && low < Pow2(8 * j) && w == low + Pow2(8 * j) * (b + 0x100 * high)
    ensures w / Pow2(8 * j + k) % 2 == b / Pow2(k) % 2
  {
    PowerSum(8 * j, k);
    var p, q, x := Pow2(8 * j), Pow2(k), b + 0x100 * high;
    Nested(w, low, p, x, q);
    LowBits(b, high, k);
  }

  lemma {:induction false} PowerSum(m: nat, k: nat)
    ensures Pow2(m + k) == Pow2(m) * Pow2(k)
  {
    if k > 0 {
      PowerSum(m, k - 1);
    }
  }

  lemma Nested(w: nat, low: nat, p: nat, x: nat, q: nat)
    requires p > 0 && q > 0 && low < p && w == low + p * x
    ensures w / (p * q) == x / q
  {
    var d, r := x / q, x % q;
    assert x == d * q + r;
    assert p * x == d * (p * q) + p * r;
    assert p * r <= p * (q - 1);
    QuotientIs(w, p * q, d, low + p * r);
  }

  lemma LowBits(b: nat, high: nat, k: nat)
    requires k < 8
    ensures (b + 0x100 * high) / Pow2(k) % 2 == b / Pow2(k) % 2
  {
    PowerSum(k, 8 - k);
    BytePowers();
    assert Pow2(8 - k) == 2 * Pow2(7 - k);
    EvenAbove(b, high, Pow2(k), Pow2(7 - k));
  }

  lemma EvenAbove(b: nat, high: nat, p: nat, r: nat)
    requires p > 0 && p * (2 * r) == 0x100
    ensures (b + 0x100 * high) / p % 2 == b / p % 2
  {
    var m := r * high;
    Regroup(p, r, high);
    Multiple(b, p, 2 * m);
    EvenSum(b / p, m);
  }

  lemma EvenSum(x: int, m: int)
    ensures (x + 2 * m) % 2 == x % 2
  {
  }

  lemma Regroup(p: nat, r: nat, high: nat)
    requires p * (2 * r) == 0x100
    ensures 0x100 * high == p * (2 * (r * high))
  {
    assert p * (2 * r) * high == p * (2 * (r * high));
  }

  lemma Multiple(b: nat, p: nat, m: nat)
    requires p > 0
    ensures (b + p * m) / p == b / p + m
  {
    QuotientIs(b + p * m, p, b / p + m, b % p);
  }

  // ----- Whole tables and bitmaps -----

  /** A file begins with the entries of a table, as far as it goes. */
  ghost predicate TableIn(f: Bytes, t: seq<Entry>) {
    forall i :: 0 <= i < |t| && ENTRY_SIZE * i + ENTRY_SIZE <= |f| ==> EntryIn(f, ENTRY_SIZE * i, t[i])
  }

  ghost predicate BitsIn(f: Bytes, bits: seq<bool>) {
    forall s :: 0 <= s < |bits| && s / 8 < |f| ==> BitIn(f, s, bits[s])
  }

  lemma DecodedTableIn(f: Bytes)
    ensures TableIn(f, DecodeTable(f))
  {
    forall i | 0 <= i < |DecodeTable(f)| && ENTRY_SIZE * i + ENTRY_SIZE <= |f|
      ensures EntryIn(f, ENTRY_SIZE * i, DecodeTable(f)[i])
    {
      DecodedTable(f, i);
    }
  }

  lemma EncodedTableIn(t: seq<Entry>)
    ensures TableIn(EncodeTable(t), t)
  {
    TableRoundTrip(t);
    DecodedTableIn(EncodeTable(t));
  }

  lemma DecodedBitsIn(f: Bytes)
    ensures BitsIn(f, DecodeBits(f))
  {
    forall s | 0 <= s < 8 * |f| ensures BitIn(f, s, DecodeBits(f)[s]) {
      DecodedBits(f, s);
    }
  }

  lemma EncodedBitsIn(bits: seq<bool>)
    requires |bits| % 8 == 0
    ensures BitsIn(EncodeBits(bits), bits)
  {
    BitsRoundTrip(bits);
    DecodedBitsIn(EncodeBits(bits));
  }
}
