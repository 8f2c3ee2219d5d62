/** The memory management unit with a linear page table. */
module Mmus {
  import opened DiskLayout
  import OpenFiles

  const PAGE_SIZE := 128
  const NUM_PHYS_PAGES := 128
  const MEMORY_SIZE := 16384

  datatype TranslationEntry = TranslationEntry(
    virtualPage: Word, physicalPage: Word, valid: bool, readOnly: bool, use: bool, dirty: bool)

  datatype ExceptionType = NoException | PageFault | ReadOnly | BusError | AddressError

  predicate IsSize(size: nat) { size == 1 || size == 2 || size == 4 }

  predicate Aligned(addr: nat, size: nat) { IsSize(size) && addr % size == 0 }

  // ----- Values in memory: little-endian -----

  function Encoded(value: int, size: nat): (b: Bytes)
    requires IsSize(size)
    ensures |b| == size
  {
    EncodeWord(value % WORD)[..size]
  }

  /** Bytes are signed, halfwords are not, words are. */
  function Decoded(b: Bytes): int
    requires IsSize(|b|)
  {
    if |b| == 1 then (if b[0] < 128 then b[0] else b[0] - 256)
    else if |b| == 2 then b[0] + 0x100 * b[1]
    else
      var w: int := DecodeWord(b);
      if w < 0x8000_0000 then w else w - WORD
  }

  /** Writing and reading back gives the value cut to its size. */
  lemma ReadBack(value: int, size: nat)
    requires IsSize(size) && -0x8000_0000 <= value < 0x8000_0000
    ensures size == 4 ==> Decoded(Encoded(value, size)) == value
    ensures size == 2 ==> Decoded(Encoded(value, size)) == value % 0x1_0000
    ensures size == 1 ==> Decoded(Encoded(value, size)) % 256 == value % 256
    ensures size == 1 ==> -128 <= Decoded(Encoded(value, size)) < 128
  {
    match size {
      case 1 => ByteBack(value);
      case 2 => HalfBack(value);
      case 4 => WordBack(value);
    }
  }

  lemma ByteBack(value: int)
    ensures Decoded(Encoded(value, 1)) % 256 == value % 256
  {
    var b := Encoded(value, 1);
    assert b == [value % WORD % 256];
    LowByte(value);
  }

  lemma LowByte(value: int)
    ensures value % WORD % 256 == value % 256
  {
    var w: int := value % WORD;
    Remainder(value, 0x100_0000 * (value / WORD) + w / 256, w % 256);
  }

  lemma Remainder(x: int, q: int, r: int)
    requires x == 256 * q + r && 0 <= r < 256
    ensures x % 256 == r
  {
  }

  lemma HalfBack(value: int)
    ensures Decoded(Encoded(value, 2)) == value % 0x1_0000
  {
    var w := value % WORD;
    var b := Encoded(value, 2);
    assert b == [w % 256, w / 0x100 % 256];
    HalfOf(w);
  }

  lemma WordBack(value: int)
    requires -0x8000_0000 <= value < 0x8000_0000
    ensures Decoded(Encoded(value, 4)) == value
  {
    WordRoundTrip(value % WORD);
    assert Encoded(value, 4) == EncodeWord(value % WORD);
  }

  lemma HalfOf(w: Word)
    ensures w % 256 + 0x100 * (w / 0x100 % 256) == w % 0x1_0000
  {
    var q: int := w / 0x100;
    var r: int := q / 0x100;
    assert w == w % 0x100 + 0x100 * (q % 0x100) + 0x1_0000 * r;
  }

  // ----- The bytes of a value, whatever size they are read or written in -----

  /** A number from its digits to the base 256, the lowest first. */
  function Joined(b0: int, b1: int, b2: int, b3: int): int {
    b0 + 0x100 * b1 + 0x1_0000 * b2 + 0x100_0000 * b3
  }

  /** What bytes stand for, the lowest first. */
  ghost predicate IsValue(b: Bytes, v: int)
    requires IsSize(|b|)
  {
    var b0: int := b[0];
    if |b| == 1 then -0x80 <= v < 0x80 && (v == b0 || v == b0 - 0x100)
    else if |b| == 2 then v == Joined(b0, b[1], 0, 0)
    else -0x8000_0000 <= v < 0x8000_0000 && (v == Joined(b0, b[1], b[2], b[3]) || v == Joined(b0, b[1], b[2], b[3]) - 0x1_0000_0000)
  }

  /** What a value leaves in memory: its lowest byte first, and what does not fit is cut off. */
  ghost predicate HoldsValue(b: Bytes, v: int)
    requires IsSize(|b|)
  {
    && b[0] == v % 0x100
    && (|b| >= 2 ==> b[1] == v / 0x100 % 0x100)
    && (|b| == 4 ==> b[2] == v / 0x1_0000 % 0x100 && b[3] == v / 0x100_0000 % 0x100)
  }

  lemma DecodedIsValue(b: Bytes)
    requires IsSize(|b|)
    ensures IsValue(b, Decoded(b))
  {
  }

  lemma EncodedHoldsValue(value: int, size: nat)
    requires IsSize(size)
    ensures HoldsValue(Encoded(value, size), value)
  {
    var w := value % WORD;
    LowByte(value);
    SecondByte(value, w, value / WORD);
    ThirdByte(value, w, value / WORD);
    FourthByte(value, w, value / WORD);
    assert EncodeWord(w) == [w % 256, w / 0x100 % 256, w / 0x1_0000 % 256, w / 0x100_0000];
  }

  lemma SecondByte(v: int, w: int, q: int)
    requires v == 0x1_0000_0000 * q + w && 0 <= w < 0x1_0000_0000
    ensures w / 0x100 % 0x100 == v / 0x100 % 0x100
  {
    assert v / 0x100 == 0x100_0000 * q + w / 0x100;
    Remainder(v / 0x100, 0x1_0000 * q + w / 0x100 / 0x100, w / 0x100 % 0x100);
  }

  lemma ThirdByte(v: int, w: int, q: int)
    requires v == 0x1_0000_0000 * q + w && 0 <= w < 0x1_0000_0000
    ensures w / 0x1_0000 % 0x100 == v / 0x1_0000 % 0x100
  {
    assert v / 0x1_0000 == 0x1_0000 * q + w / 0x1_0000;
    Remainder(v / 0x1_0000, 0x100 * q + w / 0x1_0000 / 0x100, w / 0x1_0000 % 0x100);
  }

  lemma FourthByte(v: int, w: int, q: int)
    requires v == 0x1_0000_0000 * q + w && 0 <= w < 0x1_0000_0000
    ensures w / 0x100_0000 == v / 0x100_0000 % 0x100
  {
    assert v / 0x100_0000 == 0x100 * q + w / 0x100_0000;
    Remainder(v / 0x100_0000, q, w / 0x100_0000);
  }

  /** A byte or a halfword of a word, or all of it. */
  predicate IsPart(off: nat, size: nat) {
    (size == 1 && off < 4) || (size == 2 && (off == 0 || off == 2)) || (size == 4 && off == 0)
  }

  /** A word was stored and a part of it is loaded: byte `off` of a word is its value shifted right
      by as many bytes, cut to the size of the load. */
  lemma WordThenPart(memory: Bytes, addr: nat, v: int, off: nat, size: nat)
    requires addr + 4 <= |memory| && IsPart(off, size)
    ensures var m := OpenFiles.Splice(memory, addr, Encoded(v, 4));
            var shifted := if off == 0 then v else if off == 1 then v / 0x100 else if off == 2 then v / 0x1_0000 else v / 0x100_0000;
            var part := m[addr + off..addr + off + size];
            && HoldsValue(part, shifted) && IsValue(part, Decoded(part))
  {
    var b := Encoded(v, 4);
    EncodedHoldsValue(v, 4);
    var part := OpenFiles.Splice(memory, addr, b)[addr + off..addr + off + size];
    assert part == b[off..off + size];
    PartHolds(b, v, off, size);
    DecodedIsValue(part);
  }

  lemma PartHolds(b: Bytes, v: int, off: nat, size: nat)
    requires |b| == 4 && HoldsValue(b, v) && IsPart(off, size)
    ensures HoldsValue(b[off..off + size],
                       if off == 0 then v else if off == 1 then v / 0x100 else if off == 2 then v / 0x1_0000 else v / 0x100_0000)
  {
    var part := b[off..off + size];
    assert part[0] == b[off] && (size >= 2 ==> part[1] == b[off + 1]);
    Shifts(v);
  }

  lemma Shifts(v: int)
    ensures v / 0x1_0000 / 0x100 == v / 0x100_0000
  {
  }

  lemma HalfThenByte(memory: Bytes, addr: nat, v: int, off: nat)
    requires addr + 2 <= |memory| && off < 2
    ensures var m := OpenFiles.Splice(memory, addr, Encoded(v, 2));
            var part := m[addr + off..addr + off + 1];
            && HoldsValue(part, if off == 0 then v else v / 0x100) && IsValue(part, Decoded(part))
  {
    var b := Encoded(v, 2);
    EncodedHoldsValue(v, 2);
    var part := OpenFiles.Splice(memory, addr, b)[addr + off..addr + off + 1];
    assert part == b[off..off + 1];
    DecodedIsValue(part);
  }

  /** Parts were stored and the whole is loaded. */
  lemma BytesThenWord(memory: Bytes, addr: nat, v0: int, v1: int, v2: int, v3: int)
    requires addr + 4 <= |memory|
    requires HoldsValue(memory[addr..addr + 1], v0) && HoldsValue(memory[addr + 1..addr + 2], v1)
    requires HoldsValue(memory[addr + 2..addr + 3], v2) && HoldsValue(memory[addr + 3..addr + 4], v3)
    ensures Decoded(memory[addr..addr + 4]) % 0x1_0000_0000 == Joined(v0 % 0x100, v1 % 0x100, v2 % 0x100, v3 % 0x100)
    ensures Decoded(memory[addr..addr + 2]) == Joined(v0 % 0x100, v1 % 0x100, 0, 0)
  {
    var word, half := memory[addr..addr + 4], memory[addr..addr + 2];
    var b: seq<int> := [v0 % 0x100, v1 % 0x100, v2 % 0x100, v3 % 0x100];
    assert word[0] == b[0] && word[1] == b[1] && word[2] == b[2] && word[3] == b[3];
    DecodedIsValue(word);
    DecodedIsValue(half);
    Wrapped(Decoded(word), Joined(b[0], b[1], b[2], b[3]));
  }

  lemma Wrapped(v: int, w: int)
    requires 0 <= w < 0x1_0000_0000 && (v == w || v == w - 0x1_0000_0000)
    ensures v % 0x1_0000_0000 == w
  {
  }

  lemma HalvesThenWord(memory: Bytes, addr: nat, v0: int, v1: int)
    requires addr + 4 <= |memory| && HoldsValue(memory[addr..addr + 2], v0) && HoldsValue(memory[addr + 2..addr + 4], v1)
    ensures Decoded(memory[addr..addr + 4]) % 0x1_0000_0000 == v0 % 0x1_0000 + 0x1_0000 * (v1 % 0x1_0000)
  {
    TwoDigits(v0);
    TwoDigits(v1);
    BytesThenWord(memory, addr, v0, v0 / 0x100, v1, v1 / 0x100);
  }

  lemma TwoDigits(v: int)
    ensures v % 0x1_0000 == v % 0x100 + 0x100 * (v / 0x100 % 0x100)
  {
  }

  // ----- The unit -----

  /** What an access needs: the first failing condition decides the exception. */
  predicate Translates(table: seq<TranslationEntry>, addr: Word, size: nat, writing: bool) {
    && Aligned(addr, size)
    && addr / PAGE_SIZE < |table|
    && var entry := table[addr / PAGE_SIZE];
       entry.valid && !(entry.readOnly && writing) && entry.physicalPage < NUM_PHYS_PAGES
  }

  function PhysicalAddress(table: seq<TranslationEntry>, addr: Word): nat
    requires addr / PAGE_SIZE < |table|
  {
    table[addr / PAGE_SIZE].physicalPage * PAGE_SIZE + addr % PAGE_SIZE
  }

  /** An aligned access never leaves its page, so never leaves memory. */
  lemma InsidePage(addr: nat, size: nat)
    requires IsSize(size) && Aligned(addr, size)
    ensures addr % PAGE_SIZE + size <= PAGE_SIZE
  {
  }

  /** Entries that differ only in the usage bits. */
  ghost predicate SameMapping(t: seq<TranslationEntry>, t': seq<TranslationEntry>) {
    |t| == |t'| && forall i :: 0 <= i < |t| ==> t'[i] == t[i].(use := t'[i].use, dirty := t'[i].dirty)
  }

  class Mmu {
    const mainMemory: array<Byte>
    var pageTable: array<TranslationEntry>

    constructor (table: array<TranslationEntry>)
      ensures fresh(mainMemory) && mainMemory.Length == MEMORY_SIZE
      ensures mainMemory[..] == seq(MEMORY_SIZE, _ => 0) && pageTable == table
    {
      mainMemory := new Byte[MEMORY_SIZE](_ => 0);
      pageTable := table;
    }

    method RetrievePageEntry(vpn: nat) returns (e: ExceptionType)
      ensures e == NoException <==> vpn < pageTable.Length && pageTable[vpn].valid
      ensures e == AddressError <==> vpn >= pageTable.Length
      ensures e in {NoException, AddressError, PageFault}
    {
      if vpn >= pageTable.Length {
        return AddressError;
      } else if !pageTable[vpn].valid {
        return PageFault;
      }
      return NoException;
    }

    /** Translation succeeds exactly when the access is aligned and mapped; it marks the page
        as used and touches nothing else.  The physical range always lies in memory, whatever
        the table holds. */
    method Translate(virtAddr: Word, size: nat, writing: bool) returns (e: ExceptionType, physAddr: nat)
      requires IsSize(size)
      modifies pageTable
      ensures e == NoException <==> Translates(old(pageTable[..]), virtAddr, size, writing)
      ensures e == AddressError <==> virtAddr % size != 0 || virtAddr / PAGE_SIZE >= pageTable.Length
      ensures e != AddressError ==>
                var entry := old(pageTable[virtAddr / PAGE_SIZE]);
                && (e == PageFault <==> !entry.valid)
                && (e == ReadOnly <==> entry.valid && entry.readOnly && writing)
                && (e == BusError <==> entry.valid && !(entry.readOnly && writing) && entry.physicalPage >= NUM_PHYS_PAGES)
      ensures e == NoException ==>
                && physAddr == PhysicalAddress(old(pageTable[..]), virtAddr) && physAddr + size <= MEMORY_SIZE
                && pageTable[virtAddr / PAGE_SIZE].use && (writing ==> pageTable[virtAddr / PAGE_SIZE].dirty)
      ensures SameMapping(old(pageTable[..]), pageTable[..])
      ensures forall i :: 0 <= i < pageTable.Length && (i != virtAddr / PAGE_SIZE || e != NoException) ==> pageTable[i] == old(pageTable[i])
    {
      physAddr := 0;
      if (size == 4 && virtAddr % 4 != 0) || (size == 2 && virtAddr % 2 != 0) {
        return AddressError, 0;
      }
      var vpn, offset := virtAddr / PAGE_SIZE, virtAddr % PAGE_SIZE;
      var exception := RetrievePageEntry(vpn);
      if exception != NoException {
        return exception, 0;
      }
      if pageTable[vpn].readOnly && writing {
        return ReadOnly, 0;
      }
      var pageFrame := pageTable[vpn].physicalPage;
      if pageFrame >= NUM_PHYS_PAGES {
        return BusError, 0;
      }
      pageTable[vpn] := pageTable[vpn].(use := true);
      if writing {
        pageTable[vpn] := pageTable[vpn].(dirty := true);
      }
      physAddr := pageFrame * PAGE_SIZE + offset;
      InsidePage(virtAddr, size);
      return NoException, physAddr;
    }

    method ReadMem(addr: Word, size: nat) returns (e: ExceptionType, value: int)
      requires mainMemory.Length == MEMORY_SIZE && IsSize(size)
      modifies pageTable
      ensures e == NoException <==> Translates(old(pageTable[..]), addr, size, false)
      ensures e == NoException ==>
                var p := PhysicalAddress(old(pageTable[..]), addr);
                p + size <= MEMORY_SIZE && value == Decoded(mainMemory[p..p + size]) && IsValue(mainMemory[p..p + size], value)
      ensures SameMapping(old(pageTable[..]), pageTable[..])
    {
      var p: nat;
      e, p := Translate(addr, size, false);
      if e != NoException {
        return e, 0;
      }
      value := Decoded(mainMemory[p..p + size]);
      DecodedIsValue(mainMemory[p..p + size]);
    }

    method WriteMem(addr: Word, size: nat, value: int) returns (e: ExceptionType)
      requires mainMemory.Length == MEMORY_SIZE && IsSize(size)
      modifies pageTable, mainMemory
      ensures e == NoException <==> Translates(old(pageTable[..]), addr, size, true)
      ensures e != NoException ==> mainMemory[..] == old(mainMemory[..])
      ensures e == NoException ==>
                var p := PhysicalAddress(old(pageTable[..]), addr);
                && p + size <= MEMORY_SIZE && mainMemory[..] == OpenFiles.Splice(old(mainMemory[..]), p, Encoded(value, size))
                && HoldsValue(mainMemory[p..p + size], value)
      ensures SameMapping(old(pageTable[..]), pageTable[..])
    {
      var p: nat;
      e, p := Translate(addr, size, true);
      if e != NoException {
        return;
      }
      OpenFiles.CopyInto(mainMemory, p, Encoded(value, size));
      EncodedHoldsValue(value, size);
      assert mainMemory[p..p + size] == Encoded(value, size);
    }
  }
}
