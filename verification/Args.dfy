/** Passing command-line arguments: a child's stack is given the strings and an array of
    pointers to them, and such an array is read back into the kernel.  User memory is the flat
    array of bytes that a program sees. */
module Args {
  import opened Common
  import opened DiskLayout
  import opened OpenFiles

  const MAX_ARG_COUNT := 32
  const MAX_ARG_LENGTH := 128
  const NEWLINE: Byte := 10

  // ----- Strings -----

  /** A kernel buffer; the copying loop passes over its first byte before it looks for a NUL. */
  predicate IsBuffer(b: Bytes) { b != [] && 0 in b[1..] }

  function Str(b: Bytes): Bytes { CString(b, |b|) }

  /** The bytes that are copied to the user: the terminator is not among them. */
  function Copied(b: Bytes): (d: Bytes)
    requires IsBuffer(b)
    ensures |d| > 0
  {
    [b[0]] + CString(b[1..], |b| - 1)
  }

  /** Room left for a string, with its terminator. */
  function Slot(b: Bytes): nat { |Str(b)| + 1 }

  /** The string is not empty, or its buffer holds a second NUL. */
  predicate Tidy(b: Bytes)
    requires IsBuffer(b)
  {
    b[0] != 0 || b[1] == 0
  }

  /** What is copied for a string: itself; for the empty string its NUL and then whatever the
      buffer holds up to its next NUL. */
  ghost predicate CopyOf(d: Bytes, s: Bytes) {
    0 !in s && (if s == [] then d != [] && d[0] == 0 && 0 !in d[1..] else d == s)
  }

  /** What is copied stays in the room left for it exactly when the buffer is tidy. */
  lemma CopiedFitsIff(b: Bytes)
    requires IsBuffer(b)
    ensures CopyOf(Copied(b), Str(b))
    ensures |Copied(b)| <= Slot(b) <==> Tidy(b)
    ensures Str(b) == [] <==> b[0] == 0
  {
    var rest := CString(b[1..], |b| - 1);
    assert Copied(b)[1..] == rest;
    if b[0] != 0 {
      assert Str(b) == [b[0]] + rest;
    }
  }

  /** Reading a string: up to a NUL or a newline, or `max` bytes; None where memory ends. */
  function StringFrom(mem: Bytes, addr: nat, max: nat): Option<Bytes>
    decreases max
  {
    if max == 0 then Some([])
    else if addr >= |mem| then None
    else if mem[addr] == 0 || mem[addr] == NEWLINE then Some([mem[addr]])
    else Prefixed([mem[addr]], StringFrom(mem, addr + 1, max - 1))
  }

  lemma FirstByte(mem: Bytes, addr: nat, max: nat)
    requires addr < |mem| && max > 0 && StringFrom(mem, addr, max).Some?
    ensures var r := StringFrom(mem, addr, max).value;
            r != [] && r[0] == mem[addr] && (mem[addr] == 0 || mem[addr] == NEWLINE ==> r == [mem[addr]])
  {
  }

  /** A string in memory is read back exactly when it has no newline, is short enough and is
      followed by a NUL. */
  lemma {:induction false} StringFromIff(mem: Bytes, addr: nat, s: Bytes, max: nat)
    requires 0 !in s && addr + |s| < |mem| && forall k :: 0 <= k < |s| ==> mem[addr + k] == s[k]
    ensures StringFrom(mem, addr, max) == Some(s + [0]) <==> NEWLINE !in s && |s| < max && mem[addr + |s|] == 0
    decreases |s|
  {
    if max > 0 && StringFrom(mem, addr, max).Some? {
      FirstByte(mem, addr, max);
    }
    if s == [] {
      assert s + [0] == [0];
    } else if max > 0 {
      var rest := s[1..];
      assert s == [s[0]] + rest && |s + [0]| >= 2;
      assert mem[addr + 0] == s[0];
      forall k | 0 <= k < |rest| ensures mem[addr + 1 + k] == rest[k] {
        assert mem[addr + (k + 1)] == s[k + 1];
      }
      StringFromIff(mem, addr + 1, rest, max - 1);
      Cons(s[0], rest, StringFrom(mem, addr + 1, max - 1));
      assert NEWLINE in s <==> s[0] == NEWLINE || NEWLINE in rest;
    }
  }

  lemma Cons(b: Byte, rest: Bytes, r: Option<Bytes>)
    ensures [b] + rest + [0] == [b] + (rest + [0])
    ensures Prefixed([b], r) == Some([b] + rest + [0]) <==> r == Some(rest + [0])
  {
    if r.Some? {
      assert ([b] + r.value)[1..] == r.value && ([b] + rest + [0])[1..] == rest + [0];
    }
  }

  function Prefixed(out: Bytes, r: Option<Bytes>): Option<Bytes> {
    match r case None => None case Some(rest) => Some(out + rest)
  }

  // ----- Where things go -----

  /** The stack pointer after `c` strings. */
  function After(sp: int, args: seq<Bytes>, c: nat): (a: int)
    requires c <= |args|
    ensures a <= sp - c
  {
    if c == 0 then sp else After(sp, args, c - 1) - Slot(args[c - 1])
  }

  /** Where an array of `n` pointers below `e` starts: aligned, with a null at its end. */
  function ArrayAt(e: int, n: nat): int { e - e % 4 - (4 * n + 4) }

  function Base(sp: int, args: seq<Bytes>): int { ArrayAt(After(sp, args, |args|), |args|) }

  /** What callers see to: strings with terminators, a stack pointer in memory. */
  ghost predicate Proper(mem: Bytes, sp: int, args: seq<Bytes>) {
    && |mem| < WORD && 0 <= sp <= |mem|
    && forall c :: 0 <= c < |args| ==> IsBuffer(args[c])
  }

  ghost function Tops(sp: int, args: seq<Bytes>): (tops: seq<int>)
    ensures |tops| == |args| + 1 && forall c :: 0 <= c <= |args| ==> tops[c] == After(sp, args, c)
  {
    seq(|args| + 1, c requires 0 <= c <= |args| => After(sp, args, c))
  }

  ghost function Strs(args: seq<Bytes>): (strs: seq<Bytes>)
    ensures |strs| == |args| && forall c :: 0 <= c < |args| ==> strs[c] == Str(args[c])
  {
    seq(|args|, c requires 0 <= c < |args| => Str(args[c]))
  }

  ghost function Copies(args: seq<Bytes>): (copies: seq<Bytes>)
    requires forall c :: 0 <= c < |args| ==> IsBuffer(args[c])
    ensures |copies| == |args| && forall c :: 0 <= c < |args| ==> copies[c] == Copied(args[c])
  {
    seq(|args|, c requires 0 <= c < |args| => Copied(args[c]))
  }

  // ----- Memory after writing -----

  /** A buffer, its string and what is copied of it. */
  ghost predicate IsArg(b: Bytes, s: Bytes, d: Bytes) { IsBuffer(b) && s == Str(b) && d == Copied(b) }

  /** Where the strings of the arguments go: each below the one before, with room for it and for
      its terminator. */
  ghost predicate Planned(args: seq<Bytes>, tops: seq<int>, strs: seq<Bytes>, copies: seq<Bytes>) {
    && |args| == |strs| == |copies| && |tops| == |strs| + 1
    && (forall c :: 0 <= c < |strs| ==> IsArg(args[c], strs[c], copies[c]))
    && (forall c :: 0 <= c < |strs| ==> tops[c + 1] + |strs[c]| + 1 == tops[c])
  }

  lemma ArgsPlanned(sp: int, args: seq<Bytes>)
    requires forall c :: 0 <= c < |args| ==> IsBuffer(args[c])
    ensures Planned(args, Tops(sp, args), Strs(args), Copies(args))
  {
    var tops, strs := Tops(sp, args), Strs(args);
    forall c | 0 <= c < |args| ensures tops[c + 1] + |strs[c]| + 1 == tops[c] {
      assert tops[c + 1] == After(sp, args, c + 1);
    }
  }

  /** What is copied for string `c` lies in memory, and not at 0. */
  ghost predicate Room(size: nat, tops: seq<int>, copies: seq<Bytes>, c: nat)
    requires c < |copies| && |tops| == |copies| + 1
  {
    0 < tops[c + 1] && tops[c + 1] + |copies[c]| <= size
  }

  ghost predicate Within(size: nat, tops: seq<int>, copies: seq<Bytes>)
    requires |tops| == |copies| + 1
  {
    forall c :: 0 <= c < |copies| ==> Room(size, tops, copies, c)
  }

  /** Strings, each below the one before: string `c` goes to tops[c + 1], and it and a byte for
      its terminator end at tops[c].  What is copied for it may be longer. */
  ghost predicate Laid(mem: Bytes, tops: seq<int>, strs: seq<Bytes>, copies: seq<Bytes>) {
    && |tops| == |strs| + 1 && |copies| == |strs| && 0 < tops[|strs|] && tops[0] <= |mem| < WORD
    && (forall c :: 0 <= c < |strs| ==> Placed(|mem|, tops, strs, copies, c))
  }

  ghost predicate Placed(size: nat, tops: seq<int>, strs: seq<Bytes>, copies: seq<Bytes>, c: nat)
    requires c < |strs| == |copies| && |tops| == |strs| + 1
  {
    && tops[c + 1] + |strs[c]| + 1 == tops[c]
    && CopyOf(copies[c], strs[c]) && tops[c + 1] + |copies[c]| <= size
  }

  lemma {:induction false} LaidFalls(mem: Bytes, tops: seq<int>, strs: seq<Bytes>, copies: seq<Bytes>, c: nat, d: nat)
    requires Laid(mem, tops, strs, copies) && c <= d <= |strs|
    ensures tops[d] <= tops[c]
  {
    if c < d {
      LaidFalls(mem, tops, strs, copies, c, d - 1);
      assert Placed(|mem|, tops, strs, copies, d - 1);
    }
  }

  lemma PlanIsLaid(mem: Bytes, args: seq<Bytes>, tops: seq<int>, strs: seq<Bytes>, copies: seq<Bytes>)
    requires Planned(args, tops, strs, copies) && 0 < tops[|strs|] && tops[0] <= |mem| < WORD && Within(|mem|, tops, copies)
    ensures Laid(mem, tops, strs, copies)
  {
    forall c | 0 <= c < |strs| ensures Placed(|mem|, tops, strs, copies, c) {
      assert IsArg(args[c], strs[c], copies[c]) && Room(|mem|, tops, copies, c);
      CopiedFitsIff(args[c]);
    }
  }

  /** The highest aligned place with room for the pointers and a null. */
  lemma BaseAligned(e: int, n: nat)
    ensures ArrayAt(e, n) % 4 == 0 && ArrayAt(e, n) + 4 * (n + 1) <= e < ArrayAt(e, n) + 4 * (n + 1) + 4
  {
    assert (e - e % 4) % 4 == 0;
  }

  /** String `c` is copied over an address. */
  ghost predicate Covers(tops: seq<int>, copies: seq<Bytes>, c: nat, p: nat)
    requires c < |copies| && |tops| == |copies| + 1
  {
    tops[c + 1] <= p < tops[c + 1] + |copies[c]|
  }

  /** A byte of memory after the first `c` strings: the last of them that covers it decides. */
  ghost function ByteAfter(mem: Bytes, tops: seq<int>, copies: seq<Bytes>, c: nat, p: nat): Byte
    requires c <= |copies| && |tops| == |copies| + 1 && p < |mem|
  {
    if c == 0 then mem[p]
    else if Covers(tops, copies, c - 1, p) then copies[c - 1][p - tops[c]]
    else ByteAfter(mem, tops, copies, c - 1, p)
  }

  ghost function Stacked(mem: Bytes, tops: seq<int>, copies: seq<Bytes>, c: nat): (m: Bytes)
    requires c <= |copies| && |tops| == |copies| + 1
    ensures |m| == |mem| && forall p :: 0 <= p < |mem| ==> m[p] == ByteAfter(mem, tops, copies, c, p)
  {
    seq(|mem|, p requires 0 <= p < |mem| => ByteAfter(mem, tops, copies, c, p))
  }

  lemma StackedStep(mem: Bytes, tops: seq<int>, copies: seq<Bytes>, c: nat)
    requires c < |copies| && |tops| == |copies| + 1 && Room(|mem|, tops, copies, c)
    ensures Stacked(mem, tops, copies, c + 1) == Splice(Stacked(mem, tops, copies, c), tops[c + 1], copies[c])
  {
  }

  lemma LaidAt(mem: Bytes, tops: seq<int>, strs: seq<Bytes>, copies: seq<Bytes>, c: nat)
    requires Laid(mem, tops, strs, copies) && c < |strs|
    ensures 0 < tops[|strs|] <= tops[c + 1] && tops[c + 1] + |strs[c]| + 1 == tops[c] && tops[c] <= |mem|
    ensures CopyOf(copies[c], strs[c]) && tops[c + 1] + |copies[c]| <= |mem|
  {
    assert Placed(|mem|, tops, strs, copies, c);
    LaidFalls(mem, tops, strs, copies, c + 1, |strs|);
    LaidFalls(mem, tops, strs, copies, 0, c);
  }

  /** What the strings after `i`, up to the `n`-th, put at an address, if any of them reaches it. */
  ghost function Over(tops: seq<int>, copies: seq<Bytes>, i: nat, n: nat, p: nat): Option<Byte>
    requires n < |tops| == |copies| + 1
  {
    if n <= i + 1 then None
    else if Covers(tops, copies, n - 1, p) then Some(copies[n - 1][p - tops[n]])
    else Over(tops, copies, i, n - 1, p)
  }

  function Pick(over: Option<Byte>, own: Byte): Byte { if over.Some? then over.value else own }

  lemma {:induction false} ByteOver(mem: Bytes, tops: seq<int>, copies: seq<Bytes>, i: nat, n: nat, p: nat)
    requires i < n <= |copies| && |tops| == |copies| + 1 && p < |mem|
    ensures ByteAfter(mem, tops, copies, n, p) == Pick(Over(tops, copies, i, n, p), ByteAfter(mem, tops, copies, i + 1, p))
  {
    if i + 1 < n {
      ByteOver(mem, tops, copies, i, n - 1, p);
    }
  }

  /** Only what is left over behind an empty string reaches the room of an earlier one, and that
      has no NUL in it. */
  lemma {:induction false} OverIsLeftover(mem: Bytes, tops: seq<int>, strs: seq<Bytes>, copies: seq<Bytes>, i: nat, n: nat, p: nat)
    requires Laid(mem, tops, strs, copies) && i < n <= |strs| && tops[i + 1] <= p && Over(tops, copies, i, n, p).Some?
    ensures Over(tops, copies, i, n, p).value != 0
  {
    if i + 1 < n {
      var c := n - 1;
      LaidAt(mem, tops, strs, copies, c);
      LaidFalls(mem, tops, strs, copies, i + 1, c);
      if Covers(tops, copies, c, p) {
        var d := copies[c];
        assert strs[c] == [];
        assert d[1..][p - tops[n] - 1] == d[p - tops[n]];
      } else {
        OverIsLeftover(mem, tops, strs, copies, i, n - 1, p);
      }
    }
  }

  /** Nothing below the stack pointer is touched. */
  lemma {:induction false} BelowKept(mem: Bytes, tops: seq<int>, strs: seq<Bytes>, copies: seq<Bytes>, c: nat, p: nat)
    requires Laid(mem, tops, strs, copies) && c <= |strs| && p < |mem| && p < tops[c]
    ensures ByteAfter(mem, tops, copies, c, p) == mem[p]
  {
    if c > 0 {
      LaidAt(mem, tops, strs, copies, c - 1);
      BelowKept(mem, tops, strs, copies, c - 1, p);
    }
  }

  /** The byte of string `i` at `k`, or what memory held behind the string. */
  ghost function OwnByte(mem: Bytes, tops: seq<int>, strs: seq<Bytes>, i: nat, k: nat): Byte
    requires i < |strs| && |tops| == |strs| + 1 && 0 <= tops[i + 1] && tops[i + 1] + k < |mem|
  {
    if k < |strs[i]| then strs[i][k] else if strs[i] == [] then 0 else mem[tops[i + 1] + k]
  }

  /** That byte in the end: a later string may have run over it. */
  ghost function FinalByte(mem: Bytes, tops: seq<int>, strs: seq<Bytes>, copies: seq<Bytes>, i: nat, k: nat): Byte
    requires i < |strs| == |copies| && |tops| == |strs| + 1 && 0 <= tops[i + 1] && tops[i + 1] + k < |mem|
  {
    Pick(Over(tops, copies, i, |strs|, tops[i + 1] + k), OwnByte(mem, tops, strs, i, k))
  }

  /** Each string is where it was put ... */
  lemma OwnStacked(mem: Bytes, tops: seq<int>, strs: seq<Bytes>, copies: seq<Bytes>, i: nat, k: nat)
    requires Laid(mem, tops, strs, copies) && i < |strs| && k <= |strs[i]|
    ensures 0 < tops[i + 1] && tops[i + 1] + k < |mem|
    ensures ByteAfter(mem, tops, copies, i + 1, tops[i + 1] + k) == OwnByte(mem, tops, strs, i, k)
  {
    LaidAt(mem, tops, strs, copies, i);
    BelowKept(mem, tops, strs, copies, i, tops[i + 1] + k);
  }

  /** ... unless a later one ran over it. */
  lemma StackedByte(mem: Bytes, tops: seq<int>, strs: seq<Bytes>, copies: seq<Bytes>, i: nat, k: nat)
    requires Laid(mem, tops, strs, copies) && i < |strs| && k <= |strs[i]|
    ensures 0 < tops[i + 1] && tops[i + 1] + k < |mem|
    ensures ByteAfter(mem, tops, copies, |strs|, tops[i + 1] + k) == FinalByte(mem, tops, strs, copies, i, k)
  {
    OwnStacked(mem, tops, strs, copies, i, k);
    ByteOver(mem, tops, copies, i, |strs|, tops[i + 1] + k);
  }

  /** After the first `k` pointers. */
  ghost function Pointers(mem: Bytes, base: nat, ps: seq<Word>, k: nat): (m: Bytes)
    requires k <= |ps| && base + 4 * |ps| <= |mem|
    ensures |m| == |mem|
  {
    if k == 0 then mem else Splice(Pointers(mem, base, ps, k - 1), base + 4 * (k - 1), EncodeWord(ps[k - 1]))
  }

  /** The addresses of the strings, and a null. */
  ghost predicate AreAddresses(ps: seq<Word>, tops: seq<int>) {
    && |ps| == |tops| > 0 && ps[|ps| - 1] == 0
    && forall c :: 0 <= c < |ps| - 1 ==> ps[c] == tops[c + 1]
  }

  /** Memory `m`: the strings, and an array of pointers to them at `base`. */
  ghost predicate Arranged(mem: Bytes, tops: seq<int>, strs: seq<Bytes>, copies: seq<Bytes>, base: nat, ps: seq<Word>, m: Bytes) {
    && Laid(mem, tops, strs, copies) && AreAddresses(ps, tops)
    && base % 4 == 0 && base + 4 * |ps| <= tops[|strs|] <= |mem|
    && m == Pointers(Stacked(mem, tops, copies, |strs|), base, ps, |ps|)
  }

  lemma {:induction false} PointersBelow(mem: Bytes, base: nat, ps: seq<Word>, j: nat, k: nat, p: nat)
    requires j <= k <= |ps| && base + 4 * |ps| <= |mem| && p < |mem|
    requires p < base + 4 * j || base + 4 * |ps| <= p
    ensures Pointers(mem, base, ps, k)[p] == Pointers(mem, base, ps, j)[p]
  {
    if j < k {
      PointersBelow(mem, base, ps, j, k - 1, p);
    }
  }

  lemma PointerAt(mem: Bytes, base: nat, ps: seq<Word>, i: nat)
    requires i < |ps| && base + 4 * |ps| <= |mem|
    ensures WordAt(Pointers(mem, base, ps, |ps|), base + 4 * i) == ps[i]
  {
    var m, at, word := Pointers(mem, base, ps, |ps|), base + 4 * i, EncodeWord(ps[i]);
    var mid := Splice(Pointers(mem, base, ps, i), at, word);
    assert mid == Pointers(mem, base, ps, i + 1);
    forall k | 0 <= k < 4 ensures m[at + k] == word[k] {
      PointersBelow(mem, base, ps, i + 1, |ps|, at + k);
      assert mid[at + k] == word[k];
    }
    assert m[at..at + 4] == word;
    WordRoundTrip(ps[i]);
  }

  // ----- Reading an array of arguments -----

  function WordAt(mem: Bytes, addr: nat): Word
    requires addr + 4 <= |mem|
  {
    DecodeWord(mem[addr..addr + 4])
  }

  predicate IsWordIn(mem: Bytes, addr: nat) { addr % 4 == 0 && addr + 4 <= |mem| }

  /** The i-th word of the array, if it can be read. */
  function PointerOf(mem: Bytes, address: nat, i: nat): Option<Word> {
    if IsWordIn(mem, address + 4 * i) then Some(WordAt(mem, address + 4 * i)) else None
  }

  /** `Crashed`: an assertion fails, or a word that could not be read is used. */
  datatype Saved = Saved(args: seq<Bytes>) | TooMany | Crashed

  datatype Counted = Counted(n: nat) | Uncounted | Unreadable

  /** Counting the pointers before the null, from the c-th on. */
  function CountFrom(mem: Bytes, address: nat, c: nat): Counted
    requires c <= MAX_ARG_COUNT
    decreases MAX_ARG_COUNT - c
  {
    if c == MAX_ARG_COUNT then Uncounted
    else match PointerOf(mem, address, c)
      case None => Unreadable
      case Some(p) => if p == 0 then Counted(c) else CountFrom(mem, address, c + 1)
  }

  /** The string behind the i-th pointer. */
  function ArgAt(mem: Bytes, address: nat, i: nat): Option<Bytes> {
    match PointerOf(mem, address, i)
    case None => None
    case Some(p) => if p == 0 then None else StringFrom(mem, p, MAX_ARG_LENGTH)
  }

  /** Reading goes up to the first NUL or newline, that byte included, or to the maximum; it fails
      exactly where memory ends before that. */
  lemma {:induction false} StringFromShape(mem: Bytes, addr: nat, max: nat)
    requires max > 0
    ensures match StringFrom(mem, addr, max)
            case None => addr + max > |mem| && forall k :: addr <= k < |mem| ==> !Stops(mem[k])
            case Some(r) => && 0 < |r| <= max && addr + |r| <= |mem| && r == mem[addr..addr + |r|]
                            && (forall k :: 0 <= k < |r| - 1 ==> !Stops(r[k]))
                            && (|r| == max || Stops(r[|r| - 1]))
    decreases max
  {
    if max > 1 && addr < |mem| && !Stops(mem[addr]) {
      StringFromShape(mem, addr + 1, max - 1);
      var rest := StringFrom(mem, addr + 1, max - 1);
      if rest.Some? {
        assert StringFrom(mem, addr, max).value == [mem[addr]] + mem[addr + 1..addr + 1 + |rest.value|];
      }
    } else if addr < |mem| && !Stops(mem[addr]) {
      assert StringFrom(mem, addr + 1, 0) == Some([]);
    }
  }

  predicate Stops(b: Byte) { b == 0 || b == NEWLINE }

  /** The pointers before the first null: 32 or more are too many, and one that is not in memory
      stops the count. */
  lemma {:induction false} CountFromIff(mem: Bytes, address: nat, c: nat)
    requires c <= MAX_ARG_COUNT
    ensures match CountFrom(mem, address, c)
            case Uncounted => forall i :: c <= i < 32 ==> PointsSomewhere(mem, address, i)
            case Unreadable => exists n :: c <= n < 32 && !IsWordIn(mem, address + 4 * n) && StartsWith(mem, address, c, n)
            case Counted(n) => c <= n < 32 && PointerOf(mem, address, n) == Some(0) && StartsWith(mem, address, c, n)
    decreases MAX_ARG_COUNT - c
  {
    if c < MAX_ARG_COUNT && PointsSomewhere(mem, address, c) {
      CountFromIff(mem, address, c + 1);
      match CountFrom(mem, address, c + 1)
      case Uncounted =>
      case Unreadable =>
        var n :| c + 1 <= n < 32 && !IsWordIn(mem, address + 4 * n) && StartsWith(mem, address, c + 1, n);
        StartsEarlier(mem, address, c, n);
      case Counted(n) => StartsEarlier(mem, address, c, n);
    } else if c < MAX_ARG_COUNT && PointerOf(mem, address, c).None? {
      assert StartsWith(mem, address, c, c);
    }
  }

  lemma StartsEarlier(mem: Bytes, address: nat, c: nat, n: nat)
    requires PointsSomewhere(mem, address, c) && StartsWith(mem, address, c + 1, n)
    ensures StartsWith(mem, address, c, n)
  {
  }

  ghost predicate PointsSomewhere(mem: Bytes, address: nat, i: nat) {
    PointerOf(mem, address, i).Some? && PointerOf(mem, address, i) != Some(0)
  }

  ghost predicate StartsWith(mem: Bytes, address: nat, c: nat, n: nat) {
    forall i :: c <= i < n ==> PointsSomewhere(mem, address, i)
  }

  method ReadStringFromUser(memory: array<Byte>, userAddress: nat, maxByteCount: nat) returns (r: Option<Bytes>)
    requires maxByteCount > 0
    ensures r == if userAddress == 0 then None else StringFrom(memory[..], userAddress, maxByteCount)
  {
    if userAddress == 0 {
      return None;
    }
    ghost var mem := memory[..];
    var out: Bytes, count := [], 0;
    PrefixedNothing(StringFrom(mem, userAddress, maxByteCount));
    while count < maxByteCount
      invariant count == |out| <= maxByteCount
      invariant StringFrom(mem, userAddress, maxByteCount) == Prefixed(out, StringFrom(mem, userAddress + count, maxByteCount - count))
      decreases maxByteCount - count
    {
      if userAddress + count >= memory.Length {
        return None;
      }
      var b := memory[userAddress + count];
      PrefixedStep(out, b, StringFrom(mem, userAddress + count + 1, maxByteCount - count - 1));
      out, count := out + [b], count + 1;
      if b == 0 || b == NEWLINE {
        return Some(out);
      }
    }
    assert out + [] == out;
    return Some(out);
  }

  lemma PrefixedNothing(r: Option<Bytes>)
    ensures Prefixed([], r) == r
  {
    if r.Some? {
      assert [] + r.value == r.value;
    }
  }

  lemma PrefixedStep(out: Bytes, b: Byte, r: Option<Bytes>)
    ensures Prefixed(out, Prefixed([b], r)) == Prefixed(out + [b], r)
  {
    if r.Some? {
      assert out + ([b] + r.value) == out + [b] + r.value;
    }
  }

  method CountArgsToSave(memory: array<Byte>, address: nat) returns (r: Counted)
    ensures r == CountFrom(memory[..], address, 0)
  {
    var c := 0;
    while c < MAX_ARG_COUNT
      invariant c <= MAX_ARG_COUNT && CountFrom(memory[..], address, 0) == CountFrom(memory[..], address, c)
    {
      var at := address + 4 * c;
      if at % 4 != 0 || at + 4 > memory.Length {
        return Unreadable;
      }
      var val := DecodeWord(memory[at..at + 4]);
      assert memory[at..at + 4] == memory[..][at..at + 4];
      if val == 0 {
        return Counted(c);
      }
      c := c + 1;
    }
    return Uncounted;
  }

  lemma {:induction false} CountedReadable(mem: Bytes, address: nat, c: nat, i: nat)
    requires c <= i && c <= MAX_ARG_COUNT && CountFrom(mem, address, c).Counted? && i < CountFrom(mem, address, c).n
    ensures PointerOf(mem, address, i).Some?
    decreases MAX_ARG_COUNT - c
  {
    match PointerOf(mem, address, c) {
      case None =>
      case Some(p) =>
        if c < i {
          assert CountFrom(mem, address, c) == CountFrom(mem, address, c + 1);
          CountedReadable(mem, address, c + 1, i);
        }
    }
  }

  /** The array at `address` and the strings behind it; the code asserts that the address is not
      null. */
  ghost predicate IsSaved(mem: Bytes, address: nat, r: Saved) {
    if address == 0 then r == Crashed else SavedBy(mem, address, CountFrom(mem, address, 0), r)
  }

  ghost predicate SavedBy(mem: Bytes, address: nat, counted: Counted, r: Saved) {
    match counted
    case Uncounted => r == TooMany
    case Unreadable => r == Crashed
    case Counted(n) =>
      if exists i :: 0 <= i < n && ArgAt(mem, address, i).None? then r == Crashed
      else r.Saved? && |r.args| == n && forall i :: 0 <= i < n ==> ArgAt(mem, address, i) == Some(r.args[i])
  }

  method SaveArgs(memory: array<Byte>, address: nat) returns (r: Saved)
    ensures IsSaved(memory[..], address, r)
  {
    if address == 0 {
      return Crashed;
    }
    var count := CountArgsToSave(memory, address);
    match count {
      case Uncounted => return TooMany;
      case Unreadable => return Crashed;
      case Counted(n) =>
        AllReadable(memory[..], address, n);
        r := SaveStrings(memory, address, n);
    }
  }

  lemma AllReadable(mem: Bytes, address: nat, n: nat)
    requires CountFrom(mem, address, 0) == Counted(n)
    ensures forall i :: 0 <= i < n ==> PointerOf(mem, address, i).Some?
  {
    forall i | 0 <= i < n ensures PointerOf(mem, address, i).Some? {
      CountedReadable(mem, address, 0, i);
    }
  }

  method SaveStrings(memory: array<Byte>, address: nat, n: nat) returns (r: Saved)
    requires forall i :: 0 <= i < n ==> PointerOf(memory[..], address, i).Some?
    ensures SavedBy(memory[..], address, Counted(n), r)
  {
    ghost var mem := memory[..];
    var args: seq<Bytes> := [];
    for i := 0 to n
      invariant |args| == i && forall j :: 0 <= j < i ==> ArgAt(mem, address, j) == Some(args[j])
    {
      var s := SaveString(memory, address, i);
      assert s == ArgAt(mem, address, i);
      if s.None? {
        return Crashed;
      }
      args := args + [s.value];
    }
    return Saved(args);
  }

  method SaveString(memory: array<Byte>, address: nat, i: nat) returns (s: Option<Bytes>)
    requires PointerOf(memory[..], address, i).Some?
    ensures s == ArgAt(memory[..], address, i)
  {
    var at := address + 4 * i;
    assert memory[at..at + 4] == memory[..][at..at + 4];
    s := ReadStringFromUser(memory, DecodeWord(memory[at..at + 4]), MAX_ARG_LENGTH);
  }

  // ----- Writing them -----

  /** None when an assertion fails: there are too many arguments, or a string or the array does
      not lie in memory. */
  method WriteArgs(memory: array<Byte>, sp: nat, args: seq<Bytes>) returns (r: Option<nat>, ghost ps: seq<Word>)
    requires Proper(memory[..], sp, args)
    modifies memory
    ensures r.Some? <==> |args| < MAX_ARG_COUNT && Base(sp, args) >= 0 && Within(memory.Length, Tops(sp, args), Copies(args))
    ensures r.Some? ==> r.value == Base(sp, args)
    ensures r.Some? ==> Arranged(old(memory[..]), Tops(sp, args), Strs(args), Copies(args), r.value, ps, memory[..])
  {
    if |args| >= MAX_ARG_COUNT {
      return None, [];
    }
    ghost var tops, strs, copies := Tops(sp, args), Strs(args), Copies(args);
    ArgsPlanned(sp, args);
    var base;
    base, ps := WriteAll(memory, sp, args, tops, strs, copies);
    r := if base < 0 then None else Some(base);
  }

  /** The strings and the array of pointers; a negative result where the code stops. */
  method WriteAll(memory: array<Byte>, sp: nat, args: seq<Bytes>, ghost tops: seq<int>, ghost strs: seq<Bytes>, ghost copies: seq<Bytes>)
    returns (base: int, ghost ps: seq<Word>)
    requires Planned(args, tops, strs, copies) && tops[0] == sp <= memory.Length < WORD
    modifies memory
    ensures base >= 0 <==> ArrayAt(tops[|strs|], |strs|) >= 0 && Within(memory.Length, tops, copies)
    ensures base >= 0 ==> base == ArrayAt(tops[|strs|], |strs|)
    ensures base >= 0 ==> Arranged(old(memory[..]), tops, strs, copies, base, ps, memory[..])
  {
    ghost var mem := memory[..];
    var ok, addresses, top := WriteStrings(memory, sp, args, tops, strs, copies);
    if !ok {
      return -1, [];
    }
    base, ps := ArrayAt(top, |args|), addresses;
    if base < 0 {
      return -1, [];
    }
    BaseAligned(top, |args|);
    PlanIsLaid(mem, args, tops, strs, copies);
    LaidFalls(mem, tops, strs, copies, 0, |strs|);
    WritePointers(memory, base, addresses);
  }

  method WritePointers(memory: array<Byte>, base: nat, ps: seq<Word>)
    requires base + 4 * |ps| <= memory.Length
    modifies memory
    ensures memory[..] == Pointers(old(memory[..]), base, ps, |ps|)
  {
    ghost var mem := memory[..];
    for i := 0 to |ps|
      invariant memory[..] == Pointers(mem, base, ps, i)
    {
      CopyInto(memory, base + 4 * i, EncodeWord(ps[i]));
    }
  }

  method WriteStrings(memory: array<Byte>, sp: nat, args: seq<Bytes>, ghost tops: seq<int>, ghost strs: seq<Bytes>, ghost copies: seq<Bytes>)
    returns (ok: bool, addresses: seq<Word>, top: int)
    requires Planned(args, tops, strs, copies) && tops[0] == sp && memory.Length < WORD
    modifies memory
    ensures ok <==> Within(memory.Length, tops, copies)
    ensures ok ==> top == tops[|strs|] && AreAddresses(addresses, tops)
    ensures ok ==> memory[..] == Stacked(old(memory[..]), tops, copies, |args|)
  {
    ghost var mem := memory[..];
    addresses, top := [], sp;
    for c := 0 to |args|
      invariant memory[..] == Stacked(mem, tops, copies, c)
      invariant forall j :: 0 <= j < c ==> Room(memory.Length, tops, copies, j)
      invariant top == tops[c] && |addresses| == c && forall j :: 0 <= j < c ==> addresses[j] == tops[j + 1]
    {
      assert IsArg(args[c], strs[c], copies[c]);
      top := top - Slot(args[c]);
      ok := WriteStringToUser(memory, args[c], top);
      assert ok <==> Room(memory.Length, tops, copies, c);
      if !ok {
        return false, [], 0;
      }
      StackedStep(mem, tops, copies, c);
      addresses := addresses + [top];
    }
    ok, addresses := true, addresses + [0];
  }

  /** The loop writes a byte before it tests the next, and so never writes the NUL; every byte
      must lie in memory, and the first not at 0. */
  method WriteStringToUser(memory: array<Byte>, b: Bytes, userAddress: int) returns (ok: bool)
    requires IsBuffer(b)
    modifies memory
    ensures ok <==> 0 < userAddress && userAddress + |Copied(b)| <= memory.Length
    ensures ok ==> memory[..] == Splice(old(memory[..]), userAddress, Copied(b))
  {
    if userAddress <= 0 || userAddress >= memory.Length {
      return false;
    }
    ghost var mem, data := memory[..], Copied(b);
    CopiedEnds(b);
    memory[userAddress] := b[0];
    var temp := 1;
    while b[temp] != 0
      invariant 1 <= temp <= |data| && userAddress + temp <= memory.Length
      invariant memory[..] == Splice(mem, userAddress, data[..temp])
      decreases |data| - temp
    {
      if userAddress + temp >= memory.Length {
        return false;
      }
      memory[userAddress + temp] := b[temp];
      temp := temp + 1;
    }
    assert data[..temp] == data;
    return true;
  }

  lemma {:induction false} StringEnds(b: Bytes)
    requires 0 in b
    ensures |Str(b)| < |b| && b[|Str(b)|] == 0
  {
    if b[0] != 0 {
      StringEnds(b[1..]);
    }
  }

  lemma CopiedEnds(b: Bytes)
    requires IsBuffer(b)
    ensures var n := |Copied(b)|;
            n < |b| && Copied(b) == b[..n] && forall k :: 1 <= k <= n ==> (b[k] == 0 <==> k == n)
  {
    var rest := b[1..];
    var s := CString(rest, |rest|);
    StringEnds(rest);
    assert Copied(b) == [b[0]] + s && s == rest[..|s|];
    forall k | 1 <= k <= |s| + 1 ensures b[k] == 0 <==> k == |s| + 1 {
      assert b[k] == rest[k - 1] && (k <= |s| ==> rest[k - 1] == s[k - 1] && s[k - 1] in s);
    }
  }

  // ----- The round trip -----

  /** When a string comes back: it has no newline and is short enough; memory happened to hold a
      NUL in the byte left for its terminator; and what is left over behind later, empty strings
      stops short of that byte and agrees with the string where it runs over it. */
  ghost predicate Returns(mem: Bytes, tops: seq<int>, strs: seq<Bytes>, copies: seq<Bytes>, i: nat)
    requires Laid(mem, tops, strs, copies) && i < |strs|
  {
    LaidAt(mem, tops, strs, copies, i);
    && NEWLINE !in strs[i] && |strs[i]| < MAX_ARG_LENGTH
    && (strs[i] != [] ==> mem[tops[i] - 1] == 0)
    && Over(tops, copies, i, |strs|, tops[i] - 1).None?
    && forall k :: 0 <= k < |strs[i]| ==> Agrees(Over(tops, copies, i, |strs|, tops[i + 1] + k), strs[i][k])
  }

  predicate Agrees(over: Option<Byte>, b: Byte) { over == None || over == Some(b) }

  /** The room of string `i`, in the end. */
  lemma RoomOf(mem: Bytes, tops: seq<int>, strs: seq<Bytes>, copies: seq<Bytes>, base: nat, ps: seq<Word>, m: Bytes, i: nat, k: nat)
    requires Arranged(mem, tops, strs, copies, base, ps, m) && i < |strs| && k <= |strs[i]|
    ensures 0 < tops[i + 1] && tops[i + 1] + k < |m| == |mem|
    ensures m[tops[i + 1] + k] == FinalByte(mem, tops, strs, copies, i, k)
  {
    StackedByte(mem, tops, strs, copies, i, k);
    LaidFalls(mem, tops, strs, copies, i + 1, |strs|);
    var p, stacked := tops[i + 1] + k, Stacked(mem, tops, copies, |strs|);
    assert stacked[p] == FinalByte(mem, tops, strs, copies, i, k);
    AbovePointers(stacked, base, ps, p);
  }

  lemma AbovePointers(mem: Bytes, base: nat, ps: seq<Word>, p: nat)
    requires base + 4 * |ps| <= p < |mem|
    ensures Pointers(mem, base, ps, |ps|)[p] == mem[p]
  {
    PointersBelow(mem, base, ps, 0, |ps|, p);
  }

  /** A string is read back exactly when its bytes are there, it has no newline, is short enough
      and is followed by a NUL. */
  lemma {:induction false} StringFromExactly(mem: Bytes, addr: nat, s: Bytes, max: nat)
    requires 0 !in s && addr + |s| < |mem|
    ensures StringFrom(mem, addr, max) == Some(s + [0]) <==>
            NEWLINE !in s && |s| < max && mem[addr + |s|] == 0 && forall k :: 0 <= k < |s| ==> mem[addr + k] == s[k]
  {
    if forall k :: 0 <= k < |s| ==> mem[addr + k] == s[k] {
      StringFromIff(mem, addr, s, max);
    } else if StringFrom(mem, addr, max) == Some(s + [0]) {
      forall k | 0 <= k < |s| ensures mem[addr + k] == s[k] {
        ReadByte(mem, addr, max, k);
        assert (s + [0])[k] == s[k];
      }
    }
  }

  /** Every byte read is one of memory's. */
  lemma {:induction false} ReadByte(mem: Bytes, addr: nat, max: nat, k: nat)
    requires StringFrom(mem, addr, max).Some? && k < |StringFrom(mem, addr, max).value|
    ensures addr + k < |mem| && StringFrom(mem, addr, max).value[k] == mem[addr + k]
    decreases k
  {
    if k > 0 {
      ReadByte(mem, addr + 1, max - 1, k - 1);
    }
  }

  lemma StringBack(mem: Bytes, tops: seq<int>, strs: seq<Bytes>, copies: seq<Bytes>, base: nat, ps: seq<Word>, m: Bytes, i: nat)
    requires Arranged(mem, tops, strs, copies, base, ps, m) && i < |strs|
    ensures 0 < tops[i + 1]
    ensures StringFrom(m, tops[i + 1], MAX_ARG_LENGTH) == Some(strs[i] + [0]) <==> Returns(mem, tops, strs, copies, i)
  {
    var p, s := tops[i + 1], strs[i];
    LaidAt(mem, tops, strs, copies, i);
    forall k | 0 <= k < |s| ensures p + k < |m| && (m[p + k] == s[k] <==> Agrees(Over(tops, copies, i, |strs|, p + k), s[k])) {
      RoomOf(mem, tops, strs, copies, base, ps, m, i, k);
    }
    TerminatorBack(mem, tops, strs, copies, base, ps, m, i);
    StringFromExactly(m, p, s, MAX_ARG_LENGTH);
  }

  lemma TerminatorBack(mem: Bytes, tops: seq<int>, strs: seq<Bytes>, copies: seq<Bytes>, base: nat, ps: seq<Word>, m: Bytes, i: nat)
    requires Arranged(mem, tops, strs, copies, base, ps, m) && i < |strs|
    ensures 0 < tops[i] <= |m| == |mem| && tops[i] - 1 == tops[i + 1] + |strs[i]|
    ensures m[tops[i] - 1] == 0 <==> (strs[i] != [] ==> mem[tops[i] - 1] == 0) && Over(tops, copies, i, |strs|, tops[i] - 1).None?
  {
    LaidAt(mem, tops, strs, copies, i);
    RoomOf(mem, tops, strs, copies, base, ps, m, i, |strs[i]|);
    if Over(tops, copies, i, |strs|, tops[i] - 1).Some? {
      OverIsLeftover(mem, tops, strs, copies, i, |strs|, tops[i] - 1);
    }
  }

  lemma PointerBack(mem: Bytes, tops: seq<int>, strs: seq<Bytes>, copies: seq<Bytes>, base: nat, ps: seq<Word>, m: Bytes, c: nat)
    requires Arranged(mem, tops, strs, copies, base, ps, m) && c < |ps|
    ensures PointerOf(m, base, c) == Some(ps[c])
  {
    PointerIn(Stacked(mem, tops, copies, |strs|), base, ps, c);
  }

  lemma PointerIn(mem: Bytes, base: nat, ps: seq<Word>, c: nat)
    requires c < |ps| && base % 4 == 0 && base + 4 * |ps| <= |mem|
    ensures PointerOf(Pointers(mem, base, ps, |ps|), base, c) == Some(ps[c])
  {
    PointerAt(mem, base, ps, c);
  }

  /** Counting stops at the null. */
  lemma {:induction false} CountTo(m: Bytes, base: nat, ps: seq<Word>, c: nat)
    requires c < |ps| <= MAX_ARG_COUNT && ps[|ps| - 1] == 0 && forall i :: 0 <= i < |ps| ==> PointerOf(m, base, i) == Some(ps[i])
    requires forall i :: 0 <= i < |ps| - 1 ==> ps[i] != 0
    ensures CountFrom(m, base, c) == Counted(|ps| - 1)
    decreases |ps| - c
  {
    assert PointerOf(m, base, c) == Some(ps[c]);
    if c < |ps| - 1 {
      CountTo(m, base, ps, c + 1);
    }
  }

  lemma CountBack(mem: Bytes, tops: seq<int>, strs: seq<Bytes>, copies: seq<Bytes>, base: nat, ps: seq<Word>, m: Bytes)
    requires Arranged(mem, tops, strs, copies, base, ps, m) && |strs| < MAX_ARG_COUNT
    ensures CountFrom(m, base, 0) == Counted(|strs|)
  {
    forall i | 0 <= i < |ps| ensures PointerOf(m, base, i) == Some(ps[i]) && (i < |ps| - 1 ==> ps[i] != 0) {
      PointerBack(mem, tops, strs, copies, base, ps, m, i);
      if i < |strs| {
        LaidAt(mem, tops, strs, copies, i);
      }
    }
    CountTo(m, base, ps, 0);
  }

  lemma ArgBack(mem: Bytes, tops: seq<int>, strs: seq<Bytes>, copies: seq<Bytes>, base: nat, ps: seq<Word>, m: Bytes, i: nat)
    requires Arranged(mem, tops, strs, copies, base, ps, m) && i < |strs|
    ensures ArgAt(m, base, i) == Some(strs[i] + [0]) <==> Returns(mem, tops, strs, copies, i)
  {
    PointerBack(mem, tops, strs, copies, base, ps, m, i);
    StringBack(mem, tops, strs, copies, base, ps, m, i);
  }

  /** The strings with their terminators. */
  ghost predicate SameStrings(r: Saved, strs: seq<Bytes>) {
    r.Saved? && |r.args| == |strs| && forall i :: 0 <= i < |strs| ==> r.args[i] == strs[i] + [0]
  }

  /** All arguments come back as they were exactly when the array is not at 0 and each does. */
  lemma RoundTripIff(mem: Bytes, tops: seq<int>, strs: seq<Bytes>, copies: seq<Bytes>, base: nat, ps: seq<Word>, m: Bytes, r: Saved)
    requires Arranged(mem, tops, strs, copies, base, ps, m) && |strs| < MAX_ARG_COUNT && IsSaved(m, base, r)
    ensures SameStrings(r, strs) <==> base > 0 && forall i :: 0 <= i < |strs| ==> Returns(mem, tops, strs, copies, i)
  {
    if base > 0 {
      CountBack(mem, tops, strs, copies, base, ps, m);
      forall i | 0 <= i < |strs| ensures ArgAt(m, base, i) == Some(strs[i] + [0]) <==> Returns(mem, tops, strs, copies, i) {
        ArgBack(mem, tops, strs, copies, base, ps, m, i);
      }
    }
  }

  /** Writing arguments and reading them back. */
  method PassArgs(memory: array<Byte>, sp: nat, args: seq<Bytes>) returns (r: Option<Saved>)
    requires Proper(memory[..], sp, args)
    modifies memory
    ensures r.Some? <==> |args| < MAX_ARG_COUNT && Base(sp, args) >= 0 && Within(memory.Length, Tops(sp, args), Copies(args))
    ensures r.Some? ==> Laid(old(memory[..]), Tops(sp, args), Strs(args), Copies(args))
    ensures r.Some? ==>
              (SameStrings(r.value, Strs(args)) <==>
               Base(sp, args) > 0 &&
               forall i :: 0 <= i < |args| ==> Returns(old(memory[..]), Tops(sp, args), Strs(args), Copies(args), i))
  {
    ghost var mem, tops, strs, copies := memory[..], Tops(sp, args), Strs(args), Copies(args);
    ghost var ps;
    var base;
    base, ps := WriteArgs(memory, sp, args);
    if base.None? {
      return None;
    }
    var saved := SaveArgs(memory, base.value);
    RoundTripIff(mem, tops, strs, copies, base.value, ps, memory[..], saved);
    return Some(saved);
  }

  /** On a stack that holds no zero, no argument but the empty one comes back, and that one unless
      another ran over it. */
  lemma UnterminatedArgument(mem: Bytes, tops: seq<int>, strs: seq<Bytes>, copies: seq<Bytes>, i: nat)
    requires Laid(mem, tops, strs, copies) && i < |strs| && 0 !in mem
    ensures tops[i] > 0
    ensures Returns(mem, tops, strs, copies, i) <==> strs[i] == [] && Over(tops, copies, i, |strs|, tops[i] - 1).None?
  {
    LaidAt(mem, tops, strs, copies, i);
  }

  /** When all buffers are tidy nothing runs over anything. */
  lemma {:induction false} TidyNeverOver(mem: Bytes, tops: seq<int>, strs: seq<Bytes>, copies: seq<Bytes>, i: nat, n: nat, p: nat)
    requires Laid(mem, tops, strs, copies) && i < n <= |strs| && tops[i + 1] <= p
    requires forall c :: i < c < n ==> |copies[c]| <= |strs[c]| + 1
    ensures Over(tops, copies, i, n, p).None?
  {
    if i + 1 < n {
      LaidAt(mem, tops, strs, copies, n - 1);
      LaidFalls(mem, tops, strs, copies, i + 1, n - 1);
      TidyNeverOver(mem, tops, strs, copies, i, n - 1, p);
    }
  }

  /** So that then only the terminator matters, the newline and the length. */
  lemma TidyReturnsIff(mem: Bytes, tops: seq<int>, strs: seq<Bytes>, copies: seq<Bytes>, i: nat)
    requires Laid(mem, tops, strs, copies) && i < |strs|
    requires forall c :: i < c < |strs| ==> |copies[c]| <= |strs[c]| + 1
    ensures 0 < tops[i] <= |mem|
    ensures Returns(mem, tops, strs, copies, i) <==>
            NEWLINE !in strs[i] && |strs[i]| < MAX_ARG_LENGTH && (strs[i] != [] ==> mem[tops[i] - 1] == 0)
  {
    LaidAt(mem, tops, strs, copies, i);
    forall p: nat | tops[i + 1] <= p ensures Over(tops, copies, i, |strs|, p).None? {
      TidyNeverOver(mem, tops, strs, copies, i, |strs|, p);
    }
  }

  /** An empty argument with a byte left over in its buffer changes the argument before it, if
      that begins with another byte: whatever memory held, that one does not come back. */
  lemma LeftoverDamages(mem: Bytes, tops: seq<int>, strs: seq<Bytes>, copies: seq<Bytes>, i: nat)
    requires Laid(mem, tops, strs, copies) && i + 1 < |strs| && strs[i] != [] && strs[i + 1] == []
    requires |copies[i + 1]| > 1 && copies[i + 1][1] != strs[i][0]
    requires forall c :: i + 1 < c < |strs| ==> |copies[c]| <= |strs[c]| + 1
    ensures !Returns(mem, tops, strs, copies, i)
  {
    LaidAt(mem, tops, strs, copies, i);
    LaidAt(mem, tops, strs, copies, i + 1);
    OverFrom(mem, tops, strs, copies, i, |strs|, tops[i + 1]);
    assert !Agrees(Over(tops, copies, i, |strs|, tops[i + 1] + 0), strs[i][0]);
  }

  lemma {:induction false} OverFrom(mem: Bytes, tops: seq<int>, strs: seq<Bytes>, copies: seq<Bytes>, i: nat, n: nat, p: nat)
    requires Laid(mem, tops, strs, copies) && i + 2 <= n <= |strs| && Covers(tops, copies, i + 1, p) && tops[i + 1] <= p
    requires forall c :: i + 1 < c < n ==> |copies[c]| <= |strs[c]| + 1
    ensures Over(tops, copies, i, n, p) == Some(copies[i + 1][p - tops[i + 2]])
  {
    if i + 2 < n {
      LaidAt(mem, tops, strs, copies, n - 1);
      LaidFalls(mem, tops, strs, copies, i + 1, n - 1);
      OverFrom(mem, tops, strs, copies, i, n - 1, p);
    }
  }

  /** What the buffers of a one-byte argument and of an empty one with a byte left over stand for. */
  lemma LeftoverBuffers(a: Byte, b: Byte)
    requires a != 0 && b != 0
    ensures IsBuffer([a, 0]) && Str([a, 0]) == [a] && Copied([a, 0]) == [a]
    ensures IsBuffer([0, b, 0]) && Str([0, b, 0]) == [] && Copied([0, b, 0]) == [0, b]
  {
    assert [a, 0][1..] == [0] && [0, b, 0][1..] == [b, 0] && [b, 0][1..] == [0];
    assert CString([a, 0], 2) == [a] + CString([a, 0][1..], 1);
    assert CString([b, 0], 2) == [b] + CString([b, 0][1..], 1);
  }

  /** Such a run: an argument of one byte, and behind it an empty one.  Whatever memory held, the
      first does not come back. */
  method PassLeftover(memory: array<Byte>, sp: nat, a: Byte, b: Byte) returns (r: Saved)
    requires 32 <= sp <= memory.Length < WORD && a != 0 && b != 0 && a != b
    modifies memory
    ensures !SameStrings(r, [[a], []])
  {
    var args := [[a, 0], [0, b, 0]];
    LeftoverBuffers(a, b);
    ghost var mem, tops, strs, copies := memory[..], Tops(sp, args), Strs(args), Copies(args);
    assert tops[0] == sp && tops[1] == sp - 2 && tops[2] == sp - 3;
    assert strs == [[a], []];
    assert Within(memory.Length, tops, copies);
    var s := PassArgs(memory, sp, args);
    LeftoverDamages(mem, tops, strs, copies, 0);
    r := s.value;
  }
}
