/** How long a disk request takes: seek, rotation, transfer and the track buffer. */
module DiskTimes {
  import opened DiskLayout

  const SECTORS_PER_TRACK := 32
  const ROTATION_TIME := 500
  const SEEK_TIME := 500

  // ----- The rotating disk -----

  /** At time `t` the sector has just finished passing under the head: the disk turns by one
      sector every ROTATION_TIME ticks, on every track alike. */
  ghost predicate Passed(sector: nat, t: int) {
    t >= 0 && t % ROTATION_TIME == 0 && (t / ROTATION_TIME - (sector + 1)) % SECTORS_PER_TRACK == 0
  }

  /** A pass of the whole sector falls in an interval. */
  ghost predicate PassesWithin(sector: nat, from: int, to: int) {
    exists t :: Passed(sector, t) && from + ROTATION_TIME <= t <= to
  }

  /** `t` ends the first pass of the sector that starts at or after `from`. */
  ghost predicate FirstPass(sector: nat, from: int, t: int) {
    && Passed(sector, t) && from + ROTATION_TIME <= t
    && forall u :: Passed(sector, u) && from + ROTATION_TIME <= u ==> t <= u
  }

  function RoundUp(t: nat): (r: nat)
    ensures t <= r < t + ROTATION_TIME && r % ROTATION_TIME == 0
  {
    Quotient((t + ROTATION_TIME - 1) / ROTATION_TIME);
    (t + ROTATION_TIME - 1) / ROTATION_TIME * ROTATION_TIME
  }

  lemma Quotient(n: nat)
    ensures n * ROTATION_TIME % ROTATION_TIME == 0 && n * ROTATION_TIME / ROTATION_TIME == n
  {
  }

  // ----- The code's arithmetic -----

  function Diff(a: nat, b: nat): nat { if a > b then a - b else b - a }

  function SeekTime(lastSector: nat, newSector: nat): nat {
    Diff(newSector / SECTORS_PER_TRACK, lastSector / SECTORS_PER_TRACK) * SEEK_TIME
  }

  lemma SeekBounds(lastSector: nat, newSector: nat)
    requires lastSector < NUM_SECTORS && newSector < NUM_SECTORS
    ensures SeekTime(lastSector, newSector) <= 31 * SEEK_TIME
    ensures SeekTime(lastSector, newSector) == 0 <==> newSector / SECTORS_PER_TRACK == lastSector / SECTORS_PER_TRACK
  {
  }

  /** Each track further away costs one more unit, in either direction. */
  lemma SeekPerTrack(lastSector: nat, newSector: nat)
    ensures SeekTime(lastSector, lastSector) == 0 && SeekTime(lastSector, newSector) == SeekTime(newSector, lastSector)
    ensures newSector / SECTORS_PER_TRACK >= lastSector / SECTORS_PER_TRACK ==>
              SeekTime(lastSector, newSector + SECTORS_PER_TRACK) == SeekTime(lastSector, newSector) + SEEK_TIME
    ensures newSector / SECTORS_PER_TRACK == lastSector / SECTORS_PER_TRACK ==> SeekTime(lastSector, newSector) == 0
  {
  }

  /** How many sectors to go on, on the same track, from one sector to another. */
  lemma ModuloDiffReaches(to: nat, from: nat)
    ensures (from + ModuloDiff(to, from)) % SECTORS_PER_TRACK == to % SECTORS_PER_TRACK
  {
  }

  function ModuloDiff(to: nat, from: nat): (d: nat)
    ensures d < SECTORS_PER_TRACK
  {
    (to % SECTORS_PER_TRACK - from % SECTORS_PER_TRACK + SECTORS_PER_TRACK) % SECTORS_PER_TRACK
  }

  /** From a sector boundary, the first pass of a sector ends after ModuloDiff other sectors
      and itself. */
  lemma FirstPassAfter(sector: nat, n: nat)
    ensures FirstPass(sector, n * ROTATION_TIME, (n + ModuloDiff(sector, n) + 1) * ROTATION_TIME)
  {
    var d := ModuloDiff(sector, n);
    var t := (n + d + 1) * ROTATION_TIME;
    Quotient(n + d + 1);
    Alignment(sector, n);
    forall u | Passed(sector, u) && n * ROTATION_TIME + ROTATION_TIME <= u ensures t <= u {
      var m := u / ROTATION_TIME;
      assert u == m * ROTATION_TIME;
      SamePlace(sector, n, m);
    }
  }

  lemma Alignment(sector: nat, n: nat)
    ensures (n + ModuloDiff(sector, n) + 1 - (sector + 1)) % SECTORS_PER_TRACK == 0
  {
  }

  lemma SamePlace(sector: nat, n: nat, m: int)
    requires m >= n + 1 && (m - (sector + 1)) % SECTORS_PER_TRACK == 0
    ensures m >= n + ModuloDiff(sector, n) + 1
  {
  }

  /** No pass can start between a time and the next boundary. */
  lemma FirstPassRounded(sector: nat, from: nat, t: int)
    requires FirstPass(sector, RoundUp(from), t)
    ensures FirstPass(sector, from, t)
  {
    forall u | Passed(sector, u) && from + ROTATION_TIME <= u ensures t <= u {
      assert RoundUp(from) + ROTATION_TIME <= u;
    }
  }

  lemma Unbuffered(sector: nat, from: nat, timeAfter: nat)
    requires timeAfter == RoundUp(from)
    ensures var d := ModuloDiff(sector, timeAfter / ROTATION_TIME);
            FirstPass(sector, from, timeAfter + d * ROTATION_TIME + ROTATION_TIME)
  {
    var n := timeAfter / ROTATION_TIME;
    FirstPassAfter(sector, n);
    FirstPassRounded(sector, from, (n + ModuloDiff(sector, n) + 1) * ROTATION_TIME);
  }

  // ----- The disk -----

  class DiskHead {
    var active: bool
    var lastSector: nat
    var bufferInit: nat
    /** When the last seek ended, and when the disk was last known to be quiet: the completion
        of the current request, or the last request's completion. */
    ghost var arrived: nat
    ghost var quiet: nat

    /** The track buffer began filling at the first sector boundary after the head reached its
        track, which is before the disk can be asked for anything else. */
    ghost predicate Valid()
      reads this
    {
      bufferInit == RoundUp(arrived) && bufferInit <= quiet && lastSector < NUM_SECTORS
    }

    constructor ()
      ensures Valid() && !active && lastSector == 0 && quiet == 0
    {
      active, lastSector, bufferInit, arrived, quiet := false, 0, 0, 0, 0;
    }

    /** The seek time, and how long from its end to the next sector boundary. */
    method TimeToSeek(now: nat, newSector: nat) returns (seek: nat, rotation: nat)
      ensures seek == SeekTime(lastSector, newSector)
      ensures now + seek + rotation == RoundUp(now + seek)
    {
      var newTrack := newSector / SECTORS_PER_TRACK;
      var oldTrack := lastSector / SECTORS_PER_TRACK;
      seek := Diff(newTrack, oldTrack) * SEEK_TIME;
      var over := (now + seek) % ROTATION_TIME;
      rotation := 0;
      if over > 0 {
        rotation := ROTATION_TIME - over;
      }
    }

    /** The track buffer serves a read exactly when the head was already on the track and the
        whole sector has gone by since it arrived (rounding `now` up to a boundary).  Anything
        else ends at the first pass of the sector that starts after the seek. */
    method ComputeLatency(now: nat, newSector: nat, writing: bool) returns (ticks: nat)
      requires Valid() && quiet <= now && newSector < NUM_SECTORS
      ensures var buffered := !writing && newSector / SECTORS_PER_TRACK == lastSector / SECTORS_PER_TRACK
                              && PassesWithin(newSector, arrived, RoundUp(now));
              && (buffered ==> ticks == ROTATION_TIME)
              && (!buffered ==> FirstPass(newSector, now + SeekTime(lastSector, newSector), now + ticks))
      ensures ROTATION_TIME <= ticks < 32_000
    {
      var seek, rotation := TimeToSeek(now, newSector);
      var timeAfter := now + seek + rotation;
      SeekBounds(lastSector, newSector);
      BufferIff(newSector, arrived, timeAfter);
      if !writing && seek == 0
         && (timeAfter - bufferInit) / ROTATION_TIME > ModuloDiff(newSector, bufferInit / ROTATION_TIME) {
        return ROTATION_TIME;
      }
      Unbuffered(newSector, now + seek, timeAfter);
      rotation := rotation + ModuloDiff(newSector, timeAfter / ROTATION_TIME) * ROTATION_TIME;
      return seek + rotation + ROTATION_TIME;
    }

    method UpdateLast(now: nat, newSector: nat)
      requires bufferInit == RoundUp(arrived)
      modifies this`lastSector, this`bufferInit, this`arrived
      ensures bufferInit == RoundUp(arrived) && lastSector == newSector
      ensures arrived == if SeekTime(old(lastSector), newSector) != 0 then now + SeekTime(old(lastSector), newSector) else old(arrived)
    {
      var seek, rotate := TimeToSeek(now, newSector);
      if seek != 0 {
        bufferInit := now + seek + rotate;
        arrived := now + seek;
      }
      lastSector := newSector;
    }

    /** A request, served from the buffer or not, completes only after the whole sector has
        gone by since the head reached its track. */
    method Request(now: nat, newSector: nat, writing: bool) returns (ticks: nat)
      requires Valid() && !active && quiet <= now && newSector < NUM_SECTORS
      modifies this
      ensures Valid() && active && lastSector == newSector
      ensures ticks > 0 && quiet == now + ticks
      ensures PassesWithin(newSector, arrived, now + ticks)
    {
      ticks := ComputeLatency(now, newSector, writing);
      active := true;
      UpdateLast(now, newSector);
      quiet := now + ticks;
    }

    /** The completion interrupt is never early. */
    method HandleInterrupt(now: nat)
      requires Valid() && active && quiet <= now
      modifies this`active
      ensures Valid() && !active && quiet <= now
    {
      active := false;
    }
  }

  /** The code's test for the track buffer is that a whole pass of the sector has been read. */
  lemma BufferIff(sector: nat, arrived: nat, timeAfter: nat)
    requires RoundUp(arrived) <= timeAfter
    ensures var init := RoundUp(arrived);
            (timeAfter - init) / ROTATION_TIME > ModuloDiff(sector, init / ROTATION_TIME)
            <==> PassesWithin(sector, arrived, timeAfter)
  {
    var init := RoundUp(arrived);
    var n := init / ROTATION_TIME;
    var t := (n + ModuloDiff(sector, n) + 1) * ROTATION_TIME;
    FirstPassAfter(sector, n);
    FirstPassRounded(sector, arrived, t);
  }
}
