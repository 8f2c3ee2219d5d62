/** The bitmap: a fixed array of bits with first-fit allocation. */
module Bitmaps {
  import opened Common

  /** The first clear bit at or after `i`. */
  function FirstClear(bits: seq<bool>, i: nat): (r: Option<nat>)
    requires i <= |bits|
    ensures r.None? ==> forall k :: i <= k < |bits| ==> bits[k]
    ensures r.Some? ==> i <= r.value < |bits| && !bits[r.value] && forall k :: i <= k < r.value ==> bits[k]
    decreases |bits| - i
  {
    if i == |bits| then None else if !bits[i] then Some(i) else FirstClear(bits, i + 1)
  }

  function ClearCount(bits: seq<bool>): nat {
    if bits == [] then 0 else ClearCount(bits[..|bits| - 1]) + (if bits[|bits| - 1] then 0 else 1)
  }

  /** Setting a clear bit lowers the count by one. */
  lemma {:induction false} ClearCountMark(bits: seq<bool>, k: nat)
    requires k < |bits| && !bits[k]
    ensures ClearCount(bits) == ClearCount(bits[k := true]) + 1
  {
    var n := |bits| - 1;
    if k == n {
      assert bits[k := true][..n] == bits[..n];
    } else {
      assert bits[k := true][..n] == bits[..n][k := true];
      ClearCountMark(bits[..n], k);
    }
  }

  /** Some bit is clear exactly when the count is positive. */
  lemma {:induction false} ClearCountPositive(bits: seq<bool>)
    ensures ClearCount(bits) > 0 <==> FirstClear(bits, 0).Some?
  {
    if bits != [] {
      var n := |bits| - 1;
      ClearCountPositive(bits[..n]);
      assert FirstClear(bits[..n], 0).None? ==> forall k :: 0 <= k < n ==> bits[k] by {
        assert FirstClear(bits[..n], 0).None? ==> forall k :: 0 <= k < n ==> bits[..n][k];
      }
      if FirstClear(bits[..n], 0).Some? {
        var k := FirstClear(bits[..n], 0).value;
        assert !bits[k];
      }
    }
  }

  lemma {:induction false} AllClear(n: nat)
    ensures ClearCount(seq(n, _ => false)) == n
  {
    if n > 0 {
      var bits := seq(n, _ => false);
      assert bits[..n - 1] == seq(n - 1, _ => false);
      AllClear(n - 1);
    }
  }

  class Bitmap {
    const store: array<bool>

    ghost function Bits(): (b: seq<bool>)
      reads store
    {
      store[..]
    }

    constructor (nitems: nat)
      requires nitems > 0
      ensures fresh(store) && store.Length == nitems
      ensures Bits() == seq(nitems, _ => false)
    {
      store := new bool[nitems](_ => false);
    }

    method Mark(which: nat)
      requires which < store.Length
      modifies store
      ensures Bits() == old(Bits())[which := true]
    {
      store[which] := true;
    }

    method Clear(which: nat)
      requires which < store.Length
      modifies store
      ensures Bits() == old(Bits())[which := false]
    {
      store[which] := false;
    }

    method Test(which: nat) returns (b: bool)
      requires which < store.Length
      ensures b == Bits()[which]
    {
      b := store[which];
    }

    /** Allocates the first clear bit, if there is one. */
    method Find() returns (r: Option<nat>)
      modifies store
      ensures r == FirstClear(old(Bits()), 0)
      ensures Bits() == if r.None? then old(Bits()) else old(Bits())[r.value := true]
    {
      var i := 0;
      while i < store.Length
        invariant 0 <= i <= store.Length && Bits() == old(Bits())
        invariant FirstClear(Bits(), 0) == FirstClear(Bits(), i)
      {
        if !store[i] {
          store[i] := true;
          return Some(i);
        }
        i := i + 1;
      }
      return None;
    }

    method CountClear() returns (count: nat)
      ensures count == ClearCount(Bits())
    {
      count := 0;
      for i := 0 to store.Length
        invariant count == ClearCount(store[..i])
      {
        assert store[..i + 1][..i] == store[..i];
        if !store[i] {
          count := count + 1;
        }
      }
      assert store[..store.Length] == store[..];
    }
  }
}
