/** The simulated processor's 32-step shift-and-add multiplication, with its 32-bit
    registers written out: signed words wrap, unsigned words reduce modulo 2^32 and the
    right shift of the signed multiplier keeps the sign bit. */
module Multiply {
  import opened Common

  const W := 0x1_0000_0000

  predicate IsInt(x: int) { -0x8000_0000 <= x < 0x8000_0000 }

  /** A signed word read as unsigned. */
  function Unsigned(x: int): (r: nat)
    requires IsInt(x)
    ensures r < W
  {
    if x < 0 then x + W else x
  }

  /** An unsigned word read as signed. */
  function Signed(x: nat): (r: int)
    requires x < W
    ensures IsInt(r) && Unsigned(r) == x
  {
    if x < 0x8000_0000 then x else x - W
  }

  /** Negation with wraparound: the most negative word is its own negation. */
  function Negate(x: int): (r: int)
    requires IsInt(x)
    ensures IsInt(r) && (x < 0 ==> Unsigned(r) == -x)
  {
    if x == -0x8000_0000 then x else -x
  }

  /** The signed value of a double word. */
  function SignedDouble(hi: int, lo: int): int
    requires IsInt(hi) && IsInt(lo)
  {
    hi * W + Unsigned(lo)
  }

  function UnsignedDouble(hi: int, lo: int): nat
    requires IsInt(hi) && IsInt(lo)
  {
    Unsigned(hi) * W + Unsigned(lo)
  }

  // ----- One step of the loop -----

  lemma MulMonotone(x: int, y: int, z: nat)
    requires x <= y
    ensures x * z <= y * z
  {
    assert (y - x) * z >= 0;
  }

  lemma {:induction false} PowMonotone(m: nat, n: nat)
    requires m <= n
    ensures Pow2(m) <= Pow2(n)
  {
    if m < n {
      PowMonotone(m, n - 1);
    }
  }

  lemma PowLimits()
    ensures Pow2(31) == 0x8000_0000 && Pow2(32) == W
  {
    PowSum(8, 8);
    PowSum(16, 8);
    PowSum(24, 7);
    assert Pow2(7) == 0x80;
  }

  lemma {:induction false} PowSum(m: nat, n: nat)
    ensures Pow2(m) * Pow2(n) == Pow2(m + n)
  {
    if m > 0 {
      PowSum(m - 1, n);
    }
  }

  /** The state of the loop before step `i`.  With p == 2^i, `r` collects the bits of the
      multiplier already seen, so the signed multiplier is a * p + r; the accumulator is
      the product so far and bHi:bLo the multiplicand shifted by `i`. */
  ghost predicate LoopState(a0: int, b: nat, p: nat, r: nat, a: int, bHi: nat, bLo: nat, hi: nat, lo: nat) {
    && a0 == a * p + r && r < p
    && bHi < W && bLo < W && bHi * W + bLo == b * p
    && hi < W && lo < W && hi * W + lo == b * r
  }

  /** Adding a double word to the accumulator with an explicit carry. */
  method AddDouble(hi: nat, lo: nat, bHi: nat, bLo: nat) returns (hi': nat, lo': nat)
    requires hi < W && lo < W && bHi < W && bLo < W
    requires (hi * W + lo) + (bHi * W + bLo) < W * W
    ensures hi' < W && lo' < W && hi' * W + lo' == (hi * W + lo) + (bHi * W + bLo)
  {
    lo' := (lo + bLo) % W;
    hi' := hi;
    if lo' < bLo {
      hi' := (hi' + 1) % W;
    }
    hi' := (hi' + bHi) % W;
    assert lo' == if lo + bLo < W then lo + bLo else lo + bLo - W;
  }

  lemma ShiftLeft(bHi: nat, bLo: nat)
    requires bHi < W && bLo < W && 2 * (bHi * W + bLo) < W * W
    ensures var bHi' := 2 * bHi % W + (if bLo >= 0x8000_0000 then 1 else 0);
            var bLo' := 2 * bLo % W;
            bHi' < W && bLo' < W && bHi' * W + bLo' == 2 * (bHi * W + bLo)
  {
    if bLo >= 0x8000_0000 {
      assert 2 * bLo % W == 2 * bLo - W;
    }
  }

  lemma ProductBound(b: nat, p: nat, r: nat)
    requires b < W && p <= 0x8000_0000 && r <= p
    ensures 2 * (b * p) < W * W
    ensures b * r + b * p < W * W
  {
    MulMonotone(b, W - 1, p);
    MulMonotone(p, 0x8000_0000, W - 1);
    MulMonotone(r, p, b);
  }

  /** One step: accumulate when the bit is set, then shift. */
  lemma LoopStep(a0: int, b: nat, p: nat, r: nat, a: int, bHi: nat, bLo: nat, hi: nat, lo: nat, hi': nat, lo': nat)
    requires b < W && p <= 0x8000_0000
    requires LoopState(a0, b, p, r, a, bHi, bLo, hi, lo)
    requires hi' < W && lo' < W
    requires hi' * W + lo' == (hi * W + lo) + (if a % 2 == 1 then bHi * W + bLo else 0)
    ensures LoopState(a0, b, 2 * p, if a % 2 == 1 then r + p else r, a / 2,
                      2 * bHi % W + (if bLo >= 0x8000_0000 then 1 else 0), 2 * bLo % W, hi', lo')
  {
    ProductBound(b, p, r);
    ShiftLeft(bHi, bLo);
    assert b * (2 * p) == 2 * (b * p);
    assert b * (r + p) == b * r + b * p;
    var h := a / 2;
    assert a == 2 * h + a % 2;
    assert (2 * h + 1) * p == h * (2 * p) + p;
    assert (2 * h) * p == h * (2 * p);
  }

  lemma BreakIsComplete(a0: int, b: nat, p: nat, r: nat, bHi: nat, bLo: nat, hi: nat, lo: nat)
    requires IsInt(a0) && LoopState(a0, b, p, r, 1, bHi, bLo, hi, lo)
    ensures (hi * W + lo) + (bHi * W + bLo) == b * Unsigned(a0)
  {
    assert b * (r + p) == b * r + b * p;
  }

  lemma LoopIsComplete(a0: int, b: nat, r: nat, a: int, bHi: nat, bLo: nat, hi: nat, lo: nat)
    requires IsInt(a0) && LoopState(a0, b, W, r, a, bHi, bLo, hi, lo)
    ensures hi * W + lo == b * Unsigned(a0)
  {
    assert r == Unsigned(a0);
  }

  /** The unsigned loop: 32 steps, stopping early when no bits are left. */
  method MultiplyLoop(a0: int, b: nat) returns (hi: nat, lo: nat)
    requires IsInt(a0) && b < W
    ensures hi < W && lo < W && hi * W + lo == b * Unsigned(a0)
  {
    var a := a0;
    var bLo: nat, bHi: nat := b, 0;
    lo, hi := 0, 0;
    ghost var p: nat, r: nat := 1, 0;
    for i := 0 to 32
      invariant p == Pow2(i) && LoopState(a0, b, p, r, a, bHi, bLo, hi, lo)
    {
      PowLimits();
      PowMonotone(i, 31);
      ghost var hi0, lo0 := hi, lo;
      if a % 2 == 1 {
        ProductBound(b, p, r);
        hi, lo := AddDouble(hi, lo, bHi, bLo);
        if a == 1 {
          BreakIsComplete(a0, b, p, r, bHi, bLo, hi0, lo0);
          return;
        }
      }
      LoopStep(a0, b, p, r, a, bHi, bLo, hi0, lo0, hi, lo);
      p, r := 2 * p, if a % 2 == 1 then r + p else r;
      bHi := 2 * bHi % W + (if bLo >= 0x8000_0000 then 1 else 0);
      bLo := 2 * bLo % W;
      a := a / 2;
    }
    PowLimits();
    LoopIsComplete(a0, b, r, a, bHi, bLo, hi, lo);
  }

  /** Two's complement of a double word. */
  method NegateDouble(hi: nat, lo: nat) returns (hi': nat, lo': nat)
    requires hi < W && lo < W && 0 < hi * W + lo <= 0x4000_0000_0000_0000
    ensures hi' < W && lo' < W && SignedDouble(Signed(hi'), Signed(lo')) == -(hi * W + lo)
  {
    hi' := W - 1 - hi;
    lo' := W - 1 - lo;
    lo' := (lo' + 1) % W;
    if lo' == 0 {
      hi' := (hi' + 1) % W;
    }
    assert lo' == if lo == 0 then 0 else W - lo;
  }

  lemma SignedProduct(a: int, b: int, x: nat, y: nat)
    requires IsInt(a) && IsInt(b)
    requires x == (if a < 0 then -a else a) && y == (if b < 0 then -b else b)
    ensures a * b == if (a < 0) == (b < 0) then y * x else -(y * x)
    ensures 0 <= y * x <= 0x4000_0000_0000_0000
    ensures a != 0 && b != 0 ==> y * x > 0
  {
    MulMonotone(0, y, x);
    MulMonotone(y, 0x8000_0000, x);
    if a != 0 && b != 0 {
      MulMonotone(1, y, x);
    }
  }

  lemma PositiveDouble(hi: nat, lo: nat)
    requires hi < W && lo < W && hi * W + lo <= 0x4000_0000_0000_0000
    ensures SignedDouble(Signed(hi), Signed(lo)) == hi * W + lo
  {
  }

  /** Mult: the exact double-word product, signed or unsigned, for all operands. */
  method Mult(a: int, b: int, signedArith: bool) returns (hi: int, lo: int)
    requires IsInt(a) && IsInt(b)
    ensures IsInt(hi) && IsInt(lo)
    ensures signedArith ==> SignedDouble(hi, lo) == hi * 0x1_0000_0000 + (if lo < 0 then lo + 0x1_0000_0000 else lo) == a * b
    ensures !signedArith ==> UnsignedDouble(hi, lo) == Unsigned(b) * Unsigned(a)
  {
    if a == 0 || b == 0 {
      return 0, 0;
    }
    var negative := false;
    var x, y := a, b;
    if signedArith {
      if a < 0 {
        negative := !negative;
        x := Negate(a);
      }
      if b < 0 {
        negative := !negative;
        y := Negate(b);
      }
      SignedProduct(a, b, Unsigned(x), Unsigned(y));
    }
    var h, l := MultiplyLoop(x, Unsigned(y));
    if negative {
      h, l := NegateDouble(h, l);
    } else if signedArith {
      PositiveDouble(h, l);
    }
    return Signed(h), Signed(l);
  }
}
