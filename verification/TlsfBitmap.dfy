/**
 The bitmaps of libyaul/kernel/mm/tlsf.c. A bitmap is an unsigned number; the bit operations the
 code performs on it are defined by recursion on the bit position.
 */
module TlsfBitmap {
  import opened Binary

  /** `m | (1 << i)`. */
  function SetBit(m: nat, i: nat): nat {
    if i == 0 then m / 2 * 2 + 1 else SetBit(m / 2, i - 1) * 2 + m % 2
  }

  /** `m & ~(1 << i)`. */
  function ClearBit(m: nat, i: nat): nat {
    if i == 0 then m / 2 * 2 else ClearBit(m / 2, i - 1) * 2 + m % 2
  }

  /** `m & (~0U << i)`. */
  function BitsFrom(m: nat, i: nat): nat {
    if i == 0 then m else BitsFrom(m / 2, i - 1) * 2
  }

  /** `tlsf_ffs`: the position of the lowest set bit, -1 for zero. */
  function Ffs(m: nat): (r: int)
    ensures if m == 0 then r == -1 else 0 <= r && Bit(m, r) && forall j: nat :: j < r ==> !Bit(m, j)
  {
    if m == 0 then -1
    else if m % 2 == 1 then 0
    else
      assert forall j: nat :: 0 < j ==> Bit(m, j) == Bit(m / 2, j - 1);
      1 + Ffs(m / 2)
  }

  lemma Halves(a: nat, b: nat)
    requires b < 2
    ensures (a * 2 + b) / 2 == a && (a * 2 + b) % 2 == b
  {
  }

  lemma {:induction false} SetBitMeaning(m: nat, i: nat, j: nat)
    ensures Bit(SetBit(m, i), j) <==> j == i || Bit(m, j)
    decreases i
  {
    if i > 0 {
      Halves(SetBit(m / 2, i - 1), m % 2);
      if j > 0 { SetBitMeaning(m / 2, i - 1, j - 1); }
    } else {
      Halves(m / 2, 1);
    }
  }

  lemma {:induction false} ClearBitMeaning(m: nat, i: nat, j: nat)
    ensures Bit(ClearBit(m, i), j) <==> j != i && Bit(m, j)
    decreases i
  {
    if i > 0 {
      Halves(ClearBit(m / 2, i - 1), m % 2);
      if j > 0 { ClearBitMeaning(m / 2, i - 1, j - 1); }
    } else {
      Halves(m / 2, 0);
    }
  }

  lemma {:induction false} BitsFromMeaning(m: nat, i: nat, j: nat)
    ensures Bit(BitsFrom(m, i), j) <==> i <= j && Bit(m, j)
    decreases i
  {
    if i > 0 {
      Halves(BitsFrom(m / 2, i - 1), 0);
      if j > 0 { BitsFromMeaning(m / 2, i - 1, j - 1); }
    }
  }

  lemma {:induction false} ZeroHasNoBits(i: nat)
    ensures !Bit(0, i)
  {
    if i > 0 { ZeroHasNoBits(i - 1); }
  }

  /** A bitmap with a set bit is not zero. */
  lemma BitMeansNonZero(m: nat, i: nat)
    requires Bit(m, i)
    ensures m != 0
  {
    ZeroHasNoBits(i);
  }
}
