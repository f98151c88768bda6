/**
 The bit stream of libbcl/rice.c. Bits that do not fit the buffer are dropped, and a buffer that is
 read to its end goes on with zeros.
 */
module RiceStream {
  import opened Binary
  import opened BitStrings
  import opened Bytes
  import opened RiceCode

  class Stream {
    const buf: array<byte>
    const numBytes: nat
    var bitPos: nat

    ghost predicate Valid()
      reads this
    {
      numBytes <= buf.Length && bitPos <= 8 * numBytes
    }

    /** The buffer holds the bits `w`, as far as they fit. */
    ghost predicate Wrote(w: seq<bool>)
      reads this, buf
    {
      && Valid() && bitPos == (if |w| < 8 * numBytes then |w| else 8 * numBytes)
      && StreamBits(buf[..])[..bitPos] == w[..bitPos]
    }

    /** The bits that are still to be read; zeros follow them. */
    ghost function Ahead(): seq<bool>
      requires Valid()
      reads this, buf
    {
      StreamBits(buf[..])[bitPos..8 * numBytes]
    }

    constructor (b: array<byte>, bytes: nat, pos: nat)
      requires bytes <= b.Length && pos <= 8 * bytes
      ensures Valid() && buf == b && numBytes == bytes && bitPos == pos
    {
      buf, numBytes, bitPos := b, bytes, pos;
    }

    /** `_Rice_WriteBit`. */
    method WriteBit(x: bool, ghost w: seq<bool>)
      requires Wrote(w)
      modifies this`bitPos, buf
      ensures Wrote(w + [x])
    {
      var idx := bitPos / 8;
      if idx < numBytes {
        ghost var before := buf[..];
        StreamUpdate(before, idx, bitPos % 8, x, PutByte(buf[idx], bitPos % 8, x));
        buf[idx] := PutByte(buf[idx], bitPos % 8, x);
        assert buf[..] == before[idx := PutByte(before[idx], bitPos % 8, x)];
        bitPos := bitPos + 1;
      }
    }

    /** `_Rice_ReadBit`. */
    method ReadBit() returns (x: bool)
      requires Valid()
      modifies this`bitPos
      ensures Valid() && x == First(old(Ahead())) && Ahead() == Drop(old(Ahead()), 1)
    {
      var idx := bitPos / 8;
      if idx < numBytes {
        ghost var all := StreamBits(buf[..]);
        StreamByte(buf[..], idx, 8 * idx);
        BitOfBits(buf[idx], 7 - bitPos % 8, 8);
        assert all[8 * idx..8 * idx + 8][bitPos % 8] == all[bitPos];
        x := Bit(buf[idx], 7 - bitPos % 8);
        bitPos := bitPos + 1;
      } else {
        x := false;
      }
    }
  }

  lemma {:induction false} ScaledBound(x: nat, y: nat, m: nat, n: nat)
    requires m + n == 32 && y == x * Pow2(m) && y < WORD
    ensures x < Pow2(n) && (n >= 1 && y >= WORD / 2 ==> Pow2(n - 1) <= x)
  {
    Pow2Sum(n, m);
    Pow2Word();
    if x >= Pow2(n) { Multiples.MulMonotone(Pow2(n), x, Pow2(m)); }
    if n >= 1 && y >= WORD / 2 && x < Pow2(n - 1) {
      Pow2Sum(n - 1, m);
      StrictMonotone(x, Pow2(n - 1), Pow2(m));
    }
  }

  lemma StrictMonotone(a: nat, b: nat, c: nat)
    requires a < b && c > 0
    ensures a * c < b * c
  {
    Multiples.MulMonotone(a + 1, b, c);
  }

  /** `_Rice_NumBits`. */
  method CountBits(x: nat) returns (n: nat)
    requires x < WORD
    ensures n == NumBits(x)
  {
    var y: nat := x;
    n := 32;
    while y < WORD / 2 && n > 0
      invariant n <= 32 && y < WORD && y == x * Pow2(32 - n)
    {
      assert Pow2(32 - n + 1) == 2 * Pow2(32 - n);
      y := 2 * y;
      n := n - 1;
    }
    ScaledBound(x, y, 32 - n, n);
    if n > 0 { NumBitsIs(x, n); }
  }
}
