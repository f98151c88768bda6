/** Strings of bits, most significant first, and the byte buffers that hold them. */
module BitStrings {
  import opened Binary
  import opened Bytes
  import opened Multiples

  /** The low `n` bits of `v`. */
  function ToBits(v: nat, n: nat): (s: seq<bool>)
    ensures |s| == n
  {
    if n == 0 then [] else ToBits(v / 2, n - 1) + [v % 2 == 1]
  }

  /** Numbers of the same width are told apart by their bits. */
  lemma {:induction false} BitsInjective(v: nat, w: nat, n: nat)
    requires v < Pow2(n) && w < Pow2(n) && ToBits(v, n) == ToBits(w, n)
    ensures v == w
  {
    if n > 0 {
      assert ToBits(v, n)[..n - 1] == ToBits(v / 2, n - 1) && ToBits(w, n)[..n - 1] == ToBits(w / 2, n - 1);
      assert ToBits(v, n)[n - 1] == ToBits(w, n)[n - 1];
      BitsInjective(v / 2, w / 2, n - 1);
    }
  }

  lemma HalfOfRemainder(x: nat, m: nat)
    requires 0 < m
    ensures (x % (2 * m)) / 2 == (x / 2) % m && (x % (2 * m)) % 2 == x % 2
  {
    var h, r := x / 2, x % 2;
    var q, s := h / m, h % m;
    assert h == q * m + s;
    assert x == q * (2 * m) + (2 * s + r);
    Remainder(x, 2 * m, q, 2 * s + r);
  }

  /** Bits beyond the width do not matter. */
  lemma {:induction false} BitsOfRemainder(x: nat, n: nat)
    ensures ToBits(x % Pow2(n), n) == ToBits(x, n)
  {
    if n > 0 {
      HalfOfRemainder(x, Pow2(n - 1));
      BitsOfRemainder(x / 2, n - 1);
    }
  }

  lemma {:induction false} HighBits(b: nat, n: nat, k: nat)
    requires k <= n
    ensures ToBits(b, n)[..n - k] == ToBits(ShiftRight(b, k), n - k)
    decreases k
  {
    if k > 0 {
      HighBits(b / 2, n - 1, k - 1);
      assert ToBits(b, n)[..n - k] == ToBits(b / 2, n - 1)[..n - k];
    }
  }

  lemma {:induction false} LowBits(a: nat, n: nat, k: nat)
    requires k <= n
    ensures ToBits(a, n)[k..] == ToBits(a, n - k)
    decreases n
  {
    if k < n {
      LowBits(a / 2, n - 1, k);
      assert ToBits(a, n)[k..] == ToBits(a / 2, n - 1)[k..] + [a % 2 == 1];
    }
  }

  lemma {:induction false} ShiftRightBound(b: nat, k: nat, s: nat)
    requires b < Pow2(k + s)
    ensures ShiftRight(b, k) < Pow2(s)
    decreases k
  {
    if k > 0 { ShiftRightBound(b / 2, k - 1, s); }
  }

  lemma {:induction false} BitsOfShifted(a: nat, t: nat, n: nat, s: nat)
    requires t < Pow2(s)
    ensures ToBits(ShiftLeft(a, s) + t, n + s) == ToBits(a, n) + ToBits(t, s)
    decreases s
  {
    if s > 0 {
      BitsOfShifted(a, t / 2, n, s - 1);
      var x := ShiftLeft(a, s) + t;
      assert x / 2 == ShiftLeft(a, s - 1) + t / 2 && x % 2 == t % 2;
      assert ToBits(a, n) + ToBits(t, s) == (ToBits(a, n) + ToBits(t / 2, s - 1)) + [t % 2 == 1];
    }
  }

  function ShiftWord(y: nat): nat {
    2 * y % Pow2(32)
  }

  /** Shifting a 32-bit word to the left by one. */
  lemma {:induction false} ShiftedWord(y: nat, n: nat)
    requires 1 <= n <= 32
    ensures ToBits(ShiftWord(y), n) == ToBits(y, n)[1..] + [false]
  {
    var z, w := 2 * y, ShiftWord(y);
    assert ToBits(w, n) == ToBits(z, n) by {
      BitsOfRemainder(z, 32);
      LowBits(z, 32, 32 - n);
      LowBits(w, 32, 32 - n);
    }
    LowBits(y, n, 1);
  }

  lemma {:induction false} ShiftedBits(y: nat, n: nat, k: nat, s: seq<bool>)
    requires 1 <= k <= n <= 32 && ToBits(y, n)[..k] == s
    ensures ToBits(ShiftWord(y), n)[..k - 1] == s[1..]
  {
    ShiftedWord(y, n);
  }

  /** What `_Huffman_Read8Bits` computes from two bytes. */
  function Straddle(a: byte, b: byte, s: nat): nat
    requires s < 8
  {
    ShiftLeft(a, s) + ShiftRight(b, 8 - s)
  }

  /** Bits that straddle two `n`-bit numbers. */
  lemma StraddlingBits(a: nat, b: nat, n: nat, s: nat)
    requires s <= n && b < Pow2(n)
    ensures ToBits(ShiftLeft(a, s) + ShiftRight(b, n - s), n) == ToBits(a, n)[s..] + ToBits(b, n)[..s]
  {
    ShiftRightBound(b, n - s, s);
    BitsOfShifted(a, ShiftRight(b, n - s), n - s, s);
    LowBits(a, n, s);
    HighBits(b, n, n - s);
  }

  /** `v` with bit number `k` replaced by `b`: `(v & ~(1 << k)) + (b << k)`. */
  function Put(v: nat, k: nat, b: bool): nat {
    if k == 0 then v / 2 * 2 + (if b then 1 else 0) else Put(v / 2, k - 1, b) * 2 + v % 2
  }

  lemma PutHalf(v: nat, k: nat, b: bool)
    ensures Put(v, k, b) / 2 == (if k == 0 then v / 2 else Put(v / 2, k - 1, b))
    ensures Put(v, k, b) % 2 == (if k == 0 then (if b then 1 else 0) else v % 2)
  {
  }

  lemma {:induction false} PutBits(v: nat, k: nat, b: bool, n: nat)
    requires k < n
    ensures ToBits(Put(v, k, b), n) == ToBits(v, n)[n - 1 - k := b]
    decreases k
  {
    PutHalf(v, k, b);
    if k > 0 { PutBits(v / 2, k - 1, b, n - 1); }
  }

  lemma {:induction false} PutBound(v: nat, k: nat, b: bool, n: nat)
    requires k < n && v < Pow2(n)
    ensures Put(v, k, b) < Pow2(n)
    decreases k
  {
    PutHalf(v, k, b);
    if k > 0 { PutBound(v / 2, k - 1, b, n - 1); }
  }

  lemma {:induction false} BitOfBits(v: nat, k: nat, n: nat)
    requires k < n
    ensures ToBits(v, n)[n - 1 - k] == Bit(v, k)
    decreases k
  {
    if k > 0 { BitOfBits(v / 2, k - 1, n - 1); }
  }

  /** The bits of a buffer of bytes. */
  function StreamBits(s: seq<byte>): (r: seq<bool>)
    ensures |r| == 8 * |s|
  {
    if s == [] then [] else StreamBits(s[..|s| - 1]) + ToBits(s[|s| - 1], 8)
  }

  lemma {:induction false} StreamByte(s: seq<byte>, q: nat, p: nat)
    requires q < |s| && p == 8 * q
    ensures StreamBits(s)[p..p + 8] == ToBits(s[q], 8)
    decreases |s|
  {
    var s' := s[..|s| - 1];
    if q < |s| - 1 {
      StreamByte(s', q, p);
      assert StreamBits(s)[p..p + 8] == StreamBits(s')[p..p + 8];
    }
  }

  /** The bits of a byte come most significant first. */
  lemma {:induction false} StreamBit(s: seq<byte>, q: nat, j: nat)
    requires q < |s| && j < 8
    ensures StreamBits(s)[8 * q + j] == Bit(s[q], 7 - j)
  {
    StreamByte(s, q, 8 * q);
    BitOfBits(s[q], 7 - j, 8);
    assert StreamBits(s)[8 * q..8 * q + 8][j] == StreamBits(s)[8 * q + j];
  }

  lemma WindowOfTwo(all: seq<bool>, p: nat, i: nat, x: seq<bool>, y: seq<bool>, z: seq<bool>)
    requires p + 16 <= |all| && i < 8 && all[p..p + 8] == x && all[p + 8..p + 8 + 8] == y && |x| == |y| == 8
    requires z == x[i..] + y[..i]
    ensures all[p + i..p + i + 8] == z
  {
  }

  lemma ByteBelowPow2(b: byte)
    ensures b < Pow2(8)
  {
    assert Pow2(8) == 256;
  }

  lemma StraddleBits(a: byte, b: byte, i: nat)
    requires i < 8
    ensures ToBits(Straddle(a, b, i), 8) == ToBits(a, 8)[i..] + ToBits(b, 8)[..i]
  {
    ByteBelowPow2(b);
    StraddlingBits(a, b, 8, i);
  }

  /** The low eight bits of `Straddle` are the bits of the stream from bit `i` of byte `q` on. */
  lemma StraddlingByte(s: seq<byte>, q: nat, i: nat, p: nat)
    requires q + 1 < |s| && i < 8 && p == 8 * q
    ensures StreamBits(s)[p + i..p + i + 8] == ToBits(Straddle(s[q], s[q + 1], i), 8)
  {
    var all := StreamBits(s);
    var x, y := ToBits(s[q], 8), ToBits(s[q + 1], 8);
    assert all[p..p + 8] == x by { StreamByte(s, q, p); }
    assert all[p + 8..p + 8 + 8] == y by { StreamByte(s, q + 1, p + 8); }
    assert ToBits(Straddle(s[q], s[q + 1], i), 8) == x[i..] + y[..i] by { StraddleBits(s[q], s[q + 1], i); }
    WindowOfTwo(all, p, i, x, y, ToBits(Straddle(s[q], s[q + 1], i), 8));
  }

  /** A byte with bit `i`, counted from the most significant, replaced by `b`. */
  function PutByte(v: byte, i: nat, b: bool): (r: byte)
    requires i < 8
    ensures ToBits(r, 8) == ToBits(v, 8)[i := b]
  {
    assert Pow2(8) == 256;
    PutBound(v, 7 - i, b, 8);
    PutBits(v, 7 - i, b, 8);
    Put(v, 7 - i, b)
  }

  lemma {:induction false} StreamUpdate(s: seq<byte>, q: nat, i: nat, b: bool, w: byte)
    requires q < |s| && i < 8 && ToBits(w, 8) == ToBits(s[q], 8)[i := b]
    ensures StreamBits(s[q := w]) == StreamBits(s)[8 * q + i := b]
    decreases |s|
  {
    var s', t := s[..|s| - 1], s[q := w];
    if q < |s| - 1 {
      StreamUpdate(s', q, i, b, w);
      assert t[..|t| - 1] == s'[q := w];
    } else {
      assert t[..|t| - 1] == s';
    }
  }

  lemma {:induction false} StreamPrefix(s: seq<byte>, k: nat)
    requires k <= |s|
    ensures StreamBits(s[..k]) == StreamBits(s)[..8 * k]
    decreases |s|
  {
    if k == |s| {
      assert s[..k] == s && StreamBits(s)[..8 * k] == StreamBits(s);
    } else {
      var s' := s[..|s| - 1];
      StreamPrefix(s', k);
      assert s'[..k] == s[..k];
      assert StreamBits(s)[..8 * k] == StreamBits(s')[..8 * k];
    }
  }

  /**
   A stream position in a buffer, as `BytePtr` and `BitPos` of libbcl/huffman.c. Bits are written
   in place; what was in the buffer before survives beyond the position.
   */
  class BitStream {
    var buf: array<byte>
    var bytePtr: nat
    var bitPos: nat

    ghost predicate Valid()
      reads this
    {
      bitPos < 8 && Position() <= 8 * buf.Length
    }

    ghost function Position(): nat
      reads this
    {
      8 * bytePtr + bitPos
    }

    /** The bits before the position. */
    ghost function Passed(): seq<bool>
      requires Valid()
      reads this, buf
    {
      StreamBits(buf[..])[..Position()]
    }

    /** `_Huffman_InitBitstream`. */
    constructor (b: array<byte>)
      ensures Valid() && buf == b && Position() == 0
    {
      buf, bytePtr, bitPos := b, 0, 0;
    }

    method Advance()
      requires bitPos < 8 && Position() < 8 * buf.Length
      modifies this`bytePtr, this`bitPos
      ensures Valid() && Position() == old(Position()) + 1
    {
      bitPos := (bitPos + 1) % 8;
      if bitPos == 0 {
        bytePtr := bytePtr + 1;
      }
    }

    method WriteBit(b: bool)
      requires Valid() && Position() < 8 * buf.Length
      modifies this`bytePtr, this`bitPos, buf
      ensures Valid() && Position() == old(Position()) + 1
      ensures Passed() == old(Passed()) + [b]
    {
      ghost var before := buf[..];
      StreamUpdate(before, bytePtr, bitPos, b, PutByte(buf[bytePtr], bitPos, b));
      buf[bytePtr] := PutByte(buf[bytePtr], bitPos, b);
      assert buf[..] == before[bytePtr := PutByte(before[bytePtr], bitPos, b)];
      Advance();
    }

    /** `_Huffman_WriteBits`: the low `bits` bits of a 32-bit word. */
    method WriteBits(x: nat, bits: nat)
      requires Valid() && Position() + bits <= 8 * buf.Length && 1 <= bits <= 32 && x < Pow2(32)
      modifies this`bytePtr, this`bitPos, buf
      ensures Valid() && Position() == old(Position()) + bits
      ensures Passed() == old(Passed()) + ToBits(x, bits)
    {
      ghost var code := ToBits(x, bits);
      var y: nat := x;
      for count := 0 to bits
        invariant Valid() && Position() == old(Position()) + count
        invariant Passed() == old(Passed()) + code[..count]
        invariant ToBits(y, bits)[..bits - count] == code[count..]
      {
        assert Bit(y, bits - 1) == code[count] by {
          BitOfBits(y, bits - 1, bits);
          assert ToBits(y, bits)[0] == ToBits(y, bits)[..bits - count][0];
        }
        WriteBit(Bit(y, bits - 1));
        assert code[..count + 1] == code[..count] + [code[count]];
        ShiftedBits(y, bits, bits - count, code[count..]);
        y := ShiftWord(y);
      }
      assert code[..bits] == code;
    }

    /** `_Huffman_ReadBit`. */
    method ReadBit() returns (b: bool)
      requires Valid() && Position() < 8 * buf.Length
      modifies this`bytePtr, this`bitPos
      ensures Valid() && Position() == old(Position()) + 1
      ensures b == StreamBits(buf[..])[old(Position())]
    {
      StreamBit(buf[..], bytePtr, bitPos);
      b := Bit(buf[bytePtr], 7 - bitPos);
      Advance();
    }

    /** `_Huffman_Read8Bits`, which leaves more than eight bits in its result. */
    method Read8Bits() returns (x: nat)
      requires Valid() && bytePtr + 1 < buf.Length
      modifies this`bytePtr
      ensures Valid() && Position() == old(Position()) + 8
      ensures ToBits(x, 8) == StreamBits(buf[..])[old(Position())..Position()]
    {
      StraddlingByte(buf[..], bytePtr, bitPos, 8 * bytePtr);
      x := Straddle(buf[bytePtr], buf[bytePtr + 1], bitPos);
      bytePtr := bytePtr + 1;
    }
  }
}
