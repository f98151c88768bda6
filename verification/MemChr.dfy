/**
 `memchr` of libyaul/lib/string/memchr.c: a byte scan to the next word boundary, a scan of whole
 32-bit words with the "has a zero byte" trick, and a byte scan of the rest.
 */
module MemChr {
  import opened BytePatterns
  import opened Bytes

  /** `HASZERO`. */
  function HasZero(x: bv32): bv32 {
    (x - 0x01010101) & !x & 0x80808080
  }

  /** Four consecutive bytes of memory, read as one (big-endian) word. */
  function Word(a: bv8, b: bv8, c: bv8, d: bv8): bv32 {
    ((a as bv32) << 24) | ((b as bv32) << 16) | ((c as bv32) << 8) | (d as bv32)
  }

  lemma HasZeroLanes(x: bv32)
    ensures HasZero(x) != 0 <==>
            x & 0xff00_0000 == 0 || x & 0xff_0000 == 0 || x & 0xff00 == 0 || x & 0xff == 0
  {
  }

  lemma XorLane(x: bv32, y: bv32, m: bv32)
    ensures (x ^ y) & m == 0 <==> x & m == y & m
  {
  }

  predicate LaneEqual(x: bv32, y: bv32, m: bv32) {
    x & m == y & m
  }

  lemma XorLanes(x: bv32, y: bv32, z: bv32)
    requires z == x ^ y
    ensures z & 0xff00_0000 == 0 <==> LaneEqual(x, y, 0xff00_0000)
    ensures z & 0xff_0000 == 0 <==> LaneEqual(x, y, 0xff_0000)
    ensures z & 0xff00 == 0 <==> LaneEqual(x, y, 0xff00)
    ensures z & 0xff == 0 <==> LaneEqual(x, y, 0xff)
  {
    XorLane(x, y, 0xff00_0000);
    XorLane(x, y, 0xff_0000);
    XorLane(x, y, 0xff00);
    XorLane(x, y, 0xff);
  }

  lemma HasZeroOfXor(x: bv32, y: bv32, z: bv32)
    requires z == x ^ y
    ensures HasZero(z) != 0 <==>
            || LaneEqual(x, y, 0xff00_0000)
            || LaneEqual(x, y, 0xff_0000)
            || LaneEqual(x, y, 0xff00)
            || LaneEqual(x, y, 0xff)
  {
    XorLanes(x, y, z);
    HasZeroLanes(z);
  }

  lemma FirstLane(a: bv8, b: bv8, c: bv8, d: bv8, k: bv8, x: bv32, y: bv32)
    requires x == Word(a, b, c, d) && y == Word(k, k, k, k)
    ensures LaneEqual(x, y, 0xff00_0000) <==> a == k
  {
  }

  lemma SecondLane(a: bv8, b: bv8, c: bv8, d: bv8, k: bv8, x: bv32, y: bv32)
    requires x == Word(a, b, c, d) && y == Word(k, k, k, k)
    ensures LaneEqual(x, y, 0xff_0000) <==> b == k
  {
  }

  lemma ThirdLane(a: bv8, b: bv8, c: bv8, d: bv8, k: bv8, x: bv32, y: bv32)
    requires x == Word(a, b, c, d) && y == Word(k, k, k, k)
    ensures LaneEqual(x, y, 0xff00) <==> c == k
  {
  }

  lemma FourthLane(a: bv8, b: bv8, c: bv8, d: bv8, k: bv8, x: bv32, y: bv32)
    requires x == Word(a, b, c, d) && y == Word(k, k, k, k)
    ensures LaneEqual(x, y, 0xff) <==> d == k
  {
  }

  /** `ONES * c` holds `c` in every byte. */
  method Repeat(k: bv8) returns (y: bv32)
    ensures y == Word(k, k, k, k)
  {
    y := 0x01010101 * (k as bv32);
  }

  /** The word test succeeds exactly when one of the four bytes is the one looked for. */
  lemma WordTest(a: bv8, b: bv8, c: bv8, d: bv8, k: bv8, x: bv32, y: bv32, z: bv32)
    requires x == Word(a, b, c, d) && y == Word(k, k, k, k) && z == x ^ y
    ensures HasZero(z) != 0 <==> a == k || b == k || c == k || d == k
  {
    HasZeroOfXor(x, y, z);
    LanesEqual(a, b, c, d, k, x, y);
  }

  lemma LanesEqual(a: bv8, b: bv8, c: bv8, d: bv8, k: bv8, x: bv32, y: bv32)
    requires x == Word(a, b, c, d) && y == Word(k, k, k, k)
    ensures LaneEqual(x, y, 0xff00_0000) <==> a == k
    ensures LaneEqual(x, y, 0xff_0000) <==> b == k
    ensures LaneEqual(x, y, 0xff00) <==> c == k
    ensures LaneEqual(x, y, 0xff) <==> d == k
  {
    FirstLane(a, b, c, d, k, x, y);
    SecondLane(a, b, c, d, k, x, y);
    ThirdLane(a, b, c, d, k, x, y);
    FourthLane(a, b, c, d, k, x, y);
  }

  /** `HASZERO(*w ^ k)` for a word of four bytes and the repeated byte `k`. */
  predicate AnyLaneIs(a: bv8, b: bv8, c: bv8, d: bv8, ghost k: bv8, y: bv32)
    requires y == Word(k, k, k, k)
    ensures AnyLaneIs(a, b, c, d, k, y) <==> a == k || b == k || c == k || d == k
  {
    var x := Word(a, b, c, d);
    var z := x ^ y;
    WordTest(a, b, c, d, k, x, y, z);
    HasZero(z) != 0
  }

  /** The test on the word at position `i`. */
  predicate WordHas(h: seq<byte>, i: nat, ghost c: byte, y: bv32)
    requires i + 4 <= |h| && y == Repeated(c)
  {
    AnyLaneIs(Bits(h[i]), Bits(h[i + 1]), Bits(h[i + 2]), Bits(h[i + 3]), Bits(c), y)
  }

  function Repeated(c: byte): bv32 {
    Word(Bits(c), Bits(c), Bits(c), Bits(c))
  }

  lemma WordHasByte(h: seq<byte>, i: nat, c: byte, y: bv32)
    requires i + 4 <= |h| && y == Repeated(c)
    ensures WordHas(h, i, c, y) <==> h[i] == c || h[i + 1] == c || h[i + 2] == c || h[i + 3] == c
  {
    BitsInjective(h[i], c);
    BitsInjective(h[i + 1], c);
    BitsInjective(h[i + 2], c);
    BitsInjective(h[i + 3], c);
  }

  /** Advances over bytes other than `c`, as the first (`aligned`) and last loop of the code do. */
  method SkipBytes(h: seq<byte>, c: byte, start: nat, base: nat, toBoundary: bool) returns (s: nat)
    requires start <= |h| && c !in h[..start]
    ensures start <= s <= |h| && c !in h[..s]
    ensures s == |h| || h[s] == c || (toBoundary && (base + s) % 4 == 0)
  {
    s := start;
    while (!toBoundary || (base + s) % 4 != 0) && s < |h| && h[s] != c
      invariant start <= s <= |h| && c !in h[..s]
    {
      assert h[..s + 1] == h[..s] + [h[s]];
      s := s + 1;
    }
  }

  /**
   `memchr(src, c, n)`: `h` is the buffer, `base` its address. The result is the position of the
   first `c`, or the length of the buffer when there is none (the code's null).
   */
  method Find(h: seq<byte>, base: nat, c: byte) returns (s: nat)
    ensures s <= |h| && c !in h[..s] && (s < |h| ==> h[s] == c)
  {
    s := SkipBytes(h, c, 0, base, true);
    if s < |h| && h[s] != c {
      s := SkipWords(h, c, s, base);
    }
    s := SkipBytes(h, c, s, base, false);
  }

  /** The middle loop: whole words without `c`, from an aligned address on. */
  method SkipWords(h: seq<byte>, c: byte, start: nat, base: nat) returns (s: nat)
    requires start <= |h| && c !in h[..start] && (base + start) % 4 == 0
    ensures s <= |h| && c !in h[..s] && (base + s) % 4 == 0
  {
    s := start;
    var k := Repeat(Bits(c));
    while |h| - s >= 4 && !WordHas(h, s, c, k)
      invariant s <= |h| && c !in h[..s] && (base + s) % 4 == 0
    {
      WordHasByte(h, s, c, k);
      FourMore(h, c, s);
      s := s + 4;
    }
  }

  lemma FourMore(h: seq<byte>, c: byte, s: nat)
    requires s + 4 <= |h| && c !in h[..s] && h[s] != c && h[s + 1] != c && h[s + 2] != c && h[s + 3] != c
    ensures c !in h[..s + 4]
  {
    assert h[..s + 4] == h[..s] + [h[s], h[s + 1], h[s + 2], h[s + 3]];
  }
}
