/** The headers of tools/genromfs/genromfs.c: big-endian words, and a checksum that makes them add up to zero. */
module RomfsHeader {
  import opened Binary
  import opened Bytes
  import opened Multiples

  /** A number in network order, cut to 32 bits. */
  function BE32(v: nat): (s: seq<byte>)
    ensures |s| == 4
  {
    var w := v % WORD;
    [w / 0x100_0000, w / 0x1_0000 % 256, w / 0x100 % 256, w % 256]
  }

  function WordAt(s: seq<byte>): (v: nat)
    requires |s| >= 4
    ensures v < WORD
  {
    s[0] as int * 0x100_0000 + s[1] as int * 0x1_0000 + s[2] as int * 0x100 + s[3]
  }

  lemma WordOfBE32(v: nat)
    ensures WordAt(BE32(v)) == v % WORD
  {
    var a := v % WORD / 256;
    var b := a / 256;
    assert v % WORD / 0x1_0000 == b && v % WORD / 0x100_0000 == b / 256;
    assert a == 256 * b + a % 256 && b == 256 * (b / 256) + b % 256;
  }

  /** A sum in 32 bits. */
  function Added(x: nat, y: nat): (r: nat)
    requires x < WORD && y < WORD
    ensures r < WORD
  {
    if x + y < WORD then x + y else x + y - WORD
  }

  /** `romfs_checksum`: the sum of the words, in 32 bits. */
  function Sum(s: seq<byte>): (v: nat)
    ensures v < WORD
  {
    if |s| < 4 then 0 else Added(WordAt(s), Sum(s[4..]))
  }

  lemma {:induction false} SumConcat(a: seq<byte>, b: seq<byte>)
    requires |a| % 4 == 0
    ensures Sum(a + b) == Added(Sum(a), Sum(b))
    decreases |a|
  {
    if a == [] {
      assert a + b == b;
    } else {
      SumConcat(a[4..], b);
      SumFirst(a + b, a[4..] + b, WordAt(a));
      SumThree(WordAt(a), Sum(a[4..]), Sum(b));
    }
  }

  lemma {:induction false} SumFirst(s: seq<byte>, rest: seq<byte>, w: nat)
    requires |s| >= 4 && s[4..] == rest && w == WordAt(s)
    ensures Sum(s) == Added(w, Sum(rest))
  {
  }

  lemma SumThree(x: nat, y: nat, z: nat)
    requires x < WORD && y < WORD && z < WORD
    ensures Added(x, Added(y, z)) == Added(Added(x, y), z)
  {
  }

  /** What is to be added to `v` for zero. */
  function Negative(v: nat): (r: nat)
    requires v < WORD
    ensures r < WORD && Added(v, r) == 0
  {
    if v == 0 then 0 else WORD - v
  }

  /** `fixsum` over the first `n` bytes. */
  function FixSum(s: seq<byte>, n: nat): (r: seq<byte>)
    requires 16 <= n <= |s|
    ensures |r| == |s| && r[..12] == s[..12] && r[16..] == s[16..]
  {
    s[..12] + BE32(Negative(Sum(s[..12] + BE32(0) + s[16..n]))) + s[16..]
  }

  lemma {:induction false} SumMiddle(a: seq<byte>, w: nat, b: seq<byte>)
    requires |a| % 4 == 0 && w < WORD
    ensures Sum(a + BE32(w) + b) == Added(Sum(a + BE32(0) + b), w)
  {
    assert a + BE32(w) + b == a + (BE32(w) + b) && a + BE32(0) + b == a + (BE32(0) + b);
    SumConcat(a, BE32(w) + b);
    SumConcat(a, BE32(0) + b);
    OneWord(w, b);
    OneWord(0, b);
    AddMiddle(Sum(a), w, Sum(b));
  }

  lemma {:induction false} OneWord(w: nat, b: seq<byte>)
    requires w < WORD
    ensures Sum(BE32(w) + b) == Added(w, Sum(b))
  {
    assert (BE32(w) + b)[4..] == b;
    WordOfBE32(w);
    assert WordAt(BE32(w) + b) == w;
  }

  lemma AddMiddle(x: nat, w: nat, y: nat)
    requires x < WORD && w < WORD && y < WORD
    ensures Added(x, Added(w, y)) == Added(Added(x, Added(0, y)), w)
  {
  }

  /** After `fixsum` the bytes add up to zero. */
  lemma {:induction false} FixedSum(s: seq<byte>, n: nat)
    requires 16 <= n <= |s|
    ensures Sum(FixSum(s, n)[..n]) == 0
  {
    var a, b := s[..12], s[16..n];
    var c := Negative(Sum(a + BE32(0) + b));
    assert FixSum(s, n)[..n] == a + BE32(c) + b;
    SumMiddle(a, c, b);
  }

  /** The header of a file "a" of three bytes that is last in its directory: big-endian words, and its checksum. */
  lemma {:induction false} KnownHeader(tail: seq<byte>)
    requires tail == [97] + seq(15, _ => 0)
    ensures FixSum(BE32(2) + BE32(0) + BE32(3) + BE32(0x5555_5555) + tail, 32) ==
      [0, 0, 0, 2, 0, 0, 0, 0, 0, 0, 0, 3, 0x9e, 0xff, 0xff, 0xfb] + tail
  {
    var front := BE32(2) + BE32(0) + BE32(3);
    FixedIs(front, BE32(0x5555_5555), tail);
    KnownSum(tail);
    assert front + BE32(0) + tail == BE32(2) + (BE32(0) + (BE32(3) + (BE32(0) + tail)));
    assert Negative(0x6100_0005) == 0x9eff_fffb;
    KnownBytes(front);
  }

  lemma FixedIs(front: seq<byte>, word: seq<byte>, tail: seq<byte>)
    requires |front| == 12 && |word| == 4 && |tail| == 16
    ensures FixSum(front + word + tail, 32) == front + BE32(Negative(Sum(front + BE32(0) + tail))) + tail
  {
    var raw := front + word + tail;
    assert raw[..12] == front && raw[16..] == tail && raw[16..32] == tail;
  }

  lemma KnownBytes(front: seq<byte>)
    requires front == BE32(2) + BE32(0) + BE32(3)
    ensures front + BE32(0x9eff_fffb) == [0, 0, 0, 2, 0, 0, 0, 0, 0, 0, 0, 3, 0x9e, 0xff, 0xff, 0xfb]
  {
    assert BE32(0) == [0, 0, 0, 0] && BE32(2) == [0, 0, 0, 2] && BE32(3) == [0, 0, 0, 3];
    assert BE32(0x9eff_fffb) == [0x9e, 0xff, 0xff, 0xfb];
  }

  lemma {:induction false} KnownSum(tail: seq<byte>)
    requires tail == [97] + seq(15, _ => 0)
    ensures Sum(BE32(2) + (BE32(0) + (BE32(3) + (BE32(0) + tail)))) == 0x6100_0005
  {
    var zeros := BE32(0) + (BE32(0) + (BE32(0) + []));
    assert BE32(0) == [0, 0, 0, 0] && BE32(0x6100_0000) == [97, 0, 0, 0];
    assert tail == BE32(0x6100_0000) + zeros;
    OneWord(0, []);
    OneWord(0, BE32(0) + []);
    OneWord(0, BE32(0) + (BE32(0) + []));
    OneWord(0x6100_0000, zeros);
    OneWord(0, tail);
    OneWord(3, BE32(0) + tail);
    OneWord(0, BE32(3) + (BE32(0) + tail));
    OneWord(2, BE32(0) + (BE32(3) + (BE32(0) + tail)));
  }

  // ---------------------------------------------------------------- next links and type bits

  /** Bitwise or. */
  function Or(a: nat, b: nat): nat
    decreases a + b
  {
    if a == 0 && b == 0 then 0
    else 2 * Or(a / 2, b / 2) + if a % 2 == 1 || b % 2 == 1 then 1 else 0
  }

  /** A multiple of a power of two keeps its low bits free. */
  lemma {:induction false} OrDisjoint(a: nat, b: nat, k: nat, p: nat)
    requires p == Pow2(k) && a % p == 0 && b < p
    ensures Or(a, b) == a + b
    decreases k
  {
    if k == 0 {
      OrZero(a);
    } else {
      HalfMultiple(a, Pow2(k - 1));
      OrDisjoint(a / 2, b / 2, k - 1, Pow2(k - 1));
      assert a == 2 * (a / 2);
    }
  }

  lemma {:induction false} OrZero(a: nat)
    ensures Or(a, 0) == a
  {
    if a > 0 { OrZero(a / 2); }
  }

  lemma HalfMultiple(a: nat, p: nat)
    requires 0 < p && a % (2 * p) == 0
    ensures a % 2 == 0 && a / 2 % p == 0
  {
    var q := a / (2 * p);
    assert a == q * (2 * p) == 2 * (q * p);
    assert a / 2 == q * p;
    Remainder(q * p, p, q, 0);
  }
}
