/**
 `memmem` of libyaul/lib/string/memmem.c: the dispatch on the needle's length, and the rolling
 searches for needles of two, three and four bytes.
 */
module MemMem {
  import opened Binary
  import opened Bytes
  import MemChr
  import Multiples
  import opened TwoWay

  /** The big-endian value of the two bytes at `at`. */
  function Value2(h: seq<byte>, at: nat): int
    requires at + 2 <= |h|
  {
    (h[at] as int) * 0x100 + h[at + 1] as int
  }

  lemma Value2Injective(h: seq<byte>, n: seq<byte>, at: nat)
    requires at + 2 <= |h| && |n| == 2
    ensures Value2(h, at) == Value2(n, 0) <==> Occurs(h, n, at)
  {
    assert h[at..at + 2] == [h[at], h[at + 1]] && n == [n[0], n[1]];
  }

  /** The three bytes at `at` in the upper part of a word. */
  function Value3(h: seq<byte>, at: nat): int
    requires at + 3 <= |h|
  {
    Word(h[at], h[at + 1], h[at + 2], 0)
  }

  lemma Value3Injective(h: seq<byte>, n: seq<byte>, at: nat)
    requires at + 3 <= |h| && |n| == 3
    ensures Value3(h, at) == Value3(n, 0) <==> Occurs(h, n, at)
  {
    assert h[at..at + 3] == [h[at], h[at + 1], h[at + 2]] && n == [n[0], n[1], n[2]];
    if Value3(h, at) == Value3(n, 0) {
      DigitsEqual(h[at], h[at + 1], h[at + 2], 0, n[0], n[1], n[2], 0);
    }
  }

  /** The big-endian value of the four bytes at `at`. */
  function Value4(h: seq<byte>, at: nat): int
    requires at + 4 <= |h|
  {
    Word(h[at], h[at + 1], h[at + 2], h[at + 3])
  }

  lemma DigitsEqual(a: byte, b: byte, c: byte, d: byte, a': byte, b': byte, c': byte, d': byte)
    requires Word(a, b, c, d) == Word(a', b', c', d')
    ensures a == a' && b == b' && c == c' && d == d'
  {
  }

  lemma Value4Injective(h: seq<byte>, n: seq<byte>, at: nat)
    requires at + 4 <= |h| && |n| == 4
    ensures Value4(h, at) == Value4(n, 0) <==> Occurs(h, n, at)
  {
    assert h[at..at + 4] == [h[at], h[at + 1], h[at + 2], h[at + 3]] && n == [n[0], n[1], n[2], n[3]];
    if Value4(h, at) == Value4(n, 0) {
      DigitsEqual(h[at], h[at + 1], h[at + 2], h[at + 3], n[0], n[1], n[2], n[3]);
    }
  }

  /** Four bytes in a word, the first highest. */
  function Word(a: byte, b: byte, c: byte, d: byte): nat {
    a as int * 0x1000000 + b as int * 0x10000 + c as int * 0x100 + d
  }

  /** The first byte drops out of the word, and a new one comes in. */
  lemma Roll(a: byte, b: byte, c: byte, d: byte, e: byte)
    ensures (Word(a, b, c, d) * 0x100 + e) % WORD == Word(b, c, d, e)
  {
    Multiples.Remainder(Word(a, b, c, d) * 0x100 + e, WORD, a, Word(b, c, d, e));
  }

  /** `twobyte_memmem`, on 16-bit words. */
  method SearchTwo(h: seq<byte>, n: seq<byte>) returns (r: Match)
    requires |n| == 2 <= |h|
    ensures IsFirstMatch(h, n, r)
  {
    var nw, hw := Value2(n, 0), Value2(h, 0);
    var pos := 2;
    while pos < |h|
      invariant 2 <= pos <= |h| && hw == Value2(h, pos - 2) && NoneIn(h, n, 0, pos - 2)
    {
      Value2Injective(h, n, pos - 2);
      if hw == nw {
        return Found(pos - 2);
      }
      hw := (hw * 0x100 + h[pos]) % 0x10000;
      pos := pos + 1;
    }
    Value2Injective(h, n, pos - 2);
    return if hw == nw then Found(pos - 2) else NotFound;
  }

  /** `threebyte_memmem`, on 32-bit words whose low byte stays zero. */
  method SearchThree(h: seq<byte>, n: seq<byte>) returns (r: Match)
    requires |n| == 3 <= |h|
    ensures IsFirstMatch(h, n, r)
  {
    var nw, hw := Value3(n, 0), Value3(h, 0);
    var pos := 3;
    while pos < |h|
      invariant 3 <= pos <= |h| && hw == Value3(h, pos - 3) && NoneIn(h, n, 0, pos - 3)
    {
      Value3Injective(h, n, pos - 3);
      if hw == nw {
        return Found(pos - 3);
      }
      Roll(h[pos - 3], h[pos - 2], h[pos - 1], h[pos], 0);
      hw := (hw + h[pos]) * 0x100 % WORD;
      pos := pos + 1;
    }
    Value3Injective(h, n, pos - 3);
    return if hw == nw then Found(pos - 3) else NotFound;
  }

  /** `fourbyte_memmem`, on 32-bit words. */
  method SearchFour(h: seq<byte>, n: seq<byte>) returns (r: Match)
    requires |n| == 4 <= |h|
    ensures IsFirstMatch(h, n, r)
  {
    var nw, hw := Value4(n, 0), Value4(h, 0);
    var pos := 4;
    while pos < |h|
      invariant 4 <= pos <= |h| && hw == Value4(h, pos - 4) && NoneIn(h, n, 0, pos - 4)
    {
      Value4Injective(h, n, pos - 4);
      if hw == nw {
        return Found(pos - 4);
      }
      Roll(h[pos - 4], h[pos - 3], h[pos - 2], h[pos - 1], h[pos]);
      hw := (hw * 0x100 + h[pos]) % WORD;
      pos := pos + 1;
    }
    Value4Injective(h, n, pos - 4);
    return if hw == nw then Found(pos - 4) else NotFound;
  }

  function Shifted(r: Match, f: nat): Match {
    match r
    case Found(i) => Found(i + f)
    case NotFound => NotFound
  }

  lemma OccursInTail(h: seq<byte>, n: seq<byte>, f: nat, i: nat)
    requires f <= |h|
    ensures Occurs(h[f..], n, i) <==> Occurs(h, n, f + i)
  {
    if i + f + |n| <= |h| {
      assert h[f..][i..i + |n|] == h[f + i..f + i + |n|];
    }
  }

  /** A first match after the first candidate byte is a first match in the whole haystack. */
  lemma FirstMatchInTail(h: seq<byte>, n: seq<byte>, f: nat, r: Match)
    requires f <= |h| && NoneIn(h, n, 0, f) && IsFirstMatch(h[f..], n, r)
    ensures IsFirstMatch(h, n, Shifted(r, f))
  {
    forall i: nat | r.NotFound? || i < r.at + f
      ensures !Occurs(h, n, i)
    {
      if f <= i { OccursInTail(h, n, f, i - f); }
    }
    if r.Found? { OccursInTail(h, n, f, r.at); }
  }

  /** No occurrence starts where the needle's first byte is missing. */
  lemma FirstByteMissing(h: seq<byte>, n: seq<byte>, f: nat)
    requires 0 < |n| && f <= |h| && n[0] !in h[..f]
    ensures NoneIn(h, n, 0, f)
  {
    forall i: nat | i < f
      ensures !Occurs(h, n, i)
    {
      assert h[i] == h[..f][i];
    }
  }

  /** `memmem`: `base` is the address of the haystack. */
  method MemMem(h: seq<byte>, base: nat, n: seq<byte>) returns (r: Match)
    ensures IsFirstMatch(h, n, r)
  {
    if |n| == 0 {
      assert h[..0] == n;
      return Found(0);
    }
    if |h| < |n| {
      return NotFound;
    }
    var f := MemChr.Find(h, base, n[0]);
    FirstByteMissing(h, n, f);
    if f == |h| {
      return NotFound;
    }
    if |n| == 1 {
      assert h[f..f + 1] == n;
      return Found(f);
    }
    if |h| - f < |n| {
      return NotFound;
    }
    var t := h[f..];
    if |n| == 2 {
      r := SearchTwo(t, n);
    } else if |n| == 3 {
      r := SearchThree(t, n);
    } else if |n| == 4 {
      r := SearchFour(t, n);
    } else {
      r := Search(t, n);
    }
    FirstMatchInTail(h, n, f, r);
    r := Shifted(r, f);
  }
}
