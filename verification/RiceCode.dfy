/**
 The codes of libbcl/rice.c: a quotient in unary, with an escape above a threshold, and a remainder of
 `k` bits. A stream that ends is followed by zeros.
 */
module RiceCode {
  import opened Binary
  import opened BitStrings
  import opened Spelling

  const THRESHOLD := 8
  /** `_Rice_NumBits`: the bits up to the highest that is set. */
  function NumBits(x: nat): nat {
    if x == 0 then 0 else 1 + NumBits(x / 2)
  }

  lemma {:induction false} NumBitsIs(x: nat, n: nat)
    requires n >= 1 && Pow2(n - 1) <= x < Pow2(n)
    ensures NumBits(x) == n
  {
    if n > 1 { NumBitsIs(x / 2, n - 1); }
  }

  lemma {:induction false} NumBitsAtMost(x: nat, n: nat)
    requires x < Pow2(n)
    ensures NumBits(x) <= n
  {
    if x > 0 { NumBitsAtMost(x / 2, n - 1); }
  }

  function Repeat(n: nat): (s: seq<bool>)
    ensures |s| == n && forall i :: 0 <= i < n ==> s[i]
  {
    seq(n, _ => true)
  }

  // ---------------------------------------------------------------- encoding

  /** An excess over the threshold: its length in unary, and its bits below the highest. */
  function Escape(e: nat): seq<bool>
    requires e >= 1
  {
    Repeat(THRESHOLD) + Repeat(NumBits(e)) + [false] + ToBits(e, NumBits(e) - 1)
  }

  /** The quotient, in unary up to the threshold. */
  function Unary(q: nat): seq<bool> {
    if q > THRESHOLD then Escape(q - THRESHOLD) else Repeat(q) + [false]
  }

  function EncodeWord(x: nat, k: nat): seq<bool> {
    Unary(ShiftRight(x, k)) + ToBits(x, k)
  }

  /** The ones in front of a code: the quotient, or the threshold and the length of what exceeds it. */
  function OnesInFront(q: nat): nat {
    if q <= 8 then q else 8 + NumBits(q - 8)
  }

  /**
   What a code looks like: ones and a zero, for a large quotient the bits of its excess below the
   highest, and the low `k` bits of the word.
   */
  lemma {:induction false} CodeLooks(x: nat, k: nat)
    ensures var q, c := ShiftRight(x, k), EncodeWord(x, k);
      var n := OnesInFront(q);
      && |c| == n + k + (if q <= 8 then 1 else NumBits(q - 8))
      && c[..n] == Repeat(n) && !c[n] && c[|c| - k..] == ToBits(x, k)
      && (q > 8 ==> c[n + 1..|c| - k] == ToBits(q - 8, NumBits(q - 8) - 1))
  {
    var q := ShiftRight(x, k);
    if q > 8 {
      var e, o := q - 8, NumBits(q - 8);
      EscapeLooks(Repeat(8), Repeat(o), ToBits(e, o - 1), ToBits(x, k), Repeat(8 + o));
    } else {
      UnaryLooks(Repeat(q), ToBits(x, k));
    }
  }

  lemma UnaryLooks(a: seq<bool>, d: seq<bool>)
    ensures var c := a + [false] + d; c[..|a|] == a && !c[|a|] && c[|c| - |d|..] == d
  {
  }

  lemma EscapeLooks(a: seq<bool>, b: seq<bool>, e: seq<bool>, d: seq<bool>, ones: seq<bool>)
    requires ones == a + b
    ensures var c := a + b + [false] + e + d; var n := |ones|;
      c[..n] == ones && !c[n] && c[|c| - |d|..] == d && c[n + 1..|c| - |d|] == e
  {
  }

  // ---------------------------------------------------------------- decoding

  function Drop(s: seq<bool>, n: nat): seq<bool> {
    if n >= |s| then [] else s[n..]
  }

  /** The first bit, or zero at the end. */
  function First(s: seq<bool>): bool {
    s != [] && s[0]
  }

  function Ones(s: seq<bool>): (n: nat)
    ensures n <= |s|
  {
    if First(s) then 1 + Ones(s[1..]) else 0
  }

  /** `x` with `n` more bits behind it. */
  function Extend(x: nat, s: seq<bool>, n: nat): nat
    decreases n
  {
    if n == 0 then x else Extend(2 * x + (if First(s) then 1 else 0), Drop(s, 1), n - 1)
  }

  /** A quotient above the threshold, from `o` bits below its highest. */
  function Excess(o: nat, r: seq<bool>): (nat, seq<bool>) {
    (Extend(1, r, o) + THRESHOLD, Drop(r, o))
  }

  /** What `n` leading ones stand for, with the rest of the stream. */
  function AfterOnes(n: nat, r: seq<bool>): (nat, seq<bool>) {
    if n > THRESHOLD then Excess(n - THRESHOLD - 1, r) else (n, r)
  }

  /** The stream behind its leading ones and the zero that ends them. */
  function BehindOnes(s: seq<bool>): seq<bool> {
    Drop(s, Ones(s) + 1)
  }

  function DecodeQuotient(s: seq<bool>): (nat, seq<bool>) {
    AfterOnes(Ones(s), BehindOnes(s))
  }

  /** The word, before it is cut to 32 bits, and the rest of the stream. */
  function DecodeWord(k: nat, s: seq<bool>): (nat, seq<bool>) {
    var (q, r) := DecodeQuotient(s);
    (Extend(q, r, k), Drop(r, k))
  }

  /** A number below `2 * WORD` in 32 bits. */
  function Wrapped(x: nat): (r: nat)
    requires x < 2 * WORD
    ensures r < WORD
  {
    if x < WORD then x else x - WORD
  }

  /** The same in words of 32 bits, as the decoder computes them. */
  function Extend32(x: nat, s: seq<bool>, n: nat): (r: nat)
    requires x < WORD
    ensures r < WORD
    decreases n
  {
    if n == 0 then x else Extend32(Wrapped(2 * x + if First(s) then 1 else 0), Drop(s, 1), n - 1)
  }

  function Excess32(o: nat, r: seq<bool>): (nat, seq<bool>) {
    (Wrapped(Extend32(1, r, o) + THRESHOLD), Drop(r, o))
  }

  function AfterOnes32(n: nat, r: seq<bool>): (p: (nat, seq<bool>))
    ensures p.0 < WORD
  {
    if n > THRESHOLD then Excess32(n - THRESHOLD - 1, r) else (n, r)
  }

  function DecodeQuotient32(s: seq<bool>): (nat, seq<bool>) {
    AfterOnes32(Ones(s), BehindOnes(s))
  }

  function DecodeWord32(k: nat, s: seq<bool>): (p: (nat, seq<bool>))
    ensures p.0 < WORD
  {
    var (q, r) := DecodeQuotient32(s);
    (Extend32(q, r, k), Drop(r, k))
  }

  // ---------------------------------------------------------------- the round trip

  lemma {:induction false} OnesOf(n: nat, t: seq<bool>)
    ensures Ones(Repeat(n) + [false] + t) == n && Drop(Repeat(n) + [false] + t, n + 1) == t
  {
    var s := Repeat(n) + [false] + t;
    assert s[n + 1..] == t;
    if n > 0 {
      assert s[1..] == Repeat(n - 1) + [false] + t;
      OnesOf(n - 1, t);
    }
  }

  /** Bits that were cut off a number are put back. */
  lemma {:induction false} ExtendBits(x: nat, n: nat, t: seq<bool>)
    ensures Extend(ShiftRight(x, n), ToBits(x, n) + t, n) == x && Drop(ToBits(x, n) + t, n) == t
    decreases n
  {
    if n == 0 {
      assert ToBits(x, 0) + t == t;
    } else {
      ExtendBits(x / 2, n - 1, [x % 2 == 1] + t);
      assert ToBits(x, n) + t == ToBits(x / 2, n - 1) + ([x % 2 == 1] + t);
      ExtendLast(ShiftRight(x, n), ToBits(x / 2, n - 1) + ([x % 2 == 1] + t), n);
      assert Drop(ToBits(x / 2, n - 1) + ([x % 2 == 1] + t), n - 1) == [x % 2 == 1] + t;
      assert (ToBits(x, n) + t)[n..] == t;
    }
  }

  lemma {:induction false} ExtendLast(y: nat, s: seq<bool>, n: nat)
    requires n >= 1
    ensures Extend(y, s, n) == 2 * Extend(y, s, n - 1) + if First(Drop(s, n - 1)) then 1 else 0
    decreases n
  {
    if n > 1 {
      ExtendLast(2 * y + (if First(s) then 1 else 0), Drop(s, 1), n - 1);
      assert Drop(Drop(s, 1), n - 2) == Drop(s, n - 1);
    }
  }

  /** The leading bit of a number is one. */
  lemma {:induction false} TopBit(x: nat, n: nat)
    requires n >= 1 && NumBits(x) == n
    ensures ShiftRight(x, n - 1) == 1
  {
    if n > 1 { TopBit(x / 2, n - 1); }
  }

  lemma {:induction false} EscapeShape(e: nat, o: nat, t: seq<bool>)
    requires e >= 1 && o == NumBits(e)
    ensures Escape(e) + t == Repeat(THRESHOLD + o) + [false] + (ToBits(e, o - 1) + t)
    ensures |Escape(e)| == THRESHOLD + 2 * o
  {
    assert Repeat(THRESHOLD) + Repeat(o) == Repeat(THRESHOLD + o);
    Regroup(Repeat(THRESHOLD + o) + [false], ToBits(e, o - 1), t);
  }

  lemma {:induction false} EscapeBack(e: nat, o: nat, t: seq<bool>)
    requires e >= 1 && o == NumBits(e)
    ensures Excess(o - 1, ToBits(e, o - 1) + t) == (e + THRESHOLD, t)
  {
    TopBit(e, o);
    ExtendBits(e, o - 1, t);
  }

  lemma {:induction false} QuotientOf(n: nat, r: seq<bool>)
    ensures DecodeQuotient(Repeat(n) + [false] + r) == AfterOnes(n, r)
  {
    OnesOf(n, r);
  }

  lemma {:induction false} EscapedBack(e: nat, t: seq<bool>)
    requires e >= 1
    ensures DecodeQuotient(Escape(e) + t) == (e + THRESHOLD, t)
  {
    var o := NumBits(e);
    EscapeShape(e, o, t);
    QuotientOf(THRESHOLD + o, ToBits(e, o - 1) + t);
    EscapeBack(e, o, t);
  }

  lemma {:induction false} ShortBack(q: nat, t: seq<bool>)
    requires q <= THRESHOLD
    ensures DecodeQuotient(Repeat(q) + [false] + t) == (q, t)
  {
    QuotientOf(q, t);
  }

  lemma {:induction false} LongBack(q: nat, e: nat, t: seq<bool>, u: seq<bool>)
    requires e >= 1 && q == e + THRESHOLD && u == Escape(e)
    ensures DecodeQuotient(u + t) == (q, t)
  {
    EscapedBack(e, t);
  }

  lemma {:induction false} UnaryIsEscape(q: nat, e: nat)
    requires e >= 1 && q == e + THRESHOLD
    ensures Unary(q) == Escape(e)
  {
  }

  lemma {:induction false} UnaryBack(q: nat, t: seq<bool>)
    ensures DecodeQuotient(Unary(q) + t) == (q, t)
  {
    if q > THRESHOLD {
      var e := q - THRESHOLD;
      UnaryIsEscape(q, e);
      LongBack(q, e, t, Unary(q));
    } else {
      ShortBack(q, t);
    }
  }

  /** Every word is read back, and its bits are all that is read. */
  lemma {:induction false} DecodeEncoded(x: nat, k: nat, t: seq<bool>)
    ensures DecodeWord(k, EncodeWord(x, k) + t) == (x, t)
  {
    var q := ShiftRight(x, k);
    Regroup(Unary(q), ToBits(x, k), t);
    UnaryBack(q, ToBits(x, k) + t);
    ExtendBits(x, k, t);
  }

  // ---------------------------------------------------------------- what a decoded word says of the stream

  predicate Peek(s: seq<bool>, i: nat) {
    i < |s| && s[i]
  }

  /** The stream begins with `c`, if zeros follow it. */
  ghost predicate Begins(c: seq<bool>, s: seq<bool>) {
    forall i :: 0 <= i < |c| ==> c[i] == Peek(s, i)
  }

  lemma {:induction false} BeginsConcat(a: seq<bool>, b: seq<bool>, s: seq<bool>)
    requires Begins(a, s) && Begins(b, Drop(s, |a|))
    ensures Begins(a + b, s)
  {
    forall i | 0 <= i < |a + b| ensures (a + b)[i] == Peek(s, i) {
      if i >= |a| { assert b[i - |a|] == Peek(Drop(s, |a|), i - |a|); }
    }
  }

  lemma {:induction false} OnesBegin(s: seq<bool>)
    ensures Begins(Repeat(Ones(s)) + [false], s)
  {
    var n := Ones(s);
    if n == 0 {
      assert Repeat(0) + [false] == [false];
    } else {
      OnesBegin(s[1..]);
      forall i | 0 <= i < n + 1 ensures (Repeat(n) + [false])[i] == Peek(s, i) {
        if i > 0 { assert (Repeat(n - 1) + [false])[i - 1] == Peek(s[1..], i - 1); }
      }
    }
  }

  lemma {:induction false} ExtendBegins(y: nat, s: seq<bool>, n: nat)
    ensures ShiftRight(Extend(y, s, n), n) == y && Begins(ToBits(Extend(y, s, n), n), s)
    decreases n
  {
    if n > 0 {
      ExtendLast(y, s, n);
      ExtendBegins(y, s, n - 1);
      var x, b := Extend(y, s, n), First(Drop(s, n - 1));
      assert x / 2 == Extend(y, s, n - 1) && x % 2 == if b then 1 else 0;
      assert b == Peek(s, n - 1);
    }
  }

  lemma {:induction false} NumBitsOfTop(x: nat, n: nat)
    requires ShiftRight(x, n) == 1
    ensures NumBits(x) == n + 1
  {
    if n > 0 { NumBitsOfTop(x / 2, n - 1); }
  }

  lemma DropDrop(s: seq<bool>, m: nat, n: nat)
    ensures Drop(Drop(s, m), n) == Drop(s, m + n)
  {
  }

  lemma {:induction false} EscapeBegins(s: seq<bool>, n: nat, o: nat, e: nat)
    requires n == Ones(s) == THRESHOLD + o + 1 && e == Extend(1, Drop(s, n + 1), o)
    ensures e >= 1 && Begins(Escape(e), s) && Drop(Drop(s, n + 1), o) == Drop(s, |Escape(e)|)
  {
    var r := Drop(s, n + 1);
    ExtendBegins(1, r, o);
    NumBitsOfTop(e, o);
    EscapeShape(e, o + 1, []);
    var front, low := Repeat(n) + [false], ToBits(e, o);
    assert Escape(e) == front + low by { assert low + [] == low && Escape(e) + [] == Escape(e); }
    OnesBegin(s);
    BeginsConcat(front, low, s);
    DropDrop(s, n + 1, o);
  }

  lemma {:induction false} LongBegins(s: seq<bool>, n: nat, r: seq<bool>, o: nat, q: nat)
    requires n == Ones(s) == THRESHOLD + o + 1 && r == Drop(s, n + 1) && q == Excess(o, r).0
    ensures Begins(Unary(q), s) && Drop(r, o) == Drop(s, |Unary(q)|)
  {
    var e := Extend(1, r, o);
    EscapeBegins(s, n, o, e);
    UnaryIsEscape(q, e);
  }

  lemma {:induction false} QuotientBegins(s: seq<bool>)
    ensures Begins(Unary(DecodeQuotient(s).0), s) && DecodeQuotient(s).1 == Drop(s, |Unary(DecodeQuotient(s).0)|)
  {
    var n := Ones(s);
    if n > THRESHOLD {
      LongBegins(s, n, Drop(s, n + 1), n - THRESHOLD - 1, DecodeQuotient(s).0);
    } else {
      OnesBegin(s);
    }
  }

  // ---------------------------------------------------------------- streams with fewer ones

  /** Wherever `s` has a one, `t` has one too. */
  ghost predicate Under(s: seq<bool>, t: seq<bool>) {
    forall i: nat :: Peek(s, i) ==> Peek(t, i)
  }

  lemma UnderDrop(s: seq<bool>, t: seq<bool>, n: nat)
    requires Under(s, t)
    ensures Under(Drop(s, n), Drop(t, n)) && (First(s) ==> First(t))
  {
    forall i: nat | Peek(Drop(s, n), i) ensures Peek(Drop(t, n), i) { assert Peek(s, n + i); }
    if First(s) { assert Peek(s, 0); }
  }

  lemma {:induction false} OnesUnder(s: seq<bool>, t: seq<bool>)
    requires Under(s, t)
    ensures Ones(s) <= Ones(t)
  {
    if First(s) {
      UnderDrop(s, t, 1);
      assert Drop(s, 1) == s[1..] && Drop(t, 1) == t[1..];
      OnesUnder(s[1..], t[1..]);
    }
  }

  lemma {:induction false} ExtendGrows(y: nat, s: seq<bool>, n: nat)
    ensures y <= Extend(y, s, n)
    decreases n
  {
    if n > 0 { ExtendGrows(2 * y + (if First(s) then 1 else 0), Drop(s, 1), n - 1); }
  }

  lemma {:induction false} ExtendUnder(y: nat, z: nat, s: seq<bool>, t: seq<bool>, n: nat)
    requires y <= z && Under(s, t)
    ensures Extend(y, s, n) <= Extend(z, t, n)
    decreases n
  {
    if n > 0 {
      UnderDrop(s, t, 1);
      ExtendUnder(2 * y + (if First(s) then 1 else 0), 2 * z + (if First(t) then 1 else 0), Drop(s, 1), Drop(t, 1),
                  n - 1);
    }
  }

  /** A larger start with as many bits or more ends larger, whatever the bits. */
  lemma {:induction false} ExtendLess(y: nat, z: nat, s: seq<bool>, t: seq<bool>, m: nat, n: nat)
    requires y < z && m <= n
    ensures Extend(y, s, m) < Extend(z, t, n)
    decreases m
  {
    if m == 0 {
      ExtendGrows(z, t, n);
    } else {
      ExtendLess(2 * y + (if First(s) then 1 else 0), 2 * z + (if First(t) then 1 else 0), Drop(s, 1), Drop(t, 1),
                 m - 1, n - 1);
    }
  }

  /** More leading ones stand for more. */
  lemma {:induction false} AfterOnesLess(m: nat, n: nat, r: seq<bool>, u: seq<bool>)
    requires m < n
    ensures AfterOnes(m, r).0 < AfterOnes(n, u).0
  {
    if m > THRESHOLD {
      ExtendLess(1, 2 + (if First(u) then 1 else 0), r, Drop(u, 1), m - THRESHOLD - 1, n - THRESHOLD - 2);
    } else if n > THRESHOLD {
      ExtendGrows(1, u, n - THRESHOLD - 1);
    }
  }

  lemma {:induction false} QuotientUnder(s: seq<bool>, t: seq<bool>)
    requires Under(s, t)
    ensures var (q, r) := DecodeQuotient(s); var (p, u) := DecodeQuotient(t); q < p || (q <= p && Under(r, u))
  {
    OnesUnder(s, t);
    if Ones(s) == Ones(t) { UnderSame(s, t, Ones(s) + 1, Ones(t) + 1); }
    QuotientOrder(Ones(s), Ones(t), BehindOnes(s), BehindOnes(t));
  }

  lemma UnderSame(s: seq<bool>, t: seq<bool>, m: nat, n: nat)
    requires Under(s, t) && m == n
    ensures Under(Drop(s, m), Drop(t, n))
  {
    UnderDrop(s, t, n);
  }

  lemma {:induction false} QuotientOrder(m: nat, n: nat, r: seq<bool>, u: seq<bool>)
    requires m < n || (m == n && Under(r, u))
    ensures var (q, r') := AfterOnes(m, r); var (p, u') := AfterOnes(n, u); q < p || (q <= p && Under(r', u'))
  {
    if m < n { AfterOnesLess(m, n, r, u); } else { AfterOnesUnder(n, r, u); }
  }

  lemma {:induction false} AfterOnesUnder(n: nat, r: seq<bool>, u: seq<bool>)
    requires Under(r, u)
    ensures AfterOnes(n, r).0 <= AfterOnes(n, u).0 && Under(AfterOnes(n, r).1, AfterOnes(n, u).1)
  {
    if n > THRESHOLD {
      ExtendUnder(1, 1, r, u, n - THRESHOLD - 1);
      UnderDrop(r, u, n - THRESHOLD - 1);
    }
  }

  /** A stream with fewer ones decodes to a word that is no larger. */
  lemma {:induction false} DecodeUnder(k: nat, s: seq<bool>, t: seq<bool>)
    requires Under(s, t)
    ensures DecodeWord(k, s).0 <= DecodeWord(k, t).0
  {
    var (q, r) := DecodeQuotient(s);
    var (p, u) := DecodeQuotient(t);
    QuotientUnder(s, t);
    if q < p {
      ExtendLess(q, p, r, u, k, k);
    } else {
      ExtendUnder(q, p, r, u, k);
    }
  }

  /** Nothing is cut off a number that fits. */
  lemma {:induction false} ExtendFits(x: nat, s: seq<bool>, n: nat)
    requires x < WORD && Extend(x, s, n) < WORD
    ensures Extend32(x, s, n) == Extend(x, s, n)
    decreases n
  {
    if n > 0 {
      var y := 2 * x + if First(s) then 1 else 0;
      ExtendGrows(y, Drop(s, 1), n - 1);
      ExtendFits(y, Drop(s, 1), n - 1);
    }
  }

  lemma {:induction false} QuotientFits(n: nat, r: seq<bool>)
    requires AfterOnes(n, r).0 < WORD
    ensures AfterOnes32(n, r) == AfterOnes(n, r)
  {
    if n > THRESHOLD { ExtendFits(1, r, n - THRESHOLD - 1); }
  }

  lemma {:induction false} WordFits(k: nat, s: seq<bool>)
    requires DecodeWord(k, s).0 < WORD
    ensures DecodeWord32(k, s) == DecodeWord(k, s)
  {
    var (q, r) := DecodeQuotient(s);
    ExtendGrows(q, r, k);
    ExtendFits(q, r, k);
    QuotientFits(Ones(s), BehindOnes(s));
  }

  // ---------------------------------------------------------------- prefixes

  /** A word that is decoded has its code at the front of the stream. */
  lemma {:induction false} DecodedBegins(k: nat, s: seq<bool>)
    ensures Begins(EncodeWord(DecodeWord(k, s).0, k), s)
  {
    var (q, r) := DecodeQuotient(s);
    QuotientBegins(s);
    ExtendBegins(q, r, k);
    BeginsConcat(Unary(q), ToBits(Extend(q, r, k), k), s);
  }
}
