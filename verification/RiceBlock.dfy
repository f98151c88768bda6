/**
 Blocks of words in libbcl/rice.c: `k` follows the lengths of the last sixteen words, and encoder and
 decoder compute it from the same words.
 */
module RiceBlock {
  import opened Binary
  import opened BitStrings
  import opened RiceCode

  const HISTORY := 16

  type Hist = h: seq<nat> | |h| == HISTORY witness seq(16, _ => 0)

  function Total(h: seq<nat>): nat {
    if h == [] then 0 else Total(h[..|h| - 1]) + h[|h| - 1]
  }

  /** `k` for word `i`: the first sixteen words keep the initial one. */
  function NextK(k: nat, h: Hist, i: nat): nat {
    if i < HISTORY then k else Mean(Total(h), HISTORY)
  }

  function Noted(h: Hist, i: nat, x: nat): Hist {
    h[i % HISTORY := NumBits(x)]
  }

  /** The codes of the words from `i` on. */
  function Encoded(words: seq<nat>, i: nat, k: nat, h: Hist): seq<bool>
    requires i <= |words|
    decreases |words| - i
  {
    if i == |words| then []
    else
      var k' := NextK(k, h, i);
      EncodeWord(words[i], k') + Encoded(words, i + 1, k', Noted(h, i, words[i]))
  }

  /** The length of the codes of all words but the last. */
  function FrontLength(words: seq<nat>, i: nat, k: nat, h: Hist): nat
    requires i < |words|
    decreases |words| - i
  {
    if i == |words| - 1 then 0
    else
      var k' := NextK(k, h, i);
      |EncodeWord(words[i], k')| + FrontLength(words, i + 1, k', Noted(h, i, words[i]))
  }

  /** What the decoder makes of a stream. */
  function Decoded(bits: seq<bool>, n: nat, i: nat, k: nat, h: Hist): seq<nat>
    requires i <= n
    decreases n - i
  {
    if i == n then []
    else
      var k' := NextK(k, h, i);
      var (x, rest) := DecodeWord(k', bits);
      [x] + Decoded(rest, n, i + 1, k', Noted(h, i, x))
  }

  /** What the decoder makes of a stream, in words of 32 bits. */
  function Decoded32(bits: seq<bool>, n: nat, i: nat, k: nat, h: Hist): (words: seq<nat>)
    requires i <= n
    ensures |words| == n - i && Below(words)
    decreases n - i
  {
    if i == n then []
    else
      var k' := NextK(k, h, i);
      var (x, rest) := DecodeWord32(k', bits);
      [x] + Decoded32(rest, n, i + 1, k', Noted(h, i, x))
  }

  ghost predicate Below(words: seq<nat>) {
    forall i :: 0 <= i < |words| ==> words[i] < WORD
  }

  /** Words that fit are not cut. */
  lemma {:induction false} DecodedFits(bits: seq<bool>, n: nat, i: nat, k: nat, h: Hist)
    requires i <= n && Below(Decoded(bits, n, i, k, h))
    ensures Decoded32(bits, n, i, k, h) == Decoded(bits, n, i, k, h)
    decreases n - i
  {
    if i < n {
      var k' := NextK(k, h, i);
      var (x, rest) := DecodeWord(k', bits);
      var more := Decoded(rest, n, i + 1, k', Noted(h, i, x));
      BelowTail(x, more);
      WordFits(k', bits);
      DecodedFits(rest, n, i + 1, k', Noted(h, i, x));
    }
  }

  lemma BelowTail(x: nat, more: seq<nat>)
    requires Below([x] + more)
    ensures x < WORD && Below(more)
  {
    assert ([x] + more)[0] == x;
    forall i | 0 <= i < |more| ensures more[i] < WORD { assert more[i] == ([x] + more)[i + 1]; }
  }

  /** Histories agree on what was noted; the rest is not looked at. */
  ghost predicate Agree(i: nat, h: Hist, g: Hist) {
    forall j :: 0 <= j < HISTORY && (i >= HISTORY || j < i) ==> h[j] == g[j]
  }

  lemma {:induction false} AgreeNoted(i: nat, h: Hist, g: Hist, x: nat)
    requires Agree(i, h, g)
    ensures Agree(i + 1, Noted(h, i, x), Noted(g, i, x))
  {
  }

  lemma {:induction false} AgreeK(i: nat, k: nat, h: Hist, g: Hist)
    requires Agree(i, h, g)
    ensures NextK(k, h, i) == NextK(k, g, i)
  {
    if i >= HISTORY { assert h == g; }
  }

  /** The code of a word is at the front of the stream exactly if the decoder finds the word. */
  lemma {:induction false} DecodesTo(k: nat, s: seq<bool>, x: nat)
    ensures DecodeWord(k, s).0 == x <==> Begins(EncodeWord(x, k), s)
  {
    DecodedBegins(k, s);
    var y := DecodeWord(k, s).0;
    if Begins(EncodeWord(x, k), s) {
      var c, d := EncodeWord(x, k), EncodeWord(y, k);
      SameStart(c, d, s);
      if |c| <= |d| {
        assert d == c + d[|c|..] && d + [] == d;
        DecodeEncoded(x, k, d[|c|..]);
        DecodeEncoded(y, k, []);
      } else {
        assert c == d + c[|d|..] && c + [] == c;
        DecodeEncoded(y, k, c[|d|..]);
        DecodeEncoded(x, k, []);
      }
    }
  }

  lemma {:induction false} SameStart(c: seq<bool>, d: seq<bool>, s: seq<bool>)
    requires Begins(c, s) && Begins(d, s)
    ensures c <= d || d <= c
  {
    assert forall i :: 0 <= i < |c| && i < |d| ==> c[i] == Peek(s, i) == d[i];
  }

  ghost predicate NoOnes(s: seq<bool>) {
    forall i :: 0 <= i < |s| ==> !s[i]
  }

  lemma {:induction false} BeginsCut(c: seq<bool>, n: nat)
    requires n <= |c|
    ensures Begins(c, c[..n]) <==> NoOnes(c[n..])
  {
    if Begins(c, c[..n]) {
      forall i | 0 <= i < |c[n..]| ensures !c[n..][i] { assert c[n + i] == Peek(c[..n], n + i); }
    }
    if NoOnes(c[n..]) {
      forall i | 0 <= i < |c| ensures c[i] == Peek(c[..n], i) {
        if i >= n { assert c[i] == c[n..][i - n]; }
      }
    }
  }

  /** The stream cut at `c` decodes to the words from `i` on exactly if what was cut off are zeros. */
  ghost predicate CutDecodes(words: seq<nat>, i: nat, k: nat, h: Hist, g: Hist, c: nat)
    requires i <= |words| && c <= |Encoded(words, i, k, h)|
  {
    Decoded(Encoded(words, i, k, h)[..c], |words|, i, k, g) == words[i..] <==> NoOnes(Encoded(words, i, k, h)[c..])
  }

  /** A stream that was cut within its last code, or not at all. */
  lemma {:induction false} DecodeCut(words: seq<nat>, i: nat, k: nat, h: Hist, g: Hist, c: nat)
    requires i < |words| && Agree(i, h, g) && FrontLength(words, i, k, h) <= c <= |Encoded(words, i, k, h)|
    ensures CutDecodes(words, i, k, h, g, c)
    decreases |words| - i
  {
    AgreeK(i, k, h, g);
    if i == |words| - 1 {
      CutLast(words, k, h, g, c);
    } else {
      var k', x := NextK(k, h, i), words[i];
      var d: nat := c - |EncodeWord(x, k')|;
      AgreeNoted(i, h, g, x);
      DecodeCut(words, i + 1, k', Noted(h, i, x), Noted(g, i, x), d);
      CutFirst(words, i, k, h, g, c, k', d);
    }
  }

  lemma {:induction false} CutFirst(words: seq<nat>, i: nat, k: nat, h: Hist, g: Hist, c: nat, k': nat, d: nat)
    requires i < |words| && k' == NextK(k, h, i) == NextK(k, g, i) && c == d + |EncodeWord(words[i], k')|
    requires d <= |Encoded(words, i + 1, k', Noted(h, i, words[i]))|
    requires CutDecodes(words, i + 1, k', Noted(h, i, words[i]), Noted(g, i, words[i]), d)
    ensures c <= |Encoded(words, i, k, h)| && CutDecodes(words, i, k, h, g, c)
  {
    var x := words[i];
    var e, more := EncodeWord(x, k'), Encoded(words, i + 1, k', Noted(h, i, x));
    HeadAndTail(words, i);
    CutStep(e + more, e, more, c, |words|, i, k, g, x, words[i + 1..], words[i..]);
  }

  lemma {:induction false} CutStep(enc: seq<bool>, e: seq<bool>, more: seq<bool>, c: nat,
                                   n: nat, i: nat, k: nat, g: Hist, x: nat, rest: seq<nat>, all: seq<nat>)
    requires i < n && enc == e + more && e == EncodeWord(x, NextK(k, g, i)) && |e| <= c <= |enc| && all == [x] + rest
    requires Decoded(more[..c - |e|], n, i + 1, NextK(k, g, i), Noted(g, i, x)) == rest <==> NoOnes(more[c - |e|..])
    ensures Decoded(enc[..c], n, i, k, g) == all <==> NoOnes(enc[c..])
  {
    CutMore(e, more, c, n, i, k, g, x, rest);
  }

  lemma HeadAndTail(s: seq<nat>, i: nat)
    requires i < |s|
    ensures s[i..] == [s[i]] + s[i + 1..]
  {
  }

  lemma {:induction false} CutMore(e: seq<bool>, more: seq<bool>, c: nat, n: nat, i: nat, k: nat, g: Hist, x: nat,
                                   rest: seq<nat>)
    requires i < n && e == EncodeWord(x, NextK(k, g, i)) && |e| <= c <= |e + more|
    ensures Decoded((e + more)[..c], n, i, k, g) == [x] + rest <==>
      Decoded(more[..c - |e|], n, i + 1, NextK(k, g, i), Noted(g, i, x)) == rest
    ensures (e + more)[c..] == more[c - |e|..]
  {
    CutRest(e, more, c, n, i, k, g, x);
    CutSum(e, more, c);
    SameTail(x, Decoded(more[..c - |e|], n, i + 1, NextK(k, g, i), Noted(g, i, x)), rest);
  }

  lemma SameTail(x: nat, a: seq<nat>, b: seq<nat>)
    ensures [x] + a == [x] + b <==> a == b
  {
    assert ([x] + a)[1..] == a && ([x] + b)[1..] == b;
  }

  lemma {:induction false} CutLast(words: seq<nat>, k: nat, h: Hist, g: Hist, c: nat)
    requires words != [] && NextK(k, h, |words| - 1) == NextK(k, g, |words| - 1)
    requires c <= |Encoded(words, |words| - 1, k, h)|
    ensures var n, i := |words|, |words| - 1;
      Decoded(Encoded(words, i, k, h)[..c], n, i, k, g) == words[i..] <==> NoOnes(Encoded(words, i, k, h)[c..])
  {
    var n, i := |words|, |words| - 1;
    var k', x := NextK(k, h, i), words[i];
    var e := EncodeWord(x, k');
    assert Encoded(words, i, k, h) == e by { assert e + [] == e; }
    BeginsCut(e, c);
    DecodesTo(k', e[..c], x);
    assert words[i..] == [x];
    LastDecoded(e[..c], n, i, k, g);
  }

  /** A stream that was cut decodes to words that are no larger. */
  lemma {:induction false} CutAtMost(words: seq<nat>, i: nat, k: nat, h: Hist, g: Hist, c: nat)
    requires i < |words| && Agree(i, h, g) && FrontLength(words, i, k, h) <= c <= |Encoded(words, i, k, h)|
    ensures AtMost(Decoded(Encoded(words, i, k, h)[..c], |words|, i, k, g), words[i..])
    decreases |words| - i
  {
    AgreeK(i, k, h, g);
    var k', x := NextK(k, h, i), words[i];
    var e := EncodeWord(x, k');
    HeadAndTail(words, i);
    if i == |words| - 1 {
      assert Encoded(words, i, k, h) == e by { assert e + [] == e; }
      LastAtMost(x, k', c);
      LastDecoded(e[..c], |words|, i, k, g);
    } else {
      var d: nat := c - |e|;
      AgreeNoted(i, h, g, x);
      CutAtMost(words, i + 1, k', Noted(h, i, x), Noted(g, i, x), d);
      CutRest(e, Encoded(words, i + 1, k', Noted(h, i, x)), c, |words|, i, k, g, x);
    }
  }

  ghost predicate AtMost(a: seq<nat>, b: seq<nat>) {
    |a| == |b| && forall i :: 0 <= i < |a| ==> a[i] <= b[i]
  }

  lemma {:induction false} LastAtMost(x: nat, k: nat, c: nat)
    requires c <= |EncodeWord(x, k)|
    ensures DecodeWord(k, EncodeWord(x, k)[..c]).0 <= x
  {
    var e := EncodeWord(x, k);
    assert e + [] == e;
    DecodeEncoded(x, k, []);
    assert Under(e[..c], e);
    DecodeUnder(k, e[..c], e);
  }

  lemma {:induction false} CutRest(e: seq<bool>, more: seq<bool>, c: nat, n: nat, i: nat, k: nat, g: Hist, x: nat)
    requires i < n && e == EncodeWord(x, NextK(k, g, i)) && |e| <= c <= |e + more|
    ensures Decoded((e + more)[..c], n, i, k, g) ==
      [x] + Decoded(more[..c - |e|], n, i + 1, NextK(k, g, i), Noted(g, i, x))
  {
    CutSum(e, more, c);
    DecodeEncoded(x, NextK(k, g, i), more[..c - |e|]);
  }

  lemma CutSum(e: seq<bool>, more: seq<bool>, c: nat)
    requires |e| <= c <= |e + more|
    ensures (e + more)[..c] == e + more[..c - |e|] && (e + more)[c..] == more[c - |e|..]
  {
  }

  lemma {:induction false} LastDecoded(s: seq<bool>, n: nat, i: nat, k: nat, h: Hist)
    requires i + 1 == n
    ensures Decoded(s, n, i, k, h) == [DecodeWord(NextK(k, h, i), s).0]
  {
  }

  lemma {:induction false} FirstDecoded(s: seq<bool>, n: nat, i: nat, k: nat, h: Hist, x: nat, t: seq<bool>,
                                        rest: seq<nat>)
    requires i < n && DecodeWord(NextK(k, h, i), s) == (x, t)
    ensures Decoded(s, n, i, k, h) == [x] + rest <==> Decoded(t, n, i + 1, NextK(k, h, i), Noted(h, i, x)) == rest
  {
    SameTail(x, Decoded(t, n, i + 1, NextK(k, h, i), Noted(h, i, x)), rest);
  }

  /** A stream that was not cut decodes to the words, whatever follows it. */
  lemma {:induction false} DecodeWhole(words: seq<nat>, i: nat, k: nat, h: Hist, g: Hist, t: seq<bool>)
    requires i <= |words| && Agree(i, h, g)
    ensures Decoded(Encoded(words, i, k, h) + t, |words|, i, k, g) == words[i..]
    decreases |words| - i
  {
    if i < |words| {
      var k', x := NextK(k, h, i), words[i];
      AgreeK(i, k, h, g);
      AgreeNoted(i, h, g, x);
      var e, more := EncodeWord(x, k'), Encoded(words, i + 1, k', Noted(h, i, x)) + t;
      assert Encoded(words, i, k, h) + t == e + more;
      DecodeEncoded(x, k', more);
      DecodeWhole(words, i + 1, k', Noted(h, i, x), Noted(g, i, x), t);
      HeadAndTail(words, i);
      FirstDecoded(e + more, |words|, i, k, g, x, more, words[i + 1..]);
    }
  }

  /** What was never noted does not matter. */
  lemma {:induction false} DecodedAgrees(bits: seq<bool>, n: nat, i: nat, k: nat, h: Hist, g: Hist)
    requires i <= n && Agree(i, h, g)
    ensures Decoded32(bits, n, i, k, h) == Decoded32(bits, n, i, k, g)
    decreases n - i
  {
    if i < n {
      AgreeK(i, k, h, g);
      var k' := NextK(k, h, i);
      var (x, rest) := DecodeWord32(k', bits);
      AgreeNoted(i, h, g, x);
      DecodedAgrees(rest, n, i + 1, k', Noted(h, i, x), Noted(g, i, x));
    }
  }

  lemma {:induction false} EncodedAgrees(words: seq<nat>, i: nat, k: nat, h: Hist, g: Hist)
    requires i <= |words| && Agree(i, h, g)
    ensures Encoded(words, i, k, h) == Encoded(words, i, k, g)
    ensures i < |words| ==> FrontLength(words, i, k, h) == FrontLength(words, i, k, g)
    decreases |words| - i
  {
    if i < |words| {
      AgreeK(i, k, h, g);
      AgreeNoted(i, h, g, words[i]);
      EncodedAgrees(words, i + 1, NextK(k, h, i), Noted(h, i, words[i]), Noted(g, i, words[i]));
    }
  }

  /** The first `k`: the rounded mean length of the first words, and one at least. */
  function InitialK(words: seq<nat>): (k: nat)
    requires words != []
    ensures k >= 1
  {
    var m := if |words| < HISTORY then |words| else HISTORY;
    var k := Mean(Lengths(words, m), m);
    if k == 0 then 1 else k
  }

  /** A rounded mean. */
  function Mean(total: nat, m: nat): nat
    requires m > 0
  {
    (total + m / 2) / m
  }

  function Lengths(words: seq<nat>, m: nat): nat
    requires m <= |words|
  {
    if m == 0 then 0 else Lengths(words, m - 1) + NumBits(words[m - 1])
  }

  /** It is the nearest whole number, the greater of two. */
  lemma MeanRounds(total: nat, m: nat)
    requires m > 0
    ensures var k := Mean(total, m); 2 * total < m * (2 * k + 1) <= 2 * total + 2 * m
  {
    var k, r := (total + m / 2) / m, (total + m / 2) % m;
    assert total + m / 2 == m * k + r;
    assert m * (2 * k + 1) == 2 * (m * k) + m;
    if m % 2 == 1 { assert (2 * (m * k) + m) % 2 == 1; }
  }

  // ---------------------------------------------------------------- which parameter codes which word

  /** The lengths of the words from `i` up to `j`. */
  function LengthsBetween(words: seq<nat>, i: nat, j: nat): nat
    requires i <= j <= |words|
    decreases j
  {
    if i == j then 0 else LengthsBetween(words, i, j - 1) + NumBits(words[j - 1])
  }

  /** The parameter of word `i`: the initial one, or the rounded mean length of the sixteen words before it. */
  function Parameter(words: seq<nat>, i: nat): nat
    requires i < |words|
  {
    if i < 16 then InitialK(words) else Mean(LengthsBetween(words, i - 16, i), 16)
  }

  function CodesFrom(words: seq<nat>, i: nat): seq<bool>
    requires i <= |words|
    decreases |words| - i
  {
    if i == |words| then [] else EncodeWord(words[i], Parameter(words, i)) + CodesFrom(words, i + 1)
  }

  /** The history holds the lengths of the last sixteen words. */
  ghost predicate Remembers(words: seq<nat>, i: nat, h: Hist)
    requires i <= |words|
  {
    forall p :: 0 <= p < i <= p + 16 ==> Recalls(h, p, words[p])
  }

  predicate Recalls(h: Hist, p: nat, x: nat) {
    h[p % 16] == NumBits(x)
  }

  lemma SixteenApart(p: nat, q: nat)
    requires p < q < p + 16
    ensures p % 16 != q % 16
  {
  }

  lemma {:induction false} RemembersNext(words: seq<nat>, i: nat, h: Hist)
    requires i < |words| && Remembers(words, i, h)
    ensures Remembers(words, i + 1, Noted(h, i, words[i]))
  {
    forall p | 0 <= p < i + 1 <= p + 16 ensures Recalls(Noted(h, i, words[i]), p, words[p]) {
      if p < i {
        assert Recalls(h, p, words[p]);
        SixteenApart(p, i);
      }
    }
  }

  lemma {:induction false} TotalUpdate(h: seq<nat>, j: nat, v: nat)
    requires j < |h|
    ensures Total(h[j := v]) + h[j] == Total(h) + v
  {
    var n := |h| - 1;
    if j == n {
      assert h[j := v][..n] == h[..n];
    } else {
      assert h[j := v][..n] == h[..n][j := v];
      TotalUpdate(h[..n], j, v);
    }
  }

  lemma {:induction false} TotalFirst(words: seq<nat>, h: seq<nat>, n: nat)
    requires n <= |words| && |h| == n && forall j :: 0 <= j < n ==> h[j] == NumBits(words[j])
    ensures Total(h) == LengthsBetween(words, 0, n)
  {
    if n > 0 { TotalFirst(words, h[..n - 1], n - 1); }
  }

  lemma {:induction false} LengthsDrop(words: seq<nat>, i: nat, j: nat)
    requires i < j <= |words|
    ensures LengthsBetween(words, i, j) == NumBits(words[i]) + LengthsBetween(words, i + 1, j)
    decreases j
  {
    if i + 1 < j { LengthsDrop(words, i, j - 1); }
  }

  lemma {:induction false} TotalIs(words: seq<nat>, i: nat, h: Hist)
    requires 16 <= i <= |words| && Remembers(words, i, h)
    ensures Total(h) == LengthsBetween(words, i - 16, i)
    decreases i
  {
    if i == 16 {
      forall j | 0 <= j < 16 ensures h[j] == NumBits(words[j]) { assert Recalls(h, j, words[j]); }
      TotalFirst(words, h, 16);
    } else {
      var j, was: nat := (i - 1) % 16, NumBits(words[i - 17]);
      var g: Hist := h[j := was];
      Earlier(words, i, h, g);
      TotalIs(words, i - 1, g);
      TotalUpdate(h, j, was);
      assert Recalls(h, i - 1, words[i - 1]);
      LengthsDrop(words, i - 17, i - 1);
    }
  }

  lemma {:induction false} Earlier(words: seq<nat>, i: nat, h: Hist, g: Hist)
    requires 16 < i <= |words| && Remembers(words, i, h) && g == h[(i - 1) % 16 := NumBits(words[i - 17])]
    ensures Remembers(words, i - 1, g)
  {
    forall p | 0 <= p < i - 1 <= p + 16 ensures Recalls(g, p, words[p]) {
      if p == i - 17 {
        assert (i - 17) % 16 == (i - 1) % 16;
      } else {
        assert Recalls(h, p, words[p]);
        SixteenApart(p, i - 1);
      }
    }
  }

  /** The encoder uses those parameters and no others. */
  lemma {:induction false} EncodedIs(words: seq<nat>, i: nat, k: nat, h: Hist)
    requires i <= |words| && words != [] && Remembers(words, i, h) && (i < 16 ==> k == InitialK(words))
    ensures Encoded(words, i, k, h) == CodesFrom(words, i)
    decreases |words| - i
  {
    if i < |words| {
      if i >= 16 { TotalIs(words, i, h); }
      RemembersNext(words, i, h);
      EncodedIs(words, i + 1, NextK(k, h, i), Noted(h, i, words[i]));
    }
  }

  // ---------------------------------------------------------------- raw blocks

  function RawBits(words: seq<nat>, width: nat): seq<bool> {
    if words == [] then [] else ToBits(words[0], width) + RawBits(words[1..], width)
  }

  function RawWords(bits: seq<bool>, n: nat, width: nat): seq<nat>
    decreases n
  {
    if n == 0 then [] else [Extend(0, bits, width)] + RawWords(Drop(bits, width), n - 1, width)
  }

  lemma {:induction false} QuotientSmall(x: nat, n: nat)
    requires x < Pow2(n)
    ensures ShiftRight(x, n) == 0
  {
    if n > 0 { QuotientSmall(x / 2, n - 1); }
  }

  lemma {:induction false} RawLength(words: seq<nat>, width: nat)
    ensures |RawBits(words, width)| == |words| * width
  {
    if words != [] {
      RawLength(words[1..], width);
      assert |words| * width == width + (|words| - 1) * width;
    }
  }

  lemma {:induction false} RawByte(words: seq<nat>, j: nat)
    requires j < |words|
    ensures |RawBits(words, 8)| == |words| * 8 && RawBits(words, 8)[8 * j..8 * j + 8] == ToBits(words[j], 8)
  {
    RawLength(words, 8);
    if j > 0 {
      var rest := RawBits(words[1..], 8);
      RawByte(words[1..], j - 1);
      assert RawBits(words, 8)[8 * j..8 * j + 8] == rest[8 * (j - 1)..8 * (j - 1) + 8];
    }
  }

  /** A raw block is read back. */
  lemma {:induction false} RawRoundTrip(words: seq<nat>, width: nat, bits: seq<bool>)
    requires Narrower(words, width) && RawBits(words, width) <= bits
    ensures RawWords(bits, |words|, width) == words
  {
    if words != [] {
      var x, rest := words[0], bits[width..];
      FirstPart(ToBits(x, width), RawBits(words[1..], width), bits);
      RawFirst(x, width, rest, bits);
      RawRoundTrip(words[1..], width, rest);
      HeadAndTail(words, 0);
    }
  }

  ghost predicate Narrower(words: seq<nat>, width: nat) {
    forall i :: 0 <= i < |words| ==> words[i] < Pow2(width)
  }

  lemma FirstPart(a: seq<bool>, b: seq<bool>, s: seq<bool>)
    requires a + b <= s
    ensures s == a + s[|a|..] && b <= s[|a|..]
  {
    assert s[..|a|] == (a + b)[..|a|] && s[|a|..][..|b|] == s[..|a + b|][|a|..];
  }

  lemma {:induction false} RawFirst(x: nat, width: nat, rest: seq<bool>, bits: seq<bool>)
    requires x < Pow2(width) && bits == ToBits(x, width) + rest
    ensures Extend(0, bits, width) == x && Drop(bits, width) == rest
  {
    QuotientSmall(x, width);
    ExtendBits(x, width, rest);
  }

  // ---------------------------------------------------------------- signed words

  /** `_Rice_ReadWord` of a signed word: the sign goes to the lowest bit; 32 bits wrap around. */
  function Fold(x: int): nat
    requires -0x8000_0000 <= x < 0x8000_0000
  {
    if x < 0 then -1 - 2 * x else 2 * x
  }

  /** `_Rice_WriteWord` of a signed word; the successor of the greatest word is zero. */
  function Unfold(x: nat): int
    requires x < WORD
  {
    if x == WORD - 1 then 0 else if x % 2 == 1 then -((x + 1) / 2) else x / 2
  }

  /** The words are in the order of their distance from zero, with the negative one of two first. */
  lemma FoldOrder(x: int, y: int)
    requires -0x8000_0000 <= x < 0x8000_0000 && -0x8000_0000 <= y < 0x8000_0000
    ensures var a, b := if x < 0 then -x else x, if y < 0 then -y else y;
      Fold(x) < Fold(y) <==> a < b || (a == b && x < y)
    ensures Fold(x) <= 1 <==> x == 0 || x == -1
  {
  }

  /** Every signed word comes back, except the least of 32 bits. */
  lemma FoldedBack(x: int)
    requires -0x8000_0000 <= x < 0x8000_0000
    ensures Fold(x) < WORD && (Unfold(Fold(x)) == x <==> x != -0x8000_0000)
  {
  }
}
