/** The histogram of a text, as both libbcl/huffman.c and libbcl/lz.c count it. */
module Histogram {
  import opened Bytes

  /** How often each symbol occurs. */
  type Counts = c: seq<nat> | |c| == 256 witness seq(256, _ => 0)

  function CountsOf(text: seq<byte>): Counts {
    if text == [] then seq(256, _ => 0)
    else
      var c: Counts, b := CountsOf(text[..|text| - 1]), text[|text| - 1];
      c[b := c[b] + 1]
  }

  lemma {:induction false} CountsAreOccurrences(text: seq<byte>, s: byte)
    ensures CountsOf(text)[s] == multiset(text)[s]
  {
    if text != [] {
      CountsAreOccurrences(text[..|text| - 1], s);
      assert text == text[..|text| - 1] + [text[|text| - 1]];
    }
  }

  function Sum(c: Counts, k: nat): nat
    requires k <= 256
  {
    if k == 0 then 0 else Sum(c, k - 1) + c[k - 1]
  }

  lemma {:induction false} SumUpdate(c: Counts, s: byte, k: nat)
    requires k <= 256
    ensures Sum(c[s := c[s] + 1], k) == Sum(c, k) + if s < k then 1 else 0
  {
    if k > 0 { SumUpdate(c, s, k - 1); }
  }

  lemma {:induction false} SumOfText(text: seq<byte>)
    ensures Sum(CountsOf(text), 256) == |text|
  {
    if text == [] {
      SumZero(CountsOf(text), 256);
    } else {
      SumOfText(text[..|text| - 1]);
      SumUpdate(CountsOf(text[..|text| - 1]), text[|text| - 1], 256);
    }
  }

  lemma {:induction false} SumZero(c: Counts, k: nat)
    requires k <= 256 && forall s :: 0 <= s < 256 ==> c[s] == 0
    ensures Sum(c, k) == 0
  {
    if k > 0 { SumZero(c, k - 1); }
  }
}
