/**
 What the tree of libbcl/huffman.c does for a text: it covers the text, no prefix code spends fewer
 bits on it, and its codes fit 32 bits unless the text is long.
 */
module HuffmanText {
  import opened Binary
  import opened BitStrings
  import opened Bytes
  import opened Histogram
  import opened HuffmanBuild
  import opened HuffmanCost
  import opened HuffmanTree
  import PrefixCodes

  // ---------------------------------------------------------------- the leaves

  /** The leaves that the construction starts from: the symbols below `k` that occur, in order. */
  function Initial(c: Counts, k: nat): Forest
    requires k <= 256
  {
    if k == 0 then []
    else if c[k - 1] > 0 then Initial(c, k - 1) + [Entry(Leaf(k - 1), c[k - 1])]
    else Initial(c, k - 1)
  }

  lemma {:induction false} FrontOf(f: Forest, e: Entry)
    ensures (f + [e])[..|f|] == f
  {
  }

  lemma {:induction false} InitialNumbers(c: Counts, k: nat)
    requires k <= 256
    ensures LiveTotal(Initial(c, k)) == Sum(c, k) && LiveCost(Initial(c, k), c) == 0
    ensures Live(Initial(c, k)) == |Initial(c, k)| <= k
    ensures Sum(c, k) > 0 ==> Growing(Initial(c, k))
  {
    if k > 0 {
      InitialNumbers(c, k - 1);
      FrontOf(Initial(c, k - 1), Entry(Leaf(k - 1), c[k - 1]));
    }
  }

  lemma {:induction false} InitialEntries(c: Counts, k: nat)
    requires k <= 256
    ensures Weighed(Initial(c, k), c)
    ensures forall i :: 0 <= i < |Initial(c, k)| ==> Initial(c, k)[i].tree.Leaf? && Initial(c, k)[i].weight > 0
  {
    if k > 0 { InitialEntries(c, k - 1); }
  }

  /** A number that grows by one with each leaf for `s`. */
  ghost predicate Counting(number: Forest -> nat, s: byte) {
    && number([]) == 0
    && forall f: Forest, b: byte, w: nat {:trigger number(f + [Entry(Leaf(b), w)])} ::
         w > 0 ==> number(f + [Entry(Leaf(b), w)]) == number(f) + if s == b then 1 else 0
  }

  lemma {:induction false} InitialNumber(c: Counts, k: nat, s: byte, number: Forest -> nat)
    requires k <= 256 && Counting(number, s)
    ensures number(Initial(c, k)) == if s < k && c[s] > 0 then 1 else 0
  {
    if k > 0 { InitialNumber(c, k - 1, s, number); }
  }

  /** Each symbol that occurs has one leaf. */
  lemma {:induction false} InitialLeaves(c: Counts, k: nat, s: byte)
    requires k <= 256
    ensures LiveLeaves(Initial(c, k))[s] == if s < k && c[s] > 0 then 1 else 0
  {
    var number := (f: Forest) => LiveLeaves(f)[s];
    forall f: Forest, b: byte, w: nat | w > 0
      ensures number(f + [Entry(Leaf(b), w)]) == number(f) + if s == b then 1 else 0
    {
      OneMoreLeaf(f, b, w, s);
    }
    InitialNumber(c, k, s, number);
  }

  lemma {:induction false} OneMoreLeaf(f: Forest, b: byte, w: nat, s: byte)
    requires w > 0
    ensures LiveLeaves(f + [Entry(Leaf(b), w)])[s] == LiveLeaves(f)[s] + if s == b then 1 else 0
  {
    FrontOf(f, Entry(Leaf(b), w));
    assert Leaves(Leaf(b)) == [b];
  }

  /** The tree for a text. */
  function TreeOf(text: seq<byte>): Tree
    requires text != []
  {
    SumOfText(text);
    InitialNumbers(CountsOf(text), 256);
    Build(Initial(CountsOf(text), 256))
  }

  lemma {:induction false} LeafOccurs(text: seq<byte>, s: byte)
    requires text != []
    ensures multiset(Leaves(TreeOf(text)))[s] == if s in text then 1 else 0
  {
    var c := CountsOf(text);
    SumOfText(text);
    InitialNumbers(c, 256);
    BuildLeaves(Initial(c, 256));
    InitialLeaves(c, 256, s);
    CountsAreOccurrences(text, s);
  }

  lemma {:induction false} DistinctLeaves(t: Tree)
    requires forall s :: multiset(Leaves(t))[s] <= 1
    ensures Distinct(t)
  {
    if t.Node? {
      LeavesOfNode(t.a, t.b);
      forall s: byte
        ensures multiset(Leaves(t.a))[s] <= 1 && multiset(Leaves(t.b))[s] <= 1
        ensures s in Leaves(t.a) ==> s !in Leaves(t.b)
      {
        assert multiset(Leaves(t))[s] <= 1;
        assert s in Leaves(t.a) <==> multiset(Leaves(t.a))[s] > 0;
      }
      DistinctLeaves(t.a);
      DistinctLeaves(t.b);
    }
  }

  /** The tree has a leaf for each symbol of the text, and no other. */
  lemma {:induction false} TreeCovers(text: seq<byte>)
    requires text != []
    ensures Distinct(TreeOf(text)) && Covers(TreeOf(text), text)
    ensures forall s: byte :: s in Leaves(TreeOf(text)) <==> s in text
  {
    forall s: byte
      ensures multiset(Leaves(TreeOf(text)))[s] <= 1 && (s in Leaves(TreeOf(text)) <==> s in text)
    {
      LeafOccurs(text, s);
      assert s in Leaves(TreeOf(text)) <==> multiset(Leaves(TreeOf(text)))[s] > 0;
    }
    DistinctLeaves(TreeOf(text));
  }

  /** At every branch the lighter half of the text is coded by a zero. */
  lemma {:induction false} TextLighterFirst(text: seq<byte>)
    requires text != []
    ensures LighterFirst(TreeOf(text), CountsOf(text))
  {
    var c := CountsOf(text);
    SumOfText(text);
    InitialNumbers(c, 256);
    InitialEntries(c, 256);
    BuildLighterFirst(Initial(c, 256), c);
  }

  lemma {:induction false} TwoLeaves(t: Tree)
    requires |Leaves(t)| <= 2
    ensures if t.Leaf? then |Leaves(t)| == 1 else t.a.Leaf? && t.b.Leaf? && |Leaves(t)| == 2
  {
    if t.Node? {
      assert |Leaves(t)| == |Leaves(t.a)| + |Leaves(t.b)|;
      TwoLeaves(t.a);
      TwoLeaves(t.b);
    }
  }

  /** A text of two symbols: the rarer one is branch A, is described first, and is coded by a zero. */
  lemma {:induction false} RarerFirst(text: seq<byte>, a: byte, b: byte)
    requires a in text && b in text && (forall s :: s in text ==> s == a || s == b)
    requires CountsOf(text)[a] < CountsOf(text)[b]
    ensures TreeOf(text) == Node(Leaf(a), Leaf(b))
    ensures Describe(TreeOf(text)) == [false, true] + ToBits(a, 8) + [true] + ToBits(b, 8)
    ensures Code(TreeOf(text), a) == [false] && Code(TreeOf(text), b) == [true]
  {
    LeavesOfTwo(text, a, b);
    TextLighterFirst(text);
    PairTree(TreeOf(text), CountsOf(text), a, b);
    PairDescription(a, b, ToBits(a, 8), ToBits(b, 8));
  }

  lemma {:induction false} LeavesOfTwo(text: seq<byte>, a: byte, b: byte)
    requires a in text && b in text && a != b && (forall s :: s in text ==> s == a || s == b)
    ensures multiset(Leaves(TreeOf(text))) == multiset{a, b}
  {
    var m := multiset(Leaves(TreeOf(text)));
    forall s: byte ensures m[s] == multiset{a, b}[s] { LeafOccurs(text, s); }
  }

  lemma {:induction false} PairTree(t: Tree, c: Counts, a: byte, b: byte)
    requires multiset(Leaves(t)) == multiset{a, b} && LighterFirst(t, c) && c[a] < c[b]
    ensures t == Node(Leaf(a), Leaf(b))
  {
    assert |Leaves(t)| == |multiset(Leaves(t))| == 2;
    TwoLeaves(t);
    var x, y := t.a.symbol, t.b.symbol;
    assert Leaves(t) == [x, y];
    assert multiset{x, y} == multiset{a, b};
    assert x in multiset{a, b} && y in multiset{a, b} && a in multiset{x, y};
  }

  lemma PairDescription(a: byte, b: byte, p: seq<bool>, q: seq<bool>)
    requires p == ToBits(a, 8) && q == ToBits(b, 8)
    ensures Describe(Node(Leaf(a), Leaf(b))) == [false, true] + p + [true] + q
  {
    assert [false] + ([true] + p) + ([true] + q) == [false, true] + p + [true] + q;
  }

  // ---------------------------------------------------------------- the cost

  lemma {:induction false} WeightUpdate(t: Tree, c: Counts, s: byte)
    requires Distinct(t)
    ensures Weight(t, c[s := c[s] + 1]) == Weight(t, c) + if s in Leaves(t) then 1 else 0
  {
    if t.Node? {
      WeightUpdate(t.a, c, s);
      WeightUpdate(t.b, c, s);
    }
  }

  /** One more occurrence of a symbol costs its path. */
  lemma {:induction false} CostUpdate(t: Tree, c: Counts, s: byte)
    requires Distinct(t)
    ensures Cost(t, c[s := c[s] + 1]) == Cost(t, c) + if s in Leaves(t) then |Path(t, s)| else 0
  {
    WeightUpdate(t, c, s);
    if t.Node? {
      CostUpdate(t.a, c, s);
      CostUpdate(t.b, c, s);
    }
  }

  lemma {:induction false} ZeroCost(t: Tree, c: Counts)
    requires forall s :: 0 <= s < 256 ==> c[s] == 0
    ensures Weight(t, c) == 0 && Cost(t, c) == 0
  {
    if t.Node? {
      ZeroCost(t.a, c);
      ZeroCost(t.b, c);
    }
  }

  /** The encoded text is as long as the cost says. */
  lemma {:induction false} EncodedLength(t: Tree, text: seq<byte>)
    requires t.Node? && Distinct(t) && Covers(t, text)
    ensures |Encode(t, text)| == Cost(t, CountsOf(text))
  {
    if text == [] {
      ZeroCost(t, CountsOf(text));
    } else {
      EncodedLength(t, text[..|text| - 1]);
      CostUpdate(t, CountsOf(text[..|text| - 1]), text[|text| - 1]);
    }
  }

  lemma {:induction false} OneLeafLength(t: Tree, text: seq<byte>)
    requires t.Leaf? && Covers(t, text)
    ensures |Encode(t, text)| == |text|
  {
    if text != [] { OneLeafLength(t, text[..|text| - 1]); }
  }

  // ---------------------------------------------------------------- other codes

  /** A length for each symbol. */
  type Lengths = l: seq<nat> | |l| == 256 witness seq(256, _ => 0)

  function Spent(l: Lengths, text: seq<byte>): nat {
    if text == [] then 0 else Spent(l, text[..|text| - 1]) + l[text[|text| - 1]]
  }

  /** The symbols below `k` that occur, as items. */
  function Items(c: Counts, l: Lengths, k: nat): seq<Item>
    requires k <= 256
  {
    if k == 0 then []
    else if c[k - 1] > 0 then Items(c, l, k - 1) + [Item(c[k - 1], l[k - 1])]
    else Items(c, l, k - 1)
  }

  function SymbolBits(c: Counts, l: Lengths, k: nat): nat
    requires k <= 256
  {
    if k == 0 then 0 else SymbolBits(c, l, k - 1) + c[k - 1] * l[k - 1]
  }

  lemma {:induction false} LastItem(s: seq<Item>, e: Item, m: nat)
    requires AllWithin(s, m) && e.length <= m
    ensures AllWithin(s + [e], m) && Kraft(s + [e], m) == Kraft(s, m) + Pow2(m - e.length)
    ensures Weights(s + [e]) == Insert(e.weight, Weights(s)) && Bits(s + [e]) == Bits(s) + e.weight * e.length
  {
    var t := s + [e];
    assert Without(t, |s|) == s;
    TakeOut(t, |s|);
    TakeOutKraft(t, |s|, m);
  }

  lemma {:induction false} ItemsWeights(c: Counts, l: Lengths, k: nat)
    requires k <= 256
    ensures Weights(Items(c, l, k)) == LiveWeights(Initial(c, k)) && Bits(Items(c, l, k)) == SymbolBits(c, l, k)
  {
    if k > 0 {
      ItemsWeights(c, l, k - 1);
      if c[k - 1] > 0 {
        var s, e := Items(c, l, k - 1), Item(c[k - 1], l[k - 1]);
        assert Without(s + [e], |s|) == s;
        TakeOut(s + [e], |s|);
        AppendWeight(Initial(c, k - 1), Entry(Leaf(k - 1), c[k - 1]));
      }
    }
  }

  lemma {:induction false} SymbolBitsUpdate(c: Counts, l: Lengths, s: byte, k: nat)
    requires k <= 256
    ensures SymbolBits(c[s := c[s] + 1], l, k) == SymbolBits(c, l, k) + if s < k then l[s] else 0
  {
    if k > 0 {
      SymbolBitsUpdate(c, l, s, k - 1);
      if s == k - 1 { Distribute(c[s], 1, l[s]); }
    }
  }

  lemma {:induction false} SymbolBitsZero(c: Counts, l: Lengths, k: nat)
    requires k <= 256 && forall s :: 0 <= s < 256 ==> c[s] == 0
    ensures SymbolBits(c, l, k) == 0
  {
    if k > 0 { SymbolBitsZero(c, l, k - 1); }
  }

  lemma {:induction false} SpentIsSymbolBits(l: Lengths, text: seq<byte>)
    ensures Spent(l, text) == SymbolBits(CountsOf(text), l, 256)
  {
    if text == [] {
      SymbolBitsZero(CountsOf(text), l, 256);
    } else {
      SpentIsSymbolBits(l, text[..|text| - 1]);
      SymbolBitsUpdate(CountsOf(text[..|text| - 1]), l, text[|text| - 1], 256);
    }
  }

  /** No affordable code lengths spend fewer bits on the text than the tree. */
  lemma {:induction false} NoLengthsAreShorter(text: seq<byte>, l: Lengths, m: nat)
    requires text != [] && TreeOf(text).Node? && Covers(TreeOf(text), text)
    requires Affordable(Items(CountsOf(text), l, 256), m)
    ensures |Encode(TreeOf(text), text)| <= Spent(l, text)
  {
    var c := CountsOf(text);
    TreeCovers(text);
    EncodedLength(TreeOf(text), text);
    SumOfText(text);
    InitialNumbers(c, 256);
    InitialEntries(c, 256);
    BuildCost(Initial(c, 256), c);
    ItemsWeights(c, l, 256);
    NoCodeIsCheaper(Items(c, l, 256), m);
    SpentIsSymbolBits(l, text);
  }

  // ---------------------------------------------------------------- prefix codes

  /** A code for each symbol. */
  type CodeTable = t: seq<PrefixCodes.Code> | |t| == 256 witness seq(256, _ => [])

  function Spelled(codes: CodeTable, text: seq<byte>): seq<bool> {
    if text == [] then [] else Spelled(codes, text[..|text| - 1]) + codes[text[|text| - 1]]
  }

  ghost predicate PrefixCodeFor(codes: CodeTable, text: seq<byte>) {
    forall i, j :: 0 <= i < |text| && 0 <= j < |text| && text[i] != text[j] ==>
      PrefixCodes.Apart(codes[text[i]], codes[text[j]])
  }

  function LengthsOf(codes: CodeTable): Lengths {
    seq(256, s requires 0 <= s < 256 => |codes[s]|)
  }

  lemma {:induction false} SpelledLength(codes: CodeTable, text: seq<byte>)
    ensures |Spelled(codes, text)| == Spent(LengthsOf(codes), text)
  {
    if text != [] { SpelledLength(codes, text[..|text| - 1]); }
  }

  /** The codes of the symbols below `k` that occur. */
  function UsedCodes(c: Counts, codes: CodeTable, k: nat): seq<PrefixCodes.Code>
    requires k <= 256
  {
    if k == 0 then []
    else if c[k - 1] > 0 then UsedCodes(c, codes, k - 1) + [codes[k - 1]]
    else UsedCodes(c, codes, k - 1)
  }

  lemma {:induction false} UsedCode(c: Counts, codes: CodeTable, k: nat, i: nat) returns (s: byte)
    requires k <= 256 && i < |UsedCodes(c, codes, k)|
    ensures s < k && c[s] > 0 && UsedCodes(c, codes, k)[i] == codes[s]
  {
    if c[k - 1] > 0 && i == |UsedCodes(c, codes, k)| - 1 {
      s := k - 1;
    } else {
      s := UsedCode(c, codes, k - 1, i);
    }
  }

  lemma {:induction false} UsedPrefixFree(c: Counts, codes: CodeTable, k: nat)
    requires k <= 256
    requires forall s, r :: 0 <= s < r < 256 && c[s] > 0 && c[r] > 0 ==> PrefixCodes.Apart(codes[s], codes[r])
    ensures PrefixCodes.PrefixFree(UsedCodes(c, codes, k))
  {
    if k > 0 {
      UsedPrefixFree(c, codes, k - 1);
      if c[k - 1] > 0 {
        var cs := UsedCodes(c, codes, k - 1);
        forall i | 0 <= i < |cs| ensures PrefixCodes.Apart(cs[i], codes[k - 1]) {
          var s := UsedCode(c, codes, k - 1, i);
        }
      }
    }
  }

  lemma {:induction false} UsedKraft(c: Counts, codes: CodeTable, k: nat, m: nat)
    requires k <= 256 && forall s :: 0 <= s < 256 ==> |codes[s]| <= m
    ensures PrefixCodes.Short(UsedCodes(c, codes, k), m) && AllWithin(Items(c, LengthsOf(codes), k), m)
    ensures Kraft(Items(c, LengthsOf(codes), k), m) == PrefixCodes.Covered(UsedCodes(c, codes, k), m)
  {
    if k > 0 {
      UsedKraft(c, codes, k - 1, m);
      if c[k - 1] > 0 {
        LastItem(Items(c, LengthsOf(codes), k - 1), Item(c[k - 1], LengthsOf(codes)[k - 1]), m);
        PrefixCodes.CoveredLast(UsedCodes(c, codes, k - 1), codes[k - 1], m);
      }
    }
  }

  lemma {:induction false} LongestCode(codes: seq<PrefixCodes.Code>) returns (m: nat)
    ensures forall s :: 0 <= s < |codes| ==> |codes[s]| <= m
  {
    if codes == [] {
      m := 0;
    } else {
      var n := LongestCode(codes[1..]);
      m := if |codes[0]| >= n then |codes[0]| else n;
      assert forall s :: 1 <= s < |codes| ==> codes[s] == codes[1..][s - 1];
    }
  }

  lemma {:induction false} CountedOccurs(text: seq<byte>, s: byte) returns (i: nat)
    requires CountsOf(text)[s] > 0
    ensures i < |text| && text[i] == s
  {
    CountsAreOccurrences(text, s);
    assert s in text;
    i :| 0 <= i < |text| && text[i] == s;
  }

  /** A text of two symbols or more has a proper tree. */
  lemma {:induction false} TwoSymbols(text: seq<byte>, i: nat, j: nat)
    requires i < |text| && j < |text| && text[i] != text[j]
    ensures TreeOf(text).Node?
  {
    TreeCovers(text);
    var t := TreeOf(text);
    assert text[i] in Leaves(t) && text[j] in Leaves(t);
  }

  /**
   The encoded text is as short as any prefix code can make it, if the text has two different
   symbols.
   */
  lemma {:induction false} NoPrefixCodeIsShorter(text: seq<byte>, codes: CodeTable, i: nat, j: nat)
    requires i < |text| && j < |text| && text[i] != text[j] && PrefixCodeFor(codes, text)
    ensures Covers(TreeOf(text), text) && |Encode(TreeOf(text), text)| <= |Spelled(codes, text)|
  {
    var c := CountsOf(text);
    forall s: byte, r: byte | s < r && c[s] > 0 && c[r] > 0 ensures PrefixCodes.Apart(codes[s], codes[r]) {
      var x := CountedOccurs(text, s);
      var y := CountedOccurs(text, r);
    }
    UsedPrefixFree(c, codes, 256);
    var m := LongestCode(codes);
    UsedKraft(c, codes, 256, m);
    PrefixCodes.KraftInequality(UsedCodes(c, codes, 256), m);
    TreeCovers(text);
    TwoSymbols(text, i, j);
    NoLengthsAreShorter(text, LengthsOf(codes), m);
    SpelledLength(codes, text);
  }

  // ---------------------------------------------------------------- sizes

  lemma {:induction false} EightBits(c: Counts, l: Lengths, k: nat)
    requires k <= 256 && forall s :: 0 <= s < 256 ==> l[s] == 8
    ensures AllWithin(Items(c, l, k), 8) && Kraft(Items(c, l, k), 8) <= k
  {
    if k > 0 {
      EightBits(c, l, k - 1);
      if c[k - 1] > 0 { LastItem(Items(c, l, k - 1), Item(c[k - 1], 8), 8); }
    }
  }

  lemma {:induction false} SpentEight(l: Lengths, text: seq<byte>)
    requires forall s :: 0 <= s < 256 ==> l[s] == 8
    ensures Spent(l, text) == 8 * |text|
  {
    if text != [] { SpentEight(l, text[..|text| - 1]); }
  }

  /** The encoded text is no longer than the text, and the description takes 320 bytes at most. */
  lemma {:induction false} StreamSize(text: seq<byte>)
    requires text != []
    ensures Covers(TreeOf(text), text)
    ensures |Encode(TreeOf(text), text)| <= 8 * |text| && |Describe(TreeOf(text))| <= 2559
    ensures Size(TreeOf(text)) <= 511
  {
    TreeCovers(text);
    var t, c, l := TreeOf(text), CountsOf(text), seq(256, _ => 8);
    if t.Leaf? {
      OneLeafLength(t, text);
    } else {
      EightBits(c, l, 256);
      assert Pow2(8) == 256;
      NoLengthsAreShorter(text, l, 8);
      SpentEight(l, text);
    }
    DescriptionSize(t);
    LeafCount(text);
  }

  lemma {:induction false} LeafCount(text: seq<byte>)
    requires text != []
    ensures |Leaves(TreeOf(text))| <= 256
  {
    var c := CountsOf(text);
    SumOfText(text);
    InitialNumbers(c, 256);
    BuildLeaves(Initial(c, 256));
    InitialLeafCount(c, 256);
    assert |multiset(Leaves(TreeOf(text)))| == |Leaves(TreeOf(text))|;
  }

  lemma {:induction false} InitialLeafCount(c: Counts, k: nat)
    requires k <= 256
    ensures |LiveLeaves(Initial(c, k))| <= k
  {
    if k > 0 {
      InitialLeafCount(c, k - 1);
      FrontOf(Initial(c, k - 1), Entry(Leaf(k - 1), c[k - 1]));
    }
  }
}
