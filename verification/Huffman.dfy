/**
 libbcl/huffman.c on its own data structures: symbol table, node arrays and bit streams. Pointers
 into a node array are indices, and -1 is the null pointer.
 */
module Huffman {
  import opened Binary
  import opened BitStrings
  import opened Bytes
  import opened Histogram
  import opened HuffmanBuild
  import opened HuffmanText
  import opened HuffmanTree
  import opened Multiples
  import opened Spelling

  const MAX_TREE_NODES := 511

  datatype Sym = Sym(symbol: nat, count: nat, code: nat, bits: nat)

  datatype EncodeNode = EncodeNode(childA: int, childB: int, count: nat, symbol: int)

  datatype DecodeNode = DecodeNode(childA: int, childB: int, symbol: int)

  // ---------------------------------------------------------------- the histogram

  /** The table is indexed by symbol and counts the text. */
  ghost predicate Tallied(sym: seq<Sym>, c: Counts) {
    |sym| == 256 && forall s :: 0 <= s < 256 ==> sym[s].symbol == s && sym[s].count == c[s]
  }

  /** `_Huffman_Hist`. */
  method Hist(input: array<byte>, sym: array<Sym>)
    requires sym.Length == 256
    modifies sym
    ensures Tallied(sym[..], CountsOf(input[..]))
  {
    for k := 0 to 256
      invariant forall s :: 0 <= s < k ==> sym[s] == Sym(s, 0, 0, 0)
    {
      sym[k] := Sym(k, 0, 0, 0);
    }
    assert CountsOf(input[..0]) == seq(256, _ => 0);
    for i := 0 to input.Length
      invariant Tallied(sym[..], CountsOf(input[..i]))
    {
      var b := input[i];
      assert input[..i + 1][..i] == input[..i] && input[..i + 1][i] == b;
      sym[b] := sym[b].(count := sym[b].count + 1);
    }
    assert input[..input.Length] == input[..];
  }

  // ---------------------------------------------------------------- the tree

  /** Node `k` of the array is tree `k` of the forest. */
  ghost predicate NodeIs(n: EncodeNode, f: Forest, k: nat)
    requires k < |f|
  {
    && n.count == f[k].weight
    && if n.symbol >= 0 then f[k].tree.Leaf? && f[k].tree.symbol == n.symbol
       else 0 <= n.childA < k && 0 <= n.childB < k && f[k].tree == Node(f[n.childA].tree, f[n.childB].tree)
  }

  ghost predicate Represents(nodes: seq<EncodeNode>, f: Forest) {
    |f| <= |nodes| && forall k :: 0 <= k < |f| ==> NodeIs(nodes[k], f, k)
  }

  /** The leaves of the forest. */
  method InitLeaves(sym: array<Sym>, nodes: array<EncodeNode>, ghost c: Counts) returns (n: nat)
    requires Tallied(sym[..], c) && nodes.Length == MAX_TREE_NODES
    modifies nodes
    ensures n == |Initial(c, 256)| && Represents(nodes[..], Initial(c, 256))
  {
    n := 0;
    for k := 0 to 256
      invariant n == |Initial(c, k)| <= k && Represents(nodes[..], Initial(c, k))
    {
      assert sym[..][k] == sym[k];
      if sym[k].count > 0 {
        nodes[n] := EncodeNode(-1, -1, sym[k].count, sym[k].symbol);
        n := n + 1;
      }
    }
  }

  /** The two lightest nodes below `n`. */
  method FindTwo(nodes: array<EncodeNode>, n: nat, ghost f: Forest) returns (i: int, j: int)
    requires n == |f| && Represents(nodes[..], f)
    ensures (i, j) == Scan(f, n)
  {
    i, j := -1, -1;
    for k := 0 to n
      invariant (i, j) == Scan(f, k)
    {
      assert NodeIs(nodes[..][k], f, k);
      assert i >= 0 ==> NodeIs(nodes[..][i], f, i);
      assert j >= 0 ==> NodeIs(nodes[..][j], f, j);
      if nodes[k].count > 0 {
        if i < 0 || nodes[k].count <= nodes[i].count {
          i, j := k, i;
        } else if j < 0 || nodes[k].count <= nodes[j].count {
          j := k;
        }
      }
    }
  }

  lemma {:induction false} RepresentsMerge(nodes: seq<EncodeNode>, after: seq<EncodeNode>, f: Forest, i: nat, j: nat)
    requires Represents(nodes, f) && Live(f) >= 2 && TwoLightest(f) == (i, j) && |f| < |nodes| == |after|
    requires forall k :: 0 <= k < |f| ==> after[k] == (if k == i || k == j then nodes[k].(count := 0) else nodes[k])
    requires after[|f|] == EncodeNode(i, j, nodes[i].count + nodes[j].count, -1)
    ensures Represents(after, Merge(f))
  {
    var g := Merge(f);
    assert forall k :: 0 <= k < |f| ==> g[k].tree == f[k].tree;
    forall k | 0 <= k < |g| ensures NodeIs(after[k], g, k) {
      if k < |f| {
        assert NodeIs(nodes[k], f, k);
      } else {
        assert NodeIs(nodes[i], f, i) && NodeIs(nodes[j], f, j);
      }
    }
  }

  /** The loop of `_Huffman_MakeTree`: joins the lightest nodes until one is left. */
  method JoinNodes(nodes: array<EncodeNode>, n: nat, ghost f0: Forest) returns (root: nat, ghost f: Forest)
    requires nodes.Length == MAX_TREE_NODES && n == |f0| == Live(f0) && 1 <= n <= 256
    requires Growing(f0) && Represents(nodes[..], f0)
    modifies nodes
    ensures Represents(nodes[..], f) && root < |f| && f[root].tree == Build(f0)
    ensures n == 1 ==> nodes[..] == old(nodes[..]) && root == 0
  {
    var left, next := n, n;
    f := f0;
    while left > 1
      invariant 1 <= left <= n && next + left == 2 * n && next == |f| && left == Live(f)
      invariant Growing(f) && Represents(nodes[..], f) && Build(f) == Build(f0)
      invariant n == 1 ==> nodes[..] == old(nodes[..])
    {
      var i, j := FindTwo(nodes, next, f);
      assert (i, j) == TwoLightest(f);
      ghost var before := nodes[..];
      nodes[next] := EncodeNode(i, j, nodes[i].count + nodes[j].count, -1);
      nodes[i] := nodes[i].(count := 0);
      nodes[j] := nodes[j].(count := 0);
      RepresentsMerge(before, nodes[..], f, i, j);
      MergedOnce(f);
      f := Merge(f);
      next, left := next + 1, left - 1;
    }
    root := next - 1;
  }

  // ---------------------------------------------------------------- storing the tree

  /** The entry of a symbol whose code is `path`; the code is kept in a 32-bit word. */
  ghost predicate HasCode(e: Sym, s: byte, path: seq<bool>) {
    e.symbol == s && e.code == FromBits(path) % Pow2(32) && e.bits == |path|
  }

  ghost predicate Indexed(sym: seq<Sym>) {
    |sym| == 256 && forall s :: 0 <= s < 256 ==> sym[s].symbol == s
  }

  /** The table after the codes of a tree are stored. */
  ghost predicate Coded(before: seq<Sym>, after: seq<Sym>, t: Tree, prefix: seq<bool>)
    requires |before| == |after| == 256
  {
    forall s: byte :: CodedEntry(before[s], after[s], t, prefix, s)
  }

  ghost predicate CodedEntry(before: Sym, after: Sym, t: Tree, prefix: seq<bool>, s: byte) {
    if s in Leaves(t) then HasCode(after, s, prefix + Path(t, s)) else after == before
  }

  lemma {:induction false} CodedBelow(before: Sym, middle: Sym, after: Sym, t: Tree, prefix: seq<bool>, s: byte)
    requires t.Node? && Distinct(t)
    requires CodedEntry(before, middle, t.a, prefix + [false], s) && CodedEntry(middle, after, t.b, prefix + [true], s)
    ensures CodedEntry(before, after, t, prefix, s)
  {
    if s in Leaves(t.a) {
      Regroup(prefix, [false], Path(t.a, s));
    } else if s in Leaves(t.b) {
      Regroup(prefix, [true], Path(t.b, s));
    }
  }

  lemma {:induction false} CodedNode(before: seq<Sym>, middle: seq<Sym>, after: seq<Sym>, t: Tree, prefix: seq<bool>)
    requires |before| == |middle| == |after| == 256 && t.Node? && Distinct(t)
    requires Coded(before, middle, t.a, prefix + [false]) && Coded(middle, after, t.b, prefix + [true])
    ensures Coded(before, after, t, prefix)
  {
    forall s: byte ensures CodedEntry(before[s], after[s], t, prefix, s) {
      CodedBelow(before[s], middle[s], after[s], t, prefix, s);
    }
  }

  /** A code with one more bit, in 32 bits. */
  function WithBit(code: nat, bit: nat): nat {
    (2 * code + bit) % Pow2(32)
  }

  lemma {:induction false} NextCode(prefix: seq<bool>, b: bool)
    ensures FromBits(prefix + [b]) % Pow2(32) == WithBit(FromBits(prefix) % Pow2(32), if b then 1 else 0)
  {
    assert (prefix + [b])[..|prefix|] == prefix;
    var v, x := FromBits(prefix), if b then 1 else 0;
    DoubleModulo(v, x, Pow2(32));
  }

  lemma DoubleModulo(v: nat, x: nat, m: nat)
    requires 0 < m
    ensures (2 * v + x) % m == (2 * (v % m) + x) % m
  {
    var q, r := v / m, v % m;
    assert v == q * m + r;
    var q2, r2 := (2 * r + x) / m, (2 * r + x) % m;
    assert 2 * r + x == q2 * m + r2;
    assert 2 * v + x == (2 * q + q2) * m + r2;
    Remainder(2 * v + x, m, 2 * q + q2, r2);
  }

  /** The position of a symbol in the table. */
  method FindSymbol(sym: array<Sym>, symbol: nat) returns (i: nat)
    requires Indexed(sym[..]) && symbol < 256
    ensures i == symbol
  {
    i := 0;
    while i < 256
      invariant i <= symbol
    {
      assert sym[..][i] == sym[i];
      if sym[i].symbol == symbol { break; }
      i := i + 1;
    }
  }

  /** A leaf of `_Huffman_StoreTree`. */
  method StoreLeaf(symbol: byte, sym: array<Sym>, stream: BitStream, code: nat, bits: nat, ghost prefix: seq<bool>)
    requires Indexed(sym[..]) && stream.Valid() && stream.Position() + 9 <= 8 * stream.buf.Length
    requires code == FromBits(prefix) % Pow2(32) && bits == |prefix|
    modifies sym, stream`bytePtr, stream`bitPos, stream.buf
    ensures stream.Valid() && stream.Passed() == old(stream.Passed()) + Describe(Leaf(symbol))
    ensures stream.Position() == old(stream.Position()) + 9
    ensures Indexed(sym[..]) && Coded(old(sym[..]), sym[..], Leaf(symbol), prefix)
  {
    DescribeLeaf(symbol, stream);
    var i := FindSymbol(sym, symbol);
    sym[i] := sym[i].(code := code, bits := bits);
    LeafCoded(old(sym[..]), sym[..], symbol, code, bits, prefix);
  }

  method DescribeLeaf(symbol: byte, stream: BitStream)
    requires stream.Valid() && stream.Position() + 9 <= 8 * stream.buf.Length
    modifies stream`bytePtr, stream`bitPos, stream.buf
    ensures stream.Valid() && stream.Passed() == old(stream.Passed()) + Describe(Leaf(symbol))
    ensures stream.Position() == old(stream.Position()) + 9
  {
    assert Pow2(32) > 256 by { WordIsWide(); }
    ghost var start := stream.Passed();
    stream.WriteBits(1, 1);
    assert stream.Passed() == start + [true];
    stream.WriteBits(symbol, 8);
    Regroup(start, [true], ToBits(symbol, 8));
  }

  lemma {:induction false} LeafCoded(before: seq<Sym>, after: seq<Sym>, symbol: byte, code: nat, bits: nat,
                                     prefix: seq<bool>)
    requires Indexed(before) && after == before[symbol := before[symbol].(code := code, bits := bits)]
    requires code == FromBits(prefix) % Pow2(32) && bits == |prefix|
    ensures Indexed(after) && Coded(before, after, Leaf(symbol), prefix)
  {
    assert prefix + Path(Leaf(symbol), symbol) == prefix;
  }

  lemma WordIsWide()
    ensures Pow2(32) > 256
  {
    assert Pow2(9) == 512;
    Pow2Monotone(9, 32);
  }

  lemma DescribeNode(start: seq<bool>, a: Tree, b: Tree)
    ensures start + [false] + Describe(a) + Describe(b) == start + Describe(Node(a, b))
  {
  }

  /** `_Huffman_StoreTree`: writes the description and records the codes. */
  method StoreTree(nodes: array<EncodeNode>, k: nat, sym: array<Sym>, stream: BitStream, code: nat, bits: nat,
                   ghost f: Forest, ghost prefix: seq<bool>)
    requires Represents(nodes[..], f) && k < |f| && Distinct(f[k].tree) && Indexed(sym[..])
    requires stream.Valid() && stream.Position() + |Describe(f[k].tree)| <= 8 * stream.buf.Length
    requires code == FromBits(prefix) % Pow2(32) && bits == |prefix|
    modifies sym, stream`bytePtr, stream`bitPos, stream.buf
    ensures stream.Valid() && stream.Passed() == old(stream.Passed()) + Describe(f[k].tree)
    ensures stream.Position() == old(stream.Position()) + |Describe(f[k].tree)|
    ensures Indexed(sym[..]) && Coded(old(sym[..]), sym[..], f[k].tree, prefix)
    decreases k
  {
    ghost var t, start, before := f[k].tree, stream.Passed(), sym[..];
    assert NodeIs(nodes[..][k], f, k);
    if nodes[k].symbol >= 0 {
      StoreLeaf(nodes[k].symbol, sym, stream, code, bits, prefix);
    } else {
      var a, b := nodes[k].childA, nodes[k].childB;
      assert t == Node(f[a].tree, f[b].tree);
      stream.WriteBits(0, 1);
      assert stream.Passed() == start + [false];
      NextCode(prefix, false);
      NextCode(prefix, true);
      StoreTree(nodes, a, sym, stream, WithBit(code, 0), bits + 1, f, prefix + [false]);
      ghost var middle := sym[..];
      StoreTree(nodes, b, sym, stream, WithBit(code, 1), bits + 1, f, prefix + [true]);
      CodedNode(before, middle, sym[..], t, prefix);
      DescribeNode(start, f[a].tree, f[b].tree);
    }
  }

  /** Every symbol of the tree has its code in the table. */
  ghost predicate Table(sym: seq<Sym>, t: Tree) {
    |sym| == 256 && forall s: byte :: s in Leaves(t) ==> HasCode(sym[s], s, Code(t, s))
  }

  /** The first half of `_Huffman_MakeTree`: the tree of the text, and whether it has more than one leaf. */
  method BuildNodes(sym: array<Sym>, ghost text: seq<byte>)
    returns (nodes: array<EncodeNode>, root: nat, several: bool, ghost f: Forest)
    requires text != [] && Tallied(sym[..], CountsOf(text))
    ensures fresh(nodes) && Represents(nodes[..], f) && root < |f| && f[root].tree == TreeOf(text)
    ensures several == TreeOf(text).Node?
  {
    ghost var c := CountsOf(text);
    nodes := new EncodeNode[MAX_TREE_NODES](_ => EncodeNode(-1, -1, 0, -1));
    var n := InitLeaves(sym, nodes, c);
    assert Growing(Initial(c, 256)) && n == Live(Initial(c, 256)) <= 256 by { SumOfText(text); InitialNumbers(c, 256); }
    root, f := JoinNodes(nodes, n, Initial(c, 256));
    several := n > 1;
    if several { SeveralLeaves(c); } else { SingleLeaf(c); }
  }

  /** The second half of `_Huffman_MakeTree`: a lone leaf gets a code of one bit. */
  method StoreRoot(nodes: array<EncodeNode>, root: nat, several: bool, sym: array<Sym>, stream: BitStream,
                   ghost f: Forest, ghost t: Tree)
    requires Represents(nodes[..], f) && root < |f| && f[root].tree == t && Distinct(t) && Indexed(sym[..])
    requires several == t.Node? && stream.Valid() && stream.Position() + |Describe(t)| <= 8 * stream.buf.Length
    modifies sym, stream`bytePtr, stream`bitPos, stream.buf
    ensures stream.Valid() && stream.Passed() == old(stream.Passed()) + Describe(t)
    ensures stream.Position() == old(stream.Position()) + |Describe(t)|
    ensures Indexed(sym[..]) && Table(sym[..], t)
  {
    ghost var prefix := if several then [] else [false];
    assert FromBits(prefix) % Pow2(32) == 0 by { NoCode(prefix); }
    StoreTree(nodes, root, sym, stream, 0, if several then 0 else 1, f, prefix);
    TableFrom(old(sym[..]), sym[..], t, prefix);
  }

  lemma NoCode(prefix: seq<bool>)
    requires prefix == [] || prefix == [false]
    ensures FromBits(prefix) % Pow2(32) == 0
  {
    assert FromBits(prefix) == 0;
    Remainder(0, Pow2(32), 0, 0);
  }

  /** `_Huffman_MakeTree`: the description of the text's tree is written, and the table holds its codes. */
  method MakeTree(sym: array<Sym>, stream: BitStream, ghost text: seq<byte>)
    requires text != [] && Tallied(sym[..], CountsOf(text))
    requires stream.Valid() && stream.Position() + 2559 <= 8 * stream.buf.Length
    modifies sym, stream`bytePtr, stream`bitPos, stream.buf
    ensures stream.Valid() && stream.Passed() == old(stream.Passed()) + Describe(TreeOf(text))
    ensures stream.Position() == old(stream.Position()) + |Describe(TreeOf(text))|
    ensures Indexed(sym[..]) && Table(sym[..], TreeOf(text))
  {
    ghost var t := TreeOf(text);
    assert Distinct(t) by { TreeCovers(text); }
    assert |Describe(t)| <= 2559 by { StreamSize(text); }
    var nodes, root, several, f := BuildNodes(sym, text);
    StoreRoot(nodes, root, several, sym, stream, f, t);
  }

  lemma {:induction false} TableFrom(before: seq<Sym>, after: seq<Sym>, t: Tree, prefix: seq<bool>)
    requires |before| == |after| == 256 && Coded(before, after, t, prefix) && prefix == if t.Leaf? then [false] else []
    ensures Table(after, t)
  {
    forall s: byte | s in Leaves(t) ensures HasCode(after[s], s, Code(t, s)) {
      assert prefix + Path(t, s) == Code(t, s);
    }
  }

  lemma {:induction false} BuildIsNode(f: Forest)
    requires Live(f) >= 1 && f != [] && f[|f| - 1].tree.Node?
    ensures Build(f).Node?
    decreases Live(f)
  {
    if Live(f) > 1 {
      MergedOnce(f);
      BuildIsNode(Merge(f));
    }
  }

  lemma {:induction false} SeveralLeaves(c: Counts)
    requires Live(Initial(c, 256)) > 1
    ensures Build(Initial(c, 256)).Node?
  {
    var f := Initial(c, 256);
    MergedOnce(f);
    BuildIsNode(Merge(f));
  }

  lemma {:induction false} SingleLeaf(c: Counts)
    requires Live(Initial(c, 256)) == 1
    ensures Build(Initial(c, 256)).Leaf?
  {
    InitialEntries(c, 256);
  }

  // ---------------------------------------------------------------- the order of the table

  /** The entries from `n` on are where a table ordered by symbol has them. */
  ghost predicate Settled(t: seq<Sym>, n: nat) {
    forall i, j :: 0 <= i < j < |t| && n <= j ==> t[i].symbol <= t[j].symbol
  }

  /** No entry before `k` has a greater symbol. */
  ghost predicate Highest(t: seq<Sym>, k: nat) {
    k < |t| && forall i :: 0 <= i < k ==> t[i].symbol <= t[k].symbol
  }

  function Exchanged(t: seq<Sym>, k: nat): (r: seq<Sym>)
    requires k + 1 < |t|
    ensures |r| == |t| && multiset(r) == multiset(t)
  {
    t[k := t[k + 1]][k + 1 := t[k]]
  }

  lemma {:induction false} ExchangeKeeps(t: seq<Sym>, k: nat, n: nat)
    requires k + 1 < |t| && Settled(t, n) && Highest(t, k) && t[k].symbol > t[k + 1].symbol
    ensures k + 1 < n && Settled(Exchanged(t, k), n) && Highest(Exchanged(t, k), k + 1)
  {
    var r := Exchanged(t, k);
    forall i, j | 0 <= i < j < |r| && n <= j ensures r[i].symbol <= r[j].symbol {
      assert r[j] == t[j] && (r[i] == t[i] || r[i] == t[k] || r[i] == t[k + 1]);
    }
  }

  /** A pass that has come to entry `k`, with the greatest symbol so far in it. */
  ghost predicate Bubbling(was: seq<Sym>, t: seq<Sym>, k: nat, n: nat, swaps: bool)
    requires n >= 1
  {
    && k < |t| == |was| && multiset(t) == multiset(was)
    && Settled(t, n) && (k >= n - 1 ==> Settled(t, n - 1))
    && Highest(t, k)
    && (if swaps then !Settled(was, 0) else t == was && Settled(t[..k + 1], 0))
  }

  lemma {:induction false} SettledNext(t: seq<Sym>, n: nat)
    requires Settled(t, n + 1) && (n < |t| ==> Highest(t, n))
    ensures Settled(t, n)
  {
  }

  lemma {:induction false} PrefixSettled(t: seq<Sym>, k: nat)
    requires k + 1 < |t| && Settled(t[..k + 1], 0) && Highest(t, k) && t[k].symbol <= t[k + 1].symbol
    ensures Settled(t[..k + 2], 0)
  {
    var r := t[..k + 2];
    forall i, j | 0 <= i < j < |r| ensures r[i].symbol <= r[j].symbol {
      if j < k + 1 { assert r[i] == t[..k + 1][i] && r[j] == t[..k + 1][j]; }
    }
  }

  lemma {:induction false} BubbleOn(was: seq<Sym>, t: seq<Sym>, k: nat, n: nat, swaps: bool)
    requires n >= 1 && k + 1 < |t| && Bubbling(was, t, k, n, swaps)
    ensures t[k].symbol > t[k + 1].symbol ==> Bubbling(was, Exchanged(t, k), k + 1, n, true)
    ensures t[k].symbol <= t[k + 1].symbol ==> Bubbling(was, t, k + 1, n, swaps)
  {
    if t[k].symbol > t[k + 1].symbol {
      ExchangeKeeps(t, k, n);
      if k + 1 >= n - 1 { SettledNext(Exchanged(t, k), n - 1); }
    } else {
      assert Highest(t, k + 1);
      if k + 1 == n - 1 { SettledNext(t, n - 1); }
      if !swaps { PrefixSettled(t, k); }
    }
  }

  /** One pass of the bubble sort: the greatest of the first `n` symbols moves to the end of them. */
  method BubblePass(sym: array<Sym>, ghost n: nat) returns (swaps: bool)
    requires sym.Length == 256 && 1 <= n <= 256 && Settled(sym[..], n)
    modifies sym
    ensures multiset(sym[..]) == multiset(old(sym[..])) && Settled(sym[..], n - 1)
    ensures swaps == !old(Settled(sym[..], 0)) && (!swaps ==> sym[..] == old(sym[..]))
  {
    swaps := false;
    ghost var was := sym[..];
    if n == 1 { SettledNext(was, 0); }
    for k := 0 to 255
      invariant Bubbling(was, sym[..], k, n, swaps)
    {
      ghost var t := sym[..];
      BubbleOn(was, t, k, n, swaps);
      if sym[k].symbol > sym[k + 1].symbol {
        sym[k], sym[k + 1] := sym[k + 1], sym[k];
        assert sym[..] == Exchanged(t, k);
        swaps := true;
      }
    }
    assert sym[..][..256] == sym[..];
  }

  /** The bubble sort by symbol. A table in order, as the tree leaves it, is not touched. */
  method SortBySymbol(sym: array<Sym>)
    requires sym.Length == 256
    modifies sym
    ensures multiset(sym[..]) == multiset(old(sym[..])) && Settled(sym[..], 0)
    ensures old(Settled(sym[..], 0)) ==> sym[..] == old(sym[..])
  {
    var swaps := true;
    ghost var n: nat := 256;
    while swaps
      invariant n <= 256 && (swaps ==> n >= 1) && Settled(sym[..], if swaps then n else 0)
      invariant multiset(sym[..]) == multiset(old(sym[..]))
      invariant old(Settled(sym[..], 0)) ==> sym[..] == old(sym[..])
      decreases if swaps then n else 0
    {
      swaps := BubblePass(sym, n);
      n := n - 1;
    }
  }

  // ---------------------------------------------------------------- compression

  /** A code of 32 bits or fewer is what the table says. */
  lemma {:induction false} CodeBits(e: Sym, s: byte, t: Tree)
    requires s in Leaves(t) && HasCode(e, s, Code(t, s)) && Height(t) <= 32
    ensures ToBits(e.code, e.bits) == Code(t, s) && 1 <= e.bits <= 32 && e.code < Pow2(32)
  {
    var p := Code(t, s);
    assert 1 <= |p| <= 32;
    Pow2Monotone(|p|, 32);
    Remainder(FromBits(p), Pow2(32), 0, FromBits(p));
    ToFromBits(p);
  }

  lemma {:induction false} EncodePrefix(t: Tree, text: seq<byte>, k: nat)
    requires Covers(t, text) && k <= |text|
    ensures |Encode(t, text[..k])| <= |Encode(t, text)|
    decreases |text|
  {
    if k < |text| {
      EncodePrefix(t, text[..|text| - 1], k);
      assert text[..|text| - 1][..k] == text[..k];
    } else {
      assert text[..k] == text;
    }
  }

  lemma {:induction false} EncodeNext(t: Tree, text: seq<byte>, k: nat)
    requires Covers(t, text) && k < |text|
    ensures Encode(t, text[..k + 1]) == Encode(t, text[..k]) + Code(t, text[k])
    ensures |Encode(t, text[..k + 1])| <= |Encode(t, text)|
  {
    assert text[..k + 1][..k] == text[..k];
    EncodePrefix(t, text, k + 1);
  }

  method EncodeSymbol(sym: array<Sym>, s: byte, stream: BitStream, ghost t: Tree)
    requires s in Leaves(t) && Table(sym[..], t) && Height(t) <= 32
    requires stream.Valid() && stream.Position() + |Code(t, s)| <= 8 * stream.buf.Length
    modifies stream`bytePtr, stream`bitPos, stream.buf
    ensures stream.Valid() && stream.Passed() == old(stream.Passed()) + Code(t, s)
    ensures stream.Position() == old(stream.Position()) + |Code(t, s)|
  {
    var e := sym[s];
    assert e == sym[..][s];
    CodeBits(e, s, t);
    stream.WriteBits(e.code, e.bits);
  }

  /** The encoding loop of `Huffman_Compress`. */
  method EncodeText(input: array<byte>, sym: array<Sym>, stream: BitStream, ghost t: Tree)
    requires input != stream.buf && Table(sym[..], t) && Covers(t, input[..]) && Height(t) <= 32
    requires stream.Valid() && stream.Position() + |Encode(t, input[..])| <= 8 * stream.buf.Length
    modifies stream`bytePtr, stream`bitPos, stream.buf
    ensures stream.Valid() && stream.Passed() == old(stream.Passed()) + Encode(t, input[..])
    ensures stream.Position() == old(stream.Position()) + |Encode(t, input[..])|
  {
    ghost var text, start, at := input[..], stream.Passed(), stream.Position();
    assert start + Encode(t, text[..0]) == start;
    for k := 0 to input.Length
      invariant input[..] == text && stream.Valid() && stream.Position() == at + |Encode(t, text[..k])|
      invariant stream.Passed() == start + Encode(t, text[..k])
    {
      EncodeNext(t, text, k);
      var symbol := input[k];
      assert symbol == text[k] && symbol in Leaves(t);
      EncodeSymbol(sym, symbol, stream, t);
      Regroup(start, Encode(t, text[..k]), Code(t, text[k]));
    }
    assert text[..input.Length] == text;
  }

  /** What `Huffman_Compress` leaves in its output: the description and the data, in as few bytes as hold them. */
  ghost predicate Compressed(text: seq<byte>, out: seq<byte>)
    requires text != [] && Covers(TreeOf(text), text)
  {
    var bits := Describe(TreeOf(text)) + Encode(TreeOf(text), text);
    bits <= StreamBits(out) && 8 * |out| < |bits| + 8
  }

  method WriteStream(input: array<byte>, output: array<byte>) returns (stream: BitStream)
    requires input != output && input.Length > 0 && Height(TreeOf(input[..])) <= 32
    requires Covers(TreeOf(input[..]), input[..])
    requires 2559 + |Encode(TreeOf(input[..]), input[..])| <= 8 * output.Length && |Describe(TreeOf(input[..]))| <= 2559
    modifies output
    ensures stream.buf == output && stream.Valid()
    ensures stream.Passed() == Describe(TreeOf(input[..])) + Encode(TreeOf(input[..]), input[..])
  {
    ghost var text := input[..];
    stream := new BitStream(output);
    var sym := new Sym[256](_ => Sym(0, 0, 0, 0));
    Hist(input, sym);
    assert stream.Passed() == [];
    MakeTree(sym, stream, text);
    assert stream.Passed() == Describe(TreeOf(text));
    SortBySymbol(sym);
    EncodeText(input, sym, stream, TreeOf(text));
  }

  /**
   `Huffman_Compress`. The counts are C integers, and a code must fit a word; `CodesFit` says when it
   does. The output buffer of the documented size is never overrun, and the result is at most
   320 bytes longer than the text.
   */
  method Compress(input: array<byte>, output: array<byte>) returns (size: nat)
    requires input != output && output.Length >= input.Length + 384 && input.Length < 0x8000_0000
    requires input.Length > 0 ==> Height(TreeOf(input[..])) <= 32
    modifies output
    ensures input.Length == 0 ==> size == 0 && output[..] == old(output[..])
    ensures input.Length > 0 ==> size <= output.Length && Covers(TreeOf(input[..]), input[..])
    ensures input.Length > 0 ==> Compressed(input[..], output[..size])
    ensures size <= input.Length + 320
  {
    if input.Length < 1 {
      return 0;
    }
    ghost var text := input[..];
    ghost var t := TreeOf(text);
    StreamSize(text);
    var stream := WriteStream(input, output);
    size := stream.bytePtr;
    if stream.bitPos > 0 {
      size := size + 1;
    }
    PassedBytes(output[..], size, stream.Position());
  }

  lemma {:induction false} PassedBytes(s: seq<byte>, size: nat, p: nat)
    requires size <= |s| && p <= 8 * size
    ensures StreamBits(s)[..p] <= StreamBits(s[..size])
  {
    StreamPrefix(s, size);
  }
}
