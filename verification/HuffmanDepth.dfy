/**
 When the codes of libbcl/huffman.c fit its 32-bit words: for every text of `n` bytes exactly when `n`
 is below 9227465. The file's own limit, 2^32 bytes, is off.
 */
module HuffmanDepth {
  import opened Bytes
  import opened Histogram
  import opened HuffmanBuild
  import opened HuffmanText
  import opened HuffmanTree
  import opened Spelling

  lemma {:induction false} FibValues()
    ensures Fib(34) == 5702887 && Fib(35) == 9227465 && Fib(36) == 14930352
  {
    assert Fib(2) == 1 && Fib(3) == 2 && Fib(4) == 3 && Fib(5) == 5 && Fib(6) == 8 && Fib(7) == 13;
    assert Fib(8) == 21 && Fib(9) == 34 && Fib(10) == 55 && Fib(11) == 89 && Fib(12) == 144 && Fib(13) == 233;
    assert Fib(14) == 377 && Fib(15) == 610 && Fib(16) == 987 && Fib(17) == 1597 && Fib(18) == 2584;
    assert Fib(19) == 4181 && Fib(20) == 6765 && Fib(21) == 10946 && Fib(22) == 17711 && Fib(23) == 28657;
    assert Fib(24) == 46368 && Fib(25) == 75025 && Fib(26) == 121393 && Fib(27) == 196418;
    assert Fib(28) == 317811 && Fib(29) == 514229 && Fib(30) == 832040 && Fib(31) == 1346269;
    assert Fib(32) == 2178309 && Fib(33) == 3524578;
  }

  lemma {:induction false} LeavesBalanced(f: Forest)
    requires forall i :: 0 <= i < |f| ==> f[i].tree.Leaf? && f[i].weight > 0
    ensures Balanced(f)
  {
    assert Fib(1) == Fib(2) == 1;
  }

  /** A text of height `h` has at least as many bytes as the Fibonacci number `h + 2`. */
  lemma {:induction false} TextHeight(text: seq<byte>)
    requires text != []
    ensures |text| >= Fib(Height(TreeOf(text)) + 2)
  {
    var c := CountsOf(text);
    SumOfText(text);
    InitialNumbers(c, 256);
    var f := Initial(c, 256);
    assert Balanced(f) by {
      InitialEntries(c, 256);
      LeavesBalanced(f);
    }
    BuildHeight(f);
  }

  /** The codes of a text below the limit have 32 bits at most. */
  lemma {:induction false} CodesFit(text: seq<byte>)
    requires 0 < |text| < 9227465
    ensures Height(TreeOf(text)) <= 32
  {
    TextHeight(text);
    FibValues();
    if Height(TreeOf(text)) > 32 { FibMonotone(35, Height(TreeOf(text)) + 2); }
  }

  // ---------------------------------------------------------------- texts with long codes

  function Repeat(b: byte, n: nat): seq<byte> {
    if n == 0 then [] else Repeat(b, n - 1) + [b]
  }

  lemma {:induction false} RepeatCounts(x: seq<byte>, b: byte, n: nat)
    ensures CountsOf(x + Repeat(b, n)) == CountsOf(x)[b := CountsOf(x)[b] + n]
  {
    if n == 0 {
      assert x + Repeat(b, 0) == x;
    } else {
      RepeatCounts(x, b, n - 1);
      Regroup(x, Repeat(b, n - 1), [b]);
      CountOne(x + Repeat(b, n - 1), b);
    }
  }

  lemma {:induction false} CountOne(x: seq<byte>, b: byte)
    ensures CountsOf(x + [b]) == CountsOf(x)[b := CountsOf(x)[b] + 1]
  {
    assert (x + [b])[..|x|] == x;
  }

  /** A text with the counts of the symbols below `k`. */
  function TextWith(c: Counts, k: nat): seq<byte>
    requires k <= 256
  {
    if k == 0 then [] else TextWith(c, k - 1) + Repeat(k - 1, c[k - 1])
  }

  lemma {:induction false} TextWithCounts(c: Counts, k: nat)
    requires k <= 256
    ensures forall s :: 0 <= s < 256 ==> CountsOf(TextWith(c, k))[s] == if s < k then c[s] else 0
  {
    if k > 0 {
      TextWithCounts(c, k - 1);
      RepeatCounts(TextWith(c, k - 1), k - 1, c[k - 1]);
    }
  }

  /** The Fibonacci numbers in descending order on `n` symbols; the first symbol takes the surplus. */
  function FibCounts(n: nat, top: nat): Counts
    requires 2 <= n <= 256
  {
    seq(256, s requires 0 <= s < 256 =>
      if s == 0 then top else if s < n - 1 then Fib(n - 1 - s) else if s == n - 1 then 1 else 0)
  }

  lemma {:induction false} FibCountsFront(n: nat, top: nat, k: nat)
    requires 2 <= n <= 256 && 1 <= k < n
    ensures Sum(FibCounts(n, top), k) + Fib(n - k + 1) == top + Fib(n)
  {
    if k == 1 {
      assert Sum(FibCounts(n, top), 0) == 0;
    } else {
      FibCountsFront(n, top, k - 1);
      FibCountsNext(n, top, k, n - k);
    }
  }

  lemma {:induction false} FibCountsNext(n: nat, top: nat, k: nat, m: nat)
    requires 2 <= n <= 256 && 2 <= k < n && m == n - k
    ensures Sum(FibCounts(n, top), k) == Sum(FibCounts(n, top), k - 1) + Fib(m) && Fib(m + 2) == Fib(m + 1) + Fib(m)
  {
    assert FibCounts(n, top)[k - 1] == Fib(m);
  }

  lemma {:induction false} FibCountsSum(n: nat, top: nat, k: nat)
    requires 2 <= n <= k <= 256
    ensures Sum(FibCounts(n, top), k) == top + Fib(n)
  {
    if k == n {
      FibCountsFront(n, top, n - 1);
      assert Fib(2) == 1;
    } else {
      FibCountsSum(n, top, k - 1);
    }
  }

  /** Of equal weights the later tree is taken. */
  lemma {:induction false} ScanLatest(f: Forest, k: nat)
    requires k <= |f|
    ensures var (i, j) := Scan(f, k);
      && (i >= 0 ==> forall m :: i < m < k && f[m].weight > 0 ==> f[m].weight > f[i].weight)
      && (j >= 0 ==> forall m :: j < m < k && m != i && f[m].weight > 0 ==> f[m].weight > f[j].weight)
  {
    if k > 0 {
      ScanLatest(f, k - 1);
      ScanFinds(f, k - 1);
    }
  }

  /** What leaf `k` of `n` weighs before it is joined. */
  ghost predicate LeafWeight(w: nat, n: nat, k: nat) {
    k < n && w > 0 && if k == 0 then w >= Fib(n - 1) else w == Fib(n - 1 - k)
  }

  /** The forest after `r` merges of `n` leaves: one tree of height `r` at `p`, behind the leaves that are left. */
  ghost predicate Chain(f: Forest, n: nat, r: nat, p: nat) {
    && r < n <= |f| && n - 1 <= p < |f| && f[p].weight > 0 && Height(f[p].tree) == r
    && (r + 1 < n ==> f[p].weight == Fib(r + 2))
    && (forall k :: 0 <= k < |f| && k != p ==>
          if k + r + 1 < n then LeafWeight(f[k].weight, n, k) else f[k].weight == 0)
    && (forall k :: 0 <= k < n - 1 ==> f[k].tree.Leaf?)
  }

  /** The last leaf that is left is no heavier than the tree, and no other leaf is lighter than it. */
  lemma {:induction false} ChainOrder(f: Forest, n: nat, r: nat, p: nat, k: nat)
    requires Chain(f, n, r, p) && k + r + 2 < n
    ensures f[n - 2 - r].weight == Fib(r + 1) <= Fib(r + 2) == f[p].weight <= f[k].weight
  {
    FibMonotone(r + 1, r + 2);
    FibMonotone(r + 2, n - 1 - k);
    assert LeafWeight(f[k].weight, n, k) && LeafWeight(f[n - 2 - r].weight, n, n - 2 - r);
  }

  lemma {:induction false} ChainPick(f: Forest, n: nat, r: nat, p: nat)
    requires Chain(f, n, r, p) && Live(f) >= 2 && r + 1 < n
    ensures TwoLightest(f) == (p, n - 2 - r) || TwoLightest(f) == (n - 2 - r, p)
  {
    var (i, j) := TwoLightest(f);
    var q := n - 2 - r;
    ScanLatest(f, |f|);
    assert LeafWeight(f[q].weight, n, q);
    if i != p && i != q { ChainOrder(f, n, r, p, i); }
    if j != p && j != q { ChainOrder(f, n, r, p, j); }
  }

  lemma {:induction false} ChainMerge(f: Forest, n: nat, r: nat, p: nat)
    requires Chain(f, n, r, p) && Live(f) >= 2 && r + 1 < n
    ensures Chain(Merge(f), n, r + 1, |f|)
  {
    var q := n - 2 - r;
    ChainPick(f, n, r, p);
    assert LeafWeight(f[q].weight, n, q) && f[q].tree.Leaf?;
    assert Fib(r + 3) == Fib(r + 2) + Fib(r + 1);
  }

  lemma {:induction false} ChainHeight(f: Forest, n: nat, r: nat, p: nat)
    requires Chain(f, n, r, p) && Live(f) == n - r && (r + 1 == n ==> p == |f| - 1)
    ensures Height(Build(f)) == n - 1
    decreases n - r
  {
    if r + 1 < n {
      ChainMerge(f, n, r, p);
      MergedOnce(f);
      ChainHeight(Merge(f), n, r + 1, |f|);
    }
  }

  lemma {:induction false} FibInitial(n: nat, top: nat, k: nat)
    requires 2 <= n <= 256 && k <= 256 && top > 0
    ensures var f := Initial(FibCounts(n, top), k);
      && |f| == (if k < n then k else n)
      && forall i :: 0 <= i < |f| ==> f[i] == Entry(Leaf(i), FibCounts(n, top)[i])
  {
    if k > 0 {
      FibInitial(n, top, k - 1);
      if k < n { FibMonotone(1, n - k); }
    }
  }

  lemma {:induction false} FibChain(f: Forest, n: nat, top: nat)
    requires 2 <= n <= 256 && |f| == n && top >= Fib(n - 1)
    requires forall i :: 0 <= i < n ==> f[i] == Entry(Leaf(i), FibCounts(n, top)[i])
    ensures Chain(f, n, 0, n - 1)
  {
    assert Fib(2) == 1;
    forall k | 0 <= k < n - 1 ensures LeafWeight(f[k].weight, n, k) { FibMonotone(1, n - 1 - k); }
  }

  /** Fibonacci counts give a tree that is one long chain. */
  lemma {:induction false} FibHeight(n: nat, top: nat) returns (text: seq<byte>)
    requires 2 <= n <= 256 && top >= Fib(n - 1)
    ensures |text| == top + Fib(n) && text != [] && Height(TreeOf(text)) == n - 1
  {
    var c := FibCounts(n, top);
    text := TextWith(c, 256);
    TextWithCounts(c, 256);
    assert CountsOf(text) == c;
    SumOfText(text);
    FibCountsSum(n, top, 256);
    FibMonotone(1, n - 1);
    assert Fib(1) == 1;
    InitialNumbers(c, 256);
    FibInitial(n, top, 256);
    FibChain(Initial(c, 256), n, top);
    ChainHeight(Initial(c, 256), n, 0, n - 1);
  }

  ghost predicate NoTextIsHigher(n: nat, h: nat) {
    forall text: seq<byte> :: |text| == n && text != [] ==> Height(TreeOf(text)) <= h
  }

  /** The codes of every text of `n` bytes have at most `h` bits if and only if `n` is below a Fibonacci number. */
  lemma {:induction false} HeightLimit(n: nat, h: nat)
    requires 0 < n && 1 <= h <= 254
    ensures NoTextIsHigher(n, h) <==> n < Fib(h + 3)
  {
    if n < Fib(h + 3) {
      forall text: seq<byte> | |text| == n && text != [] ensures Height(TreeOf(text)) <= h {
        TextHeight(text);
        if Height(TreeOf(text)) > h { FibMonotone(h + 3, Height(TreeOf(text)) + 2); }
      }
    } else {
      assert Fib(h + 3) == Fib(h + 2) + Fib(h + 1);
      var text := FibHeight(h + 2, n - Fib(h + 2));
    }
  }

  /** The words of 32 bits hold the codes of every text of `n` bytes if and only if `n` is below 9227465. */
  lemma {:induction false} CodesFitExactly(n: nat)
    requires 0 < n
    ensures NoTextIsHigher(n, 32) <==> n < 9227465
  {
    HeightLimit(n, 32);
    FibValues();
  }

  lemma {:induction false} DeepestLeaf(t: Tree) returns (s: byte)
    requires Distinct(t)
    ensures s in Leaves(t) && |Path(t, s)| == Height(t)
  {
    match t
    case Leaf(x) => s := x;
    case Node(a, b) => s := DeepestLeaf(if Height(a) >= Height(b) then a else b);
  }

  /** From the limit on there is a text of each length with a code of 33 bits. */
  lemma {:induction false} CodeDoesNotFit(n: nat) returns (text: seq<byte>, s: byte)
    requires n >= 9227465
    ensures |text| == n && s in Leaves(TreeOf(text)) && |Code(TreeOf(text), s)| == 33
  {
    FibValues();
    assert Fib(33) == Fib(35) - Fib(34);
    text := FibHeight(34, n - Fib(34));
    TreeCovers(text);
    s := DeepestLeaf(TreeOf(text));
  }
}
