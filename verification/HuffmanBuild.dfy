/**
 The construction of libbcl/huffman.c: a forest whose two lightest trees are joined until one is
 left. The tree it arrives at covers the symbols, costs as little as any prefix code can, and is
 low unless the text is long.
 */
module HuffmanBuild {
  import opened Bytes
  import opened Histogram
  import opened HuffmanCost
  import opened HuffmanTree

  /** A tree and its weight; a weight of zero marks a tree that is part of another. */
  datatype Entry = Entry(tree: Tree, weight: nat)

  type Forest = seq<Entry>

  /** The two lightest of the first `k` trees, or -1: an equal weight that comes later is taken instead. */
  function Scan(f: Forest, k: nat): (r: (int, int))
    requires k <= |f|
    ensures -1 <= r.0 < k && -1 <= r.1 < k
  {
    if k == 0 then (-1, -1)
    else
      var (i, j) := Scan(f, k - 1);
      var w := f[k - 1].weight;
      if w == 0 then (i, j)
      else if i < 0 || w <= f[i].weight then (k - 1, i)
      else if j < 0 || w <= f[j].weight then (i, k - 1)
      else (i, j)
  }

  function Live(f: Forest): nat {
    if f == [] then 0 else Live(f[..|f| - 1]) + if f[|f| - 1].weight > 0 then 1 else 0
  }

  function LiveWeights(f: Forest): List {
    if f == [] then Nil
    else
      var l := LiveWeights(f[..|f| - 1]);
      if f[|f| - 1].weight > 0 then Insert(f[|f| - 1].weight, l) else l
  }

  function LiveLeaves(f: Forest): multiset<byte> {
    if f == [] then multiset{}
    else LiveLeaves(f[..|f| - 1]) + if f[|f| - 1].weight > 0 then multiset(Leaves(f[|f| - 1].tree)) else multiset{}
  }

  function Weight(t: Tree, c: Counts): nat {
    match t
    case Leaf(s) => c[s]
    case Node(a, b) => Weight(a, c) + Weight(b, c)
  }

  /** The number of bits spent below the root of `t`. */
  function Cost(t: Tree, c: Counts): nat {
    match t
    case Leaf(_) => 0
    case Node(a, b) => Cost(a, c) + Cost(b, c) + Weight(t, c)
  }

  function LiveCost(f: Forest, c: Counts): nat {
    if f == [] then 0 else LiveCost(f[..|f| - 1], c) + if f[|f| - 1].weight > 0 then Cost(f[|f| - 1].tree, c) else 0
  }

  function LiveTotal(f: Forest): nat {
    if f == [] then 0 else LiveTotal(f[..|f| - 1]) + f[|f| - 1].weight
  }

  function Kill(f: Forest, i: nat): Forest
    requires i < |f|
  {
    f[i := f[i].(weight := 0)]
  }

  lemma {:induction false} KillFront(f: Forest, i: nat)
    requires i < |f|
    ensures Kill(f, i)[..|f| - 1] == (if i == |f| - 1 then f[..|f| - 1] else Kill(f[..|f| - 1], i))
  {
  }

  lemma {:induction false} KillNumbers(f: Forest, c: Counts, i: nat)
    requires i < |f| && f[i].weight > 0
    ensures Live(f) == Live(Kill(f, i)) + 1
    ensures LiveCost(f, c) == LiveCost(Kill(f, i), c) + Cost(f[i].tree, c)
    ensures LiveTotal(f) == LiveTotal(Kill(f, i)) + f[i].weight
    decreases |f|
  {
    KillFront(f, i);
    if i < |f| - 1 { KillNumbers(f[..|f| - 1], c, i); }
  }

  lemma {:induction false} KillWeights(f: Forest, i: nat)
    requires i < |f| && f[i].weight > 0
    ensures LiveWeights(f) == Insert(f[i].weight, LiveWeights(Kill(f, i)))
    decreases |f|
  {
    KillFront(f, i);
    if i < |f| - 1 {
      KillWeights(f[..|f| - 1], i);
      InsertCommutes(f[|f| - 1].weight, f[i].weight, LiveWeights(Kill(f[..|f| - 1], i)));
    }
  }

  lemma {:induction false} KillLeaves(f: Forest, i: nat)
    requires i < |f| && f[i].weight > 0
    ensures LiveLeaves(f) == LiveLeaves(Kill(f, i)) + multiset(Leaves(f[i].tree))
    decreases |f|
  {
    KillFront(f, i);
    if i < |f| - 1 { KillLeaves(f[..|f| - 1], i); }
  }

  /** The head of the list is the weight of some live tree. */
  lemma {:induction false} HeadLive(f: Forest) returns (k: nat)
    requires LiveWeights(f).Cons?
    ensures k < |f| && f[k].weight > 0 && f[k].weight == LiveWeights(f).head
  {
    var n := |f| - 1;
    if f[n].weight > 0 && f[n].weight == LiveWeights(f).head {
      k := n;
    } else {
      k := HeadLive(f[..n]);
    }
  }

  // ---------------------------------------------------------------- the scan

  ghost predicate LightestOf(f: Forest, k: nat, i: int)
    requires k <= |f|
  {
    0 <= i < k && f[i].weight > 0 && forall m :: 0 <= m < k && f[m].weight > 0 ==> f[i].weight <= f[m].weight
  }

  ghost predicate SecondOf(f: Forest, k: nat, i: int, j: int)
    requires k <= |f|
  {
    && 0 <= i < k && 0 <= j < k && i != j && f[j].weight > 0
    && forall m :: 0 <= m < k && m != i && f[m].weight > 0 ==> f[j].weight <= f[m].weight
  }

  /** The scan finds the lightest and the second lightest, whenever there are that many. */
  lemma {:induction false} ScanFinds(f: Forest, k: nat)
    requires k <= |f|
    ensures Scan(f, k).0 >= 0 ==> LightestOf(f, k, Scan(f, k).0)
    ensures Scan(f, k).1 >= 0 ==> Scan(f, k).0 >= 0 && SecondOf(f, k, Scan(f, k).0, Scan(f, k).1)
    ensures Live(f[..k]) >= 1 <==> Scan(f, k).0 >= 0
    ensures Live(f[..k]) >= 2 <==> Scan(f, k).1 >= 0
    ensures Scan(f, k).1 < 0 ==> forall m :: 0 <= m < k && m != Scan(f, k).0 ==> f[m].weight == 0
  {
    if k > 0 {
      ScanFinds(f, k - 1);
      assert f[..k][..k - 1] == f[..k - 1];
    }
  }

  /** The two lightest trees of a forest that has them. */
  function TwoLightest(f: Forest): (r: (nat, nat))
    requires Live(f) >= 2
    ensures LightestOf(f, |f|, r.0) && SecondOf(f, |f|, r.0, r.1)
  {
    assert f[..|f|] == f;
    ScanFinds(f, |f|);
    Scan(f, |f|)
  }

  /** The forest after the two lightest trees are joined. */
  function Merge(f: Forest): (g: Forest)
    requires Live(f) >= 2
    ensures |g| == |f| + 1
  {
    var (i, j) := TwoLightest(f);
    Kill(Kill(f, i), j) + [Entry(Node(f[i].tree, f[j].tree), f[i].weight + f[j].weight)]
  }

  ghost predicate Weighed(f: Forest, c: Counts) {
    forall k :: 0 <= k < |f| && f[k].weight > 0 ==> f[k].weight == Weight(f[k].tree, c)
  }

  // ---------------------------------------------------------------- one merge

  lemma {:induction false} MergeTotal(f: Forest)
    requires Live(f) >= 2
    ensures LiveTotal(Merge(f)) == LiveTotal(f)
  {
    var (i, j) := TwoLightest(f);
    var g, c := Kill(f, i), seq(256, _ => 0);
    KillNumbers(f, c, i);
    KillNumbers(g, c, j);
    assert Merge(f)[..|f|] == Kill(g, j);
  }

  lemma {:induction false} MergeNumbers(f: Forest, c: Counts)
    requires Live(f) >= 2 && Weighed(f, c)
    ensures var (i, j) := TwoLightest(f); LiveCost(Merge(f), c) == LiveCost(f, c) + f[i].weight + f[j].weight
    ensures Weighed(Merge(f), c)
  {
    var (i, j) := TwoLightest(f);
    var g := Kill(f, i);
    KillNumbers(f, c, i);
    KillNumbers(g, c, j);
    assert Merge(f)[..|f|] == Kill(g, j);
  }

  lemma {:induction false} MergeLeaves(f: Forest)
    requires Live(f) >= 2
    ensures LiveLeaves(Merge(f)) == LiveLeaves(f)
  {
    var (i, j) := TwoLightest(f);
    var g := Kill(f, i);
    KillLeaves(f, i);
    KillLeaves(g, j);
    assert Merge(f)[..|f|] == Kill(g, j);
    LeavesOfNode(f[i].tree, f[j].tree);
  }

  lemma LeavesOfNode(a: Tree, b: Tree)
    ensures multiset(Leaves(Node(a, b))) == multiset(Leaves(a)) + multiset(Leaves(b))
  {
  }

  /** A lightest live tree comes first in the list. */
  lemma {:induction false} LightestLive(f: Forest, i: nat)
    requires LightestOf(f, |f|, i)
    ensures LiveWeights(f) == Cons(f[i].weight, LiveWeights(Kill(f, i)))
  {
    KillWeights(f, i);
    if LiveWeights(Kill(f, i)).Cons? {
      var k := HeadLive(Kill(f, i));
    }
  }

  /** A merge takes the two lightest weights and puts their sum in place. */
  lemma {:induction false} MergeWeights(f: Forest, i: nat, j: nat) returns (rest: List)
    requires Live(f) >= 2 && TwoLightest(f) == (i, j)
    ensures LiveWeights(f) == Cons(f[i].weight, Cons(f[j].weight, rest))
    ensures LiveWeights(Merge(f)) == Insert(f[i].weight + f[j].weight, rest)
  {
    var g := Kill(f, i);
    rest := LiveWeights(Kill(g, j));
    LightestLive(f, i);
    LightestLive(g, j);
    AppendWeight(Kill(g, j), Entry(Node(f[i].tree, f[j].tree), f[i].weight + f[j].weight));
  }

  lemma {:induction false} AppendWeight(g: Forest, e: Entry)
    requires e.weight > 0
    ensures LiveWeights(g + [e]) == Insert(e.weight, LiveWeights(g))
  {
    assert (g + [e])[..|g|] == g;
  }

  // ---------------------------------------------------------------- the whole construction

  ghost predicate Growing(f: Forest) {
    Live(f) >= 1 && f != [] && f[|f| - 1].weight > 0
  }

  /** The tree that is left when only one is. */
  function Build(f: Forest): Tree
    requires Live(f) >= 1
    decreases Live(f)
  {
    if Live(f) == 1 then f[|f| - 1].tree
    else
      MergedOnce(f);
      Build(Merge(f))
  }

  lemma {:induction false} MergedOnce(f: Forest)
    requires Live(f) >= 2
    ensures Live(Merge(f)) == Live(f) - 1 && Growing(Merge(f))
  {
    var (i, j) := TwoLightest(f);
    var g, c := Kill(f, i), seq(256, _ => 0);
    KillNumbers(f, c, i);
    KillNumbers(g, c, j);
    assert Merge(f)[..|f|] == Kill(g, j);
  }

  lemma {:induction false} NoneLive(f: Forest, c: Counts)
    requires Live(f) == 0
    ensures LiveWeights(f) == Nil && LiveLeaves(f) == multiset{} && LiveCost(f, c) == 0 && LiveTotal(f) == 0
  {
    if f != [] { NoneLive(f[..|f| - 1], c); }
  }

  lemma {:induction false} OneLive(f: Forest, c: Counts)
    requires Growing(f) && Live(f) == 1
    ensures LiveLeaves(f) == multiset(Leaves(f[|f| - 1].tree)) && LiveWeights(f) == Cons(f[|f| - 1].weight, Nil)
    ensures LiveCost(f, c) == Cost(f[|f| - 1].tree, c) && LiveTotal(f) == f[|f| - 1].weight
  {
    NoneLive(f[..|f| - 1], c);
  }

  lemma {:induction false} BuildLeaves(f: Forest)
    requires Growing(f)
    ensures multiset(Leaves(Build(f))) == LiveLeaves(f)
    decreases Live(f)
  {
    if Live(f) == 1 {
      OneLive(f, seq(256, _ => 0));
    } else {
      MergedOnce(f);
      BuildLeaves(Merge(f));
      MergeLeaves(f);
    }
  }

  /** Branch A is never the heavier one. */
  ghost predicate LighterFirst(t: Tree, c: Counts) {
    match t
    case Leaf(_) => true
    case Node(a, b) => Weight(a, c) <= Weight(b, c) && LighterFirst(a, c) && LighterFirst(b, c)
  }

  ghost predicate AllLighterFirst(f: Forest, c: Counts) {
    forall k :: 0 <= k < |f| && f[k].weight > 0 ==> LighterFirst(f[k].tree, c)
  }

  lemma {:induction false} MergeLighterFirst(f: Forest, c: Counts)
    requires Live(f) >= 2 && Weighed(f, c) && AllLighterFirst(f, c)
    ensures AllLighterFirst(Merge(f), c)
  {
    var (i, j) := TwoLightest(f);
    var g := Merge(f);
    forall k | 0 <= k < |g| && g[k].weight > 0 ensures LighterFirst(g[k].tree, c) {
      if k < |f| { assert g[k] == f[k]; }
    }
  }

  lemma {:induction false} BuildLighterFirst(f: Forest, c: Counts)
    requires Growing(f) && Weighed(f, c) && AllLighterFirst(f, c)
    ensures LighterFirst(Build(f), c)
    decreases Live(f)
  {
    if Live(f) >= 2 {
      MergedOnce(f);
      MergeNumbers(f, c);
      MergeLighterFirst(f, c);
      BuildLighterFirst(Merge(f), c);
    }
  }

  /** The tree costs what its parts cost already and what the merging strategy costs from there. */
  lemma {:induction false} BuildCost(f: Forest, c: Counts)
    requires Growing(f) && Weighed(f, c)
    ensures Cost(Build(f), c) == LiveCost(f, c) + HuffmanBits(LiveWeights(f))
    decreases Live(f)
  {
    if Live(f) == 1 {
      OneLive(f, c);
    } else {
      MergedOnce(f);
      MergeNumbers(f, c);
      BuildCost(Merge(f), c);
      MergeBits(f);
    }
  }

  lemma {:induction false} MergeBits(f: Forest)
    requires Live(f) >= 2
    ensures var (i, j) := TwoLightest(f);
      HuffmanBits(LiveWeights(f)) == f[i].weight + f[j].weight + HuffmanBits(LiveWeights(Merge(f)))
  {
    var (i, j) := TwoLightest(f);
    var rest := MergeWeights(f, i, j);
  }

  // ---------------------------------------------------------------- the height

  function Fib(n: nat): nat {
    if n <= 1 then n else Fib(n - 1) + Fib(n - 2)
  }

  lemma {:induction false} FibMonotone(m: nat, n: nat)
    requires m <= n
    ensures Fib(m) <= Fib(n)
    decreases n
  {
    if m < n {
      if n == 1 { assert Fib(0) == 0; } else { FibMonotone(m, n - 1); }
    }
  }

  predicate Heavy(e: Entry) {
    e.weight > 0 ==> e.weight >= Fib(Height(e.tree) + 2)
  }

  predicate HeavyBeside(d: Entry, e: Entry) {
    d.weight > 0 && e.weight > 0 ==> e.weight >= Fib(Height(d.tree) + 1)
  }

  /** A tree is heavy for its height, and every other tree is nearly as heavy. */
  ghost predicate Balanced(f: Forest) {
    && (forall k :: 0 <= k < |f| ==> Heavy(f[k]))
    && (forall k, m :: 0 <= k < |f| && 0 <= m < |f| && k != m ==> HeavyBeside(f[k], f[m]))
  }

  lemma {:induction false} JoinedHeight(d: Entry, e: Entry)
    requires Heavy(d) && Heavy(e) && HeavyBeside(d, e) && HeavyBeside(e, d) && 0 < d.weight <= e.weight
    ensures var n := Entry(Node(d.tree, e.tree), d.weight + e.weight); Heavy(n) && e.weight >= Fib(Height(n.tree) + 1)
  {
    var h := Height(Node(d.tree, e.tree));
    assert Fib(h + 2) == Fib(h + 1) + Fib(h);
    assert h == Height(d.tree) + 1 || h == Height(e.tree) + 1;
  }

  lemma {:induction false} MergeBalanced(f: Forest)
    requires Live(f) >= 2 && Balanced(f)
    ensures Balanced(Merge(f))
  {
    var (i, j) := TwoLightest(f);
    var g, n := Merge(f), |f|;
    var d, e := f[i], f[j];
    JoinedHeight(d, e);
    assert g[n] == Entry(Node(d.tree, e.tree), d.weight + e.weight);
    forall k | 0 <= k < n
      ensures Heavy(g[k]) && HeavyBeside(g[k], g[n]) && HeavyBeside(g[n], g[k])
    {
      if k != i && k != j {
        assert g[k] == f[k] && HeavyBeside(f[k], d) && (f[k].weight > 0 ==> e.weight <= f[k].weight);
      }
    }
    forall k, m | 0 <= k < n && 0 <= m < n && k != m
      ensures HeavyBeside(g[k], g[m])
    {
      assert HeavyBeside(f[k], f[m]);
    }
  }

  /** A tree of height `h` weighs at least the Fibonacci number `h + 2`. */
  lemma {:induction false} BuildHeight(f: Forest)
    requires Growing(f) && Balanced(f)
    ensures LiveTotal(f) >= Fib(Height(Build(f)) + 2)
    decreases Live(f)
  {
    var c := seq(256, _ => 0);
    if Live(f) == 1 {
      OneLive(f, c);
    } else {
      MergedOnce(f);
      MergeBalanced(f);
      BuildHeight(Merge(f));
      MergeTotal(f);
    }
  }
}
