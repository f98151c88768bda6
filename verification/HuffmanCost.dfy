/**
 The cost of the merging strategy of libbcl/huffman.c: joining the two lightest weights until one
 is left costs no more than any assignment of code lengths that satisfies Kraft's inequality, and
 the code lengths of every prefix code satisfy it.
 */
module HuffmanCost {
  import opened Binary
  import opened Multiples

  /** A symbol's weight and the length of its code. */
  datatype Item = Item(weight: nat, length: nat)

  /** Weights in ascending order. */
  datatype List = Nil | Cons(head: nat, tail: List)

  function Length(l: List): nat {
    match l
    case Nil => 0
    case Cons(_, t) => 1 + Length(t)
  }

  function Insert(w: nat, l: List): (r: List)
    ensures Length(r) == Length(l) + 1
  {
    match l
    case Nil => Cons(w, Nil)
    case Cons(h, t) => if w <= h then Cons(w, l) else Cons(h, Insert(w, t))
  }

  lemma {:induction false} InsertCommutes(a: nat, b: nat, l: List)
    ensures Insert(a, Insert(b, l)) == Insert(b, Insert(a, l))
  {
    if l.Cons? { InsertCommutes(a, b, l.tail); }
  }

  /** The cost of joining the two lightest weights until one is left. */
  function HuffmanBits(l: List): nat
    decreases Length(l)
  {
    match l
    case Cons(a, Cons(b, rest)) =>
      assert Length(l) == 1 + Length(l.tail) == 2 + Length(rest);
      a + b + HuffmanBits(Insert(a + b, rest))
    case _ => 0
  }

  function Weights(s: seq<Item>): List {
    if s == [] then Nil else Insert(s[0].weight, Weights(s[1..]))
  }

  /** The number of bits the code spends. */
  function Bits(s: seq<Item>): nat {
    if s == [] then 0 else s[0].weight * s[0].length + Bits(s[1..])
  }

  ghost predicate AllWithin(s: seq<Item>, m: nat) {
    forall i :: 0 <= i < |s| ==> s[i].length <= m
  }

  /** Kraft's sum, scaled by `2^m`. */
  function Kraft(s: seq<Item>, m: nat): nat
    requires AllWithin(s, m)
  {
    if s == [] then 0 else Pow2(m - s[0].length) + Kraft(s[1..], m)
  }

  function Without(s: seq<Item>, i: nat): seq<Item>
    requires i < |s|
  {
    s[..i] + s[i + 1..]
  }

  lemma {:induction false} TakeOut(s: seq<Item>, i: nat)
    requires i < |s|
    ensures Weights(s) == Insert(s[i].weight, Weights(Without(s, i)))
    ensures Bits(s) == s[i].weight * s[i].length + Bits(Without(s, i))
    decreases |s|
  {
    if i == 0 {
      assert Without(s, 0) == s[1..];
    } else {
      TakeOut(s[1..], i - 1);
      InsertCommutes(s[0].weight, s[i].weight, Weights(Without(s[1..], i - 1)));
      assert Without(s, i) == [s[0]] + Without(s[1..], i - 1);
      assert Without(s, i)[1..] == Without(s[1..], i - 1);
    }
  }

  lemma {:induction false} TakeOutKraft(s: seq<Item>, i: nat, m: nat)
    requires i < |s| && AllWithin(s, m)
    ensures AllWithin(Without(s, i), m) && Kraft(s, m) == Pow2(m - s[i].length) + Kraft(Without(s, i), m)
    decreases |s|
  {
    if i == 0 {
      assert Without(s, 0) == s[1..];
    } else {
      TakeOutKraft(s[1..], i - 1, m);
      assert Without(s, i) == [s[0]] + Without(s[1..], i - 1);
      assert Without(s, i)[1..] == Without(s[1..], i - 1);
    }
  }

  /** Changing the scale. */
  lemma {:induction false} KraftScale(s: seq<Item>, m: nat, d: nat)
    requires AllWithin(s, m)
    ensures AllWithin(s, m + d) && Kraft(s, m + d) == Kraft(s, m) * Pow2(d)
  {
    if s != [] {
      KraftScale(s[1..], m, d);
      Pow2Sum(m - s[0].length, d);
      assert m + d - s[0].length == m - s[0].length + d;
      Distribute(Pow2(m - s[0].length), Kraft(s[1..], m), Pow2(d));
    }
  }

  lemma Distribute(a: nat, b: nat, c: nat)
    ensures (a + b) * c == a * c + b * c
  {
  }

  lemma {:induction false} WeightsLength(s: seq<Item>)
    ensures Length(Weights(s)) == |s|
  {
    if s != [] { WeightsLength(s[1..]); }
  }

  /** The head of the list is the weight of some item. */
  lemma {:induction false} HeadIndex(s: seq<Item>) returns (k: nat)
    requires s != []
    ensures k < |s| && Weights(s).Cons? && Weights(s).head == s[k].weight
  {
    if |s| == 1 || s[0].weight == Weights(s).head {
      k := 0;
    } else {
      var j := HeadIndex(s[1..]);
      k := j + 1;
    }
  }

  lemma {:induction false} LightestItem(s: seq<Item>) returns (i: nat)
    requires s != []
    ensures i < |s| && forall k :: 0 <= k < |s| ==> s[i].weight <= s[k].weight
  {
    if |s| == 1 {
      i := 0;
    } else {
      var j := LightestItem(s[1..]);
      i := if s[0].weight <= s[j + 1].weight then 0 else j + 1;
      assert forall k :: 1 <= k < |s| ==> s[k].weight == s[1..][k - 1].weight;
    }
  }

  /** A lightest item comes first in the list. */
  lemma {:induction false} LightestFirst(s: seq<Item>, i: nat)
    requires i < |s| && forall k :: 0 <= k < |s| ==> s[i].weight <= s[k].weight
    ensures Weights(s) == Cons(s[i].weight, Weights(Without(s, i)))
  {
    TakeOut(s, i);
    var rest := Without(s, i);
    if rest != [] {
      var k := HeadIndex(rest);
      assert rest[k] == s[if k < i then k else k + 1];
    }
  }

  // ---------------------------------------------------------------- no code is cheaper

  /** The item with the longest code, and its length. */
  lemma {:induction false} Longest(s: seq<Item>) returns (i: nat)
    requires s != []
    ensures i < |s| && AllWithin(s, s[i].length)
  {
    if |s| == 1 {
      i := 0;
    } else {
      var j := Longest(s[1..]);
      i := if s[0].length >= s[j + 1].length then 0 else j + 1;
      assert forall k :: 1 <= k < |s| ==> s[k].length == s[1..][k - 1].length;
    }
  }

  /**
   Giving the longest code to a lightest item costs nothing: the item at `i` takes over the longest
   length, and the item that had it takes over the other.
   */
  lemma {:induction false} GiveLongest(s: seq<Item>, i: nat) returns (t: seq<Item>)
    requires i < |s| && forall k :: 0 <= k < |s| ==> s[i].weight <= s[k].weight
    ensures |t| == |s| && t[i].weight == s[i].weight && AllWithin(t, t[i].length) && AllWithin(s, t[i].length)
    ensures forall k :: 0 <= k < |s| ==> t[k].weight == s[k].weight
    ensures Weights(t) == Weights(s) && Bits(t) <= Bits(s)
    ensures Kraft(t, t[i].length) == Kraft(s, t[i].length)
    ensures forall m :: AllWithin(s, m) ==> t[i].length <= m
  {
    var j := Longest(s);
    if i == j {
      t := s;
    } else {
      var u := s[i := Item(s[i].weight, s[j].length)];
      t := u[j := Item(s[j].weight, s[i].length)];
      SwapEffect(s, u, t, i, j);
    }
  }

  lemma {:induction false} SwapEffect(s: seq<Item>, u: seq<Item>, t: seq<Item>, i: nat, j: nat)
    requires i < |s| && j < |s| && i != j && AllWithin(s, s[j].length) && s[i].weight <= s[j].weight
    requires u == s[i := Item(s[i].weight, s[j].length)] && t == u[j := Item(s[j].weight, s[i].length)]
    ensures AllWithin(t, s[j].length) && Bits(t) <= Bits(s) && Kraft(t, s[j].length) == Kraft(s, s[j].length)
    ensures Weights(t) == Weights(s)
  {
    var m := s[j].length;
    Retake(s, i, m, m);
    Retake(u, j, s[i].length, m);
    Exchange(s[i].weight, s[j].weight, s[i].length, m);
  }

  /** The effect of a new length for one item. */
  lemma {:induction false} Retake(s: seq<Item>, i: nat, l: nat, m: nat)
    requires i < |s| && AllWithin(s, m) && l <= m
    ensures var u := s[i := Item(s[i].weight, l)];
      && Weights(u) == Weights(s) && AllWithin(u, m)
      && Bits(u) == Bits(s) - s[i].weight * s[i].length + s[i].weight * l
      && Kraft(u, m) == Kraft(s, m) - Pow2(m - s[i].length) + Pow2(m - l)
  {
    var u := s[i := Item(s[i].weight, l)];
    assert Without(u, i) == Without(s, i);
    TakeOut(s, i); TakeOut(u, i);
    TakeOutKraft(s, i, m); TakeOutKraft(u, i, m);
  }

  lemma Exchange(a: nat, c: nat, l: nat, m: nat)
    requires a <= c && l <= m
    ensures a * m + c * l <= a * l + c * m
  {
    assert (c - a) * (m - l) == c * m - c * l - a * m + a * l;
  }

  ghost predicate Affordable(s: seq<Item>, m: nat) {
    AllWithin(s, m) && Kraft(s, m) <= Pow2(m)
  }

  /** Kraft's inequality does not depend on the scale, and neither does strictness. */
  lemma {:induction false} SameScale(s: seq<Item>, m: nat, n: nat)
    requires AllWithin(s, m) && m <= n
    ensures AllWithin(s, n) && (Kraft(s, n) <= Pow2(n) <==> Kraft(s, m) <= Pow2(m))
    ensures Kraft(s, n) < Pow2(n) <==> Kraft(s, m) < Pow2(m)
  {
    KraftScale(s, m, n - m);
    ScaleBoth(Kraft(s, m), Kraft(s, n), m, n - m, n);
  }

  lemma ScaleBoth(k: nat, scaled: nat, m: nat, d: nat, n: nat)
    requires n == m + d && scaled == k * Pow2(d)
    ensures (scaled <= Pow2(n) <==> k <= Pow2(m)) && (scaled < Pow2(n) <==> k < Pow2(m))
  {
    Pow2Sum(m, d);
    ScaleOrder(k, Pow2(m), Pow2(d));
    ScaleOrder(Pow2(m), k, Pow2(d));
  }

  lemma ScaleOrder(a: nat, b: nat, c: nat)
    requires c > 0
    ensures a * c <= b * c <==> a <= b
  {
    if a <= b { MulMonotone(a, b, c); } else { MulMonotone(b + 1, a, c); }
  }

  /** A lightest item can be taken out at the largest length; what is left then has room to spare. */
  lemma {:induction false} TakeLightest(s: seq<Item>, m: nat) returns (a: nat, rest: seq<Item>, n: nat)
    requires s != [] && Affordable(s, m)
    ensures Weights(s) == Cons(a, Weights(rest))
    ensures |rest| == |s| - 1 && AllWithin(rest, n) && Kraft(rest, n) < Pow2(n)
    ensures a * n + Bits(rest) <= Bits(s)
  {
    var i := LightestItem(s);
    var t := GiveLongest(s, i);
    a, n, rest := s[i].weight, t[i].length, Without(t, i);
    if n <= m { SameScale(s, n, m); } else { SameScale(s, m, n); }
    LightestFirst(t, i);
    TakeOut(t, i);
    TakeOutKraft(t, i, n);
  }

  /** The next one can be taken out at a length where both fit. */
  lemma {:induction false} TakeSecond(s: seq<Item>, m: nat) returns (b: nat, v: seq<Item>, n: nat)
    requires s != [] && AllWithin(s, m) && Kraft(s, m) < Pow2(m)
    ensures Weights(s) == Cons(b, Weights(v))
    ensures 1 <= n <= m && |v| == |s| - 1 && AllWithin(v, n) && Kraft(v, n) + 2 <= Pow2(n)
    ensures b * n + Bits(v) <= Bits(s)
  {
    var i := LightestItem(s);
    var t := GiveLongest(s, i);
    b, n, v := s[i].weight, t[i].length, Without(t, i);
    SameScale(s, n, m);
    LightestFirst(t, i);
    TakeOut(t, i);
    TakeOutKraft(t, i, n);
  }

  lemma {:induction false} MergedItem(a: nat, b: nat, n: nat, v: seq<Item>)
    requires n >= 1 && AllWithin(v, n) && Kraft(v, n) + 2 <= Pow2(n)
    ensures var r := [Item(a + b, n - 1)] + v;
      && Affordable(r, n) && Weights(r) == Insert(a + b, Weights(v))
      && Bits(r) + a + b == a * n + b * n + Bits(v)
  {
    var r := [Item(a + b, n - 1)] + v;
    assert r[1..] == v;
    assert Pow2(1) == 2;
    Merged(a, b, n);
  }

  lemma Merged(a: nat, b: nat, n: nat)
    requires n >= 1
    ensures (a + b) * (n - 1) + a + b == a * n + b * n
  {
  }

  /**
   No affordable code spends fewer bits than the merging strategy.
   */
  lemma {:induction false} NoCodeIsCheaper(s: seq<Item>, m: nat)
    requires Affordable(s, m)
    ensures HuffmanBits(Weights(s)) <= Bits(s)
    decreases |s|
  {
    WeightsLength(s);
    if |s| >= 2 {
      var a, rest, n1 := TakeLightest(s, m);
      var b, v, n := TakeSecond(rest, n1);
      var r := [Item(a + b, n - 1)] + v;
      MergedItem(a, b, n, v);
      assert a * n <= a * n1 by { MulMonotone(n, n1, a); }
      NoCodeIsCheaper(r, n);
    }
  }
}
