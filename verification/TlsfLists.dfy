/**
 The doubly linked free lists of libyaul/kernel/mm/tlsf.c. A list is abstractly the sequence of
 its blocks' addresses. Empty links point at `ctrl`, the address of the control structure, whose
 first member is the null block.
 */
module TlsfLists {
  import opened Binary
  import opened TlsfMapping
  import opened TlsfMemory
  import opened TlsfBlocks
  import opened TlsfBitmap

  type List = seq<int>

  function Entry(l: List, k: int, ctrl: int): int {
    if 0 <= k < |l| then l[k] else ctrl
  }

  /** Every member's links name its neighbours in the list. */
  ghost predicate Linked(m: Memory, ctrl: int, l: List) {
    forall k {:trigger LinkAt(m, ctrl, l, k)} :: 0 <= k < |l| ==> LinkAt(m, ctrl, l, k)
  }

  ghost predicate LinkAt(m: Memory, ctrl: int, l: List, k: int)
    requires 0 <= k < |l|
  {
    Rd(m, l[k] + 8) == Entry(l, k + 1, ctrl) && Rd(m, l[k] + 12) == Entry(l, k - 1, ctrl)
  }

  ghost predicate NoDuplicates(l: List) {
    forall i, j :: 0 <= i < j < |l| ==> l[i] != l[j]
  }

  /** Two headers whose link words do not overlap. */
  predicate Spaced(x: int, y: int) {
    x + 8 <= y || y + 8 <= x
  }

  ghost predicate AllSpaced(l: List, y: int) {
    forall k {:trigger l[k]} :: 0 <= k < |l| && l[k] != y ==> Spaced(l[k], y)
  }

  /** Stores that miss a list's link words leave it linked. */
  lemma LinkedFrame(m: Memory, m': Memory, ctrl: int, l: List)
    requires Linked(m, ctrl, l)
    requires forall k {:trigger l[k]} :: 0 <= k < |l| ==>
               Rd(m', l[k] + 8) == Rd(m, l[k] + 8) && Rd(m', l[k] + 12) == Rd(m, l[k] + 12)
    ensures Linked(m', ctrl, l)
  {
    forall k | 0 <= k < |l| ensures LinkAt(m', ctrl, l, k) { assert LinkAt(m, ctrl, l, k); }
  }

  /** The stores of `insert_free_block`. */
  function InsertLinks(m: Memory, ctrl: int, b: int, current: int): Memory {
    m[b + 8 := current][b + 12 := ctrl][current + 12 := b]
  }

  lemma InsertLinked(m: Memory, ctrl: int, l: List, b: int)
    requires Linked(m, ctrl, l) && NoDuplicates(l) && b !in l && b != ctrl && ctrl !in l
    requires AllSpaced(l, b) && AllSpaced(l, ctrl) && AllSpaced(l, Entry(l, 0, ctrl)) && Spaced(b, ctrl)
    ensures Linked(InsertLinks(m, ctrl, b, Entry(l, 0, ctrl)), ctrl, [b] + l)
    ensures NoDuplicates([b] + l)
  {
    var h := Entry(l, 0, ctrl);
    var m' := InsertLinks(m, ctrl, b, h);
    assert Spaced(b, h) by { if |l| > 0 { assert l[0] == h; } }
    forall k | 0 <= k < |[b] + l|
      ensures LinkAt(m', ctrl, [b] + l, k)
    {
      if k > 0 {
        assert LinkAt(m, ctrl, l, k - 1);
        assert ([b] + l)[k] == l[k - 1];
        if k > 1 { assert l[0] != l[k - 1]; }
      }
    }
  }

  /** The stores of `remove_free_block`. */
  function RemoveLinks(m: Memory, prev: int, next: int): Memory {
    m[next + 12 := prev][prev + 8 := next]
  }

  function Without(l: List, k: nat): List
    requires k < |l|
  {
    l[..k] + l[k + 1..]
  }

  lemma RemoveLinked(m: Memory, ctrl: int, l: List, k: nat)
    requires Linked(m, ctrl, l) && NoDuplicates(l) && k < |l| && ctrl !in l && AllSpaced(l, ctrl)
    requires AllSpaced(l, Entry(l, k - 1, ctrl)) && AllSpaced(l, Entry(l, k + 1, ctrl))
    ensures Linked(RemoveLinks(m, Entry(l, k - 1, ctrl), Entry(l, k + 1, ctrl)), ctrl, Without(l, k))
    ensures NoDuplicates(Without(l, k))
  {
    var p, n, r := Entry(l, k - 1, ctrl), Entry(l, k + 1, ctrl), Without(l, k);
    var m' := RemoveLinks(m, p, n);
    forall i | 0 <= i < |r|
      ensures LinkAt(m', ctrl, r, i)
    {
      var j := if i < k then i else i + 1;
      assert r[i] == l[j] && LinkAt(m, ctrl, l, j);
      assert j != k - 1 ==> l[j] != p;
      assert j != k + 1 ==> l[j] != n;
    }
  }

  lemma MemberIndex(l: List, b: int) returns (k: nat)
    requires b in l
    ensures k < |l| && l[k] == b
  {
    k :| k < |l| && l[k] == b;
  }

  // ---------------------------------------------------------------- all lists

  type Lists = seq<List>

  /** Entry `k` of list `c` is a free block of class `c`, not one of those in `hot`. */
  ghost predicate ListedAt(bs: Blocks, ls: Lists, hot: set<int>, c: int, k: int)
    requires 0 <= c < |ls| && 0 <= k < |ls[c]|
  {
    var b := ls[c][k];
    b in bs && bs[b].free && b !in hot && ClassOf(bs[b].size) == c
  }

  /** A free block outside `hot` is in the list of its class. */
  ghost predicate InItsList(bs: Blocks, ls: Lists, hot: set<int>, b: int)
    requires b in bs
  {
    bs[b].free && b !in hot ==> 0 <= ClassOf(bs[b].size) < |ls| && b in ls[ClassOf(bs[b].size)]
  }

  /** The lists hold exactly the free blocks outside `hot`, each once, each in its class. */
  ghost predicate Listed(bs: Blocks, ls: Lists, hot: set<int>) {
    && |ls| == CLASS_COUNT
    && (forall c, k {:trigger ListedAt(bs, ls, hot, c, k)} ::
          0 <= c < |ls| && 0 <= k < |ls[c]| ==> ListedAt(bs, ls, hot, c, k))
    && (forall b {:trigger InItsList(bs, ls, hot, b)} :: b in bs ==> InItsList(bs, ls, hot, b))
    && (forall c {:trigger NoDuplicates(ls[c])} :: 0 <= c < |ls| ==> NoDuplicates(ls[c]))
  }

  lemma ListEntry(bs: Blocks, ls: Lists, hot: set<int>, c: int, k: int)
    requires Listed(bs, ls, hot) && 0 <= c < |ls| && 0 <= k < |ls[c]|
    ensures var b := ls[c][k]; b in bs && bs[b].free && b !in hot && ClassOf(bs[b].size) == c
  {
    assert ListedAt(bs, ls, hot, c, k);
  }

  /** Heads and links in memory agree with the lists. */
  ghost predicate ListsRep(m: Memory, ctrl: int, heads: seq<int>, ls: Lists) {
    && |heads| == |ls| == CLASS_COUNT
    && (forall c {:trigger heads[c]} :: 0 <= c < |ls| ==> heads[c] == Entry(ls[c], 0, ctrl))
    && (forall c {:trigger Linked(m, ctrl, ls[c])} :: 0 <= c < |ls| ==> Linked(m, ctrl, ls[c]))
  }

  /** The bytes of `control_t`: the null block, the bitmaps and the table of free lists. */
  const CONTROL_SIZE := 16 + 4 + 4 * FL_INDEX_COUNT + 4 * CLASS_COUNT

  /** The control structure lies outside every pool. */
  ghost predicate ControlApart(bs: Blocks, ctrl: int) {
    forall b {:trigger ClearOf(bs, b, ctrl)} :: b in bs ==> ClearOf(bs, b, ctrl)
  }

  ghost predicate ClearOf(bs: Blocks, b: int, ctrl: int)
    requires b in bs
  {
    ctrl + CONTROL_SIZE <= b + 4 || Next(bs, b) + 4 <= ctrl
  }

  lemma FreeBlocksSpaced(bs: Blocks, x: int, y: int)
    requires Shape(bs) && x in bs && y in bs && x != y && bs[x].free && bs[y].free
    ensures Spaced(x, y)
  {
    Disjoint(bs, x, y);
    assert ShapeAt(bs, x) && ShapeAt(bs, y);
  }

  lemma FreeBlockClear(bs: Blocks, x: int, ctrl: int)
    requires Shape(bs) && ControlApart(bs, ctrl) && x in bs && bs[x].free
    ensures Spaced(x, ctrl) && x != ctrl
  {
    assert ClearOf(bs, x, ctrl) && ShapeAt(bs, x);
  }

  /** The members of a list keep clear of any free block and of the control structure. */
  lemma ListSpaced(bs: Blocks, ls: Lists, hot: set<int>, ctrl: int, c: int, y: int)
    requires Shape(bs) && ControlApart(bs, ctrl) && Listed(bs, ls, hot) && 0 <= c < |ls|
    requires y == ctrl || (y in bs && bs[y].free)
    ensures AllSpaced(ls[c], y) && ctrl !in ls[c]
  {
    forall k | 0 <= k < |ls[c]|
      ensures ls[c][k] != y ==> Spaced(ls[c][k], y)
      ensures ls[c][k] != ctrl
    {
      assert ListedAt(bs, ls, hot, c, k);
      FreeBlockClear(bs, ls[c][k], ctrl);
      if y != ctrl && ls[c][k] != y { FreeBlocksSpaced(bs, ls[c][k], y); }
    }
  }

  // ---------------------------------------------------------------- inserting and removing

  function InsertL(ls: Lists, c: int, b: int): Lists
    requires 0 <= c < |ls|
  {
    ls[c := [b] + ls[c]]
  }

  function RemoveL(ls: Lists, c: int, k: nat): Lists
    requires 0 <= c < |ls| && k < |ls[c]|
  {
    ls[c := Without(ls[c], k)]
  }

  /** Stores to the links of blocks that are in no list but `c` leave the others alone. */
  lemma OtherListFrame(m: Memory, m': Memory, bs: Blocks, ls: Lists, hot: set<int>, ctrl: int, d: int, xs: set<int>)
    requires Shape(bs) && ControlApart(bs, ctrl) && Listed(bs, ls, hot) && 0 <= d < |ls| && Linked(m, ctrl, ls[d])
    requires forall x {:trigger x in bs} :: x in xs ==> x == ctrl || (x in bs && bs[x].free && x !in ls[d])
    requires forall w :: (forall x :: x in xs ==> w != x + 8 && w != x + 12) ==> Rd(m', w) == Rd(m, w)
    ensures Linked(m', ctrl, ls[d])
  {
    forall k | 0 <= k < |ls[d]|
      ensures Rd(m', ls[d][k] + 8) == Rd(m, ls[d][k] + 8) && Rd(m', ls[d][k] + 12) == Rd(m, ls[d][k] + 12)
    {
      var y := ls[d][k];
      forall x | x in xs
        ensures x != y && Spaced(x, y)
      {
        ListSpaced(bs, ls, hot, ctrl, d, x);
      }
    }
    LinkedFrame(m, m', ctrl, ls[d]);
  }

  lemma NotInOtherList(bs: Blocks, ls: Lists, hot: set<int>, c: int, k: int, d: int)
    requires Listed(bs, ls, hot) && 0 <= c < |ls| && 0 <= d < |ls| && c != d && 0 <= k < |ls[c]|
    ensures ls[c][k] in bs && bs[ls[c][k]].free && ls[c][k] !in ls[d]
  {
    assert ListedAt(bs, ls, hot, c, k);
    if ls[c][k] in ls[d] {
      var j := MemberIndex(ls[d], ls[c][k]);
      ListEntry(bs, ls, hot, d, j);
    }
  }

  lemma HotNotListed(bs: Blocks, ls: Lists, hot: set<int>, c: int, b: int)
    requires Listed(bs, ls, hot) && 0 <= c < |ls| && b in hot
    ensures b !in ls[c]
  {
    if b in ls[c] {
      var j := MemberIndex(ls[c], b);
      ListEntry(bs, ls, hot, c, j);
    }
  }

  lemma InsertListsRep(m: Memory, bs: Blocks, ls: Lists, hot: set<int>, ctrl: int, heads: seq<int>, b: int, c: int)
    requires Shape(bs) && ControlApart(bs, ctrl) && Listed(bs, ls, hot) && ListsRep(m, ctrl, heads, ls)
    requires b in bs && bs[b].free && b in hot && 0 <= c < CLASS_COUNT
    ensures ListsRep(InsertLinks(m, ctrl, b, heads[c]), ctrl, heads[c := b], InsertL(ls, c, b))
  {
    var h, ls' := heads[c], InsertL(ls, c, b);
    var m' := InsertLinks(m, ctrl, b, h);
    assert h == Entry(ls[c], 0, ctrl);
    HotNotListed(bs, ls, hot, c, b);
    if |ls[c]| > 0 { assert ListedAt(bs, ls, hot, c, 0); }
    forall d | 0 <= d < |ls'|
      ensures Linked(m', ctrl, ls'[d])
    {
      assert Linked(m, ctrl, ls[d]) && NoDuplicates(ls[d]);
      if d == c {
        ListSpaced(bs, ls, hot, ctrl, c, b);
        ListSpaced(bs, ls, hot, ctrl, c, ctrl);
        ListSpaced(bs, ls, hot, ctrl, c, h);
        FreeBlockClear(bs, b, ctrl);
        InsertLinked(m, ctrl, ls[c], b);
      } else {
        HotNotListed(bs, ls, hot, d, b);
        if |ls[c]| > 0 { NotInOtherList(bs, ls, hot, c, 0, d); }
        OtherListFrame(m, m', bs, ls, hot, ctrl, d, {b, h});
      }
    }
  }

  lemma InsertListed(bs: Blocks, ls: Lists, hot: set<int>, b: int, c: int)
    requires Listed(bs, ls, hot) && b in bs && bs[b].free && b in hot && c == ClassOf(bs[b].size)
    requires 0 <= c < CLASS_COUNT
    ensures Listed(bs, InsertL(ls, c, b), hot - {b})
  {
    var ls' := InsertL(ls, c, b);
    HotNotListed(bs, ls, hot, c, b);
    forall d, k | 0 <= d < |ls'| && 0 <= k < |ls'[d]|
      ensures ListedAt(bs, ls', hot - {b}, d, k)
    {
      if d != c { assert ListedAt(bs, ls, hot, d, k); }
      else if k > 0 { assert ListedAt(bs, ls, hot, c, k - 1); }
    }
    forall x | x in bs
      ensures InItsList(bs, ls', hot - {b}, x)
    {
      assert InItsList(bs, ls, hot, x);
    }
    forall d | 0 <= d < |ls'| ensures NoDuplicates(ls'[d]) { assert NoDuplicates(ls[d]); }
  }

  lemma RemoveListsRep(m: Memory, bs: Blocks, ls: Lists, hot: set<int>, ctrl: int, heads: seq<int>, c: int, k: nat)
    requires Shape(bs) && ControlApart(bs, ctrl) && Listed(bs, ls, hot) && ListsRep(m, ctrl, heads, ls)
    requires 0 <= c < CLASS_COUNT && k < |ls[c]|
    ensures var p, n := Entry(ls[c], k - 1, ctrl), Entry(ls[c], k + 1, ctrl);
            ListsRep(RemoveLinks(m, p, n), ctrl, if k == 0 then heads[c := n] else heads, RemoveL(ls, c, k))
  {
    var p, n, ls' := Entry(ls[c], k - 1, ctrl), Entry(ls[c], k + 1, ctrl), RemoveL(ls, c, k);
    var m' := RemoveLinks(m, p, n);
    if k > 0 { assert ListedAt(bs, ls, hot, c, k - 1); }
    if k + 1 < |ls[c]| { assert ListedAt(bs, ls, hot, c, k + 1); }
    forall d | 0 <= d < |ls'|
      ensures Linked(m', ctrl, ls'[d])
    {
      assert Linked(m, ctrl, ls[d]) && NoDuplicates(ls[d]);
      if d == c {
        ListSpaced(bs, ls, hot, ctrl, c, ctrl);
        ListSpaced(bs, ls, hot, ctrl, c, p);
        ListSpaced(bs, ls, hot, ctrl, c, n);
        RemoveLinked(m, ctrl, ls[c], k);
      } else {
        if k > 0 { NotInOtherList(bs, ls, hot, c, k - 1, d); }
        if k + 1 < |ls[c]| { NotInOtherList(bs, ls, hot, c, k + 1, d); }
        OtherListFrame(m, m', bs, ls, hot, ctrl, d, {p, n});
      }
    }
  }

  lemma RemoveListed(bs: Blocks, ls: Lists, hot: set<int>, c: int, k: nat)
    requires Listed(bs, ls, hot) && 0 <= c < CLASS_COUNT && k < |ls[c]|
    ensures Listed(bs, RemoveL(ls, c, k), hot + {ls[c][k]})
  {
    var ls', b := RemoveL(ls, c, k), ls[c][k];
    assert NoDuplicates(ls[c]);
    forall d, i | 0 <= d < |ls'| && 0 <= i < |ls'[d]|
      ensures ListedAt(bs, ls', hot + {b}, d, i)
    {
      if d != c {
        assert ListedAt(bs, ls, hot, d, i);
        NotInOtherList(bs, ls, hot, c, k, d);
      } else {
        assert ListedAt(bs, ls, hot, c, if i < k then i else i + 1);
      }
    }
    forall x | x in bs
      ensures InItsList(bs, ls', hot + {b}, x)
    {
      assert InItsList(bs, ls, hot, x);
      if x in ls[c] && x != b {
        var j := MemberIndex(ls[c], x);
        assert Without(ls[c], k)[if j < k then j else j - 1] == x;
      }
    }
    forall d | 0 <= d < |ls'| ensures NoDuplicates(ls'[d]) { assert NoDuplicates(ls[d]); }
  }

  // ---------------------------------------------------------------- bitmaps

  /** Row `f` of the two-level bitmap says which lists of first-level class `f` are not empty. */
  ghost predicate RowRep(fl: nat, sl: seq<nat>, ls: Lists, f: int)
    requires 0 <= f < |sl| && f * 32 + 32 <= |ls|
  {
    && (Bit(fl, f) <==> sl[f] != 0)
    && (forall s: nat {:trigger Bit(sl[f], s)} :: Bit(sl[f], s) <==> s < 32 && ls[f * 32 + s] != [])
  }

  ghost predicate BitmapsRep(fl: nat, sl: seq<nat>, ls: Lists) {
    && |sl| == FL_INDEX_COUNT && |ls| == CLASS_COUNT
    && (forall f {:trigger RowRep(fl, sl, ls, f)} :: 0 <= f < FL_INDEX_COUNT ==> RowRep(fl, sl, ls, f))
    && (forall f: nat {:trigger Bit(fl, f)} :: Bit(fl, f) ==> f < FL_INDEX_COUNT)
  }

  lemma NonEmptyRow(sl: seq<nat>, f: int, s: nat)
    requires 0 <= f < |sl| && Bit(sl[f], s)
    ensures sl[f] != 0
  {
    BitMeansNonZero(sl[f], s);
  }

  lemma InsertBitmaps(fl: nat, sl: seq<nat>, ls: Lists, f: int, s: int, b: int, c: int)
    requires BitmapsRep(fl, sl, ls) && 0 <= f < FL_INDEX_COUNT && 0 <= s < SL_INDEX_COUNT && c == f * 32 + s
    ensures BitmapsRep(SetBit(fl, f), sl[f := SetBit(sl[f], s)], InsertL(ls, c, b))
  {
    var fl', sl', ls' := SetBit(fl, f), sl[f := SetBit(sl[f], s)], InsertL(ls, c, b);
    forall g | 0 <= g < FL_INDEX_COUNT
      ensures RowRep(fl', sl', ls', g)
    {
      assert RowRep(fl, sl, ls, g);
      SetBitMeaning(fl, f, g);
      forall t: nat
        ensures Bit(sl'[g], t) <==> t < 32 && ls'[g * 32 + t] != []
      {
        if g == f { SetBitMeaning(sl[f], s, t); }
        assert Bit(sl[g], t) <==> t < 32 && ls[g * 32 + t] != [];
      }
      if g == f { NonEmptyRow(sl', f, s); }
    }
    forall g: nat | Bit(fl', g) ensures g < FL_INDEX_COUNT { SetBitMeaning(fl, f, g); }
  }

  /** What `remove_free_block` does to the bitmaps when a list becomes empty. */
  lemma EmptyBitmaps(fl: nat, sl: seq<nat>, ls: Lists, f: int, s: int)
    requires BitmapsRep(fl, sl, ls) && 0 <= f < FL_INDEX_COUNT && 0 <= s < SL_INDEX_COUNT
    ensures var row := ClearBit(sl[f], s);
            BitmapsRep(if row == 0 then ClearBit(fl, f) else fl, sl[f := row], ls[f * 32 + s := []])
  {
    var row := ClearBit(sl[f], s);
    var fl', sl', ls' := if row == 0 then ClearBit(fl, f) else fl, sl[f := row], ls[f * 32 + s := []];
    assert RowRep(fl, sl, ls, f);
    if row != 0 {
      assert sl[f] != 0 by { NonZeroAfterClear(sl[f], s); }
    }
    forall g | 0 <= g < FL_INDEX_COUNT
      ensures RowRep(fl', sl', ls', g)
    {
      assert RowRep(fl, sl, ls, g);
      ClearBitMeaning(fl, f, g);
      forall t: nat
        ensures Bit(sl'[g], t) <==> t < 32 && ls'[g * 32 + t] != []
      {
        if g == f { ClearBitMeaning(sl[f], s, t); }
        assert Bit(sl[g], t) <==> t < 32 && ls[g * 32 + t] != [];
      }
    }
    forall g: nat | Bit(fl', g) ensures g < FL_INDEX_COUNT { ClearBitMeaning(fl, f, g); }
  }

  lemma NonZeroAfterClear(m: nat, i: nat)
    requires ClearBit(m, i) != 0
    ensures m != 0
  {
    var r: nat := Ffs(ClearBit(m, i));
    ClearBitMeaning(m, i, r);
    BitMeansNonZero(m, r);
  }

  /** A list that changes but stays non-empty needs no change of the bitmaps. */
  lemma SameBitmaps(fl: nat, sl: seq<nat>, ls: Lists, c: int, l: List)
    requires BitmapsRep(fl, sl, ls) && 0 <= c < CLASS_COUNT && (l == [] <==> ls[c] == [])
    ensures BitmapsRep(fl, sl, ls[c := l])
  {
    var ls' := ls[c := l];
    forall g | 0 <= g < FL_INDEX_COUNT ensures RowRep(fl, sl, ls', g) { assert RowRep(fl, sl, ls, g); }
  }
}
