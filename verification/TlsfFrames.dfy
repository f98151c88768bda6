/** What the stores of libyaul/kernel/mm/tlsf.c leave alone: the bytes of other blocks. */
module TlsfFrames {
  import opened TlsfMemory
  import opened TlsfBlocks
  import opened TlsfLists

  /** The first `len` bytes of block `b` are unchanged. */
  ghost predicate Kept(m: Memory, m': Memory, b: int, len: int) {
    forall w {:trigger Rd(m', w)} :: b + 8 <= w < b + 8 + len ==> Rd(m', w) == Rd(m, w)
  }

  /** The bytes of every block outside `exc` are unchanged. */
  ghost predicate PayloadsKept(m: Memory, m': Memory, bs: Blocks, exc: set<int>) {
    forall x {:trigger Kept(m, m', x, bs[x].size)} :: x in bs && x !in exc ==> Kept(m, m', x, bs[x].size)
  }

  /**
   Outside `exc`, the used blocks are the same ones, of the same size, with the same bytes: what an
   operation owes to the owners of the other allocations.
   */
  ghost predicate Preserved(m: Memory, m': Memory, bs: Blocks, cs: Blocks, exc: set<int>) {
    forall x {:trigger PreservedAt(m, m', bs, cs, x)} :: x !in exc ==> PreservedAt(m, m', bs, cs, x)
  }

  ghost predicate PreservedAt(m: Memory, m': Memory, bs: Blocks, cs: Blocks, x: int) {
    && ((x in bs && !bs[x].free) <==> (x in cs && !cs[x].free))
    && (x in bs && !bs[x].free && x in cs ==>
          cs[x].size == bs[x].size && cs[x].pool == bs[x].pool && Kept(m, m', x, bs[x].size))
  }

  lemma PreservedTransitive(m: Memory, m': Memory, m'': Memory, bs: Blocks, cs: Blocks, ds: Blocks, exc: set<int>)
    requires Preserved(m, m', bs, cs, exc) && Preserved(m', m'', cs, ds, exc)
    ensures Preserved(m, m'', bs, ds, exc)
  {
    forall x | x !in exc
      ensures PreservedAt(m, m'', bs, ds, x)
    {
      assert PreservedAt(m, m', bs, cs, x);
      assert PreservedAt(m', m'', cs, ds, x);
    }
  }

  /** Stores into free blocks only preserve every allocation. */
  lemma FreeStoresPreserve(m: Memory, m': Memory, bs: Blocks, written: set<int>)
    requires PayloadsKept(m, m', bs, written) && forall x :: x in written && x in bs ==> bs[x].free
    ensures Preserved(m, m', bs, bs, {})
  {
    forall x
      ensures PreservedAt(m, m', bs, bs, x)
    {
      if x in bs && !bs[x].free { assert Kept(m, m', x, bs[x].size); }
    }
  }

  /** A word among the bytes of `x` is not a word of another block, nor a size word. */
  lemma PayloadWord(bs: Blocks, x: int, b: int, w: int)
    requires Shape(bs) && x in bs && b in bs && x + 8 <= w < Next(bs, x) + 4
    ensures w != b + 4
    ensures x != b ==> w < b + 4 || Next(bs, b) + 4 <= w
  {
    if x != b { Disjoint(bs, x, b); }
  }

  lemma MarkPayloads(m: Memory, bs: Blocks, b: int, free: bool)
    requires Shape(bs) && Rep(m, bs) && b in bs && bs[b].size > 0
    ensures PayloadsKept(m, if free then MarkAsFree(m, b) else MarkAsUsed(m, b), bs, if free then {b} else {})
  {
    assert ShapeAt(bs, b) && ShapeAt(bs, Next(bs, b));
    var m' := if free then MarkAsFree(m, b) else MarkAsUsed(m, b);
    forall x | x in bs && (free ==> x != b)
      ensures Kept(m, m', x, bs[x].size)
    {
      forall w | x + 8 <= w < x + 8 + bs[x].size
        ensures Rd(m', w) == Rd(m, w)
      {
        MarkWords(m, bs, b, free, w);
        PayloadWord(bs, x, b, w);
        PayloadWord(bs, x, Next(bs, b), w);
      }
    }
  }

  lemma FlagPayloads(m: Memory, bs: Blocks, b: int, free: bool)
    requires Shape(bs) && b in bs
    ensures PayloadsKept(m, SetPrevFree(m, b, free), bs, {})
  {
    forall x | x in bs
      ensures Kept(m, SetPrevFree(m, b, free), x, bs[x].size)
    {
      forall w | x + 8 <= w < x + 8 + bs[x].size
        ensures Rd(SetPrevFree(m, b, free), w) == Rd(m, w)
      {
        PayloadWord(bs, x, b, w);
      }
    }
  }

  lemma AbsorbPayloads(m: Memory, bs: Blocks, p: int, b: int)
    requires Shape(bs) && Rep(m, bs) && Adjacent(bs, p, b)
    ensures PayloadsKept(m, Absorb(m, p, b), bs, {b})
  {
    assert ShapeAt(bs, b);
    forall x | x in bs && x != b
      ensures Kept(m, Absorb(m, p, b), x, bs[x].size)
    {
      forall w | x + 8 <= w < x + 8 + bs[x].size
        ensures Rd(Absorb(m, p, b), w) == Rd(m, w)
      {
        AbsorbWords(m, bs, p, b, w);
        PayloadWord(bs, x, p, w);
        PayloadWord(bs, x, b, w);
      }
    }
  }

  /** A split writes only past the part that is kept; linking writes that part's last word. */
  lemma SplitPayloads(m: Memory, bs: Blocks, b: int, size: nat, free: bool)
    requires Shape(bs) && Rep(m, bs) && Splittable(bs, b, size)
    ensures PayloadsKept(m, SplitAndLink(m, b, size, free), bs, {b})
    ensures !free ==> Kept(m, Split(m, b, size), b, size)
  {
    assert ShapeAt(bs, b);
    var m' := SplitAndLink(m, b, size, free);
    SplitNextWord(m, bs, b, size);
    forall x, w | x in bs && x + 8 <= w < x + 8 + (if x == b then size else bs[x].size) && (x == b ==> !free)
      ensures Rd(m', w) == Rd(m, w)
    {
      SplitWords(m, bs, b, size, w);
      PayloadWord(bs, x, b, w);
      PayloadWord(bs, x, Next(bs, b), w);
    }
    forall x | x in bs && x != b
      ensures Kept(m, m', x, bs[x].size)
    {
    }
  }

  lemma SplitNextWord(m: Memory, bs: Blocks, b: int, size: nat)
    requires Shape(bs) && Rep(m, bs) && Splittable(bs, b, size)
    ensures BlockNext(Split(m, b, size), b) == b + 4 + size
  {
    assert ShapeAt(bs, b);
    SplitWords(m, bs, b, size, b + 4);
    HeaderBits(bs[b].(size := size));
  }

  // ---------------------------------------------------------------- link words

  /** A block whose links may be written: free, or the null block in the control structure. */
  ghost predicate Linkable(bs: Blocks, ctrl: int, x: int) {
    x == ctrl || (x in bs && bs[x].free)
  }

  /** A store to a link word changes no header and no other block's bytes. */
  lemma LinkStore(m: Memory, bs: Blocks, ctrl: int, x: int, w: int, v: int)
    requires Shape(bs) && ControlApart(bs, ctrl) && Rep(m, bs) && Linkable(bs, ctrl, x) && (w == x + 8 || w == x + 12)
    ensures Rep(m[w := v], bs) && PayloadsKept(m, m[w := v], bs, {x})
  {
    forall c | c in bs
      ensures RepAt(m[w := v], c, bs[c])
      ensures c != x ==> Kept(m, m[w := v], c, bs[c].size)
    {
      assert RepAt(m, c, bs[c]) && ShapeAt(bs, c);
      if x == ctrl {
        assert ClearOf(bs, c, ctrl);
      } else {
        assert ShapeAt(bs, x);
        if c != x { Disjoint(bs, x, c); }
      }
    }
  }

  lemma InsertFrame(m: Memory, bs: Blocks, ctrl: int, b: int, h: int)
    requires Shape(bs) && ControlApart(bs, ctrl) && Rep(m, bs) && Linkable(bs, ctrl, b) && Linkable(bs, ctrl, h)
    ensures Rep(InsertLinks(m, ctrl, b, h), bs) && PayloadsKept(m, InsertLinks(m, ctrl, b, h), bs, {b, h})
  {
    var m1 := m[b + 8 := h];
    var m2 := m1[b + 12 := ctrl];
    LinkStore(m, bs, ctrl, b, b + 8, h);
    LinkStore(m1, bs, ctrl, b, b + 12, ctrl);
    LinkStore(m2, bs, ctrl, h, h + 12, b);
    forall x | x in bs && x !in {b, h}
      ensures Kept(m, InsertLinks(m, ctrl, b, h), x, bs[x].size)
    {
      assert Kept(m, m1, x, bs[x].size) && Kept(m1, m2, x, bs[x].size) && Kept(m2, m2[h + 12 := b], x, bs[x].size);
    }
  }

  lemma RemoveFrame(m: Memory, bs: Blocks, ctrl: int, p: int, n: int)
    requires Shape(bs) && ControlApart(bs, ctrl) && Rep(m, bs) && Linkable(bs, ctrl, p) && Linkable(bs, ctrl, n)
    ensures Rep(RemoveLinks(m, p, n), bs) && PayloadsKept(m, RemoveLinks(m, p, n), bs, {p, n})
  {
    var m1 := m[n + 12 := p];
    LinkStore(m, bs, ctrl, n, n + 12, p);
    LinkStore(m1, bs, ctrl, p, p + 8, n);
    forall x | x in bs && x !in {p, n}
      ensures Kept(m, RemoveLinks(m, p, n), x, bs[x].size)
    {
      assert Kept(m, m1, x, bs[x].size) && Kept(m1, m1[p + 8 := n], x, bs[x].size);
    }
  }

  // ---------------------------------------------------------------- lists under header changes

  /** Lists survive stores that keep the bytes of every listed block. */
  lemma ListsSurvive(m: Memory, m': Memory, bs: Blocks, ls: Lists, hot: set<int>, ctrl: int, heads: seq<int>,
                     exc: set<int>)
    requires Shape(bs) && Listed(bs, ls, hot) && ListsRep(m, ctrl, heads, ls) && PayloadsKept(m, m', bs, exc)
    requires forall x :: x in exc && x in bs ==> !bs[x].free || x in hot
    ensures ListsRep(m', ctrl, heads, ls)
  {
    forall c | 0 <= c < |ls|
      ensures Linked(m', ctrl, ls[c])
    {
      assert Linked(m, ctrl, ls[c]);
      forall k | 0 <= k < |ls[c]|
        ensures Rd(m', ls[c][k] + 8) == Rd(m, ls[c][k] + 8) && Rd(m', ls[c][k] + 12) == Rd(m, ls[c][k] + 12)
      {
        ListEntry(bs, ls, hot, c, k);
        assert ShapeAt(bs, ls[c][k]);
        assert Kept(m, m', ls[c][k], bs[ls[c][k]].size);
      }
      LinkedFrame(m, m', ctrl, ls[c]);
    }
  }

  /** The free blocks outside the hot sets are the same. */
  ghost predicate SameFree(bs: Blocks, hot: set<int>, cs: Blocks, hot': set<int>) {
    && (forall x {:trigger x in cs}{:trigger x in bs} ::
          (x in bs && bs[x].free && x !in hot) <==> (x in cs && cs[x].free && x !in hot'))
    && (forall x {:trigger cs[x]} :: x in bs && bs[x].free && x !in hot && x in cs ==> cs[x].size == bs[x].size)
  }

  lemma ListedTransfer(bs: Blocks, cs: Blocks, ls: Lists, hot: set<int>, hot': set<int>)
    requires Listed(bs, ls, hot) && SameFree(bs, hot, cs, hot')
    ensures Listed(cs, ls, hot')
  {
    forall c, k | 0 <= c < |ls| && 0 <= k < |ls[c]|
      ensures ListedAt(cs, ls, hot', c, k)
    {
      ListEntry(bs, ls, hot, c, k);
    }
    forall x | x in cs
      ensures InItsList(cs, ls, hot', x)
    {
      if x in bs { assert InItsList(bs, ls, hot, x); }
    }
  }
}
