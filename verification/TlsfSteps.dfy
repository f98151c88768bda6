/**
 The primitive steps of libyaul/kernel/mm/tlsf.c on a consistent heap: each is a change of memory
 matched by a change of the abstract blocks.
 */
module TlsfSteps {
  import opened TlsfMemory
  import opened TlsfBlocks
  import opened TlsfLists
  import opened TlsfFrames

  /**
   Memory, blocks and free lists agree. Blocks in `stale` may have a wrong previous-free flag; the
   free blocks in `hot` are in no list.
   */
  ghost predicate Agrees(m: Memory, bs: Blocks, ls: Lists, ctrl: int, heads: seq<int>, stale: set<int>, hot: set<int>) {
    && Shape(bs) && ControlApart(bs, ctrl) && Rep(m, bs) && Flagged(bs, stale)
    && Listed(bs, ls, hot) && ListsRep(m, ctrl, heads, ls)
  }

  // ---------------------------------------------------------------- marking

  function MarkM(m: Memory, b: int, free: bool): Memory {
    if free then MarkAsFree(m, b) else MarkAsUsed(m, b)
  }

  lemma MarkControl(bs: Blocks, b: int, free: bool, ctrl: int)
    requires Shape(bs) && ControlApart(bs, ctrl) && b in bs && Next(bs, b) in bs
    ensures ControlApart(MarkB(bs, b, free), ctrl)
  {
    var cs := MarkB(bs, b, free);
    forall c | c in cs ensures ClearOf(cs, c, ctrl) { assert ClearOf(bs, c, ctrl); }
  }

  /** A used block becomes free and hot, or a hot block becomes used. */
  lemma MarkStep(m: Memory, bs: Blocks, ls: Lists, ctrl: int, heads: seq<int>, stale: set<int>, hot: set<int>, b: int,
                 free: bool)
    requires Agrees(m, bs, ls, ctrl, heads, stale, hot) && b in bs && bs[b].size > 0
    requires if free then !bs[b].free else !bs[b].free || b in hot
    ensures Next(bs, b) in bs
    ensures Agrees(MarkM(m, b, free), MarkB(bs, b, free), ls, ctrl, heads, stale - {Next(bs, b)},
                   if free then hot + {b} else hot - {b})
    ensures Preserved(m, MarkM(m, b, free), bs, MarkB(bs, b, free), {b})
  {
    assert ShapeAt(bs, b);
    var cs, m' := MarkB(bs, b, free), MarkM(m, b, free);
    var hot' := if free then hot + {b} else hot - {b};
    MarkShape(bs, b, free);
    MarkControl(bs, b, free, ctrl);
    MarkRep(m, bs, b, free);
    assert Flagged(bs, stale - {Next(bs, b)} + {Next(bs, b)});
    MarkFlagged(bs, b, free, stale - {Next(bs, b)});
    MarkPayloads(m, bs, b, free);
    ListsSurvive(m, m', bs, ls, hot, ctrl, heads, if free then {b} else {});
    assert SameFree(bs, hot, cs, hot');
    ListedTransfer(bs, cs, ls, hot, hot');
    MarkPreserves(m, bs, b, free);
  }

  lemma MarkPreserves(m: Memory, bs: Blocks, b: int, free: bool)
    requires Shape(bs) && b in bs && Next(bs, b) in bs
    requires PayloadsKept(m, MarkM(m, b, free), bs, if free then {b} else {})
    ensures Preserved(m, MarkM(m, b, free), bs, MarkB(bs, b, free), {b})
  {
    forall x | x !in {b}
      ensures PreservedAt(m, MarkM(m, b, free), bs, MarkB(bs, b, free), x)
    {
      if x in bs && !bs[x].free { assert Kept(m, MarkM(m, b, free), x, bs[x].size); }
    }
  }

  // ---------------------------------------------------------------- the previous-free flag

  lemma FlagStep(m: Memory, bs: Blocks, ls: Lists, ctrl: int, heads: seq<int>, stale: set<int>, hot: set<int>, b: int,
                 free: bool)
    requires Agrees(m, bs, ls, ctrl, heads, stale, hot) && b in bs
    requires free == (bs[b].prev in bs && bs[bs[b].prev].free)
    ensures Agrees(SetPrevFree(m, b, free), FlagB(bs, b, free), ls, ctrl, heads, stale - {b}, hot)
    ensures Preserved(m, SetPrevFree(m, b, free), bs, FlagB(bs, b, free), {})
  {
    var cs, m' := FlagB(bs, b, free), SetPrevFree(m, b, free);
    FlagShape(bs, b, free);
    FlagRep(m, bs, b, free);
    assert Flagged(bs, stale - {b} + {b});
    FlagFlagged(bs, b, free, stale - {b});
    FlagPayloads(m, bs, b, free);
    ListsSurvive(m, m', bs, ls, hot, ctrl, heads, {});
    ListedTransfer(bs, cs, ls, hot, hot);
    forall c | c in cs ensures ClearOf(cs, c, ctrl) { assert ClearOf(bs, c, ctrl); }
    forall x
      ensures PreservedAt(m, m', bs, cs, x)
    {
      if x in bs && !bs[x].free { assert Kept(m, m', x, bs[x].size); }
    }
  }

  // ---------------------------------------------------------------- absorbing

  /** Allocations an absorbing block affects: itself, if it is one. */
  function AbsorbExempt(bs: Blocks, p: int): set<int>
    requires p in bs
  {
    if bs[p].free then {} else {p}
  }

  lemma AbsorbStep(m: Memory, bs: Blocks, ls: Lists, ctrl: int, heads: seq<int>, stale: set<int>, hot: set<int>,
                   p: int, b: int)
    requires Agrees(m, bs, ls, ctrl, heads, stale, hot) && Adjacent(bs, p, b)
    requires bs[b].free && b in hot && (bs[p].free ==> p in hot)
    ensures Next(bs, b) in bs
    ensures Agrees(Absorb(m, p, b), AbsorbB(bs, p, b), ls, ctrl, heads,
                   if bs[p].free then stale else stale + {Next(bs, b)}, hot - {b})
    ensures Preserved(m, Absorb(m, p, b), bs, AbsorbB(bs, p, b), AbsorbExempt(bs, p))
    ensures Kept(m, Absorb(m, p, b), p, bs[p].size)
  {
    assert ShapeAt(bs, b) && ShapeAt(bs, p);
    var cs, m' := AbsorbB(bs, p, b), Absorb(m, p, b);
    AbsorbShape(bs, p, b);
    AbsorbRep(m, bs, p, b);
    AbsorbFlagged(bs, p, b, stale);
    AbsorbPayloads(m, bs, p, b);
    ListsSurvive(m, m', bs, ls, hot, ctrl, heads, {b});
    ListedTransfer(bs, cs, ls, hot, hot - {b});
    AbsorbControl(bs, p, b, ctrl);
    AbsorbPreserves(m, bs, p, b);
  }

  lemma AbsorbControl(bs: Blocks, p: int, b: int, ctrl: int)
    requires ControlApart(bs, ctrl) && Adjacent(bs, p, b) && Next(bs, b) in bs
    ensures ControlApart(AbsorbB(bs, p, b), ctrl)
  {
    var cs := AbsorbB(bs, p, b);
    assert ClearOf(bs, b, ctrl);
    forall c | c in cs ensures ClearOf(cs, c, ctrl) { assert ClearOf(bs, c, ctrl); }
  }

  lemma AbsorbPreserves(m: Memory, bs: Blocks, p: int, b: int)
    requires Shape(bs) && Adjacent(bs, p, b) && Next(bs, b) in bs && bs[b].free
    requires PayloadsKept(m, Absorb(m, p, b), bs, {b})
    ensures Preserved(m, Absorb(m, p, b), bs, AbsorbB(bs, p, b), AbsorbExempt(bs, p))
  {
    forall x | x !in AbsorbExempt(bs, p)
      ensures PreservedAt(m, Absorb(m, p, b), bs, AbsorbB(bs, p, b), x)
    {
      if x in bs && !bs[x].free { assert Kept(m, Absorb(m, p, b), x, bs[x].size); }
    }
  }

  // ---------------------------------------------------------------- splitting

  function SplitBG(m: Memory, bs: Blocks, b: int, size: nat): Blocks
    requires b in bs && Next(bs, b) in bs && size + 4 <= bs[b].size
  {
    SplitB(bs, b, size, Garbage(m, b + 4 + size))
  }

  /** The rest of a split block is free, hot, and its previous-free flag is stale. */
  lemma SplitStep(m: Memory, bs: Blocks, ls: Lists, ctrl: int, heads: seq<int>, stale: set<int>, hot: set<int>,
                  b: int, size: nat)
    requires Agrees(m, bs, ls, ctrl, heads, stale, hot) && Splittable(bs, b, size) && (bs[b].free ==> b in hot)
    ensures Next(bs, b) in bs && b + 4 + size !in bs
    ensures Agrees(SplitAndLink(m, b, size, bs[b].free), SplitBG(m, bs, b, size), ls, ctrl, heads,
                   stale - {Next(bs, b)} + {b + 4 + size}, hot + {b + 4 + size})
    ensures Preserved(m, SplitAndLink(m, b, size, bs[b].free), bs, SplitBG(m, bs, b, size), AbsorbExempt(bs, b))
    ensures !bs[b].free ==> Kept(m, SplitAndLink(m, b, size, false), b, size)
  {
    SplitNew(bs, b, size);
    var r, n, g := b + 4 + size, Next(bs, b), Garbage(m, b + 4 + size);
    var cs, m' := SplitBG(m, bs, b, size), SplitAndLink(m, b, size, bs[b].free);
    SplitShape(bs, b, size, g);
    SplitRep(m, bs, b, size);
    assert Flagged(bs, stale - {n} + {n});
    SplitFlagged(bs, b, size, g, stale - {n});
    SplitPayloads(m, bs, b, size, bs[b].free);
    ListsSurvive(m, m', bs, ls, hot, ctrl, heads, {b});
    ListedTransfer(bs, cs, ls, hot, hot + {r});
    SplitControl(m, bs, b, size, ctrl);
    SplitPreserves(m, bs, b, size);
  }

  lemma SplitControl(m: Memory, bs: Blocks, b: int, size: nat, ctrl: int)
    requires ControlApart(bs, ctrl) && b in bs && Next(bs, b) in bs && size + 4 <= bs[b].size
    ensures ControlApart(SplitBG(m, bs, b, size), ctrl)
  {
    var cs := SplitBG(m, bs, b, size);
    assert ClearOf(bs, b, ctrl);
    forall c | c in cs
      ensures ClearOf(cs, c, ctrl)
    {
      if c in bs { assert ClearOf(bs, c, ctrl); }
    }
  }

  lemma SplitPreserves(m: Memory, bs: Blocks, b: int, size: nat)
    requires Shape(bs) && Splittable(bs, b, size) && Next(bs, b) in bs && b + 4 + size !in bs
    requires PayloadsKept(m, SplitAndLink(m, b, size, bs[b].free), bs, {b})
    ensures Preserved(m, SplitAndLink(m, b, size, bs[b].free), bs, SplitBG(m, bs, b, size), AbsorbExempt(bs, b))
  {
    var cs, m' := SplitBG(m, bs, b, size), SplitAndLink(m, b, size, bs[b].free);
    forall x | x !in AbsorbExempt(bs, b)
      ensures PreservedAt(m, m', bs, cs, x)
    {
      if x in bs && !bs[x].free { assert Kept(m, m', x, bs[x].size); }
    }
  }

  // ---------------------------------------------------------------- coalescing

  lemma PrevOf(bs: Blocks, b: int)
    requires Shape(bs) && b in bs && bs[b].prev in bs
    ensures Next(bs, bs[b].prev) == b && bs[bs[b].prev].size > 0 && bs[b].prev < b
  {
    assert ShapeAt(bs, b) && ShapeAt(bs, bs[b].prev);
  }

  ghost predicate PrevNotFree(bs: Blocks, b: int)
    requires b in bs
  {
    bs[b].prev in bs ==> !bs[bs[b].prev].free
  }

  ghost predicate NextNotFree(bs: Blocks, b: int)
    requires b in bs
  {
    Next(bs, b) in bs ==> !bs[Next(bs, b)].free
  }

  /** In a coalesced heap a free block has no free neighbours. */
  lemma FreeNeighbours(bs: Blocks, hot: set<int>, b: int)
    requires Shape(bs) && Coalesced(bs, hot) && b in bs && b !in hot && bs[b].free
    ensures bs[b].prev !in hot ==> PrevNotFree(bs, b)
    ensures Next(bs, b) !in hot ==> NextNotFree(bs, b)
  {
    assert ShapeAt(bs, b);
    assert CoalescedAt(bs, b, hot) && CoalescedAt(bs, Next(bs, b), hot);
  }

  /** A block without free neighbours, or that is not free, needs no exemption. */
  lemma CoalescedClose(bs: Blocks, b: int)
    requires Shape(bs) && Coalesced(bs, {b}) && b in bs
    requires bs[b].free ==> PrevNotFree(bs, b) && NextNotFree(bs, b)
    ensures Coalesced(bs, {})
  {
    forall c | c in bs
      ensures CoalescedAt(bs, c, {})
    {
      assert CoalescedAt(bs, c, {b});
      if bs[c].prev in bs { PrevOf(bs, c); }
    }
  }

  lemma CoalescedMark(bs: Blocks, b: int, free: bool, hot: set<int>)
    requires b in bs && Next(bs, b) in bs && Coalesced(bs, hot) && b in hot
    ensures Coalesced(MarkB(bs, b, free), hot)
  {
    var cs := MarkB(bs, b, free);
    forall c | c in cs ensures CoalescedAt(cs, c, hot) { assert CoalescedAt(bs, c, hot); }
  }

  lemma CoalescedFlag(bs: Blocks, b: int, free: bool, hot: set<int>)
    requires b in bs && Coalesced(bs, hot)
    ensures Coalesced(FlagB(bs, b, free), hot)
  {
    var cs := FlagB(bs, b, free);
    forall c | c in cs ensures CoalescedAt(cs, c, hot) { assert CoalescedAt(bs, c, hot); }
  }

  lemma CoalescedAbsorb(bs: Blocks, p: int, b: int, hot: set<int>)
    requires Shape(bs) && Adjacent(bs, p, b) && Next(bs, b) in bs && Coalesced(bs, hot + {b}) && p in hot
    ensures Coalesced(AbsorbB(bs, p, b), hot)
  {
    var cs := AbsorbB(bs, p, b);
    forall c | c in cs ensures CoalescedAt(cs, c, hot) { assert CoalescedAt(bs, c, hot + {b}) && ShapeAt(bs, c); }
  }

  lemma CoalescedSplit(m: Memory, bs: Blocks, b: int, size: nat, hot: set<int>)
    requires b in bs && Next(bs, b) in bs && size + 4 <= bs[b].size && b + 4 + size !in bs && Coalesced(bs, hot)
    requires b in hot
    ensures Coalesced(SplitBG(m, bs, b, size), hot + {b + 4 + size})
  {
    var cs, r := SplitBG(m, bs, b, size), b + 4 + size;
    forall c | c in cs
      ensures CoalescedAt(cs, c, hot + {r})
    {
      if c in bs { assert CoalescedAt(bs, c, hot); }
    }
  }

  lemma CoalescedWiden(bs: Blocks, hot: set<int>, hot': set<int>)
    requires Coalesced(bs, hot) && hot <= hot'
    ensures Coalesced(bs, hot')
  {
    forall c | c in bs ensures CoalescedAt(bs, c, hot') { assert CoalescedAt(bs, c, hot); }
  }

  // ---------------------------------------------------------------- the owner's stores

  /** Stores into the bytes of one used block concern nobody else. */
  lemma OwnerStores(m: Memory, m': Memory, bs: Blocks, ls: Lists, ctrl: int, heads: seq<int>, stale: set<int>,
                    hot: set<int>, b: int)
    requires Agrees(m, bs, ls, ctrl, heads, stale, hot) && b in bs && !bs[b].free
    requires forall w :: !(b + 8 <= w < b + 8 + bs[b].size) ==> Rd(m', w) == Rd(m, w)
    ensures Agrees(m', bs, ls, ctrl, heads, stale, hot) && Preserved(m, m', bs, bs, {b})
  {
    forall c | c in bs
      ensures RepAt(m', c, bs[c])
      ensures c != b ==> Kept(m, m', c, bs[c].size)
    {
      assert RepAt(m, c, bs[c]);
      if c != b { Disjoint(bs, b, c); }
    }
    assert PayloadsKept(m, m', bs, {b});
    ListsSurvive(m, m', bs, ls, hot, ctrl, heads, {b});
    forall x | x !in {b}
      ensures PreservedAt(m, m', bs, bs, x)
    {
      if x in bs && !bs[x].free { assert Kept(m, m', x, bs[x].size); }
    }
  }
}
