/**
 What `tlsf_realloc` of libyaul/kernel/mm/tlsf.c makes of a block when `adjust_request_size` refuses the
 request: the block is trimmed to nothing. It reads as a sentinel from then on, and its pool as two.
 */
module TlsfCut {
  import opened TlsfBlocks
  import opened TlsfFrames
  import opened TlsfLists
  import opened TlsfMemory
  import opened TlsfPool
  import opened TlsfSteps

  /** Memory after the block is split at zero and the rest is told that it is not free. */
  function CutM(m: Memory, b: int): Memory {
    SetPrevFree(Split(m, b, 0), b + 4, false)
  }

  ghost predicate Cuttable(bs: Blocks, b: int) {
    b in bs && !bs[b].free && 16 <= bs[b].size
  }

  /** Block `c` afterwards. */
  function CutBlock(bs: Blocks, b: int, c: int): Block
    requires b in bs && 16 <= bs[b].size && (c in bs || c == b + 4)
  {
    var r, n, pool := b + 4, Next(bs, b), bs[b].pool;
    if c == r then Block(bs[b].size - 4, true, false, -1, Pool(r, pool.last))
    else if c == b then bs[b].(size := 0, pool := Pool(pool.first, b))
    else if c == n then bs[n].(prevFree := true, prev := r, pool := Pool(r, pool.last))
    else if bs[c].pool != pool then bs[c]
    else bs[c].(pool := if c < b then Pool(pool.first, b) else Pool(r, pool.last))
  }

  function CutB(bs: Blocks, b: int): Blocks
    requires b in bs && 16 <= bs[b].size
  {
    map c | c in bs.Keys + {b + 4} :: CutBlock(bs, b, c)
  }

  lemma CutNew(bs: Blocks, b: int)
    requires Shape(bs) && Cuttable(bs, b)
    ensures Next(bs, b) in bs && b + 4 !in bs && bs[Next(bs, b)].pool == bs[b].pool && bs[Next(bs, b)].prev == b
  {
    assert ShapeAt(bs, b);
    if b + 4 in bs { Disjoint(bs, b, b + 4); }
  }

  // ---------------------------------------------------------------- the shape

  /** The blocks of the pool before and behind the cut are on its sides. */
  lemma CutSide(bs: Blocks, b: int, c: int)
    requires Shape(bs) && Cuttable(bs, b) && c in bs && c != b
    ensures if c < b then Next(bs, c) <= b else Next(bs, b) <= c
  {
    Disjoint(bs, b, c);
    assert ShapeAt(bs, c) && ShapeAt(bs, b);
  }

  lemma CutShapeNext(bs: Blocks, b: int, c: int)
    requires Shape(bs) && Cuttable(bs, b) && c in bs && c != b && bs[c].size > 0
    ensures var cs, n := CutB(bs, b), Next(bs, c);
      n in cs && cs[n].prev == c && cs[n].pool == cs[c].pool && cs[c].size == bs[c].size
  {
    CutNew(bs, b);
    CutSide(bs, b, c);
    assert ShapeAt(bs, c) && ShapeAt(bs, b);
    var n := Next(bs, c);
    assert n in bs && bs[n].prev == c && n != Next(bs, b);
    if n != b { CutSide(bs, b, n); }
  }

  lemma CutShapePrev(bs: Blocks, b: int, c: int)
    requires Shape(bs) && Cuttable(bs, b) && c in bs && c != Next(bs, b) && bs[c].prev != -1
    ensures var cs, p := CutB(bs, b), bs[c].prev; cs[c].prev == p && p in cs && cs[p].size > 0 && Next(cs, p) == c
  {
    CutNew(bs, b);
    assert ShapeAt(bs, c);
    assert bs[c].prev != b;
  }

  lemma CutPlaced(bs: Blocks, b: int, c: int)
    requires Shape(bs) && Cuttable(bs, b) && c in bs
    ensures WellPlaced(c, CutB(bs, b)[c])
  {
    CutNew(bs, b);
    assert ShapeAt(bs, c) && ShapeAt(bs, b) && ShapeAt(bs, Next(bs, b));
    if c != b { CutSide(bs, b, c); }
  }

  lemma CutShapeAt(bs: Blocks, b: int, c: int)
    requires Shape(bs) && Cuttable(bs, b) && c in CutB(bs, b)
    ensures ShapeAt(CutB(bs, b), c)
  {
    CutNew(bs, b);
    assert ShapeAt(bs, b) && ShapeAt(bs, Next(bs, b));
    if c in bs {
      CutPlaced(bs, b, c);
      if c != b && bs[c].size > 0 { CutShapeNext(bs, b, c); }
      if c != Next(bs, b) && bs[c].prev != -1 { CutShapePrev(bs, b, c); }
    }
  }

  lemma CutApart(bs: Blocks, b: int, c: int, d: int)
    requires Shape(bs) && Cuttable(bs, b) && c in CutB(bs, b) && d in CutB(bs, b) && c < d
    ensures Apart(CutB(bs, b), c, d)
  {
    CutNew(bs, b);
    var r := b + 4;
    assert ShapeAt(bs, b);
    if c == r {
      assert Apart(bs, b, d);
    } else if d == r {
      if c != b { Disjoint(bs, c, b); }
    } else {
      assert Apart(bs, c, d);
    }
  }

  lemma CutShape(bs: Blocks, b: int)
    requires Shape(bs) && Cuttable(bs, b)
    ensures Shape(CutB(bs, b))
  {
    var cs := CutB(bs, b);
    forall c | c in cs ensures ShapeAt(cs, c) { CutShapeAt(bs, b, c); }
    forall c, d | c in cs && d in cs && c < d ensures Apart(cs, c, d) { CutApart(bs, b, c, d); }
  }

  // ---------------------------------------------------------------- memory

  lemma CutWords(m: Memory, bs: Blocks, b: int, w: int)
    requires Shape(bs) && Rep(m, bs) && Cuttable(bs, b)
    ensures var cs, r, n := CutB(bs, b), b + 4, Next(bs, b);
      && n in cs
      && Rd(CutM(m, b), w) ==
         if w == b + 4 then Header(cs[b])
         else if w == r + 4 then Header(cs[r])
         else if w == n + 4 then Header(cs[n])
         else if w == n then r
         else Rd(m, w)
  {
    CutNew(bs, b);
    var r, n, rest := b + 4, Next(bs, b), bs[b].size - 4;
    SizeAligned(bs, b);
    SizeAligned(bs, n);
    assert RepAt(m, b, bs[b]) && RepAt(m, n, bs[n]);
    assert BlockSize(m, b) == bs[b].size by { ReadHeader(m, bs, b); }
    CutRawWords(m, b, rest, w);
    HeaderUpdates(bs[b], 0, true);
    HeaderUpdates(bs[n], 0, true);
  }

  lemma CutRawWords(m: Memory, b: int, rest: nat, w: int)
    requires BlockSize(m, b) == rest + 4 && rest % 4 == 0 && 0 < rest
    ensures var r, n := b + 4, b + 8 + rest;
      Rd(CutM(m, b), w) ==
      if w == b + 4 then Rd(m, w) % 4
      else if w == r + 4 then rest + 1
      else if w == n + 4 then Rd(m, w) / 4 * 4 + Rd(m, w) % 2 + 2
      else if w == n then r
      else Rd(m, w)
  {
    SplitRawWords(m, b, 0, rest, w);
    if w == b + 8 { ClearedBits(rest, Rd(m, w)); }
  }

  /** The header of the rest once its second bit is cleared. */
  lemma ClearedBits(rest: nat, w: int)
    requires rest % 4 == 0
    ensures var h := (rest + w % 4) / 2 * 2 + 1; h / 4 * 4 + h % 2 == rest + 1
  {
    GarbageBits(rest, w);
    if w / 2 % 2 == 1 { LowBits(rest / 4, 3); } else { LowBits(rest / 4, 1); }
  }

  lemma CutRepAt(m: Memory, bs: Blocks, b: int, c: int)
    requires Shape(bs) && Rep(m, bs) && Cuttable(bs, b) && c in CutB(bs, b)
    ensures RepAt(CutM(m, b), c, CutB(bs, b)[c])
  {
    CutNew(bs, b);
    var n := Next(bs, b);
    assert ShapeAt(bs, b);
    CutWords(m, bs, b, c + 4);
    CutWords(m, bs, b, c + 4 + CutB(bs, b)[c].size);
    if c in bs && c != b {
      assert RepAt(m, c, bs[c]) && ShapeAt(bs, c);
      Disjoint(bs, b, c);
      if c != n { Disjoint(bs, n, c); }
    }
  }

  lemma CutRep(m: Memory, bs: Blocks, b: int)
    requires Shape(bs) && Rep(m, bs) && Cuttable(bs, b)
    ensures Rep(CutM(m, b), CutB(bs, b))
  {
    forall c | c in CutB(bs, b) ensures RepAt(CutM(m, b), c, CutB(bs, b)[c]) { CutRepAt(m, bs, b, c); }
  }

  lemma CutPayloads(m: Memory, bs: Blocks, b: int)
    requires Shape(bs) && Rep(m, bs) && Cuttable(bs, b)
    ensures PayloadsKept(m, CutM(m, b), bs, {b})
  {
    CutNew(bs, b);
    forall x, w | x in bs && x != b && x + 8 <= w < x + 8 + bs[x].size
      ensures Rd(CutM(m, b), w) == Rd(m, w)
    {
      CutWords(m, bs, b, w);
      CutPayloadWord(bs, b, x, w);
    }
    forall x | x in bs && x != b
      ensures Kept(m, CutM(m, b), x, bs[x].size)
    {
    }
  }

  lemma CutPayloadWord(bs: Blocks, b: int, x: int, w: int)
    requires Shape(bs) && Cuttable(bs, b) && x in bs && x != b && x + 8 <= w < x + 8 + bs[x].size
    ensures w != b + 4 && w != b + 8 && w != Next(bs, b) && w != Next(bs, b) + 4
  {
    CutNew(bs, b);
    assert ShapeAt(bs, x) && ShapeAt(bs, b);
    Disjoint(bs, b, x);
    if x != Next(bs, b) { Disjoint(bs, Next(bs, b), x); }
  }

  // ---------------------------------------------------------------- the pools

  /** The pool of `b` has become two, and the others are as they were. */
  ghost predicate CutPools(bs: Blocks, cs: Blocks, b: int)
    requires b in bs
  {
    && Ends(cs, b, Pool(bs[b].pool.first, b))
    && (forall s, pool {:trigger Ends(bs, s, pool)} :: Ends(bs, s, pool) ==>
          Ends(cs, s, if pool == bs[b].pool then Pool(b + 4, s) else pool))
    && forall s, pool {:trigger Ends(cs, s, pool)} :: Ends(cs, s, pool) ==>
         || Ends(bs, s, pool)
         || (s == b && pool == Pool(bs[b].pool.first, b))
         || (pool == Pool(b + 4, s) && Ends(bs, s, bs[b].pool))
  }

  lemma CutEnds(bs: Blocks, b: int)
    requires Shape(bs) && Cuttable(bs, b)
    ensures CutPools(bs, CutB(bs, b), b)
  {
    CutNew(bs, b);
    var cs := CutB(bs, b);
    forall s, pool | Ends(bs, s, pool) ensures Ends(cs, s, if pool == bs[b].pool then Pool(b + 4, s) else pool) {
      assert ShapeAt(bs, s) && ShapeAt(bs, b);
      CutSide(bs, b, s);
    }
    forall s, pool | Ends(cs, s, pool) && s != b
      ensures Ends(bs, s, pool) || (pool == Pool(b + 4, s) && Ends(bs, s, bs[b].pool))
    {
      assert ShapeAt(bs, b);
      if s in bs { assert ShapeAt(bs, s); }
    }
  }

  /** A sentinel is a used block; an operation that preserves it preserves its pool. */
  lemma EndsKept(m: Memory, m': Memory, bs: Blocks, cs: Blocks, s: int, pool: Pool)
    requires Shape(bs) && Shape(cs) && PreservedAt(m, m', bs, cs, s)
    ensures Ends(bs, s, pool) <==> Ends(cs, s, pool)
  {
    if s in bs { assert ShapeAt(bs, s); }
    if s in cs { assert ShapeAt(cs, s); }
  }

  lemma CutPoolsThen(m: Memory, m': Memory, bs: Blocks, cs: Blocks, ds: Blocks, b: int)
    requires b in bs && CutPools(bs, cs, b) && Shape(cs) && Shape(ds) && Preserved(m, m', cs, ds, {})
    ensures CutPools(bs, ds, b)
  {
    forall s, pool ensures Ends(cs, s, pool) <==> Ends(ds, s, pool) {
      assert PreservedAt(m, m', cs, ds, s);
      EndsKept(m, m', cs, ds, s, pool);
    }
  }

  // ---------------------------------------------------------------- flags, lists and the step

  lemma CutFlagged(bs: Blocks, b: int)
    requires Shape(bs) && Cuttable(bs, b) && Flagged(bs, {}) && Coalesced(bs, {})
    ensures Flagged(CutB(bs, b), {}) && Coalesced(CutB(bs, b), {b + 4})
  {
    CutNew(bs, b);
    NoBlockAtMinusOne(bs);
    assert ShapeAt(bs, b);
    var cs := CutB(bs, b);
    forall c | c in cs ensures FlagRight(cs, c) && CoalescedAt(cs, c, {b + 4}) {
      if c in bs {
        assert ShapeAt(bs, c) && FlagRight(bs, c) && CoalescedAt(bs, c, {});
        PrevIsOld(bs, c);
      }
    }
  }

  lemma CutControl(bs: Blocks, b: int, ctrl: int)
    requires Shape(bs) && Cuttable(bs, b) && ControlApart(bs, ctrl)
    ensures ControlApart(CutB(bs, b), ctrl)
  {
    CutNew(bs, b);
    var cs := CutB(bs, b);
    assert ClearOf(bs, b, ctrl);
    forall c | c in cs ensures ClearOf(cs, c, ctrl) { if c in bs { assert ClearOf(bs, c, ctrl); } }
  }

  /** The heap agrees with memory again, with two pools for one; the rest is in no list yet. */
  lemma CutStep(m: Memory, bs: Blocks, ls: Lists, ctrl: int, heads: seq<int>, b: int)
    requires Agrees(m, bs, ls, ctrl, heads, {}, {}) && Coalesced(bs, {}) && Cuttable(bs, b)
    ensures Agrees(CutM(m, b), CutB(bs, b), ls, ctrl, heads, {}, {b + 4}) && Coalesced(CutB(bs, b), {b + 4})
    ensures PayloadsKept(m, CutM(m, b), bs, {b})
  {
    CutNew(bs, b);
    CutShape(bs, b);
    CutControl(bs, b, ctrl);
    CutRep(m, bs, b);
    CutFlagged(bs, b);
    CutPayloads(m, bs, b);
    ListsSurvive(m, CutM(m, b), bs, ls, {}, ctrl, heads, {b});
    ListedTransfer(bs, CutB(bs, b), ls, {}, {b + 4});
  }
}
