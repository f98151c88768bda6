/** `tlsf_add_pool` of libyaul/kernel/mm/tlsf.c: a new pool is one free block and a sentinel. */
module TlsfPool {
  import opened TlsfMapping
  import opened TlsfMemory
  import Multiples
  import opened TlsfBlocks
  import opened TlsfLists
  import opened TlsfFrames
  import opened TlsfSteps
  import opened Binary

  /** The sentinel at `s` ends the pool `pool`. */
  ghost predicate Ends(bs: Blocks, s: int, pool: Pool) {
    s in bs && bs[s].size == 0 && bs[s].pool == pool
  }

  /** The bytes left for blocks, in 32-bit arithmetic. */
  function PoolBytes(bytes: nat): nat {
    RoundDown((bytes + WORD - 8) % WORD, ALIGN_SIZE)
  }

  lemma PoolBytesFit(bytes: nat)
    requires bytes < WORD
    ensures PoolBytes(bytes) % 4 == 0
    ensures var p := PoolBytes(bytes); if bytes < 8 then p > BLOCK_SIZE_MAX else p + 8 <= bytes < p + 12
  {
    MultipleOfFour(PoolBytes(bytes), 4);
  }

  /**
   A pool that passes the size check of `tlsf_add_pool` has a free list if and only if it is not of the
   largest size that the check lets through; `2^30 + 8` bytes of memory are such a pool.
   */
  lemma AcceptedPool(bytes: nat)
    requires BLOCK_SIZE_MIN <= PoolBytes(bytes) <= BLOCK_SIZE_MAX
    ensures MappingInsert(PoolBytes(bytes)).0 < FL_INDEX_COUNT <==> PoolBytes(bytes) != BLOCK_SIZE_MAX
    ensures PoolBytes(BLOCK_SIZE_MAX + 8) == BLOCK_SIZE_MAX
  {
    ClassInRange(PoolBytes(bytes));
    LargestPool(BLOCK_SIZE_MAX + 8);
  }

  lemma LargestPool(bytes: nat)
    requires bytes == BLOCK_SIZE_MAX + 8
    ensures PoolBytes(bytes) == BLOCK_SIZE_MAX
  {
    Multiples.Remainder(bytes + WORD - 8, WORD, 1, BLOCK_SIZE_MAX);
    MultipleOfFour(PoolBytes(bytes), 4);
  }

  /** A region of memory that no pool and not the control structure uses. */
  ghost predicate Unused(bs: Blocks, ctrl: int, pm: int, bytes: nat) {
    && (ctrl + CONTROL_SIZE <= pm || pm + bytes <= ctrl)
    && forall b {:trigger OutsideRegion(bs, b, pm, bytes)} :: b in bs ==> OutsideRegion(bs, b, pm, bytes)
  }

  ghost predicate OutsideRegion(bs: Blocks, b: int, pm: int, bytes: nat)
    requires b in bs
  {
    Next(bs, b) + 4 <= pm || pm + bytes <= b + 4
  }

  /** The blocks of a new pool of `size` bytes whose memory starts at `pm`. */
  function PoolB(bs: Blocks, pm: int, size: nat): Blocks {
    var pool := Pool(pm - 4, pm + size);
    bs[pm - 4 := Block(size, true, false, -1, pool)][pm + size := Block(0, false, true, pm - 4, pool)]
  }

  /** The header of the free block. */
  function PoolHeader(m: Memory, b: int, size: int): Memory {
    SetPrevFree(SetFree(SetSize(m, b, size), b, true), b, false)
  }

  /** The sentinel after block `b`. */
  function Sentinel(m: Memory, b: int): Memory {
    var n := BlockNext(m, b);
    SetPrevFree(SetFree(SetSize(LinkNext(m, b), n, 0), n, false), n, true)
  }

  lemma PoolHeaderValue(m: Memory, b: int, size: nat)
    requires size % 4 == 0
    ensures PoolHeader(m, b, size) == m[b + 4 := size + 1]
  {
    GarbageBits(size, Rd(m, b + 4));
  }

  lemma SentinelValue(m: Memory, b: int, size: nat)
    requires Rd(m, b + 4) == size + 1 && size % 4 == 0
    ensures Sentinel(m, b) == m[b + 4 + size := b][b + 8 + size := 2]
  {
    var n := b + 4 + size;
    assert BlockNext(m, b) == n;
    GarbageBits(0, Rd(m, n + 4));
  }

  ghost predicate PoolFits(bs: Blocks, ctrl: int, pm: int, size: nat) {
    && 8 <= pm && pm % 4 == 0 && size % 4 == 0 && BLOCK_SIZE_MIN <= size < BLOCK_SIZE_MAX && pm + size + 8 <= WORD
    && Unused(bs, ctrl, pm, size + 8)
  }

  lemma PoolNew(bs: Blocks, ctrl: int, pm: int, size: nat)
    requires PoolFits(bs, ctrl, pm, size)
    ensures pm - 4 !in bs && pm + size !in bs
  {
    NotInRegion(bs, ctrl, pm, size, pm - 4);
    NotInRegion(bs, ctrl, pm, size, pm + size);
  }

  lemma NotInRegion(bs: Blocks, ctrl: int, pm: int, size: nat, b: int)
    requires PoolFits(bs, ctrl, pm, size) && pm - 4 <= b <= pm + size
    ensures b !in bs
  {
    if b in bs { OutsideIt(bs, ctrl, pm, size, b); }
  }

  lemma OutsideIt(bs: Blocks, ctrl: int, pm: int, size: nat, b: int)
    requires PoolFits(bs, ctrl, pm, size) && b in bs
    ensures Next(bs, b) + 4 <= pm || pm + size + 8 <= b + 4
  {
    assert OutsideRegion(bs, b, pm, size + 8);
  }

  lemma PoolShape(bs: Blocks, ctrl: int, pm: int, size: nat)
    requires Shape(bs) && PoolFits(bs, ctrl, pm, size)
    ensures Shape(PoolB(bs, pm, size))
  {
    PoolNew(bs, ctrl, pm, size);
    var cs := PoolB(bs, pm, size);
    forall c | c in cs ensures ShapeAt(cs, c) { if c in bs { assert ShapeAt(bs, c); } }
    forall c, d | c in cs && d in cs && c < d
      ensures Apart(cs, c, d)
    {
      if c in bs { OutsideIt(bs, ctrl, pm, size, c); }
      if d in bs { OutsideIt(bs, ctrl, pm, size, d); }
      if c in bs && d in bs { assert Apart(bs, c, d); }
    }
  }

  /** Memory after the two headers are written. */
  function PoolM(m: Memory, pm: int, size: nat): Memory {
    m[pm := size + 1][pm + size := pm - 4][pm + size + 4 := 2]
  }

  lemma PoolRep(m: Memory, bs: Blocks, ctrl: int, pm: int, size: nat)
    requires Shape(bs) && Rep(m, bs) && PoolFits(bs, ctrl, pm, size)
    ensures Rep(PoolM(m, pm, size), PoolB(bs, pm, size)) && PayloadsKept(m, PoolM(m, pm, size), bs, {})
  {
    PoolNew(bs, ctrl, pm, size);
    var cs, m' := PoolB(bs, pm, size), PoolM(m, pm, size);
    forall c | c in cs
      ensures RepAt(m', c, cs[c])
      ensures c in bs ==> Kept(m, m', c, bs[c].size)
    {
      if c in bs {
        assert RepAt(m, c, bs[c]);
        OutsideIt(bs, ctrl, pm, size, c);
      }
    }
  }

  lemma PoolFlags(bs: Blocks, ctrl: int, pm: int, size: nat)
    requires Shape(bs) && ControlApart(bs, ctrl) && Flagged(bs, {}) && Coalesced(bs, {}) && PoolFits(bs, ctrl, pm, size)
    ensures var cs := PoolB(bs, pm, size); ControlApart(cs, ctrl) && Flagged(cs, {}) && Coalesced(cs, {})
  {
    PoolNew(bs, ctrl, pm, size);
    var cs := PoolB(bs, pm, size);
    NoBlockAtMinusOne(bs);
    forall c | c in cs
      ensures ClearOf(cs, c, ctrl) && FlagRight(cs, c) && CoalescedAt(cs, c, {})
    {
      if c in bs {
        assert ClearOf(bs, c, ctrl) && FlagRight(bs, c) && CoalescedAt(bs, c, {});
        PrevIsOld(bs, c);
      }
    }
  }

  lemma PrevIsOld(bs: Blocks, c: int)
    requires Shape(bs) && c in bs
    ensures bs[c].prev == -1 || bs[c].prev in bs
  {
    assert ShapeAt(bs, c);
  }

  lemma NoBlockAtMinusOne(bs: Blocks)
    requires Shape(bs)
    ensures -1 !in bs
  {
    if -1 in bs { BlockPositive(bs, -1); }
  }

  lemma BlockPositive(bs: Blocks, b: int)
    requires Shape(bs) && b in bs
    ensures 0 < b
  {
    assert ShapeAt(bs, b);
  }

  /** The new pool agrees with memory; its free block is in no list yet. */
  lemma PoolStep(m: Memory, bs: Blocks, ls: Lists, ctrl: int, heads: seq<int>, pm: int, size: nat)
    requires Agrees(m, bs, ls, ctrl, heads, {}, {}) && Coalesced(bs, {}) && PoolFits(bs, ctrl, pm, size)
    ensures var cs, m' := PoolB(bs, pm, size), PoolM(m, pm, size);
            Agrees(m', cs, ls, ctrl, heads, {}, {pm - 4}) && Coalesced(cs, {}) && Preserved(m, m', bs, cs, {pm + size})
  {
    var cs, m' := PoolB(bs, pm, size), PoolM(m, pm, size);
    PoolNew(bs, ctrl, pm, size);
    PoolShape(bs, ctrl, pm, size);
    PoolRep(m, bs, ctrl, pm, size);
    PoolFlags(bs, ctrl, pm, size);
    ListsSurvive(m, m', bs, ls, {}, ctrl, heads, {});
    ListedTransfer(bs, cs, ls, {}, {pm - 4});
    forall x | x !in {pm + size}
      ensures PreservedAt(m, m', bs, cs, x)
    {
      if x in bs && !bs[x].free { assert Kept(m, m', x, bs[x].size); }
    }
  }
}
