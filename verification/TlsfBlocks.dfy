/**
 The blocks that tile the pools of libyaul/kernel/mm/tlsf.c, as an abstract map from header
 address to block, and how each primitive step on headers changes them.
 */
module TlsfBlocks {
  import opened Binary
  import opened TlsfMapping
  import opened TlsfMemory

  /** A pool reaches from the header of its first block to that of its zero-size sentinel. */
  datatype Pool = Pool(first: int, last: int)

  /** `prev` is the address of the physically previous block, -1 at the start of a pool. */
  datatype Block = Block(size: nat, free: bool, prevFree: bool, prev: int, pool: Pool)

  type Blocks = map<int, Block>

  /** The header after block `b`. */
  function Next(bs: Blocks, b: int): int
    requires b in bs
  {
    b + 4 + bs[b].size
  }

  /** Every block is well placed, and no two overlap. */
  ghost predicate Shape(bs: Blocks) {
    && (forall b {:trigger ShapeAt(bs, b)} :: b in bs ==> ShapeAt(bs, b))
    && (forall b, c {:trigger Apart(bs, b, c)} :: b in bs && c in bs && b < c ==> Apart(bs, b, c))
  }

  /** The block is well sized, ends where the next one starts, and knows the previous one. */
  ghost predicate ShapeAt(bs: Blocks, b: int)
    requires b in bs
  {
    && WellPlaced(b, bs[b])
    && (bs[b].size > 0 ==> Next(bs, b) in bs && bs[Next(bs, b)].prev == b && bs[Next(bs, b)].pool == bs[b].pool)
    && (bs[b].prev != -1 ==> bs[b].prev in bs && bs[bs[b].prev].size > 0 && Next(bs, bs[b].prev) == b)
  }

  /** Alignment, position in the pool, and the role of a size of zero: the sentinel, never free. */
  ghost predicate WellPlaced(b: int, k: Block) {
    && b % 4 == 0 && k.size % 4 == 0 && 0 < k.pool.first <= b <= k.pool.last
    && k.pool.last - k.pool.first < BLOCK_SIZE_MAX + 4 && k.pool.last + 8 <= WORD
    && (k.prev == -1 <==> b == k.pool.first)
    && (k.size == 0 <==> b == k.pool.last)
    && (k.size == 0 ==> !k.free)
    && (k.size > 0 ==> k.size >= BLOCK_SIZE_MIN)
  }

  ghost predicate Apart(bs: Blocks, b: int, c: int)
    requires b in bs
  {
    Next(bs, b) <= c
  }

  lemma Disjoint(bs: Blocks, b: int, c: int)
    requires Shape(bs) && b in bs && c in bs && b != c
    ensures Next(bs, b) <= c || Next(bs, c) <= b
  {
    if b < c { assert Apart(bs, b, c); } else { assert Apart(bs, c, b); }
  }

  lemma SizeBelowMax(bs: Blocks, b: int)
    requires Shape(bs) && b in bs
    ensures bs[b].size < BLOCK_SIZE_MAX
  {
    assert ShapeAt(bs, b);
    if bs[b].size > 0 { assert ShapeAt(bs, Next(bs, b)); }
  }

  lemma SizeAligned(bs: Blocks, b: int)
    requires Shape(bs) && b in bs
    ensures bs[b].size % 4 == 0
  {
    assert ShapeAt(bs, b);
  }

  /** The previous-free flag of every block outside `hot` agrees with the previous block. */
  ghost predicate Flagged(bs: Blocks, hot: set<int>) {
    forall b {:trigger FlagRight(bs, b)} :: b in bs && b !in hot ==> FlagRight(bs, b)
  }

  ghost predicate FlagRight(bs: Blocks, b: int)
    requires b in bs
  {
    bs[b].prevFree <==> bs[b].prev in bs && bs[bs[b].prev].free
  }

  /** No two free blocks touch, those in `hot` aside. */
  ghost predicate Coalesced(bs: Blocks, hot: set<int>) {
    forall b {:trigger CoalescedAt(bs, b, hot)} :: b in bs ==> CoalescedAt(bs, b, hot)
  }

  ghost predicate CoalescedAt(bs: Blocks, b: int, hot: set<int>)
    requires b in bs
  {
    b !in hot && bs[b].free && bs[b].prev in bs && bs[b].prev !in hot ==> !bs[bs[b].prev].free
  }

  function Header(k: Block): nat {
    k.size + (if k.free then 1 else 0) + (if k.prevFree then 2 else 0)
  }

  /** The headers in memory say what `bs` says. */
  ghost predicate Rep(m: Memory, bs: Blocks) {
    forall b {:trigger RepAt(m, b, bs[b])} :: b in bs ==> RepAt(m, b, bs[b])
  }

  ghost predicate RepAt(m: Memory, b: int, k: Block) {
    Rd(m, b + 4) == Header(k) && (k.free ==> Rd(m, b + 4 + k.size) == b)
  }

  /** A size that is a multiple of four and two flag bits share one word. */
  lemma HeaderBits(k: Block)
    requires k.size % 4 == 0
    ensures Header(k) / 4 * 4 == k.size && Header(k) % 4 == (if k.free then 1 else 0) + (if k.prevFree then 2 else 0)
    ensures Header(k) % 2 == (if k.free then 1 else 0) && Header(k) / 2 % 2 == (if k.prevFree then 1 else 0)
    ensures Header(k) / 2 * 2 == k.size + (if k.prevFree then 2 else 0)
  {
    Quarters(k.size / 4, (if k.free then 1 else 0) + (if k.prevFree then 2 else 0));
  }

  lemma Quarters(q: nat, b: nat)
    requires b < 4
    ensures var x := 4 * q + b;
            x / 4 == q && x % 4 == b && x / 2 == 2 * q + b / 2 && x % 2 == b % 2 && x / 2 % 2 == b / 2
  {
  }

  /** Each flag operation changes its own part of the header only. */
  lemma HeaderUpdates(k: Block, size: nat, flag: bool)
    requires k.size % 4 == 0
    ensures size + Header(k) % 4 == Header(k.(size := size))
    ensures Header(k) / 2 * 2 + (if flag then 1 else 0) == Header(k.(free := flag))
    ensures Header(k) / 4 * 4 + Header(k) % 2 + (if flag then 2 else 0) == Header(k.(prevFree := flag))
  {
    HeaderBits(k);
  }

  lemma ReadHeader(m: Memory, bs: Blocks, b: int)
    requires Shape(bs) && Rep(m, bs) && b in bs
    ensures BlockSize(m, b) == bs[b].size && IsFree(m, b) == bs[b].free && IsPrevFree(m, b) == bs[b].prevFree
    ensures BlockNext(m, b) == Next(bs, b)
  {
    assert ShapeAt(bs, b);
    assert RepAt(m, b, bs[b]);
    HeaderBits(bs[b]);
  }

  /** The flags do not matter to the shape, except that a sentinel is not free. */
  lemma SameGeometry(bs: Blocks, cs: Blocks)
    requires Shape(bs) && bs.Keys == cs.Keys
    requires forall c {:trigger cs[c]} :: c in bs ==>
               cs[c] == bs[c].(free := cs[c].free, prevFree := cs[c].prevFree) && (cs[c].free ==> bs[c].size > 0)
    ensures Shape(cs)
  {
    forall c | c in cs ensures ShapeAt(cs, c) { assert ShapeAt(bs, c); }
    forall c, d | c in cs && d in cs && c < d ensures Apart(cs, c, d) { assert Apart(bs, c, d); }
  }

  // ---------------------------------------------------------------- marking

  /** `block_mark_as_free` and `block_mark_as_used`. */
  function MarkB(bs: Blocks, b: int, free: bool): Blocks
    requires b in bs && Next(bs, b) in bs
  {
    bs[b := bs[b].(free := free)][Next(bs, b) := bs[Next(bs, b)].(prevFree := free)]
  }

  lemma MarkShape(bs: Blocks, b: int, free: bool)
    requires Shape(bs) && b in bs && bs[b].size > 0
    ensures Next(bs, b) in bs && Shape(MarkB(bs, b, free))
  {
    assert ShapeAt(bs, b);
    var cs := MarkB(bs, b, free);
    forall c | c in bs ensures cs[c].free ==> bs[c].size > 0 { assert ShapeAt(bs, c); }
    SameGeometry(bs, cs);
  }

  lemma MarkFlagged(bs: Blocks, b: int, free: bool, hot: set<int>)
    requires Shape(bs) && b in bs && bs[b].size > 0 && Flagged(bs, hot + {Next(bs, b)})
    ensures Next(bs, b) in bs && Flagged(MarkB(bs, b, free), hot)
  {
    assert ShapeAt(bs, b);
    var cs := MarkB(bs, b, free);
    forall c | c in cs && c !in hot
      ensures FlagRight(cs, c)
    {
      assert ShapeAt(bs, c);
      if c != Next(bs, b) { assert FlagRight(bs, c); }
    }
  }

  /** What the two marking functions do to the words of memory. */
  lemma MarkWords(m: Memory, bs: Blocks, b: int, free: bool, w: int)
    requires Shape(bs) && Rep(m, bs) && b in bs && bs[b].size > 0 && Next(bs, b) in bs
    requires bs[b].size % 4 == 0 && bs[Next(bs, b)].size % 4 == 0
    ensures Rd(if free then MarkAsFree(m, b) else MarkAsUsed(m, b), w) ==
            if w == b + 4 then Header(bs[b].(free := free))
            else if w == Next(bs, b) + 4 then Header(bs[Next(bs, b)].(prevFree := free))
            else if w == Next(bs, b) && free then b
            else Rd(m, w)
  {
    ReadHeader(m, bs, b);
    HeaderUpdates(bs[b], 0, free);
    HeaderUpdates(bs[Next(bs, b)], 0, free);
    assert RepAt(m, b, bs[b]) && RepAt(m, Next(bs, b), bs[Next(bs, b)]);
  }

  lemma MarkRep(m: Memory, bs: Blocks, b: int, free: bool)
    requires Shape(bs) && Rep(m, bs) && b in bs && bs[b].size > 0
    ensures Next(bs, b) in bs && Rep(if free then MarkAsFree(m, b) else MarkAsUsed(m, b), MarkB(bs, b, free))
  {
    assert ShapeAt(bs, b);
    assert ShapeAt(bs, Next(bs, b));
    var n, cs := Next(bs, b), MarkB(bs, b, free);
    var m' := if free then MarkAsFree(m, b) else MarkAsUsed(m, b);
    forall c | c in cs
      ensures RepAt(m', c, cs[c])
    {
      assert RepAt(m, c, bs[c]);
      MarkWords(m, bs, b, free, c + 4);
      MarkWords(m, bs, b, free, Next(bs, c));
      if c != b { Disjoint(bs, b, c); }
      if c != n { Disjoint(bs, n, c); }
    }
  }

  // ---------------------------------------------------------------- splitting

  /**
   `block_split`: the block keeps `size` bytes and the rest becomes a free block whose
   previous-free flag is whatever bit `garbage` was in memory.
   */
  function SplitB(bs: Blocks, b: int, size: nat, garbage: bool): Blocks
    requires b in bs && Next(bs, b) in bs && size + 4 <= bs[b].size
  {
    var r, n := b + 4 + size, Next(bs, b);
    bs[b := bs[b].(size := size)]
      [r := Block(bs[b].size - size - 4, true, garbage, b, bs[b].pool)]
      [n := bs[n].(prevFree := true, prev := r)]
  }

  /** The sizes at which a block may be split: both parts hold a free block's links. */
  ghost predicate Splittable(bs: Blocks, b: int, size: int) {
    b in bs && size % 4 == 0 && BLOCK_SIZE_MIN <= size && size + 4 + BLOCK_SIZE_MIN <= bs[b].size
  }

  lemma SplitNew(bs: Blocks, b: int, size: nat)
    requires Shape(bs) && Splittable(bs, b, size)
    ensures Next(bs, b) in bs && b + 4 + size !in bs
  {
    assert ShapeAt(bs, b);
    var r := b + 4 + size;
    if r in bs { Disjoint(bs, b, r); }
  }

  lemma SplitShapeAt(bs: Blocks, b: int, size: nat, garbage: bool, c: int)
    requires Shape(bs) && Splittable(bs, b, size) && Next(bs, b) in bs && b + 4 + size !in bs
    requires c in SplitB(bs, b, size, garbage)
    ensures ShapeAt(SplitB(bs, b, size, garbage), c)
  {
    if c == b + 4 + size {
      SplitShapeRest(bs, b, size, garbage, c, Next(bs, b), bs[b].size - size - 4);
    } else if c == b {
      SplitShapeFront(bs, b, size, garbage);
    } else if c == Next(bs, b) {
      SplitShapeNext(bs, b, size, garbage);
    } else {
      SplitShapeOther(bs, b, size, garbage, c);
    }
  }

  lemma SplitShapeRest(bs: Blocks, b: int, size: nat, garbage: bool, r: int, n: int, rest: nat)
    requires Shape(bs) && Splittable(bs, b, size) && n == Next(bs, b) && n in bs
    requires r == b + 4 + size && r !in bs && rest == bs[b].size - size - 4
    ensures ShapeAt(SplitB(bs, b, size, garbage), r)
  {
    assert ShapeAt(bs, b) && ShapeAt(bs, n);
    var cs := SplitB(bs, b, size, garbage);
    assert cs[r] == Block(rest, true, garbage, b, bs[b].pool) && Next(cs, r) == n && Next(cs, b) == r;
    RestInFours(b, size, bs[b].size, r, rest);
  }

  lemma RestInFours(b: int, size: nat, all: nat, r: int, rest: nat)
    requires b % 4 == 0 && size % 4 == 0 && all % 4 == 0 && r == b + 4 + size && rest == all - size - 4
    ensures r % 4 == 0 && rest % 4 == 0
  {
  }

  lemma SplitShapeFront(bs: Blocks, b: int, size: nat, garbage: bool)
    requires Shape(bs) && Splittable(bs, b, size) && Next(bs, b) in bs && b + 4 + size !in bs
    ensures ShapeAt(SplitB(bs, b, size, garbage), b)
  {
    assert ShapeAt(bs, b);
    if bs[b].prev != -1 { assert ShapeAt(bs, bs[b].prev); }
  }

  lemma SplitShapeNext(bs: Blocks, b: int, size: nat, garbage: bool)
    requires Shape(bs) && Splittable(bs, b, size) && Next(bs, b) in bs && b + 4 + size !in bs
    ensures ShapeAt(SplitB(bs, b, size, garbage), Next(bs, b))
  {
    assert ShapeAt(bs, b) && ShapeAt(bs, Next(bs, b));
  }

  lemma SplitShapeOther(bs: Blocks, b: int, size: nat, garbage: bool, c: int)
    requires Shape(bs) && Splittable(bs, b, size) && Next(bs, b) in bs && b + 4 + size !in bs
    requires c in bs && c != b && c != Next(bs, b)
    ensures ShapeAt(SplitB(bs, b, size, garbage), c)
  {
    assert ShapeAt(bs, c) && ShapeAt(bs, b);
    assert SplitB(bs, b, size, garbage)[c] == bs[c];
    if bs[c].size > 0 { assert Next(bs, c) != Next(bs, b); }
  }

  lemma SplitApart(bs: Blocks, b: int, size: nat, garbage: bool, c: int, d: int)
    requires Shape(bs) && Splittable(bs, b, size) && Next(bs, b) in bs && b + 4 + size !in bs
    requires c in SplitB(bs, b, size, garbage) && d in SplitB(bs, b, size, garbage) && c < d
    ensures Apart(SplitB(bs, b, size, garbage), c, d)
  {
    var r := b + 4 + size;
    assert ShapeAt(bs, b);
    if c == r {
      assert Apart(bs, b, d);
    } else if d == r {
      if c != b { Disjoint(bs, c, b); }
    } else {
      assert Apart(bs, c, d);
    }
  }

  lemma SplitShape(bs: Blocks, b: int, size: nat, garbage: bool)
    requires Shape(bs) && Splittable(bs, b, size)
    ensures Next(bs, b) in bs && Shape(SplitB(bs, b, size, garbage))
  {
    SplitNew(bs, b, size);
    var cs := SplitB(bs, b, size, garbage);
    forall c | c in cs ensures ShapeAt(cs, c) { SplitShapeAt(bs, b, size, garbage, c); }
    forall c, d | c in cs && d in cs && c < d ensures Apart(cs, c, d) { SplitApart(bs, b, size, garbage, c, d); }
  }

  /** Only the flag of the new block can be wrong after a split. */
  lemma SplitFlagged(bs: Blocks, b: int, size: nat, garbage: bool, hot: set<int>)
    requires Shape(bs) && Splittable(bs, b, size) && Flagged(bs, hot + {Next(bs, b)})
    ensures Next(bs, b) in bs && Flagged(SplitB(bs, b, size, garbage), hot + {b + 4 + size})
  {
    SplitNew(bs, b, size);
    assert ShapeAt(bs, b);
    var cs := SplitB(bs, b, size, garbage);
    forall c | c in cs && c !in hot + {b + 4 + size}
      ensures FlagRight(cs, c)
    {
      if c != Next(bs, b) {
        assert ShapeAt(bs, c);
        assert FlagRight(bs, c);
      }
    }
  }

  /** The flag bit a split leaves in the new block's header. */
  function Garbage(m: Memory, r: int): bool {
    Rd(m, r + 4) / 2 % 2 == 1
  }

  lemma LowBits(q: int, g: int)
    requires 0 <= g < 4
    ensures (4 * q + g) / 4 == q && (4 * q + g) % 4 == g && (4 * q + g) / 2 == 2 * q + g / 2
  {
  }

  lemma GarbageBits(rest: int, w: int)
    requires rest % 4 == 0
    ensures (rest + w % 4) / 4 * 4 == rest
    ensures (rest + w % 4) / 2 * 2 + 1 == rest + 1 + (if w / 2 % 2 == 1 then 2 else 0)
  {
    LowBits(w / 4, w % 4);
    LowBits(rest / 4, w % 4);
    assert w == 4 * (w / 4) + w % 4 && rest == 4 * (rest / 4);
  }

  /** `block_mark_as_free` on any block whose end is known. */
  lemma MarkAsFreeWords(m: Memory, b: int, n: int, w: int)
    requires BlockNext(m, b) == n && b + 4 < n
    ensures Rd(MarkAsFree(m, b), w) ==
            if w == b + 4 then Rd(m, w) / 2 * 2 + 1
            else if w == n + 4 then Rd(m, w) / 4 * 4 + Rd(m, w) % 2 + 2
            else if w == n then b
            else Rd(m, w)
  {
  }

  lemma SplitRawWords(m: Memory, b: int, size: nat, rest: nat, w: int)
    requires BlockSize(m, b) == size + 4 + rest && rest % 4 == 0 && 0 < rest
    ensures var r, n := b + 4 + size, b + 8 + size + rest;
            Rd(Split(m, b, size), w) ==
            if w == b + 4 then size + Rd(m, w) % 4
            else if w == r + 4 then (rest + Rd(m, w) % 4) / 2 * 2 + 1
            else if w == n + 4 then Rd(m, w) / 4 * 4 + Rd(m, w) % 2 + 2
            else if w == n then r
            else Rd(m, w)
  {
    var r, n := b + 4 + size, b + 8 + size + rest;
    var m2 := SetSize(SetSize(m, r, rest), b, size);
    assert Split(m, b, size) == MarkAsFree(m2, r);
    assert BlockNext(m2, r) == n by { GarbageBits(rest, Rd(m, r + 4)); }
    MarkAsFreeWords(m2, r, n, w);
  }

  /** Word `w` of memory after block `b` was split at `size`. */
  function SplitWord(m: Memory, bs: Blocks, b: int, size: nat, w: int): int
    requires b in bs && Next(bs, b) in bs && size + 4 <= bs[b].size
  {
    var r, n := b + 4 + size, Next(bs, b);
    if w == b + 4 then Header(bs[b].(size := size))
    else if w == r + 4 then bs[b].size - size - 4 + 1 + (if Garbage(m, r) then 2 else 0)
    else if w == n + 4 then Header(bs[n].(prevFree := true))
    else if w == n then r
    else Rd(m, w)
  }

  lemma SplitWords(m: Memory, bs: Blocks, b: int, size: nat, w: int)
    requires Shape(bs) && Rep(m, bs) && Splittable(bs, b, size) && Next(bs, b) in bs
    ensures Rd(Split(m, b, size), w) == SplitWord(m, bs, b, size, w)
  {
    var r, n, rest := b + 4 + size, Next(bs, b), bs[b].size - size - 4;
    SizeAligned(bs, b);
    assert BlockSize(m, b) == bs[b].size by { ReadHeader(m, bs, b); }
    SplitRawWords(m, b, size, rest, w);
    if w == b + 4 {
      assert RepAt(m, b, bs[b]);
      HeaderUpdates(bs[b], size, true);
    } else if w == r + 4 {
      GarbageBits(rest, Rd(m, w));
    } else if w == n + 4 {
      SizeAligned(bs, n);
      assert RepAt(m, n, bs[n]);
      HeaderUpdates(bs[n], size, true);
    }
  }

  /** Memory after a split; a free block is linked to the new one as well. */
  function SplitAndLink(m: Memory, b: int, size: int, free: bool): Memory {
    if free then LinkNext(Split(m, b, size), b) else Split(m, b, size)
  }

  lemma SplitRepAt(m: Memory, bs: Blocks, b: int, size: nat, c: int)
    requires Shape(bs) && Rep(m, bs) && Splittable(bs, b, size)
    requires Next(bs, b) in bs && c in bs && c != b
    ensures RepAt(Split(m, b, size), c, SplitB(bs, b, size, Garbage(m, b + 4 + size))[c])
    ensures c + 4 != b + 4 + size && Next(bs, c) != b + 4 + size
  {
    assert RepAt(m, c, bs[c]) && ShapeAt(bs, c) && ShapeAt(bs, b);
    SplitWords(m, bs, b, size, c + 4);
    SplitWords(m, bs, b, size, Next(bs, c));
    Disjoint(bs, b, c);
    if c != Next(bs, b) { Disjoint(bs, Next(bs, b), c); }
  }

  /** After a split the two parts read as they should, once a free first part is linked. */
  lemma SplitRepParts(m: Memory, bs: Blocks, b: int, size: nat)
    requires Shape(bs) && Rep(m, bs) && Splittable(bs, b, size) && Next(bs, b) in bs
    ensures var r, m' := b + 4 + size, SplitAndLink(m, b, size, bs[b].free);
            var cs := SplitB(bs, b, size, Garbage(m, r));
            RepAt(m', b, cs[b]) && RepAt(m', r, cs[r]) && forall w :: w != r ==> Rd(m', w) == Rd(Split(m, b, size), w)
  {
    var r, n := b + 4 + size, Next(bs, b);
    assert ShapeAt(bs, b);
    SplitWords(m, bs, b, size, b + 4);
    SplitWords(m, bs, b, size, r + 4);
    SplitWords(m, bs, b, size, n);
    HeaderBits(bs[b].(size := size));
  }

  lemma SplitRep(m: Memory, bs: Blocks, b: int, size: nat)
    requires Shape(bs) && Rep(m, bs) && Splittable(bs, b, size)
    ensures Next(bs, b) in bs
    ensures Rep(SplitAndLink(m, b, size, bs[b].free), SplitB(bs, b, size, Garbage(m, b + 4 + size)))
  {
    SplitNew(bs, b, size);
    var r := b + 4 + size;
    var cs := SplitB(bs, b, size, Garbage(m, r));
    var m' := SplitAndLink(m, b, size, bs[b].free);
    SplitRepParts(m, bs, b, size);
    forall c | c in cs
      ensures RepAt(m', c, cs[c])
    {
      if c != r && c != b { SplitRepAt(m, bs, b, size, c); }
    }
  }

  // ---------------------------------------------------------------- the previous-free flag

  /** `block_set_prev_free` and `block_set_prev_used`. */
  function FlagB(bs: Blocks, b: int, free: bool): Blocks
    requires b in bs
  {
    bs[b := bs[b].(prevFree := free)]
  }

  lemma FlagShape(bs: Blocks, b: int, free: bool)
    requires Shape(bs) && b in bs
    ensures Shape(FlagB(bs, b, free))
  {
    var cs := FlagB(bs, b, free);
    forall c | c in bs ensures cs[c].free ==> bs[c].size > 0 { assert ShapeAt(bs, c); }
    SameGeometry(bs, cs);
  }

  lemma FlagRep(m: Memory, bs: Blocks, b: int, free: bool)
    requires Shape(bs) && Rep(m, bs) && b in bs
    ensures Rep(SetPrevFree(m, b, free), FlagB(bs, b, free))
  {
    assert ShapeAt(bs, b);
    HeaderUpdates(bs[b], 0, free);
    var cs := FlagB(bs, b, free);
    forall c | c in cs
      ensures RepAt(SetPrevFree(m, b, free), c, cs[c])
    {
      assert RepAt(m, c, bs[c]) && ShapeAt(bs, c);
      if c != b { Disjoint(bs, b, c); }
    }
  }

  lemma FlagFlagged(bs: Blocks, b: int, free: bool, hot: set<int>)
    requires Shape(bs) && b in bs && Flagged(bs, hot + {b}) && free == (bs[b].prev in bs && bs[bs[b].prev].free)
    ensures Flagged(FlagB(bs, b, free), hot)
  {
    var cs := FlagB(bs, b, free);
    forall c | c in cs && c !in hot
      ensures FlagRight(cs, c)
    {
      if c != b { assert FlagRight(bs, c); }
    }
  }

  // ---------------------------------------------------------------- absorbing

  /** `block_absorb`: block `b` becomes part of the block `p` before it. */
  function AbsorbB(bs: Blocks, p: int, b: int): Blocks
    requires p in bs && b in bs && Next(bs, b) in bs
  {
    var n := Next(bs, b);
    (bs - {b})[p := bs[p].(size := bs[p].size + bs[b].size + 4)][n := bs[n].(prev := p)]
  }

  ghost predicate Adjacent(bs: Blocks, p: int, b: int) {
    p in bs && b in bs && bs[p].size > 0 && bs[b].size > 0 && Next(bs, p) == b
  }

  lemma AbsorbShapeAt(bs: Blocks, p: int, b: int, c: int)
    requires Shape(bs) && Adjacent(bs, p, b) && Next(bs, b) in bs && c in AbsorbB(bs, p, b)
    ensures ShapeAt(AbsorbB(bs, p, b), c)
  {
    assert ShapeAt(bs, p) && ShapeAt(bs, b) && ShapeAt(bs, Next(bs, b)) && ShapeAt(bs, c);
  }

  lemma AbsorbShape(bs: Blocks, p: int, b: int)
    requires Shape(bs) && Adjacent(bs, p, b)
    ensures Next(bs, b) in bs && Shape(AbsorbB(bs, p, b))
  {
    assert ShapeAt(bs, b);
    var cs := AbsorbB(bs, p, b);
    forall c | c in cs ensures ShapeAt(cs, c) { AbsorbShapeAt(bs, p, b, c); }
    forall c, d | c in cs && d in cs && c < d
      ensures Apart(cs, c, d)
    {
      assert Apart(bs, c, d);
      if c == p { assert ShapeAt(bs, p); Disjoint(bs, b, d); }
    }
  }

  /** The flag after the enlarged block stays right when the absorbed and absorbing block agree. */
  lemma AbsorbFlagged(bs: Blocks, p: int, b: int, hot: set<int>)
    requires Shape(bs) && Adjacent(bs, p, b) && Flagged(bs, hot)
    ensures Next(bs, b) in bs
    ensures Flagged(AbsorbB(bs, p, b), if bs[p].free == bs[b].free then hot else hot + {Next(bs, b)})
  {
    assert ShapeAt(bs, b) && ShapeAt(bs, Next(bs, b));
    var cs := AbsorbB(bs, p, b);
    forall c | c in cs && c !in hot && (bs[p].free == bs[b].free || c != Next(bs, b))
      ensures FlagRight(cs, c)
    {
      assert ShapeAt(bs, c);
      assert FlagRight(bs, c);
    }
  }

  lemma AbsorbWords(m: Memory, bs: Blocks, p: int, b: int, w: int)
    requires Shape(bs) && Rep(m, bs) && Adjacent(bs, p, b)
    ensures Rd(Absorb(m, p, b), w) ==
            if w == p + 4 then Header(bs[p].(size := bs[p].size + bs[b].size + 4))
            else if w == Next(bs, b) then p
            else Rd(m, w)
  {
    var k := bs[p].(size := bs[p].size + bs[b].size + 4);
    AbsorbedHeader(m, bs, p, b, k);
    AbsorbRawWords(m, p, b, Header(k), k.size, w);
  }

  lemma AbsorbedHeader(m: Memory, bs: Blocks, p: int, b: int, k: Block)
    requires Shape(bs) && Rep(m, bs) && Adjacent(bs, p, b) && k == bs[p].(size := bs[p].size + bs[b].size + 4)
    ensures Rd(m, p + 4) + BlockSize(m, b) + 4 == Header(k) && Header(k) / 4 * 4 == k.size
    ensures Next(bs, b) == p + 4 + k.size
  {
    assert ShapeAt(bs, p) && ShapeAt(bs, b);
    assert RepAt(m, p, bs[p]);
    ReadHeader(m, bs, b);
    HeaderBits(k);
  }

  lemma AbsorbRawWords(m: Memory, p: int, b: int, header: int, size: nat, w: int)
    requires Rd(m, p + 4) + BlockSize(m, b) + 4 == header && header / 4 * 4 == size > 0
    ensures Rd(Absorb(m, p, b), w) == if w == p + 4 then header else if w == p + 4 + size then p else Rd(m, w)
  {
  }

  lemma AbsorbRep(m: Memory, bs: Blocks, p: int, b: int)
    requires Shape(bs) && Rep(m, bs) && Adjacent(bs, p, b)
    ensures Next(bs, b) in bs && Rep(Absorb(m, p, b), AbsorbB(bs, p, b))
  {
    assert ShapeAt(bs, b) && ShapeAt(bs, p);
    var cs := AbsorbB(bs, p, b);
    forall c | c in cs
      ensures RepAt(Absorb(m, p, b), c, cs[c])
    {
      AbsorbWords(m, bs, p, b, c + 4);
      AbsorbWords(m, bs, p, b, c + 4 + cs[c].size);
      assert RepAt(m, c, bs[c]) && ShapeAt(bs, c);
      Disjoint(bs, b, c);
      if c != p { Disjoint(bs, p, c); }
    }
  }
}
