/**
 The integrity checks that libyaul/kernel/mm/tlsf.c ships with, `tlsf_check` and `tlsf_check_pool`: what
 they detect, for any contents of memory whose lists and pools end, and that a valid heap passes.
 */
module TlsfCheck {
  import opened Binary
  import opened TlsfMapping
  import opened TlsfBitmap
  import opened TlsfMemory
  import opened TlsfBlocks
  import opened TlsfLists
  import opened TlsfSteps
  import opened TlsfPool
  import opened Tlsf

  /** `tlsf_insist`: a failed condition costs one. */
  function Insist(status: int, condition: bool): int {
    if condition then status else status - 1
  }

  // ---------------------------------------------------------------- the free lists

  /** A block of list `(i, j)`: free, of that size class, and between blocks that are not. */
  predicate BlockSound(m: Memory, i: int, j: int, block: int) {
    && IsFree(m, block) && !IsPrevFree(m, block)
    && !IsFree(m, BlockNext(m, block)) && IsPrevFree(m, BlockNext(m, block))
    && BlockSize(m, block) >= BLOCK_SIZE_MIN && MappingInsert(BlockSize(m, block)) == (i, j)
  }

  /** The bitmaps know of the list `l`, and all its blocks are as they should be. */
  ghost predicate ListSound(m: Memory, fl: nat, row: nat, i: nat, j: nat, l: List) {
    && (Bit(row, j) <==> l != []) && (Bit(row, j) ==> Bit(fl, i))
    && forall k :: 0 <= k < |l| ==> BlockSound(m, i, j, l[k])
  }

  /** The next links lead from the head through `l` to the null block, and header words are unsigned. */
  ghost predicate Walkable(m: Memory, ctrl: int, head: int, l: List) {
    && head == Entry(l, 0, ctrl) && ctrl !in l
    && forall k :: 0 <= k < |l| ==> LeadsOn(m, ctrl, l, k)
  }

  ghost predicate LeadsOn(m: Memory, ctrl: int, l: List, k: nat)
    requires k < |l|
  {
    Rd(m, l[k] + 8) == Entry(l, k + 1, ctrl) && 0 <= BlockSize(m, l[k])
  }

  ghost predicate AllWalkable(m: Memory, ctrl: int, heads: seq<int>, ls: Lists) {
    && |heads| == |ls| == CLASS_COUNT
    && forall c {:trigger heads[c]} :: 0 <= c < CLASS_COUNT ==> Walkable(m, ctrl, heads[c], ls[c])
  }

  ghost predicate ListSoundAt(m: Memory, fl: nat, sl: seq<nat>, ls: Lists, c: nat)
    requires |sl| == FL_INDEX_COUNT && |ls| == CLASS_COUNT && c < CLASS_COUNT
  {
    ListSound(m, fl, sl[c / 32], c / 32, c % 32, ls[c])
  }

  /** What `tlsf_check` looks at, in the lists before number `c`. */
  ghost predicate SoundBelow(m: Memory, fl: nat, sl: seq<nat>, ls: Lists, c: int)
    requires |sl| == FL_INDEX_COUNT && |ls| == CLASS_COUNT && c <= CLASS_COUNT
  {
    forall x: nat :: x < c ==> ListSoundAt(m, fl, sl, ls, x)
  }

  lemma ListNumber(i: nat, j: nat, c: nat)
    requires c == i * 32 + j && j < 32
    ensures c / 32 == i && c % 32 == j
  {
  }

  /** The conditions that `tlsf_check` insists on for a block of list `(i, j)`: none holds for another. */
  method CheckBlock(m: Memory, i: int, j: int, block: int, status0: int) returns (status: int)
    requires 0 <= BlockSize(m, block)
    ensures status <= status0 && (status == status0 <==> BlockSound(m, i, j, block))
  {
    status := Insist(status0, IsFree(m, block));
    status := Insist(status, !IsPrevFree(m, block));
    status := Insist(status, !IsFree(m, BlockNext(m, block)));
    status := Insist(status, IsPrevFree(m, BlockNext(m, block)));
    status := Insist(status, BlockSize(m, block) >= BLOCK_SIZE_MIN);
    var (fli, sli) := MappingInsert(BlockSize(m, block));
    status := Insist(status, fli == i && sli == j);
  }

  /** The inner loop of `tlsf_check`. */
  method CheckBlocks(m: Memory, ctrl: int, i: int, j: int, head: int, ghost l: List, status0: int) returns (status: int)
    requires Walkable(m, ctrl, head, l)
    ensures status <= status0
    ensures status == status0 <==> forall k :: 0 <= k < |l| ==> BlockSound(m, i, j, l[k])
  {
    var block := head;
    status := status0;
    ghost var n := 0;
    while block != ctrl
      invariant 0 <= n <= |l| && block == Entry(l, n, ctrl) && status <= status0
      invariant status == status0 <==> forall k :: 0 <= k < n ==> BlockSound(m, i, j, l[k])
      decreases |l| - n
    {
      assert n < |l| && block == l[n] && LeadsOn(m, ctrl, l, n);
      status := CheckBlock(m, i, j, block, status);
      block := Rd(m, block + 8);
      n := n + 1;
    }
    assert n == |l|;
  }

  /** The body of the two loops of `tlsf_check`. */
  method CheckList(m: Memory, ctrl: int, fl: nat, row: nat, i: nat, j: nat, head: int, ghost l: List)
    returns (status: int)
    requires Walkable(m, ctrl, head, l)
    ensures status <= 0 && (status == 0 <==> ListSound(m, fl, row, i, j, l))
  {
    assert head == ctrl <==> l == [];
    var flMap, slMap := Bit(fl, i), Bit(row, j);
    status := 0;
    if !flMap {
      status := Insist(status, !slMap);
    }
    if !slMap {
      status := Insist(status, head == ctrl);
      return;
    }
    BitMeansNonZero(row, j);
    status := Insist(status, row != 0);
    status := Insist(status, head != ctrl);
    status := CheckBlocks(m, ctrl, i, j, head, l, status);
  }

  /** `tlsf_check`: it returns zero if and only if every list is sound; each failure makes it smaller. */
  method Check(h: Allocator) returns (status: int)
    requires |h.sl| == FL_INDEX_COUNT && AllWalkable(h.mem, h.ctrl, h.heads, h.ls)
    ensures status <= 0 && (status == 0 <==> SoundBelow(h.mem, h.fl, h.sl, h.ls, CLASS_COUNT))
  {
    status := 0;
    for i := 0 to FL_INDEX_COUNT
      invariant status <= 0 && (status == 0 <==> SoundBelow(h.mem, h.fl, h.sl, h.ls, i * 32))
    {
      for j := 0 to SL_INDEX_COUNT
        invariant status <= 0 && (status == 0 <==> SoundBelow(h.mem, h.fl, h.sl, h.ls, i * 32 + j))
      {
        var c := i * 32 + j;
        ListNumber(i, j, c);
        var d := CheckList(h.mem, h.ctrl, h.fl, h.sl[i], i, j, h.heads[c], h.ls[c]);
        assert ListSoundAt(h.mem, h.fl, h.sl, h.ls, c) <==> d == 0;
        status := status + d;
      }
    }
  }

  /** The first level has a bit for no row without lists, and no bitmap has bits beyond its tables. */
  ghost predicate NoExtraBits(fl: nat, sl: seq<nat>)
    requires |sl| == FL_INDEX_COUNT
  {
    && (forall i: nat :: Bit(fl, i) ==> i < FL_INDEX_COUNT && sl[i] != 0)
    && forall i, j: nat :: 0 <= i < FL_INDEX_COUNT && Bit(sl[i], j) ==> j < SL_INDEX_COUNT
  }

  /** After a pass the bitmaps are right if and only if they have no such bit: the check does not look for it. */
  lemma PassedExactly(m: Memory, fl: nat, sl: seq<nat>, ls: Lists)
    requires |sl| == FL_INDEX_COUNT && |ls| == CLASS_COUNT && SoundBelow(m, fl, sl, ls, CLASS_COUNT)
    ensures BitmapsRep(fl, sl, ls) <==> NoExtraBits(fl, sl)
  {
    if NoExtraBits(fl, sl) {
      forall i: nat | i < FL_INDEX_COUNT ensures RowRep(fl, sl, ls, i) {
        forall j: nat ensures Bit(sl[i], j) <==> j < 32 && ls[i * 32 + j] != [] {
          if j < 32 { PassedBitmaps(m, fl, sl, ls, i, j, i * 32 + j); }
        }
        if sl[i] != 0 {
          var j := SomeBit(sl[i]);
          PassedBitmaps(m, fl, sl, ls, i, j, i * 32 + j);
        }
      }
    } else if BitmapsRep(fl, sl, ls) {
      forall i: nat | Bit(fl, i) ensures i < FL_INDEX_COUNT && sl[i] != 0 { assert RowRep(fl, sl, ls, i); }
      forall i, j: nat | 0 <= i < FL_INDEX_COUNT && Bit(sl[i], j) ensures j < SL_INDEX_COUNT {
        assert RowRep(fl, sl, ls, i);
      }
    }
  }

  lemma {:induction false} SomeBit(x: nat) returns (j: nat)
    requires x != 0
    ensures Bit(x, j)
  {
    if x % 2 == 1 {
      j := 0;
    } else {
      j := SomeBit(x / 2);
      j := j + 1;
    }
  }

  /** A bit of the first level without a list goes unnoticed. */
  lemma ExtraBitIsMissed(m: Memory, sl: seq<nat>, ls: Lists)
    requires |sl| == FL_INDEX_COUNT && |ls| == CLASS_COUNT
    requires (forall i :: 0 <= i < |sl| ==> sl[i] == 0) && forall c :: 0 <= c < |ls| ==> ls[c] == []
    ensures SoundBelow(m, 1, sl, ls, CLASS_COUNT) && !BitmapsRep(1, sl, ls)
  {
    forall c: nat | c < CLASS_COUNT ensures ListSoundAt(m, 1, sl, ls, c) { NoBits(c % 32); }
    assert Bit(1, 0) && sl[0] == 0;
    PassedExactly(m, 1, sl, ls);
  }

  lemma {:induction false} NoBits(j: nat)
    ensures !Bit(0, j)
  {
    if j > 0 { NoBits(j - 1); }
  }

  /** What a pass says of the bitmaps: the second level is right, and the first level lacks no bit. */
  lemma PassedBitmaps(m: Memory, fl: nat, sl: seq<nat>, ls: Lists, i: nat, j: nat, c: nat)
    requires |sl| == FL_INDEX_COUNT && |ls| == CLASS_COUNT && SoundBelow(m, fl, sl, ls, CLASS_COUNT)
    requires i < FL_INDEX_COUNT && j < SL_INDEX_COUNT && c == i * 32 + j
    ensures (Bit(sl[i], j) <==> ls[c] != []) && (ls[c] != [] ==> Bit(fl, i))
  {
    ListNumber(i, j, c);
    assert ListSoundAt(m, fl, sl, ls, c);
  }

  // ---------------------------------------------------------------- pools

  /** The blocks that the walk over a pool visits, the sentinel last. */
  ghost predicate Walk(m: Memory, walk: seq<int>) {
    && walk != [] && BlockSize(m, walk[|walk| - 1]) == 0
    && forall k :: 0 <= k < |walk| - 1 ==> StepsOn(m, walk, k)
  }

  ghost predicate StepsOn(m: Memory, walk: seq<int>, k: nat)
    requires k + 1 < |walk|
  {
    BlockSize(m, walk[k]) != 0 && BlockNext(m, walk[k]) == walk[k + 1]
  }

  /** The block says of the one before it whether it is free. */
  ghost predicate TellsPrevious(m: Memory, walk: seq<int>, k: nat)
    requires k < |walk|
  {
    IsPrevFree(m, walk[k]) == (k > 0 && IsFree(m, walk[k - 1]))
  }

  /** `tlsf_check_pool`: zero if and only if every block but the sentinel tells right of the one before it. */
  method CheckPool(m: Memory, pool: int, ghost walk: seq<int>) returns (status: int)
    requires Walk(m, walk) && walk[0] == pool - 4
    ensures status <= 0 && (status == 0 <==> forall k :: 0 <= k < |walk| - 1 ==> TellsPrevious(m, walk, k))
  {
    status := 0;
    var prevStatus := false;
    var block := pool - 4;
    ghost var n := 0;
    while BlockSize(m, block) != 0
      invariant 0 <= n < |walk| && block == walk[n] && prevStatus == (n > 0 && IsFree(m, walk[n - 1])) && status <= 0
      invariant status == 0 <==> forall k :: 0 <= k < n ==> TellsPrevious(m, walk, k)
      decreases |walk| - n
    {
      var size := BlockSize(m, block);
      var thisPrevStatus, thisStatus := IsPrevFree(m, block), IsFree(m, block);
      assert n < |walk| - 1 && StepsOn(m, walk, n);
      assert TellsPrevious(m, walk, n) <==> prevStatus == thisPrevStatus;
      status := Insist(status, prevStatus == thisPrevStatus);
      status := Insist(status, size == BlockSize(m, block));
      prevStatus := thisStatus;
      block := BlockNext(m, block);
      n := n + 1;
    }
    assert n < |walk| - 1 ==> StepsOn(m, walk, n);
  }

  // ---------------------------------------------------------------- a valid heap passes

  lemma ValidBlock(m: Memory, bs: Blocks, block: int, i: int, j: int)
    requires Shape(bs) && Rep(m, bs) && Flagged(bs, {}) && Coalesced(bs, {}) && block in bs && bs[block].free
    requires ClassOf(bs[block].size) == i * 32 + j && 0 <= j < SL_INDEX_COUNT
    ensures BlockSound(m, i, j, block)
  {
    assert ShapeAt(bs, block) && FlagRight(bs, block);
    FreeNeighbours(bs, {}, block);
    ReadHeader(m, bs, block);
    assert FlagRight(bs, Next(bs, block));
    ReadHeader(m, bs, Next(bs, block));
    SizeBelowMax(bs, block);
    ClassInRange(bs[block].size);
  }

  lemma ListHeads(m: Memory, ctrl: int, heads: seq<int>, ls: Lists, bs: Blocks, c: int)
    requires ListsRep(m, ctrl, heads, ls) && Listed(bs, ls, {}) && ControlApart(bs, ctrl) && 0 <= c < CLASS_COUNT
    requires Shape(bs) && Rep(m, bs)
    ensures Walkable(m, ctrl, heads[c], ls[c])
  {
    assert Linked(m, ctrl, ls[c]);
    forall k | 0 <= k < |ls[c]| ensures LeadsOn(m, ctrl, ls[c], k) && ls[c][k] != ctrl {
      assert LinkAt(m, ctrl, ls[c], k);
      ListEntry(bs, ls, {}, c, k);
      ControlIsNot(bs, ctrl, ls[c][k]);
      assert ShapeAt(bs, ls[c][k]);
      ReadHeader(m, bs, ls[c][k]);
    }
  }

  lemma ValidList(m: Memory, bs: Blocks, ls: Lists, fl: nat, sl: seq<nat>, i: nat, j: nat, c: nat)
    requires Shape(bs) && Rep(m, bs) && Flagged(bs, {}) && Coalesced(bs, {}) && Listed(bs, ls, {})
    requires BitmapsRep(fl, sl, ls) && i < FL_INDEX_COUNT && j < SL_INDEX_COUNT && c == i * 32 + j
    ensures ListSound(m, fl, sl[i], i, j, ls[c])
  {
    assert RowRep(fl, sl, ls, i);
    if Bit(sl[i], j) { BitMeansNonZero(sl[i], j); }
    forall k | 0 <= k < |ls[c]| ensures BlockSound(m, i, j, ls[c][k]) {
      ListEntry(bs, ls, {}, c, k);
      ValidBlock(m, bs, ls[c][k], i, j);
    }
  }

  /** The integrity check passes on every valid heap. */
  method CheckValid(h: Allocator) returns (status: int)
    requires h.Valid()
    ensures status == 0
  {
    forall c | 0 <= c < CLASS_COUNT ensures Walkable(h.mem, h.ctrl, h.heads[c], h.ls[c]) {
      ListHeads(h.mem, h.ctrl, h.heads, h.ls, h.bs, c);
    }
    forall c: nat | c < CLASS_COUNT ensures ListSoundAt(h.mem, h.fl, h.sl, h.ls, c) {
      ValidList(h.mem, h.bs, h.ls, h.fl, h.sl, c / 32, c % 32, c);
    }
    status := Check(h);
  }

  /** The blocks from `b` to the end of its pool. */
  ghost function BlocksFrom(bs: Blocks, b: int): (walk: seq<int>)
    requires Shape(bs) && b in bs
    ensures walk != [] && walk[0] == b
    decreases bs[b].pool.last - b
  {
    assert ShapeAt(bs, b);
    if bs[b].size == 0 then [b] else
      assert ShapeAt(bs, Next(bs, b));
      [b] + BlocksFrom(bs, Next(bs, b))
  }

  lemma {:induction false} BlocksWalked(m: Memory, bs: Blocks, b: int)
    requires Shape(bs) && Rep(m, bs) && Flagged(bs, {}) && b in bs
    ensures var walk := BlocksFrom(bs, b);
      && Walk(m, walk) && IsPrevFree(m, b) == bs[b].prevFree
      && forall k :: 1 <= k < |walk| ==> TellsPrevious(m, walk, k)
    decreases bs[b].pool.last - b
  {
    assert ShapeAt(bs, b) && FlagRight(bs, b);
    ReadHeader(m, bs, b);
    if bs[b].size > 0 {
      var n := Next(bs, b);
      assert ShapeAt(bs, n) && FlagRight(bs, n);
      BlocksWalked(m, bs, n);
      var rest, walk := BlocksFrom(bs, n), BlocksFrom(bs, b);
      assert walk == [b] + rest;
      forall k | 1 <= k < |walk| ensures TellsPrevious(m, walk, k) {
        assert walk[k] == rest[k - 1];
        if k > 1 { assert walk[k - 1] == rest[k - 2] && TellsPrevious(m, rest, k - 1); }
      }
      assert walk[|walk| - 1] == rest[|rest| - 1];
      forall k | 0 <= k < |walk| - 1 ensures StepsOn(m, walk, k) {
        if k > 0 { assert StepsOn(m, rest, k - 1); }
      }
    }
  }

  /** And so does the walk over any of its pools. */
  method CheckValidPool(h: Allocator, pool: int) returns (status: int)
    requires h.Valid() && pool - 4 in h.bs && h.bs[pool - 4].prev == -1
    ensures status == 0
  {
    ghost var walk := BlocksFrom(h.bs, pool - 4);
    BlocksWalked(h.mem, h.bs, pool - 4);
    assert FlagRight(h.bs, pool - 4);
    assert -1 !in h.bs by { if -1 in h.bs { BlockPositive(h.bs, -1); } }
    status := CheckPool(h.mem, pool, walk);
  }
}
