/** The allocator of libyaul/kernel/mm/tlsf.c. */
module Tlsf {
  import opened Binary
  import opened Multiples
  import opened TlsfMapping
  import opened TlsfBitmap
  import opened TlsfMemory
  import opened TlsfBlocks
  import opened TlsfLists
  import opened TlsfFrames
  import opened TlsfSteps
  import opened TlsfCut
  import opened TlsfPool

  class Allocator {
    /** The address of `control_t`; its first member is the null block. */
    const ctrl: int
    var mem: Memory
    var fl: nat
    var sl: seq<nat>
    /** `blocks[fl][sl]`, row by row. */
    var heads: seq<int>

    /** The blocks of all pools and the contents of the free lists. */
    ghost var bs: Blocks
    ghost var ls: Lists

    /**
     Everything but coalescing, while an operation is under way: blocks in `stale` may have a wrong
     previous-free flag, and the blocks in `hot` are in no list although they may be free.
     */
    ghost predicate Consistent(stale: set<int>, hot: set<int>)
      reads this
    {
      Agrees(mem, bs, ls, ctrl, heads, stale, hot) && BitmapsRep(fl, sl, ls)
    }

    /** The invariant of the allocator between operations. */
    ghost predicate Valid()
      reads this
    {
      Consistent({}, {}) && Coalesced(bs, {})
    }

    /** `tlsf_create`, for an aligned control structure; `memory` is what the machine holds. */
    constructor (control: int, memory: Memory)
      requires control % ALIGN_SIZE == 0
      ensures Valid() && bs == map[] && ctrl == control
      ensures forall w :: w != ctrl + 8 && w != ctrl + 12 ==> Rd(mem, w) == Rd(memory, w)
    {
      ctrl := control;
      mem := memory[control + 8 := control][control + 12 := control];
      fl := 0;
      sl := seq(FL_INDEX_COUNT, _ => 0);
      heads := seq(CLASS_COUNT, _ => control);
      bs := map[];
      ls := seq(CLASS_COUNT, _ => []);
      new;
      forall f | 0 <= f < FL_INDEX_COUNT
        ensures RowRep(fl, sl, ls, f)
      {
        ZeroHasNoBits(f);
        forall s: nat ensures !Bit(sl[f], s) { ZeroHasNoBits(s); }
      }
      forall f: nat ensures !Bit(fl, f) { ZeroHasNoBits(f); }
    }

    /** `remove_free_block`. */
    method RemoveFreeBlock(b: int, f: int, s: int, ghost stale: set<int>, ghost hot: set<int>)
      requires Consistent(stale, hot) && b in bs && bs[b].free && b !in hot
      requires 0 <= f < FL_INDEX_COUNT && 0 <= s < SL_INDEX_COUNT && ClassOf(bs[b].size) == f * 32 + s
      modifies this
      ensures Consistent(stale, hot + {b}) && bs == old(bs)
      ensures Preserved(old(mem), mem, bs, bs, {})
    {
      ghost var c := f * 32 + s;
      assert InItsList(bs, ls, hot, b);
      ghost var k := MemberIndex(ls[c], b);
      RemoveStep(mem, bs, ls, hot, ctrl, heads, c, k);
      RemoveListed(bs, ls, hot, c, k);
      RemoveBitmaps(fl, sl, ls, f, s, k);
      assert heads[c] == Entry(ls[c], 0, ctrl);

      var prev := Rd(mem, b + 12);
      var next := Rd(mem, b + 8);
      mem := RemoveLinks(mem, prev, next);
      if heads[f * 32 + s] == b {
        heads := heads[f * 32 + s := next];
        if next == ctrl {
          sl := sl[f := ClearBit(sl[f], s)];
          if sl[f] == 0 {
            fl := ClearBit(fl, f);
          }
        }
      }
      ls := RemoveL(ls, c, k);
    }

    /** `insert_free_block`. */
    method InsertFreeBlock(b: int, f: int, s: int, ghost stale: set<int>, ghost hot: set<int>)
      requires Consistent(stale, hot) && b in bs && bs[b].free && b in hot
      requires 0 <= f < FL_INDEX_COUNT && 0 <= s < SL_INDEX_COUNT && ClassOf(bs[b].size) == f * 32 + s
      modifies this
      ensures Consistent(stale, hot - {b}) && bs == old(bs)
      ensures Preserved(old(mem), mem, bs, bs, {})
    {
      ghost var c := f * 32 + s;
      InsertStep(mem, bs, ls, hot, ctrl, heads, b, c);
      InsertListed(bs, ls, hot, b, c);
      InsertBitmaps(fl, sl, ls, f, s, b, f * 32 + s);

      var current := heads[f * 32 + s];
      mem := InsertLinks(mem, ctrl, b, current);
      heads := heads[f * 32 + s := b];
      fl := SetBit(fl, f);
      sl := sl[f := SetBit(sl[f], s)];
      ls := InsertL(ls, c, b);
    }

    /** `block_remove`. */
    method BlockRemove(b: int, ghost stale: set<int>, ghost hot: set<int>)
      requires Consistent(stale, hot) && b in bs && bs[b].free && b !in hot
      modifies this
      ensures Consistent(stale, hot + {b}) && bs == old(bs)
      ensures Preserved(old(mem), mem, bs, bs, {})
    {
      ReadHeader(mem, bs, b);
      SizeBelowMax(bs, b);
      ClassInRange(bs[b].size);
      var (f, s) := MappingInsert(BlockSize(mem, b));
      RemoveFreeBlock(b, f, s, stale, hot);
    }

    /** `block_insert`. */
    method BlockInsert(b: int, ghost stale: set<int>, ghost hot: set<int>)
      requires Consistent(stale, hot) && b in bs && bs[b].free && b in hot
      modifies this
      ensures Consistent(stale, hot - {b}) && bs == old(bs)
      ensures Preserved(old(mem), mem, bs, bs, {})
    {
      ReadHeader(mem, bs, b);
      SizeBelowMax(bs, b);
      ClassInRange(bs[b].size);
      var (f, s) := MappingInsert(BlockSize(mem, b));
      InsertFreeBlock(b, f, s, stale, hot);
    }

    /** `block_merge_prev`, for a free block that is in no list. */
    method BlockMergePrev(b: int) returns (r: int)
      requires Consistent({}, {b}) && Coalesced(bs, {b}) && b in bs && bs[b].free
      modifies this
      ensures Consistent({}, {r}) && Coalesced(bs, {r}) && r in bs && bs[r].free && PrevNotFree(bs, r)
      ensures Preserved(old(mem), mem, old(bs), bs, {})
    {
      ReadHeader(mem, bs, b);
      assert FlagRight(bs, b) && ShapeAt(bs, b);
      r := b;
      if IsPrevFree(mem, b) {
        PrevOf(bs, b);
        assert RepAt(mem, bs[b].prev, bs[bs[b].prev]);
        var prev := Rd(mem, b);
        FreeNeighbours(bs, {b}, prev);
        if bs[prev].prev in bs { PrevOf(bs, prev); }
        CoalescedWiden(bs, {b}, {prev} + {b});
        BlockRemove(prev, {}, {b});
        AbsorbStep(mem, bs, ls, ctrl, heads, {}, {b} + {prev}, prev, b);
        CoalescedAbsorb(bs, prev, b, {prev});
        PreservedTransitive(old(mem), mem, Absorb(mem, prev, b), bs, bs, AbsorbB(bs, prev, b), {});
        mem := Absorb(mem, prev, b);
        bs := AbsorbB(bs, prev, b);
        r := prev;
        assert {b} + {prev} - {b} == {r};
      }
    }

    /** `block_merge_next`: the block is used, or free and in no list. */
    method BlockMergeNext(b: int, ghost hot: set<int>)
      requires b in bs && bs[b].size > 0 && hot == (if bs[b].free then {b} else {})
      requires Consistent({}, hot) && Coalesced(bs, {b})
      modifies this
      ensures b in bs && bs[b].free == old(bs[b].free) && bs[b].pool == old(bs[b].pool) && bs[b].prev == old(bs[b].prev)
      ensures bs[b].size == old(bs[b].size) + (if old(NextIsFree(bs, b)) then old(bs[Next(bs, b)].size) + 4 else 0)
      ensures Consistent(if !bs[b].free && old(NextIsFree(bs, b)) then {Next(bs, b)} else {}, hot)
      ensures Coalesced(bs, {b}) && NextNotFree(bs, b)
      ensures old(PrevNotFree(bs, b)) ==> PrevNotFree(bs, b)
      ensures Preserved(old(mem), mem, old(bs), bs, old(AbsorbExempt(bs, b)))
      ensures !bs[b].free ==> Kept(old(mem), mem, b, old(bs[b].size))
    {
      ReadHeader(mem, bs, b);
      assert ShapeAt(bs, b);
      var next := BlockNext(mem, b);
      ReadHeader(mem, bs, next);
      if IsFree(mem, next) {
        MergeNextFacts(bs, b);
        CoalescedWiden(bs, {b}, {b} + {next});
        BlockRemove(next, {}, hot);
        AbsorbStep(mem, bs, ls, ctrl, heads, {}, hot + {next}, b, next);
        CoalescedAbsorb(bs, b, next, {b});
        PreservedWiden(old(mem), mem, bs, bs, {}, AbsorbExempt(bs, b));
        PreservedTransitive(old(mem), mem, Absorb(mem, b, next), bs, bs, AbsorbB(bs, b, next), AbsorbExempt(bs, b));
        if !bs[b].free { assert PreservedAt(old(mem), mem, bs, bs, b); }
        mem := Absorb(mem, b, next);
        bs := AbsorbB(bs, b, next);
        assert hot + {next} - {next} == hot;
      }
    }

    /** `block_trim_free`: gives back what a free block in no list has beyond `size` bytes. */
    method BlockTrimFree(b: int, size: nat)
      requires b in bs && Consistent({}, {b}) && Coalesced(bs, {b}) && bs[b].free && NextNotFree(bs, b)
      requires size % 4 == 0 && BLOCK_SIZE_MIN <= size
      modifies this
      ensures b in bs && Consistent({}, {b}) && Coalesced(bs, {b})
      ensures bs[b].free && bs[b].size <= old(bs[b].size) && bs[b].size < size + 16
      ensures size <= bs[b].size || bs[b].size == old(bs[b].size)
      ensures Preserved(old(mem), mem, old(bs), bs, {})
    {
      ReadHeader(mem, bs, b);
      assert ShapeAt(bs, b);
      if BlockSize(mem, b) >= 16 + size {
        SplitFreeStep(mem, bs, ls, ctrl, heads, b, size);
        ghost var cs := SplitFreeB(mem, bs, b, size);
        var remaining := b + 4 + size;
        mem := Split(mem, b, size);
        mem := LinkNext(mem, b);
        mem := SetPrevFree(mem, remaining, true);
        bs := cs;
        TrimmedCoalesced(bs, b, remaining);
        label Inserting:
        BlockInsert(remaining, {}, {b, remaining});
        assert {b, remaining} - {remaining} == {b};
        PreservedTransitive(old(mem), old@Inserting(mem), mem, old(bs), bs, bs, {});
      }
    }

    /** `block_trim_used`: gives back what a used block has beyond `size` bytes. */
    method BlockTrimUsed(b: int, size: nat)
      requires Valid() && b in bs && !bs[b].free && bs[b].size > 0
      requires size % 4 == 0 && BLOCK_SIZE_MIN <= size
      modifies this
      ensures Valid() && b in bs && !bs[b].free && bs[b].pool == old(bs[b].pool)
      ensures bs[b].size == if old(bs[b].size) >= 16 + size then size else old(bs[b].size)
      ensures Kept(old(mem), mem, b, bs[b].size)
      ensures Preserved(old(mem), mem, old(bs), bs, {b})
    {
      ReadHeader(mem, bs, b);
      assert ShapeAt(bs, b);
      if BlockSize(mem, b) >= 16 + size {
        CoalescedWiden(bs, {}, {b});
        SplitStep(mem, bs, ls, ctrl, heads, {}, {}, b, size);
        CoalescedSplit(mem, bs, b, size, {b});
        var remaining := b + 4 + size;
        ghost var cs := SplitBG(mem, bs, b, size);
        SplitFacts(mem, bs, b, size);
        mem := Split(mem, b, size);
        FlagAfterSplit(old(mem), mem, bs, cs, ls, ctrl, heads, Next(bs, b), {} + {remaining}, remaining, false, {b});
        SetFlagKeeps(cs, mem, remaining, b, size);
        CoalescedFlag(cs, remaining, false, {b} + {remaining});
        mem := SetPrevFree(mem, remaining, false);
        bs := FlagB(cs, remaining, false);
        RestCoalesced(bs, b, remaining);
        assert {} + {remaining} == {remaining};
        label Merging:
        BlockMergeNext(remaining, {remaining});
        assert PreservedAt(old@Merging(mem), mem, old@Merging(bs), bs, b);
        CoalescedClose(bs, remaining);
        PreservedWiden(old@Merging(mem), mem, old@Merging(bs), bs, {}, {b});
        PreservedTransitive(old(mem), old@Merging(mem), mem, old(bs), old@Merging(bs), bs, {b});
        label Inserting:
        BlockInsert(remaining, {}, {remaining});
        assert {remaining} - {remaining} == {};
        assert PreservedAt(old@Inserting(mem), mem, bs, bs, b);
        PreservedWiden(old@Inserting(mem), mem, bs, bs, {}, {b});
        PreservedTransitive(old(mem), old@Inserting(mem), mem, old(bs), bs, bs, {b});
      } else {
        PreservedRefl(mem, bs, {b});
      }
    }

    /**
     `block_trim_free_leading`: cuts `size` bytes off the front of a free block in no list, and
     returns the block that starts there.
     */
    method BlockTrimFreeLeading(b: int, size: nat) returns (r: int)
      requires Consistent({}, {b}) && Coalesced(bs, {}) && b in bs && bs[b].free
      requires size % 4 == 0 && 16 <= size
      modifies this
      ensures r in bs && bs[r].free && Consistent({}, {r}) && Coalesced(bs, {r}) && NextNotFree(bs, r)
      ensures size + 16 <= old(bs[b].size) ==>
        r == b + size && bs[r].size == old(bs[b].size) - size && bs[r].prev == b
      ensures size + 16 > old(bs[b].size) ==> r == b && bs == old(bs)
      ensures Preserved(old(mem), mem, old(bs), bs, {})
    {
      ReadHeader(mem, bs, b);
      assert ShapeAt(bs, b);
      FreeNeighbours(bs, {}, b);
      CoalescedWiden(bs, {}, {b});
      r := b;
      if BlockSize(mem, b) >= 16 + size {
        r := SplitLeading(b, size - 4);
      }
    }

    /** The front of a free block, `keep` bytes behind its header, becomes a free block in its list. */
    method SplitLeading(b: int, keep: nat) returns (r: int)
      requires Consistent({}, {b}) && Coalesced(bs, {b}) && b in bs && bs[b].free
      requires PrevNotFree(bs, b) && NextNotFree(bs, b)
      requires keep % 4 == 0 && BLOCK_SIZE_MIN <= keep && keep + 4 + BLOCK_SIZE_MIN <= bs[b].size
      modifies this
      ensures r == b + 4 + keep && r in bs && bs[r].size == old(bs[b].size) - keep - 4 && bs[r].prev == b
      ensures bs[r].free && Consistent({}, {r}) && Coalesced(bs, {r}) && NextNotFree(bs, r)
      ensures Preserved(old(mem), mem, old(bs), bs, {})
    {
      SplitFreeStep(mem, bs, ls, ctrl, heads, b, keep);
      ghost var cs := SplitFreeB(mem, bs, b, keep);
      r := b + 4 + keep;
      SplitNextWord(mem, bs, b, keep);
      mem := Split(mem, b, keep);
      LinkAndFlagCommute(mem, b, r);
      mem := SetPrevFree(mem, r, true);
      mem := LinkNext(mem, b);
      bs := cs;
      LeadingCoalesced(bs, b, r);
      label Inserting:
      BlockInsert(b, {}, {b, r});
      assert {b, r} - {b} == {r};
      PreservedTransitive(old(mem), old@Inserting(mem), mem, old(bs), bs, bs, {});
    }

    /** `search_suitable_block`: the head of the first non-empty list at or after `(f0, s0)`. */
    method SearchSuitableBlock(f0: int, s0: int, ghost stale: set<int>, ghost hot: set<int>)
      returns (b: int, f: int, s: int)
      requires Consistent(stale, hot) && 0 <= f0 < FL_INDEX_COUNT && 0 <= s0 < SL_INDEX_COUNT
      ensures b == 0 ==> AllEmpty(ls, f0 * 32 + s0, CLASS_COUNT)
      ensures b != 0 ==> 0 <= f < FL_INDEX_COUNT && 0 <= s < SL_INDEX_COUNT && f0 * 32 + s0 <= f * 32 + s
      ensures b != 0 ==> ls[f * 32 + s] != [] && b == ls[f * 32 + s][0] && AllEmpty(ls, f0 * 32 + s0, f * 32 + s)
    {
      SearchCorrect(fl, sl, ls, f0, s0);
      f, s := f0, s0;
      var slMap := BitsFrom(sl[f], s);
      if slMap == 0 {
        var flMap := BitsFrom(fl, f + 1);
        if flMap == 0 {
          return 0, f, s;
        }
        f := Ffs(flMap);
        slMap := sl[f];
      }
      s := Ffs(slMap);
      b := heads[f * 32 + s];
      ListEntry(bs, ls, hot, f * 32 + s, 0);
      assert ShapeAt(bs, b);
    }

    /** `block_locate_free`: takes a block of at least `size` bytes out of its list. */
    method BlockLocateFree(size: nat) returns (b: int)
      requires Valid() && size % 4 == 0 && size < BLOCK_SIZE_MAX
      modifies this
      ensures bs == old(bs)
      ensures b == 0 ==> Valid() && mem == old(mem) && (size == 0 || NothingFits(bs, size))
      ensures b != 0 ==> Consistent({}, {b}) && Coalesced(bs, {}) && b in bs && bs[b].free && size <= bs[b].size
      ensures b != 0 ==> size != 0 && ClassIndex(MappingSearch(size)) <= ClassOf(bs[b].size) && GoodFit(bs, b, size)
      ensures Preserved(old(mem), mem, bs, bs, {})
    {
      b := 0;
      var f, s := 0, 0;
      if size != 0 {
        var (f0, s0) := MappingSearch(size);
        SearchRange(size);
        if f0 < FL_INDEX_COUNT {
          b, f, s := SearchSuitableBlock(f0, s0, {}, {});
          if b == 0 { EmptyMeansNothingFits(bs, ls, size, f0 * 32 + s0); }
        } else {
          TooLargeFitsNothing(bs, size);
        }
      }
      if b != 0 {
        ListEntry(bs, ls, {}, f * 32 + s, 0);
        SearchFits(size, bs[b].size);
        FirstListFits(bs, ls, b, size, f * 32 + s);
        RemoveFreeBlock(b, f, s, {}, {});
        assert {} + {b} == {b};
      }
    }

    /** `block_prepare_used`: cuts the block to size and hands it out. */
    method BlockPrepareUsed(b: int, size: nat) returns (p: int)
      requires b != 0 ==> b in bs && Consistent({}, {b}) && Coalesced(bs, {b}) && bs[b].free
      requires b != 0 ==> NextNotFree(bs, b)
      requires b != 0 ==> size % 4 == 0 && BLOCK_SIZE_MIN <= size
      modifies this
      ensures b == 0 ==> p == 0 && mem == old(mem) && bs == old(bs) && ls == old(ls)
      ensures b == 0 ==> heads == old(heads) && fl == old(fl) && sl == old(sl)
      ensures b != 0 ==> p == b + 8 && Valid() && b in bs && !bs[b].free && bs[b].size < size + 16
      ensures b != 0 ==> if size <= old(bs[b].size) then size <= bs[b].size else bs[b].size == old(bs[b].size)
      ensures b != 0 ==> Preserved(old(mem), mem, old(bs), bs, {b})
    {
      p := 0;
      if b != 0 {
        BlockTrimFree(b, size);
        label Marking:
        assert ShapeAt(bs, b);
        MarkStep(mem, bs, ls, ctrl, heads, {}, {b}, b, false);
        CoalescedMark(bs, b, false, {b});
        assert {} - {Next(bs, b)} == {} && {b} - {b} == {};
        PreservedWiden(old(mem), mem, old(bs), bs, {}, {b});
        PreservedTransitive(old(mem), mem, MarkM(mem, b, false), old(bs), bs, MarkB(bs, b, false), {b});
        mem := MarkAsUsed(mem, b);
        bs := MarkB(bs, b, false);
        CoalescedClose(bs, b);
        p := b + 8;
      }
    }

    /** `tlsf_malloc`. */
    method Malloc(size: nat) returns (p: int)
      requires Valid() && size < WORD
      modifies this
      ensures Valid()
      ensures p == 0 ==> mem == old(mem) && bs == old(bs)
      ensures p == 0 <==> size == 0 || BLOCK_SIZE_MAX - 4 < size <= WORD - 4 ||
                          old(NothingFits(bs, AdjustRequestSize(size, ALIGN_SIZE)))
      ensures p != 0 ==> Allocated(bs, p) && !old(Used(bs, p - 8)) && (size <= WORD - 4 ==> size <= bs[p - 8].size)
      ensures p != 0 ==> bs[p - 8].size < AdjustRequestSize(size, ALIGN_SIZE) + 16
      ensures p != 0 ==> GoodFit(old(bs), p - 8, AdjustRequestSize(size, ALIGN_SIZE))
      ensures p != 0 ==> Preserved(old(mem), mem, old(bs), bs, {p - 8})
    {
      AdjustedSize(size);
      var adjust := AdjustRequestSize(size, ALIGN_SIZE);
      var block := BlockLocateFree(adjust);
      if block != 0 {
        assert ShapeAt(bs, block);
        FreeNeighbours(bs, {}, block);
        CoalescedWiden(bs, {}, {block});
        SomethingFits(bs, block, adjust);
      }
      label Preparing:
      p := BlockPrepareUsed(block, adjust);
      if block != 0 {
        assert ShapeAt(bs, block);
        PreservedWiden(old(mem), old@Preparing(mem), old(bs), old(bs), {}, {block});
        PreservedTransitive(old(mem), old@Preparing(mem), mem, old(bs), old(bs), bs, {block});
      }
    }

    /** `tlsf_free`, for a pointer that is allocated, or null. */
    method Free(p: int)
      requires Valid() && (p == 0 || Allocated(bs, p))
      modifies this
      ensures Valid() && !Used(bs, p - 8)
      ensures p == 0 ==> mem == old(mem) && bs == old(bs)
      ensures p != 0 ==> Preserved(old(mem), mem, old(bs), bs, {p - 8})
    {
      if p != 0 {
        var b := p - 8;
        CoalescedWiden(bs, {}, {b});
        MarkStep(mem, bs, ls, ctrl, heads, {}, {}, b, true);
        CoalescedMark(bs, b, true, {b});
        assert {} - {Next(bs, b)} == {} && {} + {b} == {b};
        mem := MarkAsFree(mem, b);
        bs := MarkB(bs, b, true);
        label Marked:
        var r := BlockMergePrev(b);
        PreservedWiden(old@Marked(mem), mem, old@Marked(bs), bs, {}, {b});
        PreservedTransitive(old(mem), old@Marked(mem), mem, old(bs), old@Marked(bs), bs, {b});
        assert PreservedAt(old@Marked(mem), mem, old@Marked(bs), bs, b);
        assert ShapeAt(bs, r);
        label Merged:
        BlockMergeNext(r, {r});
        PreservedWiden(old@Merged(mem), mem, old@Merged(bs), bs, {}, {b});
        PreservedTransitive(old(mem), old@Merged(mem), mem, old(bs), old@Merged(bs), bs, {b});
        assert PreservedAt(old@Merged(mem), mem, old@Merged(bs), bs, b);
        CoalescedClose(bs, r);
        label Inserting:
        BlockInsert(r, {}, {r});
        assert {r} - {r} == {};
        PreservedWiden(old@Inserting(mem), mem, bs, bs, {}, {b});
        PreservedTransitive(old(mem), old@Inserting(mem), mem, old(bs), bs, bs, {b});
      } else {
        if Used(bs, p - 8) { BlockPositive(bs, p - 8); }
      }
    }

    /** The part of `tlsf_memalign` that moves a located block up to an aligned address. */
    method AlignBlock(b: int, e: nat, adjust: nat) returns (r: int)
      requires b in bs && Consistent({}, {b}) && Coalesced(bs, {}) && bs[b].free && e <= 31
      requires e <= 30 ==> BLOCK_SIZE_MIN <= adjust <= bs[b].size && (3 <= e ==> adjust + Pow2(e) + 16 <= bs[b].size)
      modifies this
      ensures r in bs && Consistent({}, {r}) && Coalesced(bs, {r}) && bs[r].free && NextNotFree(bs, r) && 0 < r
      ensures e <= 30 ==> Multiple(r + 8, Pow2(e)) && adjust <= bs[r].size && FirstPlace(b + 8, r + 8, Pow2(e))
      ensures e == 31 ==> (Multiple(r + 8, Pow2(e)) <==> AlignsToHalf(old(bs), b))
      ensures e == 31 && !AlignsToHalf(old(bs), b) ==> r == b && bs == old(bs)
      ensures Preserved(old(mem), mem, old(bs), bs, {})
    {
      FreeNeighbours(bs, {}, b);
      CoalescedWiden(bs, {}, {b});
      var gap := GapBefore(bs, b, e, adjust);
      r := b;
      if gap != 0 {
        r := BlockTrimFreeLeading(b, gap);
      }
      if e == 31 {
        assert ShapeAt(bs, r);
        HalfReached(old(bs), b, gap, r);
      }
    }

    /**
     `tlsf_memalign`, for the alignment `2^e`. At `2^31` only 12 bytes are looked for. What is found is
     aligned if it begins at the address `2^31` or reaches over it, and is returned as it is otherwise.
     */
    method Memalign(e: nat, size: nat) returns (p: int, ghost found: int)
      requires Valid() && size < WORD && e <= 31
      modifies this
      ensures Valid()
      ensures p == 0 ==> mem == old(mem) && bs == old(bs)
      ensures p == 0 <==> AlignedSize(size, Pow2(e)) == 0 || old(NothingFits(bs, AlignedSize(size, Pow2(e))))
      ensures p != 0 ==> 0 < p && Allocated(bs, p) && !old(Used(bs, p - 8))
      ensures p != 0 ==> Preserved(old(mem), mem, old(bs), bs, {p - 8})
      ensures p != 0 && e <= 30 ==> Multiple(p, Pow2(e)) && (size <= WORD - 4 ==> size <= bs[p - 8].size)
      ensures p != 0 ==> bs[p - 8].size < AdjustRequestSize(size, ALIGN_SIZE) + 16
      ensures p != 0 ==> GoodFit(old(bs), found, AlignedSize(size, Pow2(e)))
      ensures p != 0 && e <= 30 ==> FirstPlace(found + 8, p, Pow2(e))
      ensures p != 0 && e == 31 ==> (Multiple(p, Pow2(e)) <==> AlignsToHalf(old(bs), found))
      ensures p != 0 && e == 31 && !AlignsToHalf(old(bs), found) && size <= WORD - 4 ==>
        p == found + 8 && (size <= bs[p - 8].size <==> size <= old(bs)[found].size)
    {
      var adjust := AdjustRequestSize(size, ALIGN_SIZE);
      var alignedSize := AlignedSize(size, Pow2(e));
      SearchedSize(e, size, adjust, alignedSize);
      p, found := PrepareAligned(e, adjust, alignedSize);
      if p != 0 && e == 31 && !AlignsToHalf(old(bs), found) && size <= WORD - 4 {
        assert ShapeAt(old(bs), found);
        RequestFits(size, old(bs)[found].size, bs[found].size);
      }
    }

    /** `tlsf_memalign` for a size that is adjusted and one that is looked for. */
    method PrepareAligned(e: nat, adjust: nat, alignedSize: nat) returns (p: int, ghost found: int)
      requires Valid() && e <= 31 && alignedSize % 4 == 0 && alignedSize < BLOCK_SIZE_MAX
      requires alignedSize != 0 ==> adjust % 4 == 0 && BLOCK_SIZE_MIN <= adjust
      requires alignedSize != 0 && e <= 30 ==>
        adjust <= alignedSize && (3 <= e ==> adjust + Pow2(e) + 16 <= alignedSize)
      modifies this
      ensures Valid()
      ensures p == 0 ==> mem == old(mem) && bs == old(bs)
      ensures p == 0 <==> alignedSize == 0 || old(NothingFits(bs, alignedSize))
      ensures p != 0 ==> 0 < p && Allocated(bs, p) && !old(Used(bs, p - 8))
      ensures p != 0 ==> Preserved(old(mem), mem, old(bs), bs, {p - 8})
      ensures p != 0 && e <= 30 ==> Multiple(p, Pow2(e)) && adjust <= bs[p - 8].size
      ensures p != 0 ==> bs[p - 8].size < adjust + 16 && GoodFit(old(bs), found, alignedSize)
      ensures p != 0 && e <= 30 ==> FirstPlace(found + 8, p, Pow2(e))
      ensures p != 0 && e == 31 ==> (Multiple(p, Pow2(e)) <==> AlignsToHalf(old(bs), found))
      ensures p != 0 && e == 31 && !AlignsToHalf(old(bs), found) ==>
        var was, now := old(bs)[found].size, bs[p - 8].size;
        p == found + 8 && if adjust <= was then adjust <= now else now == was
    {
      var block;
      block, found := LocateAligned(e, adjust, alignedSize);
      if block != 0 { assert ShapeAt(bs, block); }
      label Preparing:
      p := BlockPrepareUsed(block, adjust);
      if block != 0 {
        assert ShapeAt(bs, block);
        PreservedWiden(old(mem), old@Preparing(mem), old(bs), old@Preparing(bs), {}, {block});
        PreservedTransitive(old(mem), old@Preparing(mem), mem, old(bs), old@Preparing(bs), bs, {block});
      }
    }

    /** A block is located and, as far as it goes, moved up to an aligned address. */
    method LocateAligned(e: nat, adjust: nat, alignedSize: nat) returns (block: int, ghost found: int)
      requires Valid() && e <= 31 && alignedSize % 4 == 0 && alignedSize < BLOCK_SIZE_MAX
      requires alignedSize != 0 && e <= 30 ==>
        BLOCK_SIZE_MIN <= adjust <= alignedSize && (3 <= e ==> adjust + Pow2(e) + 16 <= alignedSize)
      modifies this
      ensures block == 0 ==> Valid() && mem == old(mem) && bs == old(bs)
      ensures block == 0 <==> alignedSize == 0 || old(NothingFits(bs, alignedSize))
      ensures block != 0 ==>
        block in bs && Consistent({}, {block}) && Coalesced(bs, {block}) && bs[block].free && NextNotFree(bs, block)
      ensures block != 0 ==> 0 < block && !old(Used(bs, block)) && Preserved(old(mem), mem, old(bs), bs, {})
      ensures block != 0 && e <= 30 ==> Multiple(block + 8, Pow2(e)) && adjust <= bs[block].size
      ensures block != 0 ==> GoodFit(old(bs), found, alignedSize)
      ensures block != 0 && e <= 30 ==> FirstPlace(found + 8, block + 8, Pow2(e))
      ensures block != 0 && e == 31 ==> (Multiple(block + 8, Pow2(e)) <==> AlignsToHalf(old(bs), found))
      ensures block != 0 && e == 31 && !AlignsToHalf(old(bs), found) ==> block == found && bs == old(bs)
    {
      block := BlockLocateFree(alignedSize);
      found := block;
      if block != 0 {
        label Located:
        SomethingFits(bs, block, alignedSize);
        block := AlignBlock(block, e, adjust);
        PreservedTransitive(old(mem), old@Located(mem), mem, old(bs), old(bs), bs, {});
        assert PreservedAt(old(mem), mem, old(bs), bs, block);
      }
    }

    /** `memcpy` into an allocation. */
    method CopyInto(p: int, src: int, len: nat)
      requires Valid() && Allocated(bs, p) && len <= bs[p - 8].size && len % 4 == 0
      modifies this`mem
      ensures Valid() && Preserved(old(mem), mem, bs, bs, {p - 8})
      ensures Moved(old(mem), mem, src, p, len)
    {
      var m' := CopyWords(mem, p, src, len / 4);
      forall w | !(p <= w < p + bs[p - 8].size)
        ensures Rd(m', w) == Rd(mem, w)
      {
        CopyWordsOutside(mem, p, src, len / 4, w);
      }
      OwnerStores(mem, m', bs, ls, ctrl, heads, {}, {}, p - 8);
      forall i: nat | 4 * i < len
        ensures Cell(m', p, i) == Cell(mem, src, i)
      {
        CopyWordsInside(mem, p, src, len / 4, i);
      }
      mem := m';
    }

    /** The branch of `tlsf_realloc` that moves the data to a new block. */
    method ReallocMove(p: int, size: nat) returns (q: int)
      requires Valid() && size < WORD && Allocated(bs, p) && bs[p - 8].size < AdjustRequestSize(size, ALIGN_SIZE)
      modifies this
      ensures Valid()
      ensures q == 0 ==> mem == old(mem) && bs == old(bs)
      ensures q == 0 <==> old(NothingFits(bs, AdjustRequestSize(size, ALIGN_SIZE)))
      ensures q != 0 ==>
        q != p && Allocated(bs, q) && !Used(bs, p - 8) && !old(Used(bs, q - 8)) && size <= bs[q - 8].size
      ensures q != 0 ==> bs[q - 8].size < AdjustRequestSize(size, ALIGN_SIZE) + 16
      ensures q != 0 ==> Moved(old(mem), mem, p, q, old(bs[p - 8].size))
      ensures q != 0 ==> Preserved(old(mem), mem, old(bs), bs, {p - 8, q - 8})
    {
      AdjustedSize(size);
      GrowingRequest(bs, p, size);
      var curSize := BlockSize(mem, p - 8);
      ReadHeader(mem, bs, p - 8);
      q := Malloc(size);
      if q != 0 {
        assert PreservedAt(old(mem), mem, old(bs), bs, p - 8);
        PreservedWiden(old(mem), mem, old(bs), bs, {q - 8}, {p - 8, q - 8});
        var minSize := if curSize < size then curSize else size;
        label Copying:
        CopyInto(q, p, minSize);
        PreservedWiden(old@Copying(mem), mem, bs, bs, {q - 8}, {p - 8, q - 8});
        PreservedTransitive(old(mem), old@Copying(mem), mem, old(bs), bs, bs, {p - 8, q - 8});
        MovedAfterKept(old(mem), old@Copying(mem), mem, p, q, minSize);
        label Freeing:
        Free(p);
        assert PreservedAt(old@Freeing(mem), mem, old@Freeing(bs), bs, q - 8);
        MovedThenKept(old(mem), old@Freeing(mem), mem, p, q, minSize, bs[q - 8].size);
        PreservedWiden(old@Freeing(mem), mem, old@Freeing(bs), bs, {p - 8}, {p - 8, q - 8});
        PreservedTransitive(old(mem), old@Freeing(mem), mem, old(bs), old@Freeing(bs), bs, {p - 8, q - 8});
      }
    }

    /** The branch of `tlsf_realloc` that keeps the pointer, growing into the next block if needed. */
    method ReallocInPlace(p: int, adjust: nat)
      requires Valid() && Allocated(bs, p) && adjust % 4 == 0 && BLOCK_SIZE_MIN <= adjust
      requires adjust > bs[p - 8].size ==>
        NextIsFree(bs, p - 8) && adjust <= bs[p - 8].size + bs[Next(bs, p - 8)].size + 4
      modifies this
      ensures Valid() && Allocated(bs, p) && adjust <= bs[p - 8].size < adjust + 16
      ensures var was, now := old(bs[p - 8].size), bs[p - 8].size;
        Kept(old(mem), mem, p - 8, if was < now then was else now)
      ensures Preserved(old(mem), mem, old(bs), bs, {p - 8})
    {
      var b := p - 8;
      ReadHeader(mem, bs, b);
      PreservedRefl(mem, bs, {b});
      if adjust > BlockSize(mem, b) {
        CoalescedWiden(bs, {}, {b});
        BlockMergeNext(b, {});
        assert ShapeAt(bs, b);
        MarkStep(mem, bs, ls, ctrl, heads, {Next(bs, b)}, {}, b, false);
        MarkPayloads(mem, bs, b, false);
        CoalescedMark(bs, b, false, {b});
        assert {Next(bs, b)} - {Next(bs, b)} == {} && {} - {b} == {};
        assert Kept(mem, MarkAsUsed(mem, b), b, bs[b].size);
        PreservedTransitive(old(mem), mem, MarkM(mem, b, false), old(bs), bs, MarkB(bs, b, false), {b});
        mem := MarkAsUsed(mem, b);
        bs := MarkB(bs, b, false);
        CoalescedClose(bs, b);
      }
      label Trimming:
      BlockTrimUsed(b, adjust);
      PreservedTransitive(old(mem), old@Trimming(mem), mem, old(bs), old@Trimming(bs), bs, {b});
    }

    /**
     `block_trim_used` at zero bytes, which only a refused request leads to: a block of more than 12
     bytes ends up as a sentinel, and nobody can give its bytes back.
     */
    method TrimToNothing(b: int)
      requires Valid() && Used(bs, b) && bs[b].size > 0
      modifies this
      ensures Valid() && Used(bs, b) && OwnersKept(old(mem), mem, old(bs), bs, b)
      ensures bs[b].size == if old(bs[b].size) == BLOCK_SIZE_MIN then BLOCK_SIZE_MIN else 0
      ensures if old(bs[b].size) == BLOCK_SIZE_MIN then bs == old(bs) else CutPools(old(bs), bs, b)
    {
      ReadHeader(mem, bs, b);
      assert ShapeAt(bs, b);
      if BlockSize(mem, b) >= 16 {
        CutStep(mem, bs, ls, ctrl, heads, b);
        CutOwners(mem, bs, b);
        CutEnds(bs, b);
        var remaining := b + 4;
        mem := Split(mem, b, 0);
        mem := SetPrevFree(mem, remaining, false);
        bs := CutB(bs, b);
        CutIsolated(bs, remaining);
        label Merging:
        BlockMergeNext(remaining, {remaining});
        CoalescedClose(bs, remaining);
        OwnersThenPreserved(old(mem), old@Merging(mem), mem, old(bs), old@Merging(bs), bs, b);
        CutPoolsThen(old@Merging(mem), mem, old(bs), old@Merging(bs), bs, b);
        label Inserting:
        BlockInsert(remaining, {}, {remaining});
        assert {remaining} - {remaining} == {};
        OwnersThenPreserved(old(mem), old@Inserting(mem), mem, old(bs), bs, bs, b);
      }
    }

    /**
     `tlsf_realloc`. A request that `adjust_request_size` refuses is not refused for a live pointer: the
     pointer comes back, and the block behind it is too small.
     */
    method Realloc(p: int, size: nat) returns (q: int)
      requires Valid() && size < WORD && (p == 0 || Allocated(bs, p))
      modifies this
      ensures Valid()
      ensures q != 0 && size <= WORD - 4 ==> q - 8 in bs && (size <= bs[q - 8].size <==> !Refused(p, size))
      ensures Refused(p, size) ==> q == p && Used(bs, p - 8) && OwnersKept(old(mem), mem, old(bs), bs, p - 8)
      ensures Refused(p, size) ==> bs[p - 8].size == if old(bs[p - 8].size) == BLOCK_SIZE_MIN then BLOCK_SIZE_MIN else 0
      ensures Refused(p, size) ==>
        if old(bs[p - 8].size) == BLOCK_SIZE_MIN then bs == old(bs) else CutPools(old(bs), bs, p - 8)
      ensures !Refused(p, size) && q != 0 ==> Allocated(bs, q) && (q != p ==> !old(Used(bs, q - 8)))
      ensures !Refused(p, size) && q != 0 ==> bs[q - 8].size < AdjustRequestSize(size, ALIGN_SIZE) + 16
      ensures p != 0 && q != 0 ==> (q == p <==> !old(MustMove(bs, p, size)))
      ensures p != 0 && (size == 0 || (q != 0 && q != p)) ==> !Used(bs, p - 8)
      ensures size == 0 ==> q == 0
      ensures size != 0 && q == 0 ==> mem == old(mem) && bs == old(bs) && old(CannotRealloc(bs, p, size))
      ensures size != 0 && q != 0 ==> !old(CannotRealloc(bs, p, size))
      ensures !Refused(p, size) && p != 0 && q != 0 ==>
        Moved(old(mem), mem, p, q, if old(bs[p - 8].size) < bs[q - 8].size then old(bs[p - 8].size) else bs[q - 8].size)
      ensures !Refused(p, size) ==>
        Preserved(old(mem), mem, old(bs), bs, (if p != 0 then {p - 8} else {}) + (if q != 0 then {q - 8} else {}))
    {
      AdjustedSize(size);
      q := 0;
      if p != 0 && size == 0 {
        Free(p);
        assert {p - 8} + {} == {p - 8};
      } else if p == 0 {
        PreservedRefl(mem, bs, {});
        q := Malloc(size);
        assert q != 0 ==> {} + {q - 8} == {q - 8};
      } else {
        var block := p - 8;
        ReadHeader(mem, bs, block);
        assert ShapeAt(bs, block);
        var next := BlockNext(mem, block);
        ReadHeader(mem, bs, next);
        var curSize := BlockSize(mem, block);
        var combined := curSize + BlockSize(mem, next) + 4;
        var adjust := AdjustRequestSize(size, ALIGN_SIZE);
        if adjust > curSize && (!IsFree(mem, next) || adjust > combined) {
          q := ReallocMove(p, size);
          if q == 0 {
            PreservedRefl(mem, bs, {block});
            assert {block} + {} == {block};
          } else {
            assert {block} + {q - 8} == {block, q - 8};
          }
        } else if adjust == 0 {
          TrimToNothing(block);
          q := p;
        } else {
          ReallocInPlace(p, adjust);
          KeptIsMoved(old(mem), mem, block,
                      if old(bs[block].size) < bs[block].size then old(bs[block].size) else bs[block].size);
          q := p;
          assert {block} + {block} == {block};
        }
      }
    }

    /**
     `tlsf_add_pool` for unused memory. The size check lets a pool of exactly `block_size_max` bytes
     through although no free list exists for it, so that size is excluded.
     */
    method AddPool(pm: int, bytes: nat) returns (pool: int)
      requires Valid() && 8 <= pm && bytes < WORD && pm + bytes <= WORD && Unused(bs, ctrl, pm, bytes)
      requires PoolBytes(bytes) != BLOCK_SIZE_MAX
      modifies this
      ensures Valid()
      ensures pool == 0 <==> pm % 4 != 0 || !(BLOCK_SIZE_MIN <= PoolBytes(bytes) < BLOCK_SIZE_MAX)
      ensures pool == 0 ==> mem == old(mem) && bs == old(bs)
      ensures pool != 0 ==> pool == pm && bs == PoolB(old(bs), pm, PoolBytes(bytes))
      ensures pool != 0 ==> Preserved(old(mem), mem, old(bs), bs, {pm + PoolBytes(bytes)})
    {
      PoolBytesFit(bytes);
      var poolBytes := PoolBytes(bytes);
      if pm % ALIGN_SIZE != 0 {
        return 0;
      }
      if poolBytes < BLOCK_SIZE_MIN || poolBytes > BLOCK_SIZE_MAX {
        return 0;
      }
      UnusedPart(bs, ctrl, pm, bytes, poolBytes + 8);
      InstallPool(pm, poolBytes);
      pool := pm;
    }

    /** The stores of `tlsf_add_pool` once its checks have passed. */
    method InstallPool(pm: int, size: nat)
      requires Valid() && PoolFits(bs, ctrl, pm, size)
      modifies this
      ensures Valid() && bs == PoolB(old(bs), pm, size)
      ensures Preserved(old(mem), mem, old(bs), bs, {pm + size})
    {
      AddPoolStep(mem, bs, ls, ctrl, heads, pm, size);
      var block := pm - 4;
      var m := PoolHeader(mem, block, size);
      var (f, s) := MappingInsert(BlockSize(m, block));
      ClassInRange(size);
      var c := f * 32 + s;
      assert c == ClassOf(size);
      InsertBitmaps(fl, sl, ls, f, s, block, c);
      m := InsertLinks(m, ctrl, block, heads[c]);
      heads := heads[c := block];
      fl, sl := SetBit(fl, f), sl[f := SetBit(sl[f], s)];
      mem := Sentinel(m, block);
      bs, ls := PoolB(bs, pm, size), InsertL(ls, c, block);
    }
  }

  lemma UnusedPart(bs: Blocks, ctrl: int, pm: int, bytes: nat, part: nat)
    requires Unused(bs, ctrl, pm, bytes) && part <= bytes
    ensures Unused(bs, ctrl, pm, part)
  {
    forall b | b in bs ensures OutsideRegion(bs, b, pm, part) { assert OutsideRegion(bs, b, pm, bytes); }
  }

  /** The stores of `tlsf_add_pool`, in the order it makes them, give a heap with one more pool. */
  lemma AddPoolStep(m: Memory, bs: Blocks, ls: Lists, ctrl: int, heads: seq<int>, pm: int, size: nat)
    requires Agrees(m, bs, ls, ctrl, heads, {}, {}) && Coalesced(bs, {}) && PoolFits(bs, ctrl, pm, size)
    ensures var b, c := pm - 4, ClassOf(size);
            && 0 <= c < CLASS_COUNT && BlockSize(PoolHeader(m, b, size), b) == size
            && var m' := Sentinel(InsertLinks(PoolHeader(m, b, size), ctrl, b, heads[c]), b);
               var cs := PoolB(bs, pm, size);
               && Agrees(m', cs, InsertL(ls, c, b), ctrl, heads[c := b], {}, {})
               && Coalesced(cs, {}) && Preserved(m, m', bs, cs, {pm + size})
  {
    var b, c, cs := pm - 4, ClassOf(size), PoolB(bs, pm, size);
    ClassInRange(size);
    PoolStep(m, bs, ls, ctrl, heads, pm, size);
    LinkTargetOutside(bs, ls, ctrl, heads, c, pm, size);
    PoolStoresCommute(m, ctrl, pm, size, heads[c]);
    var m2 := PoolM(m, pm, size);
    InsertStep(m2, cs, ls, {b}, ctrl, heads, b, c);
    InsertListed(cs, ls, {b}, b, c);
    assert {b} - {b} == {};
    PreservedWiden(m2, InsertLinks(m2, ctrl, b, heads[c]), cs, cs, {}, {pm + size});
    PreservedTransitive(m, m2, InsertLinks(m2, ctrl, b, heads[c]), bs, cs, cs, {pm + size});
  }

  /** Writing the sentinel after linking the block is as good as before. */
  lemma PoolStoresCommute(m: Memory, ctrl: int, pm: int, size: nat, h: int)
    requires size % 4 == 0 && BLOCK_SIZE_MIN <= size && (h + 16 <= pm || pm + size + 8 <= h + 4)
    ensures BlockSize(PoolHeader(m, pm - 4, size), pm - 4) == size
    ensures Sentinel(InsertLinks(PoolHeader(m, pm - 4, size), ctrl, pm - 4, h), pm - 4) ==
      InsertLinks(PoolM(m, pm, size), ctrl, pm - 4, h)
  {
    var m1 := PoolHeader(m, pm - 4, size);
    PoolHeaderValue(m, pm - 4, size);
    SentinelCommutes(m1, ctrl, pm - 4, size, h);
    assert m1[pm + size := pm - 4][pm + size + 4 := 2] == PoolM(m, pm, size);
  }

  lemma SentinelCommutes(m: Memory, ctrl: int, b: int, size: nat, h: int)
    requires Rd(m, b + 4) == size + 1 && size % 4 == 0 && BLOCK_SIZE_MIN <= size && (h + 12 <= b || b + size + 8 <= h)
    ensures Sentinel(InsertLinks(m, ctrl, b, h), b) == InsertLinks(m[b + 4 + size := b][b + 8 + size := 2], ctrl, b, h)
  {
    SentinelValue(InsertLinks(m, ctrl, b, h), b, size);
  }

  lemma LinkTargetOutside(bs: Blocks, ls: Lists, ctrl: int, heads: seq<int>, c: int, pm: int, size: nat)
    requires Shape(bs) && Listed(bs, ls, {}) && |heads| == CLASS_COUNT && 0 <= c < CLASS_COUNT
    requires heads[c] == Entry(ls[c], 0, ctrl)
    requires PoolFits(bs, ctrl, pm, size)
    ensures heads[c] + 16 <= pm || pm + size + 8 <= heads[c] + 4
  {
    if |ls[c]| > 0 {
      ListEntry(bs, ls, {}, c, 0);
      OutsideIt(bs, ctrl, pm, size, heads[c]);
      assert ShapeAt(bs, heads[c]);
    }
  }

  /** Everybody but the owner of `b` has the same bytes at the same place. */
  ghost predicate OwnersKept(m: Memory, m': Memory, bs: Blocks, cs: Blocks, b: int) {
    forall x {:trigger OwnerKept(m, m', bs, cs, x)} :: x != b ==> OwnerKept(m, m', bs, cs, x)
  }

  ghost predicate OwnerKept(m: Memory, m': Memory, bs: Blocks, cs: Blocks, x: int) {
    && (Used(bs, x) <==> Used(cs, x))
    && (Used(bs, x) && x in cs ==> cs[x].size == bs[x].size && Kept(m, m', x, bs[x].size))
  }

  lemma CutOwners(m: Memory, bs: Blocks, b: int)
    requires Shape(bs) && Cuttable(bs, b) && PayloadsKept(m, CutM(m, b), bs, {b})
    ensures OwnersKept(m, CutM(m, b), bs, CutB(bs, b), b) && Used(CutB(bs, b), b) && CutB(bs, b)[b].size == 0
  {
    CutNew(bs, b);
    forall x | x != b ensures OwnerKept(m, CutM(m, b), bs, CutB(bs, b), x) {
      if Used(bs, x) { assert Kept(m, CutM(m, b), x, bs[x].size); }
    }
  }

  /** The rest begins a pool. */
  lemma CutIsolated(bs: Blocks, r: int)
    requires Shape(bs) && r in bs && bs[r].prev == -1
    ensures PrevNotFree(bs, r)
  {
    NoBlockAtMinusOne(bs);
  }

  lemma OwnersThenPreserved(m: Memory, m': Memory, m'': Memory, bs: Blocks, cs: Blocks, ds: Blocks, b: int)
    requires OwnersKept(m, m', bs, cs, b) && Preserved(m', m'', cs, ds, {}) && Used(cs, b)
    ensures OwnersKept(m, m'', bs, ds, b) && Used(ds, b) && ds[b].size == cs[b].size
  {
    assert PreservedAt(m', m'', cs, ds, b);
    forall x | x != b ensures OwnerKept(m, m'', bs, ds, x) {
      assert OwnerKept(m, m', bs, cs, x) && PreservedAt(m', m'', cs, ds, x);
    }
  }

  /** A request that cannot be adjusted, for a live pointer. */
  predicate Refused(p: int, size: nat) {
    p != 0 && size != 0 && AdjustRequestSize(size, ALIGN_SIZE) == 0
  }

  /** When `tlsf_realloc` fails: it must move the block, and no free block is large enough. */
  ghost predicate CannotRealloc(bs: Blocks, p: int, size: nat) {
    var adjust := AdjustRequestSize(size, ALIGN_SIZE);
    (adjust == 0 || NothingFits(bs, adjust)) && (p != 0 && p - 8 in bs ==> MustMove(bs, p, size))
  }

  /** The request outgrows the block, and the block with the free one behind it. */
  ghost predicate MustMove(bs: Blocks, p: int, size: nat)
    requires p - 8 in bs
  {
    var adjust, b := AdjustRequestSize(size, ALIGN_SIZE), p - 8;
    adjust > bs[b].size && (NextIsFree(bs, b) ==> adjust > bs[b].size + bs[Next(bs, b)].size + 4)
  }

  /** A request that outgrows a block is larger than the block, before rounding too. */
  lemma GrowingRequest(bs: Blocks, p: int, size: nat)
    requires Shape(bs) && Allocated(bs, p) && size < WORD && bs[p - 8].size < AdjustRequestSize(size, ALIGN_SIZE)
    ensures bs[p - 8].size < size <= WORD - 4 && bs[p - 8].size % 4 == 0
  {
    AdjustedSize(size);
    assert ShapeAt(bs, p - 8);
    var a := AlignUp(size, ALIGN_SIZE);
    MultipleOfFour(a, 4);
    AlignUpIsNext(size, ALIGN_SIZE);
  }

  lemma KeptIsMoved(m: Memory, m': Memory, b: int, len: int)
    requires Kept(m, m', b, len)
    ensures Moved(m, m', b + 8, b + 8, len)
  {
  }

  /** Data that was kept until it was copied. */
  lemma MovedAfterKept(m0: Memory, m: Memory, m': Memory, p: int, q: int, len: int)
    requires Kept(m0, m, p - 8, len) && Moved(m, m', p, q, len)
    ensures Moved(m0, m', p, q, len)
  {
    forall i: nat | 4 * i < len ensures Cell(m', q, i) == Cell(m0, p, i) { assert Cell(m, p, i) == Cell(m0, p, i); }
  }

  /** Data that is kept after it was copied. */
  lemma MovedThenKept(m0: Memory, m: Memory, m': Memory, p: int, q: int, len: int, size: int)
    requires Moved(m0, m, p, q, len) && Kept(m, m', q - 8, size) && len <= size
    ensures Moved(m0, m', p, q, len)
  {
    forall i: nat | 4 * i < len ensures Cell(m', q, i) == Cell(m0, p, i) { assert Cell(m, q, i) == Cell(m0, p, i); }
  }

  /** The pointer arithmetic of `tlsf_memalign`: the bytes to leave before an aligned block. */
  method FindGap(ptr: nat, align: nat) returns (gap: int)
    requires 0 < align
    ensures gap == AlignedGap(ptr, align)
  {
    var aligned := AlignUp(ptr, align);
    gap := Distance(ptr, aligned);
    if gap != 0 && gap < 16 {
      var gapRemain := 16 - gap;
      var offset := if gapRemain > align then gapRemain else align;
      aligned := AlignUp(aligned + offset, align);
      gap := Distance(ptr, aligned);
    }
  }

  /** The first aligned place in a block of `size` bytes at `ptr`, with `adjust` bytes behind it. */
  ghost predicate GapFor(ptr: int, size: nat, e: nat, adjust: nat, gap: int) {
    && 0 <= ptr && 0 <= gap && gap % 4 == 0 && Multiple(ptr + gap, Pow2(e)) && FirstPlace(ptr, ptr + gap, Pow2(e))
    && (gap != 0 ==> 16 <= gap && 16 + gap <= size) && adjust + gap <= size
  }

  ghost predicate HugeGapFor(ptr: int, size: nat, gap: int) {
    0 <= ptr && 0 <= gap && gap % 4 == 0 && (gap != 0 ==> 16 <= gap) && HalfGap(ptr, size, gap)
  }

  /** The gap before a located block: what can be made of it. */
  method GapBefore(ghost bs: Blocks, b: int, e: nat, ghost adjust: nat) returns (gap: int)
    requires Shape(bs) && b in bs && bs[b].free && e <= 31
    requires e <= 30 ==> BLOCK_SIZE_MIN <= adjust <= bs[b].size && (3 <= e ==> adjust + Pow2(e) + 16 <= bs[b].size)
    ensures 0 < b && if e == 31 then HugeGapFor(b + 8, bs[b].size, gap) else GapFor(b + 8, bs[b].size, e, adjust, gap)
  {
    if e == 31 {
      HugeBlock(bs, b, b + 8);
    } else {
      AlignableBlock(bs, b, b + 8, e, adjust);
    }
    gap := FindGap(b + 8, Pow2(e));
  }

  /** The size that is looked for: for alignments up to `2^30` it has room for the gap. */
  lemma SearchedSize(e: nat, size: nat, adjust: nat, searched: nat)
    requires e <= 31 && size < WORD && adjust == AdjustRequestSize(size, ALIGN_SIZE)
    requires searched == AlignedSize(size, Pow2(e))
    ensures searched % 4 == 0 && searched < BLOCK_SIZE_MAX && (searched != 0 ==> adjust != 0)
    ensures adjust % 4 == 0 && (adjust != 0 ==> BLOCK_SIZE_MIN <= adjust && (size <= WORD - 4 ==> size <= adjust))
    ensures searched != 0 && e <= 30 ==> adjust <= searched && (3 <= e ==> adjust + Pow2(e) + 16 <= searched)
  {
    AdjustedSize(size);
    if e == 31 { AlignedSizeWraps(size); } else { AlignedSizeMeaning(size, e); }
  }

  /** The block begins its bytes at the address `2^31`, or can be split there. */
  ghost predicate AlignsToHalf(bs: Blocks, b: int)
    requires b in bs
  {
    0 < b && (b + 8 == HALF || ReachesHalf(b + 8, bs[b].size))
  }

  lemma HugeBlock(bs: Blocks, b: int, ptr: int)
    requires Shape(bs) && b in bs && bs[b].free && ptr == b + 8
    ensures 0 < b && HugeGapFor(ptr, bs[b].size, AlignedGap(ptr, Pow2(31)))
  {
    assert ShapeAt(bs, b) && ShapeAt(bs, Next(bs, b));
    HugeGap(ptr, bs[b].size);
  }

  lemma HalfReached(bs: Blocks, b: int, gap: int, r: int)
    requires b in bs && 0 < b && 0 < r && r + 8 < WORD && HalfGap(b + 8, bs[b].size, gap)
    requires r == if gap != 0 && gap + 16 <= bs[b].size then b + gap else b
    ensures Multiple(r + 8, Pow2(31)) <==> AlignsToHalf(bs, b)
  {
    Pow2Word();
    HalfIsAlone(r + 8);
  }

  lemma AlignableBlock(bs: Blocks, b: int, ptr: int, e: nat, adjust: nat)
    requires Shape(bs) && b in bs && bs[b].free && ptr == b + 8 && e <= 30
    requires BLOCK_SIZE_MIN <= adjust <= bs[b].size && (3 <= e ==> adjust + Pow2(e) + 16 <= bs[b].size)
    ensures 0 < b && GapFor(ptr, bs[b].size, e, adjust, AlignedGap(ptr, Pow2(e)))
  {
    assert ShapeAt(bs, b) && ShapeAt(bs, Next(bs, b));
    MemalignGap(ptr, e, adjust, bs[b].size);
    GapIsLeast(ptr, e, bs[b].size);
  }

  ghost predicate Used(bs: Blocks, b: int) {
    b in bs && !bs[b].free
  }

  /** `p` points at the bytes of a used block that is no sentinel. */
  ghost predicate Allocated(bs: Blocks, p: int) {
    Used(bs, p - 8) && bs[p - 8].size > 0
  }

  lemma AllocatedPositive(bs: Blocks, p: int)
    requires Shape(bs) && Allocated(bs, p)
    ensures 8 < p
  {
    assert ShapeAt(bs, p - 8);
  }

  /** A block that was large enough when the search found it refutes `NothingFits`. */
  lemma SomethingFits(bs: Blocks, b: int, size: nat)
    requires b in bs && bs[b].free && ClassIndex(MappingSearch(size)) <= ClassOf(bs[b].size)
    ensures !NothingFits(bs, size)
  {
    if NothingFits(bs, size) { NotTooSmall(bs, b, size); }
  }

  lemma NotTooSmall(bs: Blocks, b: int, size: nat)
    requires b in bs && bs[b].free && NothingFits(bs, size)
    ensures ClassOf(bs[b].size) < ClassIndex(MappingSearch(size))
  {
    assert TooSmall(bs, b, size);
  }

  /** The class that the two bitmap lookups find, from class `(f, s)` on. */
  ghost predicate FindsFirst(ls: Lists, f: int, s: int, f': int, s': int) {
    && |ls| == CLASS_COUNT && 0 <= f' < FL_INDEX_COUNT && 0 <= s' < SL_INDEX_COUNT
    && f * 32 + s <= f' * 32 + s' && ls[f' * 32 + s'] != [] && AllEmpty(ls, f * 32 + s, f' * 32 + s')
  }

  lemma SearchInRow(fl: nat, sl: seq<nat>, ls: Lists, f: int, s: int)
    requires BitmapsRep(fl, sl, ls) && 0 <= f < FL_INDEX_COUNT && 0 <= s < SL_INDEX_COUNT
    ensures var x := BitsFrom(sl[f], s);
            if x == 0 then AllEmpty(ls, f * 32 + s, f * 32 + 32) else FindsFirst(ls, f, s, f, Ffs(x))
  {
    FirstFrom(sl[f], s);
    assert RowRep(fl, sl, ls, f);
    if BitsFrom(sl[f], s) == 0 {
      RowEmpty(fl, sl, ls, f, s, 32);
    } else {
      var t: nat := Ffs(BitsFrom(sl[f], s));
      assert Bit(sl[f], t);
      RowEmpty(fl, sl, ls, f, s, t);
    }
  }

  lemma SearchRows(fl: nat, sl: seq<nat>, ls: Lists, f: nat)
    requires BitmapsRep(fl, sl, ls) && f <= FL_INDEX_COUNT
    ensures var x, g := BitsFrom(fl, f), Ffs(BitsFrom(fl, f));
            if x == 0 then AllEmpty(ls, f * 32, CLASS_COUNT)
            else f <= g < FL_INDEX_COUNT && FindsFirst(ls, f, 0, g, Ffs(sl[g]))
  {
    FirstFrom(fl, f);
    if BitsFrom(fl, f) == 0 {
      RowsEmpty(fl, sl, ls, f, FL_INDEX_COUNT);
    } else {
      var g: nat := Ffs(BitsFrom(fl, f));
      assert Bit(fl, g);
      RowsEmpty(fl, sl, ls, f, g);
      assert RowRep(fl, sl, ls, g);
      assert BitsFrom(sl[g], 0) == sl[g];
      SearchInRow(fl, sl, ls, g, 0);
    }
  }

  lemma SearchCorrect(fl: nat, sl: seq<nat>, ls: Lists, f: int, s: int)
    requires BitmapsRep(fl, sl, ls) && 0 <= f < FL_INDEX_COUNT && 0 <= s < SL_INDEX_COUNT
    ensures var x, y, g := BitsFrom(sl[f], s), BitsFrom(fl, f + 1), Ffs(BitsFrom(fl, f + 1));
            if x != 0 then FindsFirst(ls, f, s, f, Ffs(x))
            else if y == 0 then AllEmpty(ls, f * 32 + s, CLASS_COUNT)
            else 0 <= g < FL_INDEX_COUNT && FindsFirst(ls, f, s, g, Ffs(sl[g]))
  {
    SearchInRow(fl, sl, ls, f, s);
    SearchRows(fl, sl, ls, f + 1);
  }

  /** No list from class `c` up to class `d` has a member. */
  ghost predicate AllEmpty(ls: Lists, c: int, d: int) {
    forall i {:trigger ls[i]} :: c <= i < d && 0 <= i < |ls| ==> ls[i] == []
  }

  /** Masking the bits below `i` and taking the lowest finds the first set bit from `i` on. */
  lemma FirstFrom(m: nat, i: nat)
    ensures var x, r := BitsFrom(m, i), Ffs(BitsFrom(m, i));
            if x == 0 then forall t: nat :: i <= t ==> !Bit(m, t)
            else i <= r && Bit(m, r) && forall t: nat :: i <= t < r ==> !Bit(m, t)
  {
    var x, r := BitsFrom(m, i), Ffs(BitsFrom(m, i));
    forall t: nat | i <= t
      ensures x == 0 || t < r ==> !Bit(m, t)
    {
      BitsFromMeaning(m, i, t);
      if Bit(x, t) { BitMeansNonZero(x, t); }
    }
    if x != 0 { BitsFromMeaning(m, i, r); }
  }

  lemma RowEmpty(fl: nat, sl: seq<nat>, ls: Lists, f: int, lo: nat, hi: nat)
    requires BitmapsRep(fl, sl, ls) && 0 <= f < FL_INDEX_COUNT && hi <= 32
    requires forall t: nat :: lo <= t < hi ==> !Bit(sl[f], t)
    ensures AllEmpty(ls, f * 32 + lo, f * 32 + hi)
  {
    assert RowRep(fl, sl, ls, f);
    forall i | f * 32 + lo <= i < f * 32 + hi
      ensures ls[i] == []
    {
      var t: nat := i - f * 32;
      assert !Bit(sl[f], t);
    }
  }

  lemma RowsEmpty(fl: nat, sl: seq<nat>, ls: Lists, g: nat, f: nat)
    requires BitmapsRep(fl, sl, ls) && g <= f <= FL_INDEX_COUNT
    requires forall t: nat :: g <= t < f ==> !Bit(fl, t)
    ensures AllEmpty(ls, g * 32, f * 32)
  {
    forall i | g * 32 <= i < f * 32
      ensures ls[i] == []
    {
      var h: nat := i / 32;
      assert RowRep(fl, sl, ls, h) && !Bit(fl, h);
      ZeroHasNoBits(i % 32);
      assert !Bit(sl[h], i % 32);
    }
  }

  ghost predicate NextIsFree(bs: Blocks, b: int)
    requires b in bs
  {
    Next(bs, b) in bs && bs[Next(bs, b)].free
  }

  /** The block after a free block that follows `b` is not free. */
  lemma MergeNextFacts(bs: Blocks, b: int)
    requires Shape(bs) && Coalesced(bs, {b}) && b in bs && bs[b].size > 0 && NextIsFree(bs, b)
    ensures Adjacent(bs, b, Next(bs, b)) && NextNotFree(bs, Next(bs, b)) && b < Next(bs, b)
    ensures Next(bs, Next(bs, b)) in bs && Next(bs, Next(bs, b)) != b
  {
    var n := Next(bs, b);
    assert ShapeAt(bs, b) && ShapeAt(bs, n);
    FreeNeighbours(bs, {b}, n);
  }

  lemma PreservedWiden(m: Memory, m': Memory, bs: Blocks, cs: Blocks, exc: set<int>, exc': set<int>)
    requires Preserved(m, m', bs, cs, exc) && exc <= exc'
    ensures Preserved(m, m', bs, cs, exc')
  {
    forall x | x !in exc' ensures PreservedAt(m, m', bs, cs, x) { assert PreservedAt(m, m', bs, cs, x); }
  }

  /** The neighbours of a list member can be written through their links. */
  lemma NeighboursLinkable(bs: Blocks, ls: Lists, hot: set<int>, ctrl: int, c: int, k: nat)
    requires Listed(bs, ls, hot) && 0 <= c < |ls| && k < |ls[c]|
    ensures Linkable(bs, ctrl, Entry(ls[c], k - 1, ctrl)) && Linkable(bs, ctrl, Entry(ls[c], k + 1, ctrl))
  {
    if k > 0 { ListEntry(bs, ls, hot, c, k - 1); }
    if k + 1 < |ls[c]| { ListEntry(bs, ls, hot, c, k + 1); }
  }

  lemma ControlIsNot(bs: Blocks, ctrl: int, b: int)
    requires ControlApart(bs, ctrl) && b in bs
    ensures b != ctrl
  {
    assert ClearOf(bs, b, ctrl);
  }

  lemma ControlIsNoBlock(bs: Blocks, ctrl: int)
    requires ControlApart(bs, ctrl)
    ensures ctrl !in bs
  {
    if ctrl in bs { ControlIsNot(bs, ctrl, ctrl); }
  }

  /** The stores of `remove_free_block`: what the memory means afterwards. */
  lemma RemoveStep(m: Memory, bs: Blocks, ls: Lists, hot: set<int>, ctrl: int, heads: seq<int>, c: int, k: nat)
    requires Shape(bs) && ControlApart(bs, ctrl) && Rep(m, bs) && Listed(bs, ls, hot) && ListsRep(m, ctrl, heads, ls)
    requires 0 <= c < CLASS_COUNT && k < |ls[c]|
    ensures var p, n := Rd(m, ls[c][k] + 12), Rd(m, ls[c][k] + 8);
            && p == Entry(ls[c], k - 1, ctrl) && n == Entry(ls[c], k + 1, ctrl)
            && (n == ctrl <==> k + 1 == |ls[c]|) && (heads[c] == ls[c][k] <==> k == 0)
            && Rep(RemoveLinks(m, p, n), bs) && Preserved(m, RemoveLinks(m, p, n), bs, bs, {})
            && ListsRep(RemoveLinks(m, p, n), ctrl, if k == 0 then heads[c := n] else heads, RemoveL(ls, c, k))
  {
    assert Linked(m, ctrl, ls[c]) && LinkAt(m, ctrl, ls[c], k) && NoDuplicates(ls[c]);
    var p, n := Entry(ls[c], k - 1, ctrl), Entry(ls[c], k + 1, ctrl);
    RemoveListsRep(m, bs, ls, hot, ctrl, heads, c, k);
    NeighboursLinkable(bs, ls, hot, ctrl, c, k);
    RemoveFrame(m, bs, ctrl, p, n);
    ControlIsNoBlock(bs, ctrl);
    FreeStoresPreserve(m, RemoveLinks(m, p, n), bs, {p, n});
    assert heads[c] == Entry(ls[c], 0, ctrl);
    if k + 1 < |ls[c]| { ListEntry(bs, ls, hot, c, k + 1); }
  }

  lemma RemoveBitmaps(fl: nat, sl: seq<nat>, ls: Lists, f: int, s: int, k: nat)
    requires BitmapsRep(fl, sl, ls) && 0 <= f < FL_INDEX_COUNT && 0 <= s < SL_INDEX_COUNT && k < |ls[f * 32 + s]|
    ensures var row := ClearBit(sl[f], s);
            if |ls[f * 32 + s]| == 1
            then BitmapsRep(if row == 0 then ClearBit(fl, f) else fl, sl[f := row], RemoveL(ls, f * 32 + s, k))
            else BitmapsRep(fl, sl, RemoveL(ls, f * 32 + s, k))
  {
    var c := f * 32 + s;
    if |ls[c]| == 1 {
      EmptyBitmaps(fl, sl, ls, f, s);
      assert Without(ls[c], k) == [];
    } else {
      SameBitmaps(fl, sl, ls, c, Without(ls[c], k));
    }
  }

  /** The stores of `insert_free_block`: what the memory means afterwards. */
  lemma InsertStep(m: Memory, bs: Blocks, ls: Lists, hot: set<int>, ctrl: int, heads: seq<int>, b: int, c: int)
    requires Shape(bs) && ControlApart(bs, ctrl) && Rep(m, bs) && Listed(bs, ls, hot) && ListsRep(m, ctrl, heads, ls)
    requires b in bs && bs[b].free && b in hot && 0 <= c < CLASS_COUNT
    ensures var m' := InsertLinks(m, ctrl, b, heads[c]);
            && Rep(m', bs) && Preserved(m, m', bs, bs, {})
            && ListsRep(m', ctrl, heads[c := b], InsertL(ls, c, b))
  {
    InsertListsRep(m, bs, ls, hot, ctrl, heads, b, c);
    assert heads[c] == Entry(ls[c], 0, ctrl);
    if |ls[c]| > 0 { ListEntry(bs, ls, hot, c, 0); }
    InsertFrame(m, bs, ctrl, b, heads[c]);
    ControlIsNoBlock(bs, ctrl);
    FreeStoresPreserve(m, InsertLinks(m, ctrl, b, heads[c]), bs, {b, heads[c]});
  }

  /** What a split does to the block, its rest and its neighbours. */
  lemma SplitFacts(m: Memory, bs: Blocks, b: int, size: nat)
    requires Shape(bs) && Splittable(bs, b, size) && Next(bs, b) in bs && b + 4 + size !in bs
    ensures var r, cs := b + 4 + size, SplitBG(m, bs, b, size);
            && cs[b] == bs[b].(size := size) && cs[r].size == bs[b].size - size - 4 && cs[r].free && cs[r].prev == b
            && Next(cs, b) == r && Next(cs, r) == Next(bs, b)
            && (PrevNotFree(bs, b) ==> PrevNotFree(cs, b)) && (NextNotFree(bs, b) ==> NextNotFree(cs, r))
  {
    assert ShapeAt(bs, b);
  }

  /** The flag of the rest of a split block is set right by every caller. */
  lemma FlagAfterSplit(m: Memory, m': Memory, bs: Blocks, cs: Blocks, ls: Lists, ctrl: int, heads: seq<int>, n: int,
                       hot: set<int>, r: int, free: bool, exc: set<int>)
    requires Agrees(m', cs, ls, ctrl, heads, {} - {n} + {r}, hot) && Preserved(m, m', bs, cs, exc)
    requires r in cs && free == (cs[r].prev in cs && cs[cs[r].prev].free)
    ensures Agrees(SetPrevFree(m', r, free), FlagB(cs, r, free), ls, ctrl, heads, {}, hot)
    ensures Preserved(m, SetPrevFree(m', r, free), bs, FlagB(cs, r, free), exc)
  {
    FlagStep(m', cs, ls, ctrl, heads, {} - {n} + {r}, hot, r, free);
    assert {} - {n} + {r} - {r} == {};
    PreservedWiden(m', SetPrevFree(m', r, free), cs, FlagB(cs, r, free), {}, exc);
    PreservedTransitive(m, m', SetPrevFree(m', r, free), bs, cs, FlagB(cs, r, free), exc);
  }

  /** A free block split at `size`, its rest flagged as following a free block. */
  ghost function SplitFreeB(m: Memory, bs: Blocks, b: int, size: nat): Blocks
    requires b in bs && Next(bs, b) in bs && size + 4 <= bs[b].size
  {
    FlagB(SplitBG(m, bs, b, size), b + 4 + size, true)
  }

  lemma SplitFreeStep(m: Memory, bs: Blocks, ls: Lists, ctrl: int, heads: seq<int>, b: int, size: nat)
    requires Agrees(m, bs, ls, ctrl, heads, {}, {b}) && Splittable(bs, b, size) && bs[b].free && Coalesced(bs, {b})
    ensures Next(bs, b) in bs
    ensures var r, cs := b + 4 + size, SplitFreeB(m, bs, b, size);
            var m' := SetPrevFree(LinkNext(Split(m, b, size), b), r, true);
            && Agrees(m', cs, ls, ctrl, heads, {}, {b, r}) && Preserved(m, m', bs, cs, {}) && Coalesced(cs, {b, r})
            && b in cs && r in cs && cs[b] == bs[b].(size := size) && cs[r].size == bs[b].size - size - 4 && cs[r].free
            && cs[r].prev == b && r != b
            && (PrevNotFree(bs, b) ==> PrevNotFree(cs, b)) && (NextNotFree(bs, b) ==> NextNotFree(cs, r))
  {
    var r, n := b + 4 + size, Next(bs, b);
    var m1 := LinkNext(Split(m, b, size), b);
    SplitStep(m, bs, ls, ctrl, heads, {}, {b}, b, size);
    SplitFacts(m, bs, b, size);
    CoalescedSplit(m, bs, b, size, {b});
    assert {b} + {r} == {b, r};
    var cs := SplitBG(m, bs, b, size);
    FlagAfterSplit(m, m1, bs, cs, ls, ctrl, heads, n, {b, r}, r, true, {});
    CoalescedFlag(cs, r, true, {b, r});
  }

  lemma TrimmedCoalesced(bs: Blocks, b: int, r: int)
    requires Shape(bs) && Coalesced(bs, {b, r}) && b in bs && r in bs && bs[r].prev == b && NextNotFree(bs, r)
    ensures Coalesced(bs, {b})
  {
    forall c | c in bs
      ensures CoalescedAt(bs, c, {b})
    {
      assert CoalescedAt(bs, c, {b, r});
      if bs[c].prev in bs { PrevOf(bs, c); }
    }
  }

  /** A used block does not stop the block after it from being merged. */
  lemma RestCoalesced(bs: Blocks, b: int, r: int)
    requires Shape(bs) && Coalesced(bs, {b} + {r}) && b in bs && !bs[b].free && r in bs && bs[r].prev == b
    ensures Coalesced(bs, {r}) && PrevNotFree(bs, r)
  {
    forall c | c in bs
      ensures CoalescedAt(bs, c, {r})
    {
      assert CoalescedAt(bs, c, {b} + {r});
    }
  }

  lemma SetFlagKeeps(bs: Blocks, m: Memory, r: int, b: int, size: int)
    requires Shape(bs) && b in bs && r in bs && size <= bs[b].size
    ensures Kept(m, SetPrevFree(m, r, false), b, size)
  {
    forall w | b + 8 <= w < b + 8 + size
      ensures Rd(SetPrevFree(m, r, false), w) == Rd(m, w)
    {
      PayloadWord(bs, b, r, w);
    }
  }

  lemma PreservedRefl(m: Memory, bs: Blocks, exc: set<int>)
    ensures Preserved(m, m, bs, bs, exc)
  {
  }

  lemma LinkAndFlagCommute(m: Memory, b: int, r: int)
    requires BlockNext(m, b) == r && b + 4 < r
    ensures LinkNext(SetPrevFree(m, r, true), b) == SetPrevFree(LinkNext(m, b), r, true)
  {
    var x, y := LinkNext(SetPrevFree(m, r, true), b), SetPrevFree(LinkNext(m, b), r, true);
    assert x.Keys == y.Keys;
  }

  lemma LeadingCoalesced(bs: Blocks, b: int, r: int)
    requires Shape(bs) && Coalesced(bs, {b, r}) && b in bs && r in bs && bs[r].prev == b && PrevNotFree(bs, b)
    ensures Coalesced(bs, {r})
  {
    forall c | c in bs
      ensures CoalescedAt(bs, c, {r})
    {
      assert CoalescedAt(bs, c, {b, r});
      if bs[c].prev in bs { PrevOf(bs, c); PrevOf(bs, r); }
    }
  }

  /** Every free block is in a class below the one the search for `size` starts from. */
  ghost predicate NothingFits(bs: Blocks, size: nat) {
    forall b {:trigger TooSmall(bs, b, size)} :: b in bs && bs[b].free ==> TooSmall(bs, b, size)
  }

  ghost predicate TooSmall(bs: Blocks, b: int, size: nat)
    requires b in bs
  {
    ClassOf(bs[b].size) < ClassIndex(MappingSearch(size))
  }

  lemma SearchRange(size: nat)
    ensures var (f, s) := MappingSearch(size); 0 <= f && 0 <= s < SL_INDEX_COUNT
  {
    ClassInRange(if size >= SMALL_BLOCK_SIZE then Rounded(size) else size);
  }

  lemma EmptyMeansNothingFits(bs: Blocks, ls: Lists, size: nat, c: int)
    requires Shape(bs) && Listed(bs, ls, {}) && AllEmpty(ls, c, CLASS_COUNT) && c == ClassIndex(MappingSearch(size))
    ensures NothingFits(bs, size)
  {
    forall b | b in bs && bs[b].free
      ensures TooSmall(bs, b, size)
    {
      assert InItsList(bs, ls, {}, b);
    }
  }

  /** No free block in the range of the search is in a lower class. */
  ghost predicate GoodFit(bs: Blocks, b: int, size: nat) {
    && b in bs && bs[b].free
    && forall c {:trigger TooSmall(bs, c, size)} :: c in bs && bs[c].free ==>
         TooSmall(bs, c, size) || ClassOf(bs[b].size) <= ClassOf(bs[c].size)
  }

  lemma FirstListFits(bs: Blocks, ls: Lists, b: int, size: nat, c: int)
    requires Shape(bs) && Listed(bs, ls, {}) && b in bs && bs[b].free && ClassOf(bs[b].size) == c
    requires AllEmpty(ls, ClassIndex(MappingSearch(size)), c)
    ensures GoodFit(bs, b, size)
  {
    forall x | x in bs && bs[x].free ensures TooSmall(bs, x, size) || c <= ClassOf(bs[x].size) {
      assert InItsList(bs, ls, {}, x);
    }
  }

  lemma TooLargeFitsNothing(bs: Blocks, size: nat)
    requires Shape(bs) && MappingSearch(size).0 >= FL_INDEX_COUNT
    ensures NothingFits(bs, size)
  {
    SearchRange(size);
    forall b | b in bs && bs[b].free
      ensures TooSmall(bs, b, size)
    {
      SizeBelowMax(bs, b);
      ClassInRange(bs[b].size);
    }
  }
}
