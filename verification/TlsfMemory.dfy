/**
 The memory that libyaul/kernel/mm/tlsf.c manages, as 32-bit words at byte addresses, and its
 header accessors. A block header at address `b` has its `prev_phys_block` field at `b` (the last
 word of the previous block), its size word at `b + 4` and its two list links at `b + 8` and
 `b + 12` (inside the block's own bytes).
 */
module TlsfMemory {
  type Memory = map<int, int>

  function Rd(m: Memory, a: int): int {
    if a in m then m[a] else 0
  }

  /** `block_size`: the size word without its two flag bits. */
  function BlockSize(m: Memory, b: int): int {
    Rd(m, b + 4) / 4 * 4
  }

  /** `block_is_free`. */
  predicate IsFree(m: Memory, b: int) {
    Rd(m, b + 4) % 2 == 1
  }

  /** `block_is_prev_free`. */
  predicate IsPrevFree(m: Memory, b: int) {
    Rd(m, b + 4) / 2 % 2 == 1
  }

  /** `block_set_size`: keeps the flag bits that are there. */
  function SetSize(m: Memory, b: int, size: int): Memory {
    m[b + 4 := size + Rd(m, b + 4) % 4]
  }

  /** `block_set_free` and `block_set_used`. */
  function SetFree(m: Memory, b: int, free: bool): Memory {
    m[b + 4 := Rd(m, b + 4) / 2 * 2 + (if free then 1 else 0)]
  }

  /** `block_set_prev_free` and `block_set_prev_used`. */
  function SetPrevFree(m: Memory, b: int, free: bool): Memory {
    m[b + 4 := Rd(m, b + 4) / 4 * 4 + Rd(m, b + 4) % 2 + (if free then 2 else 0)]
  }

  /** `block_next`. */
  function BlockNext(m: Memory, b: int): int {
    b + 8 + BlockSize(m, b) - 4
  }

  /** `block_link_next`. */
  function LinkNext(m: Memory, b: int): Memory {
    m[BlockNext(m, b) := b]
  }

  /** `block_mark_as_free`. */
  function MarkAsFree(m: Memory, b: int): Memory {
    var m1 := LinkNext(m, b);
    var m2 := SetPrevFree(m1, BlockNext(m, b), true);
    SetFree(m2, b, true)
  }

  /** `block_mark_as_used`. */
  function MarkAsUsed(m: Memory, b: int): Memory {
    var m1 := SetPrevFree(m, BlockNext(m, b), false);
    SetFree(m1, b, false)
  }

  /** `block_split`: the new block is at `b + 4 + size`. */
  function Split(m: Memory, b: int, size: int): Memory {
    var remaining := b + 8 + size - 4;
    var m1 := SetSize(m, remaining, BlockSize(m, b) - (size + 4));
    var m2 := SetSize(m1, b, size);
    MarkAsFree(m2, remaining)
  }

  /** `block_absorb`. */
  function Absorb(m: Memory, prev: int, block: int): Memory {
    var m1 := m[prev + 4 := Rd(m, prev + 4) + BlockSize(m, block) + 4];
    LinkNext(m1, prev)
  }

  /** `memcpy` of `n` words between regions that do not overlap. */
  function CopyWords(m: Memory, dst: int, src: int, n: nat): Memory {
    if n == 0 then m else CopyWords(m, dst, src, n - 1)[dst + 4 * (n - 1) := Rd(m, src + 4 * (n - 1))]
  }

  lemma {:induction false} CopyWordsInside(m: Memory, dst: int, src: int, n: nat, i: nat)
    requires i < n
    ensures Rd(CopyWords(m, dst, src, n), dst + 4 * i) == Rd(m, src + 4 * i)
  {
    if i < n - 1 { CopyWordsInside(m, dst, src, n - 1, i); }
  }

  lemma {:induction false} CopyWordsOutside(m: Memory, dst: int, src: int, n: nat, w: int)
    requires !(dst <= w < dst + 4 * n)
    ensures Rd(CopyWords(m, dst, src, n), w) == Rd(m, w)
  {
    if n > 0 { CopyWordsOutside(m, dst, src, n - 1, w); }
  }

  /** The words from `p` on are found from `q` on, `len` bytes of them. */
  ghost predicate Moved(m: Memory, m': Memory, p: int, q: int, len: int) {
    forall i: nat :: 4 * i < len ==> Cell(m', q, i) == Cell(m, p, i)
  }

  /** The word number `i` from address `p` on. */
  function Cell(m: Memory, p: int, i: nat): int {
    Rd(m, p + 4 * i)
  }
}
