/**
 The two-level size classes of libyaul/kernel/mm/tlsf.c for a 32-bit target.

 Class `(fl, sl)` is entry `fl * 32 + sl` of the table of free lists. `Lower(c)` is the smallest
 block size of class `c`; it is the reference against which the bit arithmetic is proved.
 */
module TlsfMapping {
  import opened Binary
  import opened Multiples

  const ALIGN_SIZE := 4
  const SL_INDEX_COUNT := 32
  const FL_INDEX_COUNT := 24
  const CLASS_COUNT := 768
  const SMALL_BLOCK_SIZE := 128
  const BLOCK_SIZE_MIN := 12
  const BLOCK_SIZE_MAX := 0x4000_0000

  /** `tlsf_fls_sizet`: the position of the highest set bit. */
  function Fls(x: nat): nat
    requires x > 0
  {
    if x == 1 then 0 else 1 + Fls(x / 2)
  }

  lemma {:induction false} FlsBounds(x: nat)
    requires x > 0
    ensures Pow2(Fls(x)) <= x < 2 * Pow2(Fls(x))
  {
    if x > 1 { FlsBounds(x / 2); }
  }

  lemma {:induction false} ShiftLeftNext(x: nat, k: nat)
    ensures ShiftLeft(x + 1, k) == ShiftLeft(x, k) + Pow2(k)
  {
    if k > 0 { ShiftLeftNext(x, k - 1); }
  }

  lemma {:induction false} ShiftLeftMonotone(x: nat, y: nat, k: nat)
    requires x <= y
    ensures ShiftLeft(x, k) <= ShiftLeft(y, k)
  {
    if k > 0 { ShiftLeftMonotone(x, y, k - 1); }
  }

  /** Thirty-two is a power of two, and so is sixty-four. */
  lemma {:induction false} ShiftLeft32(k: nat)
    ensures ShiftLeft(32, k) == Pow2(k + 5) && ShiftLeft(64, k) == Pow2(k + 6)
  {
    if k > 0 {
      ShiftLeft32(k - 1);
    } else {
      assert Pow2(3) == 8 && Pow2(6) == 64;
    }
  }

  lemma {:induction false} ShiftRightBounds(x: nat, k: nat)
    ensures var q := ShiftRight(x, k); ShiftLeft(q, k) <= x < ShiftLeft(q + 1, k)
  {
    if k > 0 { ShiftRightBounds(x / 2, k - 1); }
  }

  /** The quotient is determined by its bounds. */
  lemma ShiftRightIs(x: nat, k: nat, q: nat)
    requires ShiftLeft(q, k) <= x < ShiftLeft(q + 1, k)
    ensures ShiftRight(x, k) == q
  {
    var r := ShiftRight(x, k);
    ShiftRightBounds(x, k);
    if r < q { ShiftLeftMonotone(r + 1, q, k); }
    if r > q { ShiftLeftMonotone(q + 1, r, k); }
  }

  /** `mapping_insert`. Removing bit 5 with an exclusive or is a subtraction of 32 here. */
  function MappingInsert(size: nat): (int, int) {
    if size < SMALL_BLOCK_SIZE then
      (0, size / (SMALL_BLOCK_SIZE / SL_INDEX_COUNT))
    else
      var fl := Fls(size);
      FlsAtLeast(size, 7);
      (fl - 6, ShiftRight(size, fl - 5) - SL_INDEX_COUNT)
  }

  /** The round-up of `mapping_search`: to the last size of a class, or past it into the next. */
  function Rounded(size: nat): nat
    requires size >= SMALL_BLOCK_SIZE
  {
    FlsAtLeast(size, 7);
    size + Pow2(Fls(size) - 5) - 1
  }

  /** `mapping_search`: the class to start from when looking for `size` bytes. */
  function MappingSearch(size: nat): (int, int) {
    MappingInsert(if size >= SMALL_BLOCK_SIZE then Rounded(size) else size)
  }

  lemma FlsAtLeast(x: nat, k: nat)
    requires x >= Pow2(k)
    ensures x > 0 && Fls(x) >= k
  {
    FlsBounds(x);
    if Fls(x) < k { Pow2Monotone(Fls(x) + 1, k); }
  }

  lemma FlsBelow(x: nat, k: nat)
    requires 0 < x < Pow2(k)
    ensures Fls(x) < k
  {
    FlsBounds(x);
    if Fls(x) >= k { Pow2Monotone(k, Fls(x)); }
  }

  function ClassIndex(c: (int, int)): int {
    c.0 * SL_INDEX_COUNT + c.1
  }

  /** The free list a block of this size belongs to. */
  function ClassOf(size: nat): int {
    ClassIndex(MappingInsert(size))
  }

  /** The smallest size in class `c`. */
  function Lower(c: nat): nat {
    var fl, sl := c / SL_INDEX_COUNT, c % SL_INDEX_COUNT;
    if fl == 0 then 4 * sl else ShiftLeft(32 + sl, fl + 1)
  }

  /** The highest bit of a number whose top six bits are `q`. */
  lemma FlsOfLarge(size: nat, f: nat, q: nat)
    requires f >= 7 && 32 <= q < 64 && ShiftLeft(q, f - 5) <= size < ShiftLeft(q + 1, f - 5)
    ensures size >= SMALL_BLOCK_SIZE && Fls(size) == f
  {
    ShiftLeft32(f - 5);
    ShiftLeftMonotone(32, q, f - 5);
    ShiftLeftMonotone(q + 1, 64, f - 5);
    Pow2Monotone(7, f);
    FlsAtLeast(size, f);
    FlsBelow(size, f + 1);
  }

  /** The class of a size whose top six bits are `q` and whose highest bit is number `f`. */
  lemma ClassOfLarge(size: nat, f: nat, q: nat)
    requires f >= 7 && 32 <= q < 64 && ShiftLeft(q, f - 5) <= size < ShiftLeft(q + 1, f - 5)
    ensures MappingInsert(size) == (f - 6, q - 32)
  {
    FlsOfLarge(size, f, q);
    ShiftRightIs(size, f - 5, q);
  }

  /** Every size from 128 up has such a description. */
  lemma DescribeLarge(size: nat) returns (f: nat, q: nat)
    requires size >= SMALL_BLOCK_SIZE
    ensures f == Fls(size) && f >= 7 && 32 <= q < 64
    ensures ShiftLeft(q, f - 5) <= size < ShiftLeft(q + 1, f - 5)
  {
    f := Fls(size);
    assert f >= 7 by { FlsAtLeast(size, 7); }
    FlsBounds(size);
    ShiftLeft32(f - 5);
    q := ShiftRight(size, f - 5);
    ShiftRightBounds(size, f - 5);
    if q < 32 { ShiftLeftMonotone(q + 1, 32, f - 5); }
    if q >= 64 { ShiftLeftMonotone(64, q, f - 5); }
  }

  lemma LowerOfLarge(f: nat, q: nat)
    requires f >= 7 && 32 <= q < 64
    ensures Lower((f - 6) * 32 + q - 32) == ShiftLeft(q, f - 5)
    ensures Lower((f - 6) * 32 + q - 31) == ShiftLeft(q + 1, f - 5)
  {
    var c := (f - 6) * 32 + q - 32;
    assert c / 32 == f - 6 && c % 32 == q - 32;
    if q == 63 {
      assert (c + 1) / 32 == f - 5 && (c + 1) % 32 == 0;
      ShiftLeft32(f - 5);
      ShiftLeft32(f - 4);
    } else {
      assert (c + 1) / 32 == f - 6 && (c + 1) % 32 == q - 31;
    }
  }

  lemma ClassIndexOfLarge(size: nat, f: nat, q: nat)
    requires f >= 7 && 32 <= q < 64 && ShiftLeft(q, f - 5) <= size < ShiftLeft(q + 1, f - 5)
    ensures ClassOf(size) == (f - 6) * 32 + q - 32
  {
    ClassOfLarge(size, f, q);
  }

  lemma LowerOfSmall(c: nat)
    requires c < 32
    ensures Lower(c) == 4 * c && Lower(c + 1) == 4 * (c + 1)
  {
    if c == 31 { assert ShiftLeft(32, 2) == 128; }
  }

  /** `mapping_insert` is right: a size lies between its class's lower bound and the next one's. */
  lemma ClassBracket(size: nat)
    ensures 0 <= ClassOf(size)
    ensures Lower(ClassOf(size)) <= size < Lower(ClassOf(size) + 1)
  {
    if size < SMALL_BLOCK_SIZE {
      LowerOfSmall(size / 4);
    } else {
      var f, q := DescribeLarge(size);
      LowerOfLarge(f, q);
      ClassIndexOfLarge(size, f, q);
    }
  }

  lemma LowerStep(c: nat)
    ensures Lower(c) < Lower(c + 1)
  {
    var fl, sl := c / 32, c % 32;
    if sl == 31 {
      assert (c + 1) / 32 == fl + 1 && (c + 1) % 32 == 0;
      ShiftLeft32(fl + 1);
      ShiftLeft32(fl + 2);
      ShiftLeftNext(63, fl + 1);
      assert ShiftLeft(32, 2) == 128;
    } else {
      assert (c + 1) / 32 == fl && (c + 1) % 32 == sl + 1;
      ShiftLeftNext(32 + sl, fl + 1);
    }
  }

  lemma {:induction false} LowerMonotone(c: nat, d: nat)
    requires c <= d
    ensures Lower(c) <= Lower(d)
    decreases d - c
  {
    if c < d {
      LowerMonotone(c, d - 1);
      LowerStep(d - 1);
    }
  }

  /** The classes cut the sizes into consecutive intervals: larger classes hold larger sizes. */
  lemma ClassOrder(s: nat, t: nat)
    requires ClassOf(s) < ClassOf(t)
    ensures s < t
  {
    ClassBracket(s);
    ClassBracket(t);
    LowerMonotone(ClassOf(s) + 1, ClassOf(t));
  }

  /** The indices stay inside the tables exactly for sizes below `block_size_max`. */
  lemma ClassInRange(size: nat)
    ensures var (fl, sl) := MappingInsert(size);
            0 <= fl && 0 <= sl < SL_INDEX_COUNT && (fl < FL_INDEX_COUNT <==> size < BLOCK_SIZE_MAX)
  {
    Pow2Word();
    if size >= SMALL_BLOCK_SIZE {
      var f, q := DescribeLarge(size);
      ClassOfLarge(size, f, q);
      if size < BLOCK_SIZE_MAX { FlsBelow(size, 30); } else { FlsAtLeast(size, 30); }
    }
  }

  /** Adding `2^k - 1` leaves the quotient by `2^k` or raises it by one. */
  lemma RoundedUp(size: nat, k: nat, q: nat)
    requires ShiftLeft(q, k) <= size < ShiftLeft(q + 1, k)
    ensures var rounded := size + Pow2(k) - 1;
            if size == ShiftLeft(q, k) then ShiftLeft(q, k) <= rounded < ShiftLeft(q + 1, k)
            else ShiftLeft(q + 1, k) <= rounded < ShiftLeft(q + 2, k)
  {
    ShiftLeftNext(q, k);
    ShiftLeftNext(q + 1, k);
  }

  /** Searching for a size on a class boundary starts in its own class. */
  lemma SearchExact(size: nat, f: nat, q: nat)
    requires size >= SMALL_BLOCK_SIZE && f == Fls(size) && f >= 7 && 32 <= q < 64
    requires ShiftLeft(q, f - 5) == size
    ensures MappingInsert(Rounded(size)) == (f - 6, q - 32)
  {
    ShiftLeftNext(q, f - 5);
    ClassOfLarge(Rounded(size), f, q);
  }

  /** Searching for any other size starts in the next class, perhaps of the next first level. */
  lemma SearchInexact(size: nat, f: nat, q: nat)
    requires size >= SMALL_BLOCK_SIZE && f == Fls(size) && f >= 7 && 32 <= q < 64
    requires ShiftLeft(q, f - 5) < size < ShiftLeft(q + 1, f - 5)
    ensures MappingInsert(Rounded(size)) == if q < 63 then (f - 6, q - 31) else (f - 5, 0)
  {
    RoundedUp(size, f - 5, q);
    ClassAbove(Rounded(size), f, q);
  }

  /** The class of a size rounded up from top bits `q`. */
  lemma ClassAbove(size: nat, f: nat, q: nat)
    requires f >= 7 && 32 <= q < 64 && ShiftLeft(q + 1, f - 5) <= size < ShiftLeft(q + 2, f - 5)
    ensures MappingInsert(size) == if q < 63 then (f - 6, q - 31) else (f - 5, 0)
  {
    if q < 63 {
      ClassOfLarge(size, f, q + 1);
    } else {
      ShiftLeft32(f - 5);
      ShiftLeft32(f - 4);
      ShiftLeftNext(64, f - 5);
      ShiftLeftNext(32, f - 4);
      ClassOfLarge(size, f + 1, 32);
    }
  }

  /** `c` is the first class all of whose blocks hold `size` bytes. */
  ghost predicate IsFirstFit(size: nat, c: int) {
    0 <= c && size <= Lower(c) && (0 < c ==> Lower(c - 1) < size)
  }

  lemma FitExact(size: nat, f: nat, q: nat, c: nat)
    requires f >= 7 && 32 <= q < 64 && ShiftLeft(q, f - 5) == size && c == (f - 6) * 32 + q - 32
    ensures IsFirstFit(size, c)
  {
    LowerOfLarge(f, q);
    LowerStep(c - 1);
  }

  lemma FitInexact(size: nat, f: nat, q: nat, c: nat)
    requires f >= 7 && 32 <= q < 64 && ShiftLeft(q, f - 5) < size < ShiftLeft(q + 1, f - 5)
    requires c == (f - 6) * 32 + q - 31
    ensures IsFirstFit(size, c)
  {
    LowerOfLarge(f, q);
  }

  /**
   Good fit: the class `mapping_search` picks is the first one all of whose blocks are large
   enough, including when rounding carries into the next first-level class.
   */
  lemma SearchIsGoodFit(size: nat)
    requires size % ALIGN_SIZE == 0
    ensures IsFirstFit(size, ClassIndex(MappingSearch(size)))
  {
    if size < SMALL_BLOCK_SIZE {
      assert size / 4 * 4 == size;
    } else {
      var f, q := DescribeLarge(size);
      if ShiftLeft(q, f - 5) == size {
        SearchExact(size, f, q);
        FitExact(size, f, q, (f - 6) * 32 + q - 32);
      } else {
        SearchInexact(size, f, q);
        FitInexact(size, f, q, (f - 6) * 32 + q - 31);
      }
    }
  }

  /** Any block of a class at or above the one searched from satisfies the request. */
  lemma SearchFits(size: nat, s: nat)
    requires size % ALIGN_SIZE == 0 && ClassIndex(MappingSearch(size)) <= ClassOf(s)
    ensures size <= s
  {
    SearchIsGoodFit(size);
    ClassBracket(s);
    LowerMonotone(ClassIndex(MappingSearch(size)), ClassOf(s));
  }

  // ---------------------------------------------------------------- request sizes

  /** The largest multiple of `align` up to `x`: `x & ~(align - 1)` for a power of two. */
  function RoundDown(x: nat, align: nat): (r: nat)
    requires 0 < align
    ensures r <= x < r + align && Multiple(r, align)
  {
    RemainderBelow(x, align);
    RemainderRemoved(x, align);
    x - x % align
  }

  /** `align_up` in 32-bit arithmetic, for a power of two. */
  function AlignUp(x: nat, align: nat): nat
    requires 0 < align
  {
    RoundDown((x + (align - 1)) % WORD, align)
  }

  /** `adjust_request_size`. */
  function AdjustRequestSize(size: nat, align: nat): nat
    requires 0 < align
  {
    if size == 0 then 0
    else
      var aligned := AlignUp(size, align);
      if aligned < BLOCK_SIZE_MAX then (if aligned > BLOCK_SIZE_MIN then aligned else BLOCK_SIZE_MIN) else 0
  }

  lemma FourSum(x: nat, y: nat)
    requires x % 4 == 0 && y % 4 == 0
    ensures (x + y) % 4 == 0
  {
  }

  lemma {:induction false} MultipleOfFour(x: nat, p: nat)
    requires 0 < p && p % 4 == 0 && Multiple(x, p)
    ensures x % 4 == 0
    decreases x
  {
    if x > 0 {
      MultipleOfFour(x - p, p);
      FourSum(x - p, p);
    }
  }

  /**
   What an adjusted request is: refused exactly when the request is zero or does not fit, otherwise
   a block size; and it covers the request unless rounding up wrapped around.
   */
  lemma AdjustedSize(size: nat)
    requires size < WORD
    ensures var a := AdjustRequestSize(size, ALIGN_SIZE);
            && (a == 0 <==> size == 0 || BLOCK_SIZE_MAX - 4 < size <= WORD - 4)
            && (a != 0 ==> a % 4 == 0 && BLOCK_SIZE_MIN <= a < BLOCK_SIZE_MAX)
            && (a != 0 ==> (size <= a <==> size <= WORD - 4)) && (a > BLOCK_SIZE_MIN ==> a < size + 4)
            && (size > WORD - 4 ==> a == BLOCK_SIZE_MIN)
  {
    MultipleOfFour(AlignUp(size, 4), 4);
  }

  // ---------------------------------------------------------------- alignment

  lemma {:induction false} Pow2OfPow2(k: nat, e: nat)
    requires k <= e
    ensures Multiple(Pow2(e), Pow2(k))
    decreases e - k
  {
    if k < e {
      Pow2OfPow2(k, e - 1);
      MultipleSum(Pow2(e - 1), Pow2(e - 1), Pow2(k));
    } else {
      assert Multiple(Pow2(e), Pow2(e));
    }
  }

  /** From an alignment of 8 on: a multiple of eight, and 8 itself is the only one below 16. */
  lemma LargeAlignment(e: nat)
    requires 3 <= e
    ensures Pow2(e) % 4 == 0 && (Pow2(e) == 8 || 16 <= Pow2(e))
  {
    Pow2OfPow2(2, e);
    MultipleOfFour(Pow2(e), 4);
    if 4 <= e { Pow2Monotone(4, e); }
  }

  /** Without wrap-around `align_up` is the next multiple of `align`. */
  lemma AlignUpIsNext(x: nat, align: nat)
    requires 0 < align && x + align - 1 < WORD
    ensures var a := AlignUp(x, align); x <= a < x + align && Multiple(a, align)
  {
  }

  /** Moving from one multiple of `align` to the next needs no rounding and does not wrap. */
  lemma NextAligned(x: nat, e: nat)
    requires e <= 32 && Multiple(x, Pow2(e)) && x + Pow2(e) < WORD
    ensures Multiple(x + Pow2(e), Pow2(e)) && AlignUp(x + Pow2(e), Pow2(e)) == x + Pow2(e)
  {
    var p := Pow2(e);
    Pow2Word();
    Pow2OfPow2(e, 32);
    MultipleDifference(x + p, WORD, p);
    AlignUpIsNext(x + p, p);
    MultipleDifference(x + p, AlignUp(x + p, p), p);
  }

  /** The way from `ptr` up to `aligned`, in 32-bit arithmetic. */
  function Distance(ptr: nat, aligned: nat): int {
    if aligned < ptr then aligned + WORD - ptr else aligned - ptr
  }

  /** The gap `tlsf_memalign` leaves before the aligned pointer. */
  function AlignedGap(ptr: nat, align: nat): int
    requires 0 < align
  {
    var aligned := AlignUp(ptr, align);
    var gap := Distance(ptr, aligned);
    if gap != 0 && gap < 16 then
      var offset := if 16 - gap > align then 16 - gap else align;
      Distance(ptr, AlignUp(aligned + offset, align))
    else gap
  }

  /** Eight-byte alignment with four bytes to the boundary: the only case where 16 is reached by rounding. */
  lemma EightByteGap(aligned: nat)
    requires Multiple(aligned, 8) && aligned + 19 < WORD
    ensures AlignUp(aligned + 12, 8) == aligned + 16 && Multiple(aligned + 16, 8)
  {
    AlignUpIsNext(aligned + 12, 8);
    assert Multiple(aligned + 8, 8);
    assert Multiple(aligned + 16, 8);
    MultipleDifference(aligned + 8, AlignUp(aligned + 12, 8), 8);
  }

  /** The first rounding: less than `align` bytes on, at a multiple of four. */
  lemma FirstAligned(ptr: nat, e: nat)
    requires 3 <= e && ptr % 4 == 0 && ptr + Pow2(e) < WORD
    ensures var a := AlignUp(ptr, Pow2(e)); ptr <= a < ptr + Pow2(e) && Multiple(a, Pow2(e)) && (a - ptr) % 4 == 0
  {
    AlignUpIsNext(ptr, Pow2(e));
    FourApart(ptr, AlignUp(ptr, Pow2(e)), e);
  }

  /** A multiple of a large alignment and an aligned pointer are a multiple of four apart. */
  lemma FourApart(ptr: nat, a: nat, e: nat)
    requires 3 <= e && ptr % 4 == 0 && Multiple(a, Pow2(e))
    ensures (a - ptr) % 4 == 0
  {
    LargeAlignment(e);
    MultipleOfFour(a, Pow2(e));
  }

  /** The second rounding, when the first leaves a gap below 16 bytes. */
  lemma SecondAligned(a: nat, e: nat, gap: nat, x: nat)
    requires 3 <= e <= 30 && Multiple(a, Pow2(e)) && 0 < gap < 16 && gap < Pow2(e) && gap % 4 == 0
    requires a + Pow2(e) + 12 < WORD && x == a + if 16 - gap > Pow2(e) then 16 - gap else Pow2(e)
    ensures var b := AlignUp(x, Pow2(e));
            Multiple(b, Pow2(e)) && (b == a + Pow2(e) || (Pow2(e) == 8 && gap == 4 && b == a + 16))
  {
    var p := Pow2(e);
    assert p == 8 || 16 <= p by { LargeAlignment(e); }
    if 16 - gap > p {
      assert p == 8 && gap == 4 && x == a + 12;
      EightByteGap(a);
    } else {
      NextAligned(a, e);
    }
  }

  /**
   The gap is zero or at least 16 bytes, leads to an aligned pointer, and leaves room: a block of
   `adjust + align + 16` bytes can be split after it, and what remains holds `adjust` bytes.
   */
  lemma AlignedGapFits(ptr: nat, e: nat, adjust: nat, size: nat)
    requires 3 <= e <= 30 && ptr % 4 == 0 && adjust >= BLOCK_SIZE_MIN
    requires adjust + Pow2(e) + 16 <= size && ptr + size <= WORD
    ensures var gap := AlignedGap(ptr, Pow2(e));
            && 0 <= gap && gap % 4 == 0 && Multiple(ptr + gap, Pow2(e))
            && (gap != 0 ==> 16 <= gap && 16 + gap <= size) && adjust + gap <= size
  {
    FirstAligned(ptr, e);
    var a := AlignUp(ptr, Pow2(e));
    if 0 < a - ptr < 16 {
      SecondGap(ptr, a, e);
    } else {
      assert ptr + (a - ptr) == a;
    }
  }

  lemma GapTwice(ptr: nat, align: nat, a: nat, x: nat)
    requires 0 < align && a == AlignUp(ptr, align) && 0 < a - ptr < 16
    requires x == a + if 16 - (a - ptr) > align then 16 - (a - ptr) else align
    ensures AlignedGap(ptr, align) == Distance(ptr, AlignUp(x, align))
  {
  }

  /** The gap after the second rounding. */
  lemma SecondGap(ptr: nat, a: nat, e: nat)
    requires 3 <= e <= 30 && ptr % 4 == 0 && ptr + Pow2(e) + 28 <= WORD
    requires a == AlignUp(ptr, Pow2(e)) && Multiple(a, Pow2(e)) && 0 < a - ptr < 16
    requires a < ptr + Pow2(e) && (a - ptr) % 4 == 0
    ensures var gap := AlignedGap(ptr, Pow2(e));
            16 <= gap <= Pow2(e) + 12 && gap % 4 == 0 && Multiple(ptr + gap, Pow2(e))
  {
    var p, gap := Pow2(e), a - ptr;
    var x := a + if 16 - gap > p then 16 - gap else p;
    var b := AlignUp(x, p);
    SecondAligned(a, e, gap, x);
    GapTwice(ptr, p, a, x);
    FourApart(ptr, b, e);
    assert p == 8 || 16 <= p by { LargeAlignment(e); }
    GapRange(ptr, a, b, p);
  }

  lemma GapRange(ptr: nat, a: nat, b: nat, p: nat)
    requires 0 < a - ptr < 16 && a < ptr + p && (p == 8 || 16 <= p) && (a - ptr) % 4 == 0
    requires b == a + p || (p == 8 && a - ptr == 4 && b == a + 16)
    requires p == 8 && a - ptr == 4 ==> b == a + 16
    ensures 16 <= b - ptr <= p + 12 && ptr + (b - ptr) == b
  {
  }

  lemma SmallAlignment(e: nat)
    requires e < 3
    ensures Pow2(e) == 1 || Pow2(e) == 2 || Pow2(e) == 4
  {
    if e == 0 { } else if e == 1 { } else { assert e == 2; }
  }

  /** A pointer that is a multiple of four is aligned to one, two and four bytes. */
  lemma {:induction false} AlignedEnough(ptr: nat, align: nat)
    requires ptr % 4 == 0 && (align == 1 || align == 2 || align == 4)
    ensures Multiple(ptr, align)
  {
    if ptr > 0 {
      AlignedEnough(ptr - 4, align);
      assert Multiple(4, align);
      MultipleSum(ptr - 4, 4, align);
    }
  }

  lemma {:induction false} SmallGap(ptr: nat, e: nat)
    requires e < 3 && ptr % 4 == 0 && ptr + 12 <= WORD
    ensures AlignedGap(ptr, Pow2(e)) == 0 && Multiple(ptr, Pow2(e))
  {
    SmallAlignment(e);
    AlignedEnough(ptr, Pow2(e));
    AlignUpIsNext(ptr, Pow2(e));
    MultipleDifference(ptr, AlignUp(ptr, Pow2(e)), Pow2(e));
  }

  lemma MemalignGap(ptr: nat, e: nat, adjust: nat, size: nat)
    requires e <= 30 && ptr % 4 == 0 && BLOCK_SIZE_MIN <= adjust <= size && ptr + size <= WORD
    requires 3 <= e ==> adjust + Pow2(e) + 16 <= size
    ensures var gap := AlignedGap(ptr, Pow2(e));
            && 0 <= gap && gap % 4 == 0 && Multiple(ptr + gap, Pow2(e))
            && (gap != 0 ==> 16 <= gap && 16 + gap <= size) && adjust + gap <= size
  {
    if 3 <= e {
      AlignedGapFits(ptr, e, adjust, size);
    } else {
      SmallGap(ptr, e);
    }
  }

  /** No earlier place than `p` is aligned and leaves nothing, or room for a free block, after `ptr`. */
  ghost predicate FirstPlace(ptr: int, p: int, align: nat) {
    forall q: nat :: (q == ptr || ptr + 16 <= q) && q < p ==> !Multiple(q, align)
  }

  lemma {:induction false} NoneBetween(ptr: nat, a: nat, align: nat, q: nat)
    requires 0 < align && Multiple(a, align) && a < ptr + align && ptr <= q && Multiple(q, align)
    ensures a <= q && (q == a || a + align <= q)
  {
    if q < a { MultipleDifference(q, a, align); } else { MultipleDifference(a, q, align); }
  }

  /** After a gap below 16 bytes, the next place: one alignment on, or two where that is eight bytes. */
  lemma {:induction false} NoneBeforeSecond(ptr: nat, a: nat, b: nat, p: nat, q: nat)
    requires 0 < p && Multiple(a, p) && ptr < a < ptr + p && a < ptr + 16 <= q && Multiple(q, p)
    requires b == a + p || (p == 8 && a - ptr == 4 && b == a + 16)
    ensures b <= q
  {
    NoneBetween(ptr, a, p, q);
    assert Multiple(a + p, p);
    MultipleDifference(a + p, q, p);
  }

  /** The gap is the shortest that will do. */
  lemma {:induction false} GapIsLeast(ptr: nat, e: nat, size: nat)
    requires e <= 30 && ptr % 4 == 0 && 12 <= size && ptr + size <= WORD && (3 <= e ==> Pow2(e) + 28 <= size)
    ensures FirstPlace(ptr, ptr + AlignedGap(ptr, Pow2(e)), Pow2(e))
  {
    var p, gap := Pow2(e), AlignedGap(ptr, Pow2(e));
    if 3 <= e {
      FirstAligned(ptr, e);
      var a := AlignUp(ptr, p);
      var x := a + if 16 - (a - ptr) > p then 16 - (a - ptr) else p;
      if 0 < a - ptr < 16 {
        SecondAligned(a, e, a - ptr, x);
        GapTwice(ptr, p, a, x);
      }
      forall q: nat | (q == ptr || ptr + 16 <= q) && Multiple(q, p) ensures ptr + gap <= q {
        NoneBetween(ptr, a, p, q);
        if 0 < a - ptr < 16 { NoneBeforeSecond(ptr, a, AlignUp(x, p), p, q); }
      }
    } else {
      SmallGap(ptr, e);
    }
  }

  /** The size `tlsf_memalign` looks for. */
  function AlignedSize(size: nat, align: nat): nat
    requires 0 < align
  {
    var adjust := AdjustRequestSize(size, ALIGN_SIZE);
    if adjust != 0 && align > ALIGN_SIZE then AdjustRequestSize((adjust + align + 16) % WORD, align) else adjust
  }

  /** Up to an alignment of `2^30` the size looked for includes the largest gap. */
  lemma AlignedSizeMeaning(size: nat, e: nat)
    requires size < WORD && e <= 30
    ensures var a, s := AdjustRequestSize(size, ALIGN_SIZE), AlignedSize(size, Pow2(e));
            && s < BLOCK_SIZE_MAX && s % 4 == 0 && (s != 0 ==> a != 0 && a <= s)
            && (s != 0 && 3 <= e ==> a + Pow2(e) + 16 <= s < a + 2 * Pow2(e) + 16) && (e < 3 ==> s == a)
            && (s == 0 <==> a == 0 || (3 <= e && AlignUp(a + Pow2(e) + 16, Pow2(e)) >= BLOCK_SIZE_MAX))
  {
    AdjustedSize(size);
    var a := AdjustRequestSize(size, ALIGN_SIZE);
    if e < 3 {
      SmallAlignment(e);
      AlignedSizeIs(size, Pow2(e), a, a);
    } else if a == 0 {
      AlignedSizeIs(size, Pow2(e), 0, 0);
    } else {
      LargeAlignedSize(size, e, Pow2(e), a);
    }
  }

  lemma LargeAlignedSize(size: nat, e: nat, align: nat, a: nat)
    requires 3 <= e <= 30 && align == Pow2(e) && a == AdjustRequestSize(size, ALIGN_SIZE) && 0 < a < BLOCK_SIZE_MAX
    ensures var s := AlignedSize(size, align);
            && s < BLOCK_SIZE_MAX && s % 4 == 0 && (s != 0 ==> a + align + 16 <= s < a + 2 * align + 16)
            && (s == 0 <==> AlignUp(a + align + 16, align) >= BLOCK_SIZE_MAX)
  {
    assert align > ALIGN_SIZE by { LargeAlignment(e); }
    AlignedSizeIs(size, align, a, AdjustRequestSize((a + align + 16) % WORD, align));
    SizeWithGap(a, e);
  }

  lemma AlignedSizeIs(size: nat, align: nat, a: nat, s: nat)
    requires 0 < align && a == AdjustRequestSize(size, ALIGN_SIZE)
    requires s == if a != 0 && align > ALIGN_SIZE then AdjustRequestSize((a + align + 16) % WORD, align) else a
    ensures AlignedSize(size, align) == s
  {
  }

  lemma SizeWithGap(a: nat, e: nat)
    requires a < BLOCK_SIZE_MAX && 3 <= e <= 30
    ensures var s := AdjustRequestSize((a + Pow2(e) + 16) % WORD, Pow2(e));
            && s < BLOCK_SIZE_MAX && s % 4 == 0 && (s != 0 ==> a + Pow2(e) + 16 <= s < a + 2 * Pow2(e) + 16)
            && (s == 0 <==> AlignUp(a + Pow2(e) + 16, Pow2(e)) >= BLOCK_SIZE_MAX)
  {
    var align := Pow2(e);
    assert align <= BLOCK_SIZE_MAX by { Pow2Word(); Pow2Monotone(e, 30); }
    assert align % 4 == 0 by { LargeAlignment(e); }
    RoundedSize(a + align + 16, align);
  }

  /** A size rounded up without wrap-around is refused or covered, and a multiple of four. */
  lemma RoundedSize(x: nat, align: nat)
    requires 0 < align && align % 4 == 0 && 0 < x && x + align - 1 < WORD
    ensures var s := AdjustRequestSize(x % WORD, align);
            && s < BLOCK_SIZE_MAX && s % 4 == 0 && (s != 0 ==> x <= s < x + align || s == BLOCK_SIZE_MIN)
            && (s == 0 <==> AlignUp(x, align) >= BLOCK_SIZE_MAX) && (s != 0 ==> x <= s)
  {
    AlignUpIsNext(x, align);
    MultipleOfFour(AlignUp(x, align), align);
    Remainder(x, WORD, 0, x);
  }

  /** Rounding up to a multiple of `2^31` wraps around and gives zero. */
  lemma RoundingWraps(a: nat, align: nat)
    requires align == 2 * BLOCK_SIZE_MAX && a < BLOCK_SIZE_MAX
    ensures AlignUp(a + align + 16, align) == 0
  {
    Remainder(a + align + 16 + (align - 1), WORD, 1, a + 15);
  }

  /**
   An alignment of `2^31` breaks the request: rounding up wraps to zero, and only the minimum
   block size is looked for, whatever the request.
   */
  lemma AlignedSizeWraps(size: nat)
    requires size < WORD
    ensures AlignedSize(size, Pow2(31)) == if AdjustRequestSize(size, ALIGN_SIZE) == 0 then 0 else BLOCK_SIZE_MIN
  {
    Pow2Word();
    SizeWraps(size, Pow2(31));
  }

  lemma SizeWraps(size: nat, align: nat)
    requires size < WORD && align == 2 * BLOCK_SIZE_MAX
    ensures AlignedSize(size, align) == if AdjustRequestSize(size, ALIGN_SIZE) == 0 then 0 else BLOCK_SIZE_MIN
  {
    AdjustedSize(size);
    var a := AdjustRequestSize(size, ALIGN_SIZE);
    RoundingWraps(a, align);
    Remainder(a + align + 16, WORD, 0, a + align + 16);
  }

  const HALF := 2 * BLOCK_SIZE_MAX

  /** Only one pointer is a multiple of `2^31`. */
  lemma HalfIsAlone(p: nat)
    requires 0 < p < WORD
    ensures Multiple(p, HALF) <==> p == HALF
  {
    if p < HALF { Remainder(p, HALF, 0, p); } else { Remainder(p, HALF, 1, p - HALF); }
  }

  /** A block at `ptr` can be split in front of the address `2^31`. */
  predicate ReachesHalf(ptr: nat, size: nat) {
    ptr + 16 <= HALF && HALF + 16 <= ptr + size
  }

  /** What a gap before the address `2^31` amounts to. */
  predicate HalfGap(ptr: nat, size: nat, gap: int) {
    && (gap == 0 <==> ptr == HALF) && (gap != 0 && 16 + gap <= size <==> ReachesHalf(ptr, size))
    && (ReachesHalf(ptr, size) ==> ptr + gap == HALF)
  }

  /** The gap before a multiple of `2^31` can be cut off exactly if the block reaches over that address. */
  lemma HugeGap(ptr: nat, size: nat)
    requires 0 < ptr && ptr % 4 == 0 && 12 <= size && ptr + size + 4 <= WORD
    ensures var gap := AlignedGap(ptr, Pow2(31));
      0 <= gap && gap % 4 == 0 && (gap != 0 ==> 16 <= gap) && HalfGap(ptr, size, gap)
  {
    Pow2Word();
    if ptr < HALF { GapBelow(ptr, Pow2(31)); } else { GapAbove(ptr, Pow2(31)); }
    GapOutcome(ptr, size, AlignedGap(ptr, Pow2(31)));
  }

  lemma GapOutcome(ptr: nat, size: nat, gap: int)
    requires 0 < ptr && ptr % 4 == 0 && ptr + size + 4 <= WORD && 12 <= size
    requires gap == if ptr + 16 <= HALF then HALF - ptr else if ptr == HALF then 0 else WORD - ptr
    ensures 0 <= gap && gap % 4 == 0 && (gap != 0 ==> 16 <= gap) && HalfGap(ptr, size, gap)
  {
  }

  /** A block that is too small for the adjusted request is too small for the request. */
  lemma RequestFits(size: nat, was: nat, now: nat)
    requires size <= WORD - 4 && AdjustRequestSize(size, ALIGN_SIZE) != 0 && was % 4 == 0 && BLOCK_SIZE_MIN <= was
    requires var a := AdjustRequestSize(size, ALIGN_SIZE); if a <= was then a <= now else now == was
    ensures size <= now <==> size <= was
  {
    AdjustedSize(size);
    AlignUpIsNext(size, ALIGN_SIZE);
    MultipleOfFour(AlignUp(size, 4), 4);
  }

  lemma GapBelow(ptr: nat, align: nat)
    requires align == HALF && 0 < ptr < align
    ensures AlignedGap(ptr, align) == if ptr + 16 <= align then align - ptr else WORD - ptr
  {
    var a := AlignUp(ptr, align);
    AlignUpIsNext(ptr, align);
    if a != align { MultipleDifference(align, a, align); }
    if ptr + 16 > align {
      Remainder(WORD + (align - 1), WORD, 1, align - 1);
      assert AlignUp(WORD, align) == 0;
      GapTwice(ptr, align, a, WORD);
    }
  }

  lemma GapAbove(ptr: nat, align: nat)
    requires align == HALF && align <= ptr && ptr + 16 <= WORD
    ensures AlignedGap(ptr, align) == if ptr == align then 0 else WORD - ptr
  {
    if ptr == align {
      assert AlignUp(ptr, align) == align;
    } else {
      Remainder(ptr + (align - 1), WORD, 1, ptr - align - 1);
      assert AlignUp(ptr, align) == 0;
    }
  }
}
