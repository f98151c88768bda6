/**
 Whole runs of the allocator of libyaul/kernel/mm/tlsf.c, seen by its client: a table of live
 allocations with the words the client last stored in them.
 */
module TlsfRun {
  import opened TlsfMapping
  import opened TlsfMemory
  import opened TlsfBlocks
  import opened TlsfFrames
  import opened TlsfSteps
  import opened TlsfLists
  import opened TlsfPool
  import opened TlsfCut
  import opened Tlsf
  import opened Binary

  // ---------------------------------------------------------------- what a consistent heap means

  /** Allocations are aligned, lie inside a pool and do not overlap. */
  lemma AllocationsDisjoint(bs: Blocks, p: int, q: int)
    requires Shape(bs) && Allocated(bs, p) && Allocated(bs, q) && p != q
    ensures p % ALIGN_SIZE == 0 && bs[p - 8].pool.first < p && p + bs[p - 8].size <= bs[p - 8].pool.last + 4
    ensures p + bs[p - 8].size <= q || q + bs[q - 8].size <= p
  {
    assert ShapeAt(bs, p - 8) && ShapeAt(bs, Next(bs, p - 8));
    Disjoint(bs, p - 8, q - 8);
  }

  /** The sizes of the blocks from `b` to the end of its pool, with their headers. */
  ghost function SizesFrom(bs: Blocks, b: int): int
    requires Shape(bs) && b in bs
    decreases bs[b].pool.last - b
  {
    assert ShapeAt(bs, b);
    if bs[b].size == 0 then 0 else
      assert ShapeAt(bs, Next(bs, b));
      bs[b].size + 4 + SizesFrom(bs, Next(bs, b))
  }

  lemma {:induction false} SizesToEnd(bs: Blocks, b: int)
    requires Shape(bs) && b in bs
    ensures SizesFrom(bs, b) == bs[b].pool.last - b
    decreases bs[b].pool.last - b
  {
    assert ShapeAt(bs, b);
    if bs[b].size > 0 {
      assert ShapeAt(bs, Next(bs, b));
      SizesToEnd(bs, Next(bs, b));
    }
  }

  lemma {:induction false} PoolStartsWithBlock(bs: Blocks, b: int)
    requires Shape(bs) && b in bs
    ensures bs[b].pool.first in bs && bs[bs[b].pool.first].pool == bs[b].pool
    decreases b - bs[b].pool.first
  {
    assert ShapeAt(bs, b);
    if bs[b].prev != -1 {
      assert ShapeAt(bs, bs[b].prev);
      PoolStartsWithBlock(bs, bs[b].prev);
    }
  }

  /**
   Conservation: whatever the operations did, the blocks of a pool with their headers add up to the
   pool, from its first header to its sentinel.
   */
  lemma PoolConserved(bs: Blocks, b: int)
    requires Shape(bs) && b in bs
    ensures bs[b].pool.first in bs && SizesFrom(bs, bs[b].pool.first) == bs[b].pool.last - bs[b].pool.first
  {
    PoolStartsWithBlock(bs, b);
    SizesToEnd(bs, bs[b].pool.first);
  }

  ghost predicate PoolsKept(bs: Blocks, cs: Blocks) {
    forall s, pool :: Ends(bs, s, pool) ==> Ends(cs, s, pool)
  }

  /** An operation keeps every pool: its sentinel is a used block that no operation gives away. */
  lemma SamePools(m: Memory, m': Memory, bs: Blocks, cs: Blocks, exc: set<int>)
    requires Shape(bs) && Shape(cs) && Preserved(m, m', bs, cs, exc)
    requires forall x :: x in exc && x in bs && !bs[x].free ==> bs[x].size > 0
    requires forall x :: x in exc && x in cs && !cs[x].free ==> cs[x].size > 0
    ensures PoolsKept(bs, cs) && PoolsKept(cs, bs)
  {
    forall s, pool | Ends(bs, s, pool) ensures Ends(cs, s, pool) {
      assert ShapeAt(bs, s) && PreservedAt(m, m', bs, cs, s);
    }
    forall s, pool | Ends(cs, s, pool) ensures Ends(bs, s, pool) {
      assert ShapeAt(cs, s) && PreservedAt(m, m', bs, cs, s);
    }
  }

  lemma {:induction false} PoolEnds(bs: Blocks, b: int)
    requires Shape(bs) && b in bs
    ensures Ends(bs, bs[b].pool.last, bs[b].pool)
    decreases bs[b].pool.last - b
  {
    assert ShapeAt(bs, b);
    if bs[b].size > 0 {
      assert ShapeAt(bs, Next(bs, b));
      PoolEnds(bs, Next(bs, b));
    }
  }

  // ---------------------------------------------------------------- pools that are cut

  /** The pool is there, or two pools with a sentinel between them are there in its place. */
  ghost predicate Survives(cs: Blocks, s: int, pool: Pool) {
    || Ends(cs, s, pool)
    || exists b :: pool.first <= b && b + 4 <= s && Ends(cs, b, Pool(pool.first, b)) && Ends(cs, s, Pool(b + 4, s))
  }

  ghost predicate PoolsSurvive(bs: Blocks, cs: Blocks) {
    forall s, pool {:trigger Ends(bs, s, pool)} :: Ends(bs, s, pool) ==> Survives(cs, s, pool)
  }

  /** From `first` to the sentinel at `last` there is one pool behind the other. */
  ghost predicate Tiled(bs: Blocks, first: int, last: int)
    decreases last - first
  {
    exists s :: first <= s <= last && Ends(bs, s, Pool(first, s)) && (s < last ==> Tiled(bs, s + 4, last))
  }

  lemma {:induction false} TiledSurvives(bs: Blocks, cs: Blocks, first: int, last: int)
    requires PoolsSurvive(bs, cs) && Tiled(bs, first, last)
    ensures Tiled(cs, first, last)
    decreases last - first
  {
    var s :| first <= s <= last && Ends(bs, s, Pool(first, s)) && (s < last ==> Tiled(bs, s + 4, last));
    if s < last { TiledSurvives(bs, cs, s + 4, last); }
    if !Ends(cs, s, Pool(first, s)) {
      var b :| first <= b && b + 4 <= s && Ends(cs, b, Pool(first, b)) && Ends(cs, s, Pool(b + 4, s));
      assert Tiled(cs, b + 4, last);
    }
  }

  lemma CutSurvives(bs: Blocks, cs: Blocks, b: int)
    requires Shape(bs) && Used(bs, b) && bs[b].size > 0 && CutPools(bs, cs, b)
    ensures PoolsSurvive(bs, cs)
  {
    assert ShapeAt(bs, b);
    forall s, pool | Ends(bs, s, pool) ensures Survives(cs, s, pool) {
      assert ShapeAt(bs, s);
      if pool == bs[b].pool {
        assert s == pool.last && b < s && b % 4 == 0 && s % 4 == 0;
        assert Ends(cs, b, Pool(pool.first, b));
      }
    }
  }

  /** What is clear of the pools is clear of them when one is cut. */
  lemma CutStaysClear(bs: Blocks, cs: Blocks, b: int, ctrl: int, r: Region)
    requires Shape(bs) && Used(bs, b) && bs[b].size > 0 && CutPools(bs, cs, b) && Clear(bs, ctrl, r)
    ensures Clear(cs, ctrl, r)
  {
    assert ShapeAt(bs, b);
    PoolEnds(bs, b);
    forall s, pool | Ends(cs, s, pool) ensures Beyond(r, pool.first + 4, pool.last + 8) {
      if !Ends(bs, s, pool) {
        assert Ends(bs, bs[b].pool.last, bs[b].pool);
        if s != b { assert ShapeAt(bs, s); }
      }
    }
  }

  // ---------------------------------------------------------------- memory for pools

  datatype Region = Region(start: int, bytes: nat)

  ghost predicate Beyond(r: Region, first: int, end: int) {
    end <= r.start || r.start + r.bytes <= first
  }

  /** The region lies outside the control structure and outside every pool, headers included. */
  ghost predicate Clear(bs: Blocks, ctrl: int, r: Region) {
    && Beyond(r, ctrl, ctrl + CONTROL_SIZE)
    && forall s, pool {:trigger Ends(bs, s, pool)} :: Ends(bs, s, pool) ==> Beyond(r, pool.first + 4, pool.last + 8)
  }

  lemma ClearIsUnused(bs: Blocks, ctrl: int, r: Region)
    requires Shape(bs) && Clear(bs, ctrl, r)
    ensures Unused(bs, ctrl, r.start, r.bytes)
  {
    forall b | b in bs ensures OutsideRegion(bs, b, r.start, r.bytes) {
      assert ShapeAt(bs, b);
      PoolEnds(bs, b);
      if bs[b].size > 0 { assert ShapeAt(bs, Next(bs, b)); }
    }
  }

  /** The pools after `tlsf_add_pool`. */
  lemma PoolAdded(bs: Blocks, ctrl: int, pm: int, size: nat)
    requires Shape(bs) && PoolFits(bs, ctrl, pm, size)
    ensures PoolsKept(bs, PoolB(bs, pm, size))
    ensures forall s, pool :: Ends(PoolB(bs, pm, size), s, pool) ==>
      Ends(bs, s, pool) || pool == Pool(pm - 4, pm + size)
  {
    PoolNew(bs, ctrl, pm, size);
  }

  // ---------------------------------------------------------------- the client

  /** A live allocation: what was asked for, and the words stored in it since. */
  datatype Allocation = Allocation(ptr: int, size: nat, known: map<nat, int>)

  datatype Op =
    | DoAddPool(region: Region)
    | DoMalloc(size: nat)
    | DoMemalign(e: nat, size: nat)
    | DoFree(i: nat)
    | DoRealloc(i: nat, size: nat)
    | DoStore(i: nat, k: nat, value: int)

  /** 32-bit sizes, alignments that are powers of two, and pools that have a free list. */
  predicate ValidOp(op: Op) {
    match op
    case DoAddPool(r) =>
      8 <= r.start && r.bytes < WORD && r.start + r.bytes <= WORD && PoolBytes(r.bytes) != BLOCK_SIZE_MAX
    case DoMalloc(size) => size < WORD
    case DoMemalign(e, size) => e <= 31 && size < WORD
    case DoFree(i) => true
    case DoRealloc(i, size) => size < WORD
    case DoStore(i, k, value) => true
  }

  /** What the client gets: a size that wraps around is taken for the least size. */
  function Granted(size: nat): nat {
    if size <= WORD - 4 then size else BLOCK_SIZE_MIN
  }

  /** And so is any size with an alignment of 2^31. */
  function GrantedAligned(e: nat, size: nat): nat {
    if e <= 30 then Granted(size) else BLOCK_SIZE_MIN
  }

  /** A reallocation that `tlsf_realloc` does not refuse, although it cannot be met. */
  predicate Ruinous(op: Op) {
    op.DoRealloc? && op.size != 0 && AdjustRequestSize(op.size, ALIGN_SIZE) == 0
  }

  function Remove(t: seq<Allocation>, i: nat): seq<Allocation>
    requires i < |t|
  {
    t[..i] + t[i + 1..]
  }

  /** The words that survive a change of size. */
  function Surviving(known: map<nat, int>, size: nat): map<nat, int> {
    map k | k in known && 4 * k + 4 <= size :: known[k]
  }

  /** What the client knows after an operation that returned `p`. */
  function After(t: seq<Allocation>, op: Op, p: int): seq<Allocation> {
    match op
    case DoAddPool(_) => t
    case DoMalloc(size) => if p == 0 then t else t + [Allocation(p, Granted(size), map[])]
    case DoMemalign(e, size) => if p == 0 then t else t + [Allocation(p, GrantedAligned(e, size), map[])]
    case DoFree(i) => if i < |t| then Remove(t, i) else t
    case DoRealloc(i, size) =>
      if i >= |t| then t
      else if size == 0 || Ruinous(op) then Remove(t, i)
      else if p == 0 then t
      else t[i := Allocation(p, Granted(size), Surviving(t[i].known, Granted(size)))]
    case DoStore(i, k, value) =>
      if i < |t| && 4 * k + 4 <= t[i].size then t[i := t[i].(known := t[i].known[k := value])] else t
  }

  /** The allocation is live, as large as asked for, and holds the words stored in it. */
  ghost predicate Intact(m: Memory, bs: Blocks, a: Allocation) {
    && Allocated(bs, a.ptr) && a.size <= bs[a.ptr - 8].size
    && forall k {:trigger a.known[k]} :: k in a.known ==> 4 * k + 4 <= a.size && Cell(m, a.ptr, k) == a.known[k]
  }

  ghost predicate AllIntact(m: Memory, bs: Blocks, t: seq<Allocation>) {
    && (forall i :: 0 <= i < |t| ==> Intact(m, bs, t[i]))
    && (forall i, j :: 0 <= i < j < |t| ==> t[i].ptr != t[j].ptr)
  }

  /** Other allocations stay intact. */
  lemma StaysIntact(m: Memory, m': Memory, bs: Blocks, cs: Blocks, exc: set<int>, a: Allocation)
    requires Preserved(m, m', bs, cs, exc) && Intact(m, bs, a) && a.ptr - 8 !in exc
    ensures Intact(m', cs, a)
  {
    assert PreservedAt(m, m', bs, cs, a.ptr - 8);
  }

  lemma AllStayIntact(m: Memory, m': Memory, bs: Blocks, cs: Blocks, exc: set<int>, t: seq<Allocation>)
    requires Preserved(m, m', bs, cs, exc) && AllIntact(m, bs, t)
    requires forall i :: 0 <= i < |t| ==> t[i].ptr - 8 !in exc
    ensures AllIntact(m', cs, t)
  {
    forall i | 0 <= i < |t| ensures Intact(m', cs, t[i]) { StaysIntact(m, m', bs, cs, exc, t[i]); }
  }

  lemma GrantedFits(bs: Blocks, p: int, size: nat)
    requires Shape(bs) && Allocated(bs, p) && (size <= WORD - 4 ==> size <= bs[p - 8].size)
    ensures Granted(size) <= bs[p - 8].size
  {
    assert ShapeAt(bs, p - 8);
  }

  /** A pointer that was not allocated before differs from all live ones. */
  lemma NewAllocation(m: Memory, m': Memory, bs: Blocks, cs: Blocks, t: seq<Allocation>, p: int, size: nat)
    requires AllIntact(m, bs, t) && !Used(bs, p - 8) && Allocated(cs, p) && size <= cs[p - 8].size
    requires Preserved(m, m', bs, cs, {p - 8})
    ensures AllIntact(m', cs, t + [Allocation(p, size, map[])])
  {
    forall i | 0 <= i < |t| ensures t[i].ptr != p { assert Intact(m, bs, t[i]); }
    AllStayIntact(m, m', bs, cs, {p - 8}, t);
  }

  lemma RemovedAllocation(m: Memory, m': Memory, bs: Blocks, cs: Blocks, t: seq<Allocation>, i: nat)
    requires AllIntact(m, bs, t) && i < |t| && Preserved(m, m', bs, cs, {t[i].ptr - 8})
    ensures AllIntact(m', cs, Remove(t, i))
  {
    forall j | 0 <= j < |Remove(t, i)|
      ensures Intact(m', cs, Remove(t, i)[j])
    {
      var k := if j < i then j else j + 1;
      assert Remove(t, i)[j] == t[k] && t[k].ptr != t[i].ptr;
      StaysIntact(m, m', bs, cs, {t[i].ptr - 8}, t[k]);
    }
  }

  lemma ResizedAllocation(m: Memory, m': Memory, bs: Blocks, cs: Blocks, t: seq<Allocation>, i: nat, q: int, size: nat)
    requires AllIntact(m, bs, t) && i < |t| && Allocated(cs, q) && size <= cs[q - 8].size
    requires q != t[i].ptr ==> !Used(bs, q - 8)
    requires var was, now := bs[t[i].ptr - 8].size, cs[q - 8].size;
      Moved(m, m', t[i].ptr, q, if was < now then was else now)
    requires Preserved(m, m', bs, cs, {t[i].ptr - 8} + {q - 8})
    ensures AllIntact(m', cs, t[i := Allocation(q, size, Surviving(t[i].known, size))])
  {
    var u := t[i := Allocation(q, size, Surviving(t[i].known, size))];
    assert Intact(m, bs, t[i]);
    forall k | k in Surviving(t[i].known, size)
      ensures Cell(m', q, k) == t[i].known[k]
    {
      assert Cell(m, t[i].ptr, k) == t[i].known[k];
    }
    forall j | 0 <= j < |u| && j != i
      ensures Intact(m', cs, u[j]) && u[j].ptr != q
    {
      assert Intact(m, bs, t[j]) && t[j].ptr != t[i].ptr;
      StaysIntact(m, m', bs, cs, {t[i].ptr - 8} + {q - 8}, t[j]);
    }
  }

  /** A store by the client into one of its allocations. */
  method Store(h: Allocator, p: int, k: nat, value: int)
    requires h.Valid() && Allocated(h.bs, p) && 4 * k + 4 <= h.bs[p - 8].size
    modifies h`mem
    ensures h.Valid() && Cell(h.mem, p, k) == value
    ensures forall w :: w != p + 4 * k ==> Rd(h.mem, w) == old(Rd(h.mem, w))
    ensures Preserved(old(h.mem), h.mem, h.bs, h.bs, {p - 8})
  {
    OwnerStores(h.mem, h.mem[p + 4 * k := value], h.bs, h.ls, h.ctrl, h.heads, {}, {}, p - 8);
    h.mem := h.mem[p + 4 * k := value];
  }

  lemma StoredAllocation(m: Memory, m': Memory, bs: Blocks, t: seq<Allocation>, i: nat, k: nat, value: int)
    requires AllIntact(m, bs, t) && i < |t| && 4 * k + 4 <= t[i].size && Cell(m', t[i].ptr, k) == value
    requires forall w :: w != t[i].ptr + 4 * k ==> Rd(m', w) == Rd(m, w)
    requires Preserved(m, m', bs, bs, {t[i].ptr - 8})
    ensures AllIntact(m', bs, t[i := t[i].(known := t[i].known[k := value])])
  {
    var u := t[i := t[i].(known := t[i].known[k := value])];
    assert Intact(m, bs, t[i]);
    forall c | c in u[i].known
      ensures 4 * c + 4 <= u[i].size && Cell(m', u[i].ptr, c) == u[i].known[c]
    {
      if c != k { assert Cell(m, t[i].ptr, c) == t[i].known[c]; }
    }
    forall j | 0 <= j < |u| && j != i
      ensures Intact(m', bs, u[j])
    {
      assert t[j].ptr != t[i].ptr;
      StaysIntact(m, m', bs, bs, {t[i].ptr - 8}, t[j]);
    }
  }

  /** An allocation that is given up, while the others keep what they have. */
  lemma GivenUp(m: Memory, m': Memory, bs: Blocks, cs: Blocks, t: seq<Allocation>, i: nat)
    requires AllIntact(m, bs, t) && i < |t| && OwnersKept(m, m', bs, cs, t[i].ptr - 8)
    ensures AllIntact(m', cs, Remove(t, i))
  {
    forall j | 0 <= j < |Remove(t, i)|
      ensures Intact(m', cs, Remove(t, i)[j])
    {
      var k := if j < i then j else j + 1;
      assert Remove(t, i)[j] == t[k] && t[k].ptr != t[i].ptr;
      assert Intact(m, bs, t[k]) && OwnerKept(m, m', bs, cs, t[k].ptr - 8);
    }
  }

  /**
   The pools are the old ones, and after `tlsf_add_pool` perhaps one in the region it was given; a
   reallocation that cannot be met may have cut one of them in two.
   */
  ghost predicate PoolsAfter(bs: Blocks, cs: Blocks, ctrl: int, op: Op) {
    && (if Ruinous(op) then PoolsSurvive(bs, cs) else PoolsKept(bs, cs))
    && forall r {:trigger Clear(cs, ctrl, r)} ::
         Clear(bs, ctrl, r) && (op.DoAddPool? ==> Separate(op.region, r)) ==> Clear(cs, ctrl, r)
  }

  ghost predicate Separate(q: Region, r: Region) {
    Beyond(r, q.start, q.start + q.bytes)
  }

  lemma PoolsUnchanged(m: Memory, m': Memory, bs: Blocks, cs: Blocks, exc: set<int>, ctrl: int, op: Op)
    requires Shape(bs) && Shape(cs) && Preserved(m, m', bs, cs, exc)
    requires forall x :: x in exc && x in bs && !bs[x].free ==> bs[x].size > 0
    requires forall x :: x in exc && x in cs && !cs[x].free ==> cs[x].size > 0
    ensures PoolsAfter(bs, cs, ctrl, op)
  {
    SamePools(m, m', bs, cs, exc);
  }

  /** One operation of the client; indices outside the table are ignored. */
  method Perform(h: Allocator, t: seq<Allocation>, op: Op) returns (u: seq<Allocation>, p: int)
    requires h.Valid() && AllIntact(h.mem, h.bs, t) && ValidOp(op)
    requires op.DoAddPool? ==> Clear(h.bs, h.ctrl, op.region)
    modifies h
    ensures h.Valid() && AllIntact(h.mem, h.bs, u) && u == After(t, op, p)
    ensures PoolsAfter(old(h.bs), h.bs, h.ctrl, op)
  {
    p := 0;
    match op {
      case DoAddPool(r) =>
        p := PerformAddPool(h, t, r);
      case DoMalloc(size) =>
        p := h.Malloc(size);
        if p != 0 {
          GrantedFits(h.bs, p, size);
          NewAllocation(old(h.mem), h.mem, old(h.bs), h.bs, t, p, Granted(size));
          PoolsUnchanged(old(h.mem), h.mem, old(h.bs), h.bs, {p - 8}, h.ctrl, op);
        }
      case DoMemalign(e, size) =>
        ghost var found;
        p, found := h.Memalign(e, size);
        if p != 0 {
          GrantedFits(h.bs, p, if e <= 30 then size else WORD - 1);
          NewAllocation(old(h.mem), h.mem, old(h.bs), h.bs, t, p, GrantedAligned(e, size));
          PoolsUnchanged(old(h.mem), h.mem, old(h.bs), h.bs, {p - 8}, h.ctrl, op);
        }
      case DoFree(i) =>
        if i < |t| {
          PerformFree(h, t, i);
        }
      case DoRealloc(i, size) =>
        if i < |t| {
          p := PerformRealloc(h, t, i, size);
        }
      case DoStore(i, k, value) =>
        if i < |t| && 4 * k + 4 <= t[i].size {
          assert Intact(h.mem, h.bs, t[i]);
          Store(h, t[i].ptr, k, value);
          StoredAllocation(old(h.mem), h.mem, h.bs, t, i, k, value);
        }
    }
    u := After(t, op, p);
  }

  method PerformAddPool(h: Allocator, t: seq<Allocation>, r: Region) returns (p: int)
    requires h.Valid() && AllIntact(h.mem, h.bs, t) && ValidOp(DoAddPool(r)) && Clear(h.bs, h.ctrl, r)
    modifies h
    ensures h.Valid() && AllIntact(h.mem, h.bs, t) && PoolsAfter(old(h.bs), h.bs, h.ctrl, DoAddPool(r))
  {
    ghost var bs, size := h.bs, PoolBytes(r.bytes);
    ClearIsUnused(bs, h.ctrl, r);
    p := h.AddPool(r.start, r.bytes);
    if p != 0 {
      PoolBytesFit(r.bytes);
      UnusedPart(bs, h.ctrl, r.start, r.bytes, size + 8);
      PoolAdded(bs, h.ctrl, r.start, size);
      NotInTable(old(h.mem), bs, h.ctrl, t, r.start, size);
      AllStayIntact(old(h.mem), h.mem, bs, h.bs, {r.start + size}, t);
    }
  }

  lemma NotInTable(m: Memory, bs: Blocks, ctrl: int, t: seq<Allocation>, pm: int, size: nat)
    requires AllIntact(m, bs, t) && PoolFits(bs, ctrl, pm, size)
    ensures forall i :: 0 <= i < |t| ==> t[i].ptr - 8 != pm + size
  {
    PoolNew(bs, ctrl, pm, size);
    forall i | 0 <= i < |t| ensures t[i].ptr - 8 != pm + size { assert Intact(m, bs, t[i]); }
  }

  method PerformFree(h: Allocator, t: seq<Allocation>, i: nat)
    requires h.Valid() && AllIntact(h.mem, h.bs, t) && i < |t|
    modifies h
    ensures h.Valid() && AllIntact(h.mem, h.bs, Remove(t, i)) && PoolsAfter(old(h.bs), h.bs, h.ctrl, DoFree(i))
  {
    assert Intact(h.mem, h.bs, t[i]);
    AllocatedPositive(h.bs, t[i].ptr);
    h.Free(t[i].ptr);
    RemovedAllocation(old(h.mem), h.mem, old(h.bs), h.bs, t, i);
    PoolsUnchanged(old(h.mem), h.mem, old(h.bs), h.bs, {t[i].ptr - 8}, h.ctrl, DoFree(i));
  }

  method PerformRealloc(h: Allocator, t: seq<Allocation>, i: nat, size: nat) returns (p: int)
    requires h.Valid() && AllIntact(h.mem, h.bs, t) && i < |t| && size < WORD
    modifies h
    ensures h.Valid() && AllIntact(h.mem, h.bs, After(t, DoRealloc(i, size), p))
    ensures PoolsAfter(old(h.bs), h.bs, h.ctrl, DoRealloc(i, size))
  {
    assert Intact(h.mem, h.bs, t[i]);
    AllocatedPositive(h.bs, t[i].ptr);
    AdjustedSize(size);
    p := h.Realloc(t[i].ptr, size);
    var b := t[i].ptr - 8;
    if Ruinous(DoRealloc(i, size)) {
      GivenUp(old(h.mem), h.mem, old(h.bs), h.bs, t, i);
      PoolsCut(old(h.bs), h.bs, b, h.ctrl, DoRealloc(i, size));
    } else if size == 0 {
      assert {b} + {} == {b};
      RemovedAllocation(old(h.mem), h.mem, old(h.bs), h.bs, t, i);
      PoolsUnchanged(old(h.mem), h.mem, old(h.bs), h.bs, {b}, h.ctrl, DoRealloc(i, size));
    } else if p != 0 {
      GrantedFits(h.bs, p, size);
      ResizedAllocation(old(h.mem), h.mem, old(h.bs), h.bs, t, i, p, Granted(size));
      PoolsUnchanged(old(h.mem), h.mem, old(h.bs), h.bs, {b} + {p - 8}, h.ctrl, DoRealloc(i, size));
    }
  }

  lemma PoolsCut(bs: Blocks, cs: Blocks, b: int, ctrl: int, op: Op)
    requires Shape(bs) && Used(bs, b) && bs[b].size > 0 && Ruinous(op) && (cs == bs || CutPools(bs, cs, b))
    ensures PoolsAfter(bs, cs, ctrl, op)
  {
    if cs != bs {
      CutSurvives(bs, cs, b);
      forall r | Clear(bs, ctrl, r) ensures Clear(cs, ctrl, r) { CutStaysClear(bs, cs, b, ctrl, r); }
    }
  }

  // ---------------------------------------------------------------- every run

  /** The client's table after a run in which the operations returned `ps`. */
  function Outcome(t: seq<Allocation>, ops: seq<Op>, ps: seq<int>): seq<Allocation>
    requires |ops| == |ps|
  {
    if ops == [] then t else After(Outcome(t, ops[..|ops| - 1], ps[..|ps| - 1]), ops[|ops| - 1], ps[|ps| - 1])
  }

  /** The operations from `i` on are valid, and the pools they add get memory of their own. */
  ghost predicate Acceptable(bs: Blocks, ctrl: int, ops: seq<Op>, i: nat) {
    && (forall j :: i <= j < |ops| ==> ValidOp(ops[j]) && (ops[j].DoAddPool? ==> Clear(bs, ctrl, ops[j].region)))
    && (forall j, k :: i <= j < k < |ops| && ops[j].DoAddPool? && ops[k].DoAddPool? ==>
          Separate(ops[j].region, ops[k].region))
  }

  /** The live allocations do not overlap. */
  ghost predicate NoOverlap(t: seq<Allocation>) {
    forall i, j :: 0 <= i < j < |t| ==> Beyond(Region(t[i].ptr, t[i].size), t[j].ptr, t[j].ptr + t[j].size)
  }

  lemma IntactApart(m: Memory, bs: Blocks, t: seq<Allocation>)
    requires Shape(bs) && AllIntact(m, bs, t)
    ensures NoOverlap(t)
  {
    forall i, j | 0 <= i < j < |t| ensures Beyond(Region(t[i].ptr, t[i].size), t[j].ptr, t[j].ptr + t[j].size) {
      assert Intact(m, bs, t[i]) && Intact(m, bs, t[j]);
      AllocationsDisjoint(bs, t[i].ptr, t[j].ptr);
    }
  }

  /** No byte of a pool is lost: pools that add up to it lie one behind the other from its start to its end. */
  ghost predicate Conserved(bs: Blocks, cs: Blocks) {
    forall s, pool {:trigger Ends(bs, s, pool)} :: Ends(bs, s, pool) ==> Tiled(cs, pool.first, s)
  }

  /** The blocks of every pool and their headers add up to it. */
  ghost predicate AddedUp(bs: Blocks)
    requires Shape(bs)
  {
    forall s, pool {:trigger Ends(bs, s, pool)} :: Ends(bs, s, pool) ==>
      pool.first in bs && SizesFrom(bs, pool.first) == s - pool.first
  }

  lemma ShapeAddsUp(bs: Blocks)
    requires Shape(bs)
    ensures AddedUp(bs)
  {
    forall s, pool | Ends(bs, s, pool) ensures pool.first in bs && SizesFrom(bs, pool.first) == s - pool.first {
      PoolConserved(bs, s);
      assert ShapeAt(bs, s);
    }
  }

  lemma ConservedFirst(bs: Blocks)
    requires Shape(bs)
    ensures Conserved(bs, bs)
  {
    forall s, pool | Ends(bs, s, pool) ensures Tiled(bs, pool.first, s) { assert ShapeAt(bs, s); }
  }

  lemma ConservedNext(bs: Blocks, cs: Blocks, ds: Blocks, ctrl: int, op: Op)
    requires Conserved(bs, cs) && PoolsAfter(cs, ds, ctrl, op)
    ensures Conserved(bs, ds)
  {
    forall s, pool | Ends(bs, s, pool) ensures Tiled(ds, pool.first, s) { TiledSurvives(cs, ds, pool.first, s); }
  }

  /**
   Safety of every run: after any sequence of operations, pools added in between and reallocations that
   cannot be met included, the heap is valid, every live allocation is intact and overlaps no other, the
   client finds in each the words it last stored there, and no byte of a pool is lost. The pools
   themselves are those of the start, and those added, unless a reallocation could not be met.
   */
  method Run(h: Allocator, t0: seq<Allocation>, ops: seq<Op>) returns (t: seq<Allocation>, ps: seq<int>)
    requires h.Valid() && AllIntact(h.mem, h.bs, t0) && Acceptable(h.bs, h.ctrl, ops, 0)
    modifies h
    ensures h.Valid() && AllIntact(h.mem, h.bs, t) && |ps| == |ops| && t == Outcome(t0, ops, ps)
    ensures NoOverlap(t) && Conserved(old(h.bs), h.bs) && AddedUp(h.bs)
    ensures (forall j :: 0 <= j < |ops| ==> !Ruinous(ops[j])) ==> PoolsKept(old(h.bs), h.bs)
  {
    t, ps := t0, [];
    ConservedFirst(h.bs);
    for i := 0 to |ops|
      invariant h.Valid() && AllIntact(h.mem, h.bs, t) && |ps| == i && t == Outcome(t0, ops[..i], ps)
      invariant Acceptable(h.bs, h.ctrl, ops, i) && Conserved(old(h.bs), h.bs)
      invariant (forall j :: 0 <= j < i ==> !Ruinous(ops[j])) ==> PoolsKept(old(h.bs), h.bs)
    {
      ghost var before := h.bs;
      var p;
      t, p := Perform(h, t, ops[i]);
      ConservedNext(old(h.bs), before, h.bs, h.ctrl, ops[i]);
      assert ops[..i + 1][..i] == ops[..i] && (ps + [p])[..i] == ps;
      ps := ps + [p];
    }
    assert ops[..|ops|] == ops;
    IntactApart(h.mem, h.bs, t);
    ShapeAddsUp(h.bs);
  }
}
