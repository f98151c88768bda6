/**
 The two-way substring search of libyaul/lib/string/memmem.c (`twoway_memmem`): the critical
 factorisation of the needle, the validity of each of its shifts, and the search loop.
 */
module TwoWay {
  import opened Bytes
  import opened Multiples
  import opened MaximalSuffix

  /** The needle starts at position `i` of the haystack. */
  ghost predicate Occurs(h: seq<byte>, n: seq<byte>, i: nat) {
    i + |n| <= |h| && h[i..i + |n|] == n
  }

  /** No occurrence starts at positions `b` to `e`. */
  ghost predicate NoneIn(h: seq<byte>, n: seq<byte>, b: nat, e: nat) {
    forall i: nat :: b <= i < e ==> !Occurs(h, n, i)
  }

  datatype Match = Found(at: nat) | NotFound

  /** The answer of a search: the first occurrence, or that there is none. */
  ghost predicate IsFirstMatch(h: seq<byte>, n: seq<byte>, r: Match) {
    match r
    case Found(i) => Occurs(h, n, i) && NoneIn(h, n, 0, i)
    case NotFound => forall i: nat :: !Occurs(h, n, i)
  }

  /**
   A square of side `s` is centred at cut `c`, as far as it lies inside the needle:
   bytes `s` apart agree from the cut up to `s` bytes after it.
   */
  ghost predicate LocalRepetition(n: seq<byte>, c: nat, s: nat) {
    forall j: nat :: c <= j < c + s && s <= j < |n| ==> Lag(n, j, s) == n[j]
  }

  /** The byte `s` places before position `j`. */
  ghost function Lag(n: seq<byte>, j: nat, s: nat): byte
    requires s <= j < |n|
  {
    n[j - s]
  }

  lemma RepetitionAt(n: seq<byte>, c: nat, s: nat, j: nat)
    requires LocalRepetition(n, c, s) && c <= j < c + s && s <= j < |n|
    ensures n[j - s] == n[j]
  {
    assert Lag(n, j, s) == n[j];
  }

  lemma BelowNotAbove(n: seq<byte>, x: nat, y: nat, d: nat, rev: bool)
    requires Below(n, x, y, d, rev)
    ensures !LexLess(n[y..], n[x..], rev)
  {
    if LexLess(n[y..], n[x..], rev) {
      var e := LexLessDecided(n, y, x, rev);
      if e < d { SameAt(n, x, y, d, e); }
      if d < e { SameAt(n, y, x, e, d); }
    }
  }

  /** A square that fits to the left of the cut would give a suffix above the maximal one. */
  lemma NoShortRepetition(n: seq<byte>, c: nat, rev: bool, s: nat)
    requires IsMaximalSuffix(n, c, rev) && 0 < s && LocalRepetition(n, c, s)
    ensures c < s
  {
    if s <= c {
      var d := LexLessDecided(n, c - s, c, rev);
      assert s <= d by {
        if d < s { RepetitionAt(n, c, s, c + d); }
      }
      SameDrop(n, c - s, c, d, s);
      assert Below(n, c, c + s, d - s, rev);
      BelowNotAbove(n, c, c + s, d - s, rev);
      assert false;
    }
  }

  lemma SameDrop(n: seq<byte>, b: nat, a: nat, d: nat, s: nat)
    requires b + d <= |n| && a + d <= |n| && Same(n, b, a, d) && s <= d
    ensures Same(n, b + s, a + s, d - s)
  {
    var b', a', d' := b + s, a + s, d - s;
    forall i: nat | i < d'
      ensures At(n, b', i) == At(n, a', i)
    {
      SameAt(n, b, a, d, i + s);
    }
  }

  /** Two suffixes ordered the same way by both byte orders: the smaller one is a prefix. */
  lemma BothOrdersMeanPrefix(n: seq<byte>, b: nat, a: nat, d: nat, e: nat, rev: bool)
    requires a < b < |n|
    requires Below(n, b, a, d, rev) || (d == |n| - b && Same(n, b, a, d))
    requires Below(n, b, a, e, !rev) || (e == |n| - b && Same(n, b, a, e))
    ensures Same(n, b, a, |n| - b)
  {
    if e < d { SameAt(n, b, a, d, e); }
    if d < e { SameAt(n, b, a, e, d); }
  }

  /**
   The square overhangs the needle on the left: both maximal suffixes force what follows it to
   repeat the start of the right half.
   */
  lemma OverhangRepeats(n: seq<byte>, c: nat, c': nat, rev: bool, s: nat)
    requires IsMaximalSuffix(n, c, rev) && IsMaximalSuffix(n, c', !rev) && c' <= c < s && c + s < |n|
    requires LocalRepetition(n, c, s)
    ensures Same(n, c + s, c, |n| - c - s)
  {
    var d := LexLessDecided(n, c + s, c, rev);
    var e := OverhangDecided(n, c, c', rev, s);
    BothOrdersMeanPrefix(n, c + s, c, d, e, rev);
  }

  /** The repetition carries the other order's comparison from `c'` over to the cut. */
  lemma OverhangDecided(n: seq<byte>, c: nat, c': nat, rev: bool, s: nat) returns (e: nat)
    requires IsMaximalSuffix(n, c', !rev) && c' <= c < s && c + s < |n| && LocalRepetition(n, c, s)
    ensures Below(n, c + s, c, e, !rev) || (e == |n| - c - s && Same(n, c + s, c, e))
  {
    var z := c - c';
    e := LexLessDecided(n, c' + s, c', !rev);
    if e < z {
      RepetitionAt(n, c, s, c' + s + e);
    } else {
      SameDrop(n, c' + s, c', e, z);
      e := e - z;
    }
  }

  lemma PeriodFromParts(n: seq<byte>, c: nat, s: nat)
    requires c < s && LocalRepetition(n, c, s)
    requires c + s < |n| ==> Same(n, c + s, c, |n| - c - s)
    ensures IsPeriod(n, 0, s)
  {
    if s < |n| {
      forall i | 0 <= i < |n| - s
        ensures n[0..|n| - s][i] == n[s..|n|][i]
      {
        if i < c {
          RepetitionAt(n, c, s, i + s);
        } else {
          SameAt(n, c + s, c, |n| - c - s, i - c);
        }
      }
    }
  }

  /**
   The critical factorisation theorem for the cut the code chooses, the later of the two
   maximal suffixes: every repetition centred there is longer than the left half and is a
   period of the whole needle.
   */
  lemma CriticalFactorisation(n: seq<byte>, c: nat, c': nat, rev: bool, s: nat)
    requires IsMaximalSuffix(n, c, rev) && IsMaximalSuffix(n, c', !rev) && c' <= c
    requires 0 < s && LocalRepetition(n, c, s)
    ensures c < s && IsPeriod(n, 0, s)
  {
    NoShortRepetition(n, c, rev, s);
    if c + s < |n| {
      OverhangRepeats(n, c, c', rev, s);
    }
    PeriodFromParts(n, c, s);
  }

  /** The smallest period of the right half, if it is no period of the needle, leaves no short ones. */
  lemma NoShortPeriod(n: seq<byte>, c: nat, c': nat, rev: bool, p: nat, s: nat)
    requires IsMaximalSuffix(n, c, rev) && IsMaximalSuffix(n, c', !rev) && c' <= c
    requires IsSmallestPeriod(n, c, p) && !IsPeriod(n, 0, p) && IsPeriod(n, 0, s)
    ensures |n| - c < s
  {
    if s <= |n| - c {
      var t, r := SplitMultiple(s, p);
      if r == 0 {
        t, r := t - p, p;
      }
      forall j: nat | c <= j < c + r && r <= j < |n|
        ensures Lag(n, j, r) == n[j]
      {
        PeriodAt(n, 0, |n|, s, j - r);
        PeriodMultiple(n, c, |n|, p, t, j);
      }
      CriticalFactorisation(n, c, c', rev, r);
      PeriodOfSuffix(n, c, r);
      assert false;
    }
  }

  lemma PeriodOfSuffix(n: seq<byte>, c: nat, p: nat)
    requires IsPeriod(n, 0, p)
    ensures IsPeriod(n, c, p)
  {
    if c + p < |n| {
      assert n[c..|n| - p] == n[0..|n| - p][c..] && n[c + p..|n|] == n[p..|n|][c..];
    }
  }

  lemma OccursAt(h: seq<byte>, n: seq<byte>, i: nat, j: nat)
    requires Occurs(h, n, i) && j < |n|
    ensures h[i + j] == n[j]
  {
    assert h[i..i + |n|][j] == n[j];
  }

  /** The window at `at` agrees with the needle on positions `lo` to `hi`. */
  ghost predicate Agrees(h: seq<byte>, n: seq<byte>, at: nat, lo: nat, hi: nat)
    requires at + |n| <= |h| && hi <= |n|
  {
    forall j: nat :: lo <= j < hi ==> h[at + j] == n[j]
  }

  /** An occurrence `s` further on, over an agreeing stretch, is a repetition in the needle. */
  lemma OverlapRepeats(h: seq<byte>, n: seq<byte>, at: nat, c: nat, k: nat, s: nat)
    requires at + |n| <= |h| && k <= |n| && Agrees(h, n, at, c, k) && Occurs(h, n, at + s)
    requires c + s <= k || k == |n|
    ensures LocalRepetition(n, c, s)
  {
    forall j: nat | c <= j < c + s && s <= j < |n|
      ensures Lag(n, j, s) == n[j]
    {
      OccursAt(h, n, at + s, j - s);
    }
  }

  /** Mismatch in the right half at `k`: no occurrence up to `k - c` further on. */
  lemma RightMismatchSkips(h: seq<byte>, n: seq<byte>, at: nat, c: nat, c': nat, rev: bool, k: nat, s: nat)
    requires IsMaximalSuffix(n, c, rev) && IsMaximalSuffix(n, c', !rev) && c' <= c
    requires at + |n| <= |h| && c <= k < |n| && Agrees(h, n, at, c, k) && h[at + k] != n[k] && s <= k - c
    ensures !Occurs(h, n, at + s)
  {
    if Occurs(h, n, at + s) {
      OccursAt(h, n, at + s, k - s);
      if s > 0 {
        OverlapRepeats(h, n, at, c, k, s);
        CriticalFactorisation(n, c, c', rev, s);
        PeriodAt(n, 0, |n|, s, k - s);
      }
    }
  }

  /** The shift used when the right half matched and the left half did not. */
  ghost predicate IsLeftShift(n: seq<byte>, c: nat, p: nat) {
    forall s: nat :: 0 < s < p && IsPeriod(n, 0, s) ==> s <= c
  }

  lemma LeftMismatchSkips(h: seq<byte>, n: seq<byte>, at: nat, c: nat, c': nat, rev: bool, p: nat, s: nat)
    requires IsMaximalSuffix(n, c, rev) && IsMaximalSuffix(n, c', !rev) && c' <= c
    requires at + |n| <= |h| && Agrees(h, n, at, c, |n|) && IsLeftShift(n, c, p) && 0 < s < p
    ensures !Occurs(h, n, at + s)
  {
    if Occurs(h, n, at + s) {
      OverlapRepeats(h, n, at, c, |n|, s);
      CriticalFactorisation(n, c, c', rev, s);
    }
  }

  /** `last` is one more than the last position of byte `x` in the needle. */
  ghost predicate IsLastPosition(n: seq<byte>, x: byte, last: nat) {
    0 < last <= |n| && n[last - 1] == x && forall j: nat :: last <= j < |n| ==> n[j] != x
  }

  lemma BadByteSkips(h: seq<byte>, n: seq<byte>, at: nat, last: nat, s: nat)
    requires 0 < |n| && at + |n| <= |h| && s < |n| - last
    requires forall j: nat :: last <= j < |n| ==> n[j] != h[at + |n| - 1]
    ensures !Occurs(h, n, at + s)
  {
    if Occurs(h, n, at + s) {
      OccursAt(h, n, at + s, |n| - 1 - s);
    }
  }

  /**
   After a shift by the period the first `|n| - p` bytes are known to match. A bad last byte then
   allows skipping all of them.
   */
  lemma BadByteSkipsMemory(h: seq<byte>, n: seq<byte>, at: nat, p: nat, s: nat)
    requires at + |n| <= |h| && IsPeriod(n, 0, p) && p < |n| && Agrees(h, n, at, 0, |n| - p)
    requires h[at + |n| - 1] != n[|n| - 1] && s < |n| - p
    ensures !Occurs(h, n, at + s)
  {
    if Occurs(h, n, at + s) { RememberedLastByte(h, n, at, p, s, |n| - p - 1); }
  }

  /** An occurrence inside the remembered part agrees with the last byte of the window. */
  lemma RememberedLastByte(h: seq<byte>, n: seq<byte>, at: nat, p: nat, s: nat, j: nat)
    requires at + |n| <= |h| && IsPeriod(n, 0, p) && p < |n| && Agrees(h, n, at, 0, |n| - p)
    requires j == |n| - p - 1 && s <= j && Occurs(h, n, at + s)
    ensures h[at + |n| - 1] == n[|n| - 1]
  {
    assert h[at + j] == n[j];
    OccursAt(h, n, at + s, j - s);
    OccursAt(h, n, at + s, j + p - s);
    PeriodAt(n, 0, |n|, p, j - s);
    PeriodAt(n, 0, |n|, p, j);
  }

  /**
   The cut `ms + 1`, the shift `p` after a left mismatch and the length `mem0` remembered across
   that shift, as the code computes them. The ghost results name the other maximal suffix.
   */
  ghost predicate IsFactorisation(n: seq<byte>, ms: int, p: nat, mem0: nat, c': nat, rev: bool) {
    && -1 <= ms && 0 < p <= |n|
    && IsMaximalSuffix(n, ms + 1, rev) && IsMaximalSuffix(n, c', !rev) && c' <= ms + 1
    && IsLeftShift(n, ms + 1, p)
    && (mem0 == 0 || (mem0 == |n| - p && IsPeriod(n, 0, p) && ms + 1 < p))
  }

  lemma PeriodicFactorisation(n: seq<byte>, c: nat, c': nat, rev: bool, p: nat)
    requires IsMaximalSuffix(n, c, rev) && IsMaximalSuffix(n, c', !rev) && c' <= c
    requires IsSmallestPeriod(n, c, p) && c + p <= |n| && n[..c] == n[p..p + c]
    ensures IsPeriod(n, 0, p) && IsLeftShift(n, c, p) && c < p
  {
    forall i | 0 <= i < |n| - p
      ensures n[0..|n| - p][i] == n[p..|n|][i]
    {
      if i < c {
        assert n[..c][i] == n[p..p + c][i];
      } else {
        PeriodAt(n, c, |n|, p, i);
      }
    }
    forall s: nat | 0 < s < p
      ensures !IsPeriod(n, 0, s)
    {
      if IsPeriod(n, 0, s) { PeriodOfSuffix(n, c, s); }
    }
    forall j: nat | c <= j < c + p && p <= j < |n|
      ensures Lag(n, j, p) == n[j]
    {
      PeriodAt(n, 0, |n|, p, j - p);
    }
    NoShortRepetition(n, c, rev, p);
  }

  lemma AperiodicFactorisation(n: seq<byte>, c: nat, c': nat, rev: bool, p: nat, q: nat)
    requires IsMaximalSuffix(n, c, rev) && IsMaximalSuffix(n, c', !rev) && c' <= c
    requires IsSmallestPeriod(n, c, p) && c + p <= |n| && n[..c] != n[p..p + c]
    requires q <= c || q <= |n| - c + 1
    ensures IsLeftShift(n, c, q)
  {
    if IsPeriod(n, 0, p) {
      forall i | 0 <= i < c
        ensures n[..c][i] == n[p..p + c][i]
      {
        PeriodAt(n, 0, |n|, p, i);
      }
      assert false;
    }
    forall s: nat | 0 < s < q && IsPeriod(n, 0, s)
      ensures s <= c
    {
      NoShortPeriod(n, c, c', rev, p, s);
    }
  }

  /** The later of the two maximal suffixes and its smallest period. */
  method ChooseCut(n: seq<byte>) returns (ms: int, p: nat, ghost c': nat, ghost rev: bool)
    requires |n| > 0
    ensures -1 <= ms && ms + 1 + p <= |n| && c' <= ms + 1
    ensures IsMaximalSuffix(n, ms + 1, rev) && IsMaximalSuffix(n, c', !rev) && IsSmallestPeriod(n, ms + 1, p)
  {
    var ms0, p0 := ComputeMaximalSuffix(n, false);
    var ms1, p1 := ComputeMaximalSuffix(n, true);
    if ms1 + 1 > ms0 + 1 {
      ms, p, c', rev := ms1, p1, ms0 + 1, true;
    } else {
      ms, p, c', rev := ms0, p0, ms1 + 1, false;
    }
  }

  function Larger(a: int, b: int): int {
    if a > b then a else b
  }

  /** The shift is a period of the needle, or at least the left half and more than the right half. */
  method Factorise(n: seq<byte>) returns (ms: int, p: nat, mem0: nat, ghost c': nat, ghost rev: bool)
    requires |n| > 0
    ensures IsFactorisation(n, ms, p, mem0, c', rev)
    ensures (IsPeriod(n, 0, p) && mem0 == |n| - p) || (mem0 == 0 && p == Larger(ms + 1, |n| - ms))
  {
    var l := |n|;
    ms, p, c', rev := ChooseCut(n);
    if n[..ms + 1] != n[p..p + ms + 1] {
      // The cut is not empty here, so ms is not the all-ones value.
      assert ms >= 0;
      mem0 := 0;
      var q := (if ms > l - ms - 1 then ms else l - ms - 1) + 1;
      AperiodicFactorisation(n, ms + 1, c', rev, p, q);
      p := q;
    } else {
      mem0 := l - p;
      PeriodicFactorisation(n, ms + 1, c', rev, p);
    }
  }

  /** Which bytes the needle contains (`byteset`) and one past their last position (`shift`). */
  ghost predicate IsShiftTable(n: seq<byte>, byteset: seq<bool>, shift: seq<nat>) {
    && |byteset| == 256 && |shift| == 256
    && forall x: byte :: if byteset[x] then IsLastPosition(n, x, shift[x]) else x !in n
  }

  method FillShiftTable(n: seq<byte>, byteset: array<bool>, shift: array<nat>)
    requires byteset.Length == 256 && shift.Length == 256
    requires forall x :: 0 <= x < 256 ==> !byteset[x]
    modifies byteset, shift
    ensures IsShiftTable(n, byteset[..], shift[..])
  {
    for i := 0 to |n|
      invariant IsShiftTable(n[..i], byteset[..], shift[..])
    {
      byteset[n[i]] := true;
      shift[n[i]] := i + 1;
      assert n[..i + 1] == n[..i] + [n[i]];
    }
    assert n[..|n|] == n;
  }

  /** The first `mem` bytes at `at` match the needle. */
  ghost predicate Remembered(h: seq<byte>, n: seq<byte>, at: nat, mem: nat) {
    mem <= |n| && at + mem <= |h| && forall j: nat :: j < mem ==> h[at + j] == n[j]
  }

  lemma RememberAfterShift(h: seq<byte>, n: seq<byte>, at: nat, c: nat, p: nat)
    requires at + |n| <= |h| && Agrees(h, n, at, c, |n|) && IsPeriod(n, 0, p) && c < p <= |n|
    ensures Remembered(h, n, at + p, |n| - p)
  {
    forall j: nat | j < |n| - p
      ensures h[at + p + j] == n[j]
    {
      assert h[at + (p + j)] == n[p + j];
      PeriodAt(n, 0, |n|, p, j);
    }
  }

  /** Compares the right half, from the cut or the remembered prefix on, up to the first difference. */
  method CompareRight(h: seq<byte>, n: seq<byte>, at: nat, c: nat, mem: nat) returns (k: nat)
    requires at + |n| <= |h| && c <= |n| && Remembered(h, n, at, mem)
    ensures c <= k && mem <= k <= |n| && Agrees(h, n, at, c, k)
    ensures k < |n| ==> h[at + k] != n[k]
  {
    k := if c > mem then c else mem;
    while k < |n| && n[k] == h[at + k]
      invariant c <= k && mem <= k <= |n| && Agrees(h, n, at, c, k)
    {
      k := k + 1;
    }
  }

  /** Compares the left half downwards from the cut, as far as the remembered prefix. */
  method CompareLeft(h: seq<byte>, n: seq<byte>, at: nat, c: nat, mem: nat) returns (k: nat)
    requires at + |n| <= |h| && c <= |n| && Remembered(h, n, at, mem) && Agrees(h, n, at, c, |n|)
    ensures k <= mem <==> Occurs(h, n, at)
  {
    k := c;
    while k > mem && n[k - 1] == h[at + k - 1]
      invariant k <= c && Agrees(h, n, at, k, |n|)
    {
      k := k - 1;
    }
    if k <= mem {
      assert h[at..at + |n|] == n;
    } else {
      DifferentAt(h, n, at, k - 1);
    }
  }

  lemma DifferentAt(h: seq<byte>, n: seq<byte>, at: nat, j: nat)
    requires at + |n| <= |h| && j < |n| && h[at + j] != n[j]
    ensures !Occurs(h, n, at)
  {
    if Occurs(h, n, at) { OccursAt(h, n, at, j); }
  }

  lemma SkipBadByte(h: seq<byte>, n: seq<byte>, at: nat, last: nat, e: nat)
    requires 0 < |n| && at + |n| <= |h| && last <= |n| && e <= at + |n| - last
    requires forall j: nat :: last <= j < |n| ==> n[j] != h[at + |n| - 1]
    ensures NoneIn(h, n, at, e)
  {
    forall i: nat | at <= i < e
      ensures !Occurs(h, n, i)
    {
      BadByteSkips(h, n, at, last, i - at);
    }
  }

  lemma SkipRemembered(h: seq<byte>, n: seq<byte>, at: nat, p: nat, e: nat)
    requires at + |n| <= |h| && IsPeriod(n, 0, p) && p < |n| && Remembered(h, n, at, |n| - p)
    requires h[at + |n| - 1] != n[|n| - 1] && e <= at + |n| - p
    ensures NoneIn(h, n, at, e)
  {
    forall i: nat | at <= i < e
      ensures !Occurs(h, n, i)
    {
      BadByteSkipsMemory(h, n, at, p, i - at);
    }
  }

  lemma SkipRightMismatch(h: seq<byte>, n: seq<byte>, at: nat, c: nat, c': nat, rev: bool, k: nat, e: nat)
    requires IsMaximalSuffix(n, c, rev) && IsMaximalSuffix(n, c', !rev) && c' <= c
    requires at + |n| <= |h| && c <= k < |n| && Agrees(h, n, at, c, k) && h[at + k] != n[k]
    requires e <= at + k - c + 1
    ensures NoneIn(h, n, at, e)
  {
    forall i: nat | at <= i < e
      ensures !Occurs(h, n, i)
    {
      RightMismatchSkips(h, n, at, c, c', rev, k, i - at);
    }
  }

  lemma SkipLeftMismatch(h: seq<byte>, n: seq<byte>, at: nat, c: nat, c': nat, rev: bool, p: nat, e: nat)
    requires IsMaximalSuffix(n, c, rev) && IsMaximalSuffix(n, c', !rev) && c' <= c
    requires at + |n| <= |h| && Agrees(h, n, at, c, |n|) && IsLeftShift(n, c, p) && e <= at + p
    requires !Occurs(h, n, at)
    ensures NoneIn(h, n, at, e)
  {
    forall i: nat | at <= i < e
      ensures !Occurs(h, n, i)
    {
      if at < i { LeftMismatchSkips(h, n, at, c, c', rev, p, i - at); }
    }
  }

  /** What the search loop keeps: nothing was missed, and the remembered prefix is real. */
  ghost predicate SearchInvariant(h: seq<byte>, n: seq<byte>, at: nat, mem: nat, p: nat) {
    && at <= |h| && NoneIn(h, n, 0, at)
    && (mem == 0 || (mem == |n| - p && IsPeriod(n, 0, p) && Remembered(h, n, at, mem)))
  }

  /** The check of the last byte of the window, and how far to move when it fails. */
  method CheckLastByte(h: seq<byte>, n: seq<byte>, at: nat, mem: nat, p: nat,
                       byteset: array<bool>, shift: array<nat>) returns (k: nat)
    requires 0 < p && 0 < |n| && at + |n| <= |h| && SearchInvariant(h, n, at, mem, p)
    requires IsShiftTable(n, byteset[..], shift[..])
    ensures k <= |n| && NoneIn(h, n, at, at + k)
    ensures k == 0 ==> h[at + |n| - 1] == n[|n| - 1]
  {
    var l, x := |n|, h[at + |n| - 1];
    if byteset[x] {
      assert IsLastPosition(n, x, shift[..][x]);
      k := l - shift[x];
      if k != 0 {
        if k < mem {
          k := mem;
          SkipRemembered(h, n, at, p, at + k);
        } else {
          SkipBadByte(h, n, at, shift[x], at + k);
        }
      }
    } else {
      assert x !in n;
      k := l;
      SkipBadByte(h, n, at, 0, at + k);
    }
  }

  /** Moving past positions without an occurrence keeps the search invariant. */
  lemma SearchAdvances(h: seq<byte>, n: seq<byte>, at: nat, mem: nat, p: nat, k: nat, mem': nat)
    requires SearchInvariant(h, n, at, mem, p) && NoneIn(h, n, at, at + k) && at + k <= |h|
    requires mem' == 0 || (mem' == |n| - p && IsPeriod(n, 0, p) && Remembered(h, n, at + k, mem'))
    ensures SearchInvariant(h, n, at + k, mem', p)
  {
  }

  /** The right half differs at `j`: the window moves until the cut is behind it. */
  lemma AfterRightMismatch(h: seq<byte>, n: seq<byte>, at: nat, mem: nat, ms: int, p: nat, mem0: nat, c': nat,
                           rev: bool, j: nat, k: int)
    requires at + |n| <= |h| && IsFactorisation(n, ms, p, mem0, c', rev) && SearchInvariant(h, n, at, mem, p)
    requires ms + 1 <= j < |n| && Agrees(h, n, at, ms + 1, j) && h[at + j] != n[j] && k == j - ms
    ensures 0 < k <= |n| && SearchInvariant(h, n, at + k, 0, p)
  {
    SkipRightMismatch(h, n, at, ms + 1, c', rev, j, at + k);
    SearchAdvances(h, n, at, mem, p, k, 0);
  }

  /** The right half agrees, the left half does not: the window moves by the shift of the factorisation. */
  lemma AfterLeftMismatch(h: seq<byte>, n: seq<byte>, at: nat, mem: nat, ms: int, p: nat, mem0: nat, c': nat, rev: bool)
    requires at + |n| <= |h| && IsFactorisation(n, ms, p, mem0, c', rev) && SearchInvariant(h, n, at, mem, p)
    requires Agrees(h, n, at, ms + 1, |n|) && !Occurs(h, n, at)
    ensures SearchInvariant(h, n, at + p, mem0, p)
  {
    SkipLeftMismatch(h, n, at, ms + 1, c', rev, p, at + p);
    if mem0 != 0 { RememberAfterShift(h, n, at, ms + 1, p); }
    SearchAdvances(h, n, at, mem, p, p, mem0);
  }

  /** Compares the window's right half, then its left half; tells how far to move on a mismatch. */
  method CompareWindow(h: seq<byte>, n: seq<byte>, at: nat, mem: nat, ms: int, p: nat, mem0: nat,
                       ghost c': nat, ghost rev: bool)
    returns (found: bool, k: nat, mem': nat)
    requires at + |n| <= |h| && IsFactorisation(n, ms, p, mem0, c', rev) && SearchInvariant(h, n, at, mem, p)
    ensures found ==> Occurs(h, n, at)
    ensures !found ==> 0 < k <= |n| && SearchInvariant(h, n, at + k, mem', p)
  {
    found, mem' := false, 0;
    k := CompareRight(h, n, at, ms + 1, mem);
    if k < |n| {
      AfterRightMismatch(h, n, at, mem, ms, p, mem0, c', rev, k, k - ms);
      k := k - ms;
      return;
    }
    k := CompareLeft(h, n, at, ms + 1, mem);
    if k <= mem {
      found := true;
      return;
    }
    AfterLeftMismatch(h, n, at, mem, ms, p, mem0, c', rev);
    k, mem' := p, mem0;
  }

  method Search(h: seq<byte>, n: seq<byte>) returns (r: Match)
    requires |n| > 0
    ensures IsFirstMatch(h, n, r)
  {
    var byteset := new bool[256](_ => false);
    var shift := new nat[256];
    FillShiftTable(n, byteset, shift);
    var ms, p, mem0, c', rev := Factorise(n);
    var at, mem := 0, 0;
    while true
      invariant SearchInvariant(h, n, at, mem, p)
      invariant IsShiftTable(n, byteset[..], shift[..])
      decreases |h| - at
    {
      if |h| - at < |n| {
        return NotFound;
      }
      var k := CheckLastByte(h, n, at, mem, p, byteset, shift);
      if k != 0 {
        SearchAdvances(h, n, at, mem, p, k, 0);
        at, mem := at + k, 0;
        continue;
      }
      var found, mem';
      found, k, mem' := CompareWindow(h, n, at, mem, ms, p, mem0, c', rev);
      if found {
        return Found(at);
      }
      at, mem := at + k, mem';
    }
  }
}
