/**
 The preprocessing phase of the two-way search in libyaul/lib/string/memmem.c:
 the lexicographically maximal suffix of a needle, for either byte order, and the
 smallest period of that suffix.

 The suffix of `n` that starts at `a` is named by the number `a`.
 */
module MaximalSuffix {
  import opened Bytes
  import opened Multiples

  /** The byte order, or its opposite. */
  predicate Precedes(x: byte, y: byte, rev: bool) {
    if rev then y < x else x < y
  }

  /** Reference definition: the dictionary order on byte strings, a proper prefix being smaller. */
  ghost predicate LexLess(x: seq<byte>, y: seq<byte>, rev: bool) {
    y != [] && (x == [] || Precedes(x[0], y[0], rev) || (x[0] == y[0] && LexLess(x[1..], y[1..], rev)))
  }

  /** The suffix at `a` is larger than every other suffix of `n`. */
  ghost predicate IsMaximalSuffix(n: seq<byte>, a: nat, rev: bool) {
    && a < |n|
    && forall b: nat {:trigger LexLess(n[b..], n[a..], rev)} :: b < |n| && b != a ==> LexLess(n[b..], n[a..], rev)
  }

  /** `p` is a period of the suffix of `n` at `a`. */
  ghost predicate IsPeriod(n: seq<byte>, a: nat, p: nat) {
    0 < p && PeriodOn(n, a, |n|, p)
  }

  /** `p` is the smallest period of the suffix of `n` at `a`. */
  ghost predicate IsSmallestPeriod(n: seq<byte>, a: nat, p: nat) {
    IsPeriod(n, a, p) && forall q: nat :: IsPeriod(n, a, q) ==> p <= q
  }

  ghost predicate PeriodOn(n: seq<byte>, a: nat, e: nat, p: nat)
    requires e <= |n|
  {
    e <= a + p || n[a..e - p] == n[a + p..e]
  }

  /** Byte `i` of the suffix at `b`. */
  ghost function At(n: seq<byte>, b: nat, i: nat): int {
    if b + i < |n| then n[b + i] else -1
  }

  /** The suffixes at `b` and `a` agree on their first `d` bytes. */
  ghost predicate Same(n: seq<byte>, b: nat, a: nat, d: nat)
    requires b + d <= |n| && a + d <= |n|
  {
    forall i: nat :: i < d ==> At(n, b, i) == At(n, a, i)
  }

  /** The suffix at `b` is smaller than the one at `a`, and byte `d` decides it. */
  ghost predicate Below(n: seq<byte>, b: nat, a: nat, d: nat, rev: bool) {
    && b + d < |n| && a + d < |n|
    && Same(n, b, a, d)
    && Precedes(n[b + d], n[a + d], rev)
  }

  lemma SameAt(n: seq<byte>, b: nat, a: nat, d: nat, i: nat)
    requires b + d <= |n| && a + d <= |n| && Same(n, b, a, d) && i < d
    ensures n[b + i] == n[a + i]
  {
    assert At(n, b, i) == At(n, a, i);
  }

  lemma SamePrefix(n: seq<byte>, b: nat, a: nat, d: nat, m: nat)
    requires b + d <= |n| && a + d <= |n| && Same(n, b, a, d) && m <= d
    ensures Same(n, b, a, m)
  {
  }

  lemma SameRest(n: seq<byte>, b: nat, a: nat, d: nat)
    requires b + d <= |n| && a + d <= |n| && Same(n, b, a, d) && 0 < d
    ensures Same(n, b + 1, a + 1, d - 1)
  {
    var c, b', a' := d - 1, b + 1, a + 1;
    forall i: nat | i < c
      ensures At(n, b', i) == At(n, a', i)
    {
      SameAt(n, b, a, d, i + 1);
    }
  }

  lemma SameFirst(n: seq<byte>, b: nat, a: nat, d: nat)
    requires b + 1 + d <= |n| && a + 1 + d <= |n| && n[b] == n[a] && Same(n, b + 1, a + 1, d)
    ensures Same(n, b, a, d + 1)
  {
    var c := d + 1;
    forall i: nat | i < c
      ensures At(n, b, i) == At(n, a, i)
    {
      if i > 0 { SameAt(n, b + 1, a + 1, d, i - 1); }
    }
  }

  lemma PeriodAt(n: seq<byte>, a: nat, e: nat, p: nat, x: nat)
    requires e <= |n| && PeriodOn(n, a, e, p) && a <= x && x + p < e
    ensures n[x] == n[x + p]
  {
    assert n[a..e - p][x - a] == n[a + p..e][x - a];
  }

  lemma BelowTransitive(n: seq<byte>, x: nat, y: nat, z: nat, d: nat, e: nat, rev: bool)
    returns (m: nat)
    requires Below(n, x, y, d, rev) && Below(n, y, z, e, rev)
    ensures Below(n, x, z, m, rev)
  {
    m := if d < e then d else e;
    SamePrefix(n, x, y, d, m);
    SamePrefix(n, y, z, e, m);
    if m < d { SameAt(n, x, y, d, m); }
    if m < e { SameAt(n, y, z, e, m); }
  }

  /** A suffix smaller by the working definition is smaller in the dictionary order. */
  lemma {:induction false} BelowIsLexLess(n: seq<byte>, b: nat, a: nat, d: nat, rev: bool)
    requires Below(n, b, a, d, rev)
    ensures LexLess(n[b..], n[a..], rev)
    decreases d
  {
    if d > 0 {
      SameAt(n, b, a, d, 0);
      SameRest(n, b, a, d);
      BelowIsLexLess(n, b + 1, a + 1, d - 1, rev);
      assert n[b..][1..] == n[b + 1..] && n[a..][1..] == n[a + 1..];
    }
  }

  lemma {:induction false} PrefixIsLexLess(n: seq<byte>, b: nat, a: nat, rev: bool)
    requires a < b <= |n| && Same(n, b, a, |n| - b)
    ensures LexLess(n[b..], n[a..], rev)
    decreases |n| - b
  {
    if b < |n| {
      SameAt(n, b, a, |n| - b, 0);
      SameRest(n, b, a, |n| - b);
      PrefixIsLexLess(n, b + 1, a + 1, rev);
      assert n[b..][1..] == n[b + 1..] && n[a..][1..] == n[a + 1..];
    }
  }

  /** Conversely, every dictionary comparison is decided at some byte, or is a proper prefix. */
  lemma {:induction false} LexLessDecided(n: seq<byte>, b: nat, a: nat, rev: bool) returns (d: nat)
    requires b <= |n| && a < |n| && LexLess(n[b..], n[a..], rev)
    ensures Below(n, b, a, d, rev) || (a < b && d == |n| - b && Same(n, b, a, d))
    decreases |n| - b
  {
    if b == |n| || Precedes(n[b], n[a], rev) {
      d := 0;
    } else {
      assert n[b..][1..] == n[b + 1..] && n[a..][1..] == n[a + 1..];
      d := LexLessDecided(n, b + 1, a + 1, rev);
      SameFirst(n, b, a, d);
      d := d + 1;
    }
  }

  /** The suffix at `b` loses to the one at `a`, decided before position `bound`. */
  ghost predicate Beaten(n: seq<byte>, rev: bool, b: nat, a: nat, bound: nat) {
    exists d: nat :: Below(n, b, a, d, rev) && b + d < bound
  }

  /** Every suffix that starts strictly between `a` and `e` loses to `a` before `e`. */
  ghost predicate Primitive(n: seq<byte>, rev: bool, a: nat, e: nat) {
    forall b: nat :: a < b < e ==> Beaten(n, rev, b, a, e)
  }

  lemma DecidedInside(n: seq<byte>, rev: bool, a: nat, p: nat, r: nat) returns (d: nat)
    requires Primitive(n, rev, a, a + p) && 0 < r < p
    ensures Below(n, a + r, a, d, rev) && r + d < p
  {
    assert Beaten(n, rev, a + r, a, a + p);
    d :| Below(n, a + r, a, d, rev) && a + r + d < a + p;
  }

  /**
   What the scan knows between iterations, with `a == ip + 1`: the suffix at `a` has period `p`
   as far as it was read, it beats every earlier suffix, and its first period is primitive.
   */
  ghost predicate ScanInvariant(n: seq<byte>, rev: bool, a: nat, j: nat, k: nat, p: nat) {
    && 1 <= k <= p && a + p <= j + 1 && j + k <= |n|
    && Multiple(j + 1 - a, p)
    && PeriodOn(n, a, j + k, p)
    && (forall b: nat :: b < a ==> Beaten(n, rev, b, a, |n|))
    && Primitive(n, rev, a, a + p)
  }

  /** A word with period `p` also has every multiple of `p` as a period. */
  lemma {:induction false} PeriodMultiple(n: seq<byte>, a: nat, e: nat, p: nat, s: nat, x: nat)
    requires e <= |n| && PeriodOn(n, a, e, p) && Multiple(s, p) && a <= x && x + s < e
    ensures n[x] == n[x + s]
    decreases s
  {
    if s > 0 {
      PeriodMultiple(n, a, e, p, s - p, x);
      PeriodAt(n, a, e, p, x + s - p);
    }
  }

  /** Inside a stretch of period `p`, moving a suffix by a multiple of `p` keeps its first bytes. */
  lemma SameShifted(n: seq<byte>, a: nat, e: nat, p: nat, s: nat, b: nat, d: nat)
    requires e <= |n| && PeriodOn(n, a, e, p) && Multiple(s, p) && a <= b && b + s + d <= e
    ensures Same(n, b + s, b, d)
  {
    var c := b + s;
    forall i: nat | i < d
      ensures At(n, c, i) == At(n, b, i)
    {
      PeriodMultiple(n, a, e, p, s, b + i);
    }
  }

  lemma PeriodExtend(n: seq<byte>, a: nat, e: nat, p: nat)
    requires e < |n| && PeriodOn(n, a, e, p) && a + p <= e && n[e - p] == n[e]
    ensures PeriodOn(n, a, e + 1, p)
  {
    assert n[a..e + 1 - p] == n[a..e - p] + [n[e - p]] && n[a + p..e + 1] == n[a + p..e] + [n[e]];
  }

  /** Equal bytes: the period goes on. */
  lemma StepEqual(n: seq<byte>, rev: bool, a: nat, j: nat, k: nat, p: nat)
    requires ScanInvariant(n, rev, a, j, k, p) && j + k < |n| && n[a - 1 + k] == n[j + k]
    ensures if k == p then ScanInvariant(n, rev, a, j + p, 1, p) else ScanInvariant(n, rev, a, j, k + 1, p)
  {
    PeriodMultiple(n, a, j + k, p, j + 1 - a - p, a - 1 + k);
    PeriodExtend(n, a, j + k, p);
  }

  /** A comparison made inside the first period, moved by a multiple `s` of the period. */
  lemma BelowShifted(n: seq<byte>, rev: bool, a: nat, e: nat, p: nat, s: nat, r: nat, d: nat)
    requires e <= |n| && PeriodOn(n, a, e, p) && Multiple(s, p)
    requires Below(n, a + r, a, d, rev) && a + s + r <= e
    ensures if a + s + r + d < e then Below(n, a + s + r, a, d, rev) else Same(n, a + s + r, a, e - (a + s + r))
  {
    var b := a + s + r;
    var f := if b + d < e then d else e - b;
    assert Same(n, b, a + r, f) by { SameShifted(n, a, e, p, s, a + r, f); }
    if b + d < e {
      PeriodMultiple(n, a, e, p, s, a + r + d);
    }
  }

  lemma BeatenAtPeriodStart(n: seq<byte>, rev: bool, a: nat, j: nat, k: nat, p: nat, s: nat)
    requires j + k < |n| && 1 <= k <= p && a <= j && PeriodOn(n, a, j + k, p)
    requires Multiple(s, p) && Multiple(j + 1 - a, p) && 0 < s <= j + 1 - a
    requires Precedes(n[j + k], n[a - 1 + k], rev)
    ensures Below(n, a + s, a, j + k - a - s, rev)
  {
    MultipleDifference(s, j + 1 - a, p);
    SameShifted(n, a, j + k, p, s, a, j + k - a - s);
    PeriodMultiple(n, a, j + k, p, j + 1 - a - s, a - 1 + k);
  }

  /** A suffix that starts inside the part read so far loses to a smaller byte at `j + k`. */
  lemma BeatenInside(n: seq<byte>, rev: bool, a: nat, j: nat, k: nat, p: nat, b: nat)
    requires ScanInvariant(n, rev, a, j, k, p) && j + k < |n| && Precedes(n[j + k], n[a - 1 + k], rev)
    requires a < b <= j + k
    ensures Beaten(n, rev, b, a, j + k + 1)
  {
    var s, r := SplitMultiple(b - a, p);
    if j + 1 - a <= s {
      MultipleDifference(j + 1 - a, s, p);
    } else {
      MultipleDifference(s, j + 1 - a, p);
    }
    if r == 0 {
      BeatenAtPeriodStart(n, rev, a, j, k, p, s);
    } else {
      var d := DecidedInside(n, rev, a, p, r);
      BelowShifted(n, rev, a, j + k, p, s, r, d);
      if b + d >= j + k {
        BeatenInLastPeriod(n, rev, a, j, k, r, d);
      }
    }
  }

  /** The suffix lies in the last, incomplete period: the byte at `j + k` decides. */
  lemma BeatenInLastPeriod(n: seq<byte>, rev: bool, a: nat, j: nat, k: nat, r: nat, d: nat)
    requires 0 < r < k && j + k < |n| && Below(n, a + r, a, d, rev) && r + d >= k - 1
    requires Precedes(n[j + k], n[a - 1 + k], rev) && Same(n, j + 1 + r, a, k - 1 - r)
    ensures Below(n, j + 1 + r, a, k - 1 - r, rev)
  {
    var f := k - 1 - r;
    if f < d { SameAt(n, a + r, a, d, f); }
  }

  /** A smaller byte: the suffix at `a` survives and all that was read becomes its period. */
  lemma StepSmaller(n: seq<byte>, rev: bool, a: nat, j: nat, k: nat, p: nat)
    requires ScanInvariant(n, rev, a, j, k, p) && j + k < |n| && Precedes(n[j + k], n[a - 1 + k], rev)
    ensures ScanInvariant(n, rev, a, j + k, 1, j + k + 1 - a)
  {
    var e := j + k + 1;
    forall b: nat | a < b < e
      ensures Beaten(n, rev, b, a, e)
    {
      BeatenInside(n, rev, a, j, k, p, b);
    }
    assert a + (e - a) == e;
  }

  /** A larger byte at `j + k`: each complete period starts a suffix below the one at `j + 1`. */
  lemma PeriodStartBelowNext(n: seq<byte>, rev: bool, a: nat, j: nat, k: nat, p: nat, s: nat)
    requires j + k < |n| && 1 <= k <= p && a <= j && PeriodOn(n, a, j + k, p)
    requires Multiple(s, p) && Multiple(j + 1 - a, p) && a + s <= j
    requires Precedes(n[a - 1 + k], n[j + k], rev)
    ensures Below(n, a + s, j + 1, k - 1, rev)
  {
    MultipleDifference(s, j + 1 - a, p);
    SameShifted(n, a, j + k, p, j + 1 - a, a, k - 1);
    SameShifted(n, a, j + k, p, s, a, k - 1);
    PeriodMultiple(n, a, j + k, p, s, a + k - 1);
  }

  /** A suffix below the one at `a` is below the one at `j + 1` too. */
  lemma BelowNext(n: seq<byte>, rev: bool, a: nat, j: nat, k: nat, p: nat, b: nat, d: nat)
    requires j + k < |n| && 1 <= k <= p && a <= j && PeriodOn(n, a, j + k, p) && Multiple(j + 1 - a, p)
    requires Precedes(n[a - 1 + k], n[j + k], rev) && b <= j && Below(n, b, a, d, rev)
    ensures Beaten(n, rev, b, j + 1, |n|)
  {
    PeriodStartBelowNext(n, rev, a, j, k, p, 0);
    var m := BelowTransitive(n, b, a, j + 1, d, k - 1, rev);
  }

  lemma BeatenByNext(n: seq<byte>, rev: bool, a: nat, j: nat, k: nat, p: nat, b: nat)
    requires ScanInvariant(n, rev, a, j, k, p) && j + k < |n| && Precedes(n[a - 1 + k], n[j + k], rev)
    requires b <= j
    ensures Beaten(n, rev, b, j + 1, |n|)
  {
    if b < a {
      assert Beaten(n, rev, b, a, |n|);
      var d: nat :| Below(n, b, a, d, rev) && b + d < |n|;
      BelowNext(n, rev, a, j, k, p, b, d);
    } else {
      var s, r := SplitMultiple(b - a, p);
      if r == 0 {
        PeriodStartBelowNext(n, rev, a, j, k, p, s);
      } else {
        MultipleDifference(s, j + 1 - a, p);
        var d := DecidedInside(n, rev, a, p, r);
        BelowShifted(n, rev, a, j + k, p, s, r, d);
        BelowNext(n, rev, a, j, k, p, b, d);
      }
    }
  }

  /** A larger byte: every suffix up to `j` loses to the one at `j + 1`. */
  lemma StepLarger(n: seq<byte>, rev: bool, a: nat, j: nat, k: nat, p: nat)
    requires ScanInvariant(n, rev, a, j, k, p) && j + k < |n| && Precedes(n[a - 1 + k], n[j + k], rev)
    ensures ScanInvariant(n, rev, j + 1, j + 1, 1, 1)
  {
    var c := j + 1;
    forall b: nat | b < c
      ensures Beaten(n, rev, b, c, |n|)
    {
      BeatenByNext(n, rev, a, j, k, p, b);
    }
    assert Multiple(1, 1);
  }

  /** When the needle is used up, the candidate is the maximal suffix and `p` its smallest period. */
  lemma ScanComplete(n: seq<byte>, rev: bool, a: nat, j: nat, k: nat, p: nat)
    requires ScanInvariant(n, rev, a, j, k, p) && j + k == |n|
    ensures IsMaximalSuffix(n, a, rev) && IsSmallestPeriod(n, a, p)
  {
    forall b: nat | b < |n| && b != a
      ensures LexLess(n[b..], n[a..], rev)
    {
      if b < a {
        assert Beaten(n, rev, b, a, |n|);
        var d: nat :| Below(n, b, a, d, rev) && b + d < |n|;
        BelowIsLexLess(n, b, a, d, rev);
      } else {
        LaterIsLexLess(n, rev, a, j, k, p, b);
      }
    }
    forall q: nat | 0 < q < p
      ensures !IsPeriod(n, a, q)
    {
      assert Beaten(n, rev, a + q, a, a + p);
      var d: nat :| Below(n, a + q, a, d, rev) && a + q + d < a + p;
      NoPeriodAt(n, a, |n|, q, a + d);
    }
  }

  lemma NoPeriodAt(n: seq<byte>, a: nat, e: nat, q: nat, i: nat)
    requires e == |n| && a <= i && i + q < e && n[i] != n[i + q]
    ensures !IsPeriod(n, a, q)
  {
    if IsPeriod(n, a, q) { PeriodAt(n, a, e, q, i); }
  }

  lemma LaterIsLexLess(n: seq<byte>, rev: bool, a: nat, j: nat, k: nat, p: nat, b: nat)
    requires ScanInvariant(n, rev, a, j, k, p) && j + k == |n| && a < b < |n|
    ensures LexLess(n[b..], n[a..], rev)
  {
    var s, r := SplitMultiple(b - a, p);
    if r > 0 {
      var d := DecidedInside(n, rev, a, p, r);
      BelowShifted(n, rev, a, |n|, p, s, r, d);
      if b + d < |n| {
        BelowIsLexLess(n, b, a, d, rev);
      } else {
        PrefixIsLexLess(n, b, a, rev);
      }
    } else {
      SameShifted(n, a, |n|, p, s, a, |n| - b);
      PrefixIsLexLess(n, b, a, rev);
    }
  }

  /**
   The scan itself. `ip` starts as the all-ones `size_t`, written -1 here: every use of it adds
   at least one first.
   */
  method ComputeMaximalSuffix(n: seq<byte>, rev: bool) returns (ip: int, p: nat)
    requires |n| > 0
    ensures -1 <= ip && ip + 1 + p <= |n|
    ensures IsMaximalSuffix(n, ip + 1, rev) && IsSmallestPeriod(n, ip + 1, p)
  {
    ip := -1;
    var jp, k := 0, 1;
    p := 1;
    assert Multiple(1, 1);
    while jp + k < |n|
      invariant -1 <= ip < jp && ScanInvariant(n, rev, ip + 1, jp, k, p)
      decreases |n| - ip, |n| - jp - k
    {
      if n[ip + k] == n[jp + k] {
        StepEqual(n, rev, ip + 1, jp, k, p);
        if k == p {
          jp := jp + p;
          k := 1;
        } else {
          k := k + 1;
        }
      } else if Precedes(n[jp + k], n[ip + k], rev) {
        StepSmaller(n, rev, ip + 1, jp, k, p);
        jp := jp + k;
        k := 1;
        p := jp - ip;
      } else {
        StepLarger(n, rev, ip + 1, jp, k, p);
        ip := jp;
        jp := jp + 1;
        k, p := 1, 1;
      }
    }
    ScanComplete(n, rev, ip + 1, jp, k, p);
  }
}
