/** Multiples of a number, by repeated subtraction. */
module Multiples {
  /** `s` is a multiple of `p`. */
  ghost predicate Multiple(s: nat, p: nat) {
    s == 0 || (0 < p <= s && Multiple(s - p, p))
  }

  /** Splits `x` into a multiple of `p` and a remainder. */
  lemma {:induction false} SplitMultiple(x: nat, p: nat) returns (s: nat, r: nat)
    requires 0 < p
    ensures x == s + r && r < p && Multiple(s, p)
  {
    if x < p {
      s, r := 0, x;
    } else {
      s, r := SplitMultiple(x - p, p);
      s := s + p;
    }
  }

  lemma {:induction false} MultipleDifference(s: nat, t: nat, p: nat)
    requires 0 < p && Multiple(s, p) && Multiple(t, p) && s <= t
    ensures Multiple(t - s, p) && (s == t || s + p <= t)
    decreases s
  {
    if s > 0 {
      MultipleDifference(s - p, t - p, p);
    }
  }

  lemma {:induction false} MultipleSum(s: nat, t: nat, p: nat)
    requires 0 < p && Multiple(s, p) && Multiple(t, p)
    ensures Multiple(s + t, p)
    decreases s
  {
    if s > 0 {
      MultipleSum(s - p, t, p);
    }
  }

  /** Agreement with the remainder operator. */
  lemma {:induction false} MultipleModulo(s: nat, p: nat)
    requires 0 < p && Multiple(s, p)
    ensures s % p == 0
    decreases s
  {
    if s > 0 {
      MultipleModulo(s - p, p);
      AddModulo(s - p, p);
    }
  }

  lemma MulMonotone(a: nat, b: nat, p: nat)
    requires a <= b
    ensures a * p <= b * p
  {
  }

  lemma AddModulo(x: nat, p: nat)
    requires 0 < p
    ensures (x + p) % p == x % p
  {
    var q := x / p;
    assert x + p == (q + 1) * p + x % p;
    Remainder(x + p, p, q + 1, x % p);
  }

  lemma Remainder(x: nat, p: nat, q: nat, r: nat)
    requires 0 < p && x == q * p + r && r < p
    ensures x % p == r
  {
    var k := x / p;
    assert x == k * p + x % p;
    if k < q { MulMonotone(k + 1, q, p); }
    if k > q { MulMonotone(q + 1, k, p); }
  }

  lemma RemainderBelow(x: nat, p: nat)
    requires 0 < p
    ensures x % p <= x
  {
    assert x == x / p * p + x % p;
  }

  /** Taking the remainder off leaves a multiple. */
  lemma RemainderRemoved(x: nat, p: nat)
    requires 0 < p && x % p <= x
    ensures Multiple(x - x % p, p)
  {
    var s, r := SplitMultiple(x, p);
    MultipleModulo(s, p);
    assert s == s / p * p;
    Remainder(x, p, s / p, r);
  }

  lemma QuotientAndRemainder(x: nat, p: nat, q: nat, r: nat)
    requires 0 < p && x == q * p + r && r < p
    ensures x / p == q && x % p == r
  {
    Remainder(x, p, q, r);
    var k := x / p;
    assert x == k * p + r;
    if k < q { MulMonotone(k + 1, q, p); }
    if k > q { MulMonotone(q + 1, k, p); }
  }
}
