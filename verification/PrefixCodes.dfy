/** Kraft's inequality: the code lengths of a prefix code are affordable. */
module PrefixCodes {
  import opened Binary

  type Code = seq<bool>

  /** Neither code begins with the other. */
  predicate Apart(a: Code, b: Code) {
    !(a <= b) && !(b <= a)
  }

  ghost predicate PrefixFree(cs: seq<Code>) {
    forall i, j :: 0 <= i < j < |cs| ==> Apart(cs[i], cs[j])
  }

  ghost predicate Short(cs: seq<Code>, m: nat) {
    forall i :: 0 <= i < |cs| ==> |cs[i]| <= m
  }

  /** The number of strings of length `m` that begin with a code. */
  function Covered(cs: seq<Code>, m: nat): nat
    requires Short(cs, m)
  {
    if cs == [] then 0 else Covered(cs[..|cs| - 1], m) + Pow2(m - |cs[|cs| - 1]|)
  }

  ghost predicate NonEmpty(cs: seq<Code>) {
    forall i :: 0 <= i < |cs| ==> cs[i] != []
  }

  /** What follows the first bit `b`. */
  function Tails(cs: seq<Code>, b: bool): seq<Code>
    requires NonEmpty(cs)
  {
    if cs == [] then []
    else
      var rest, last := Tails(cs[..|cs| - 1], b), cs[|cs| - 1];
      if last[0] == b then rest + [last[1..]] else rest
  }

  lemma {:induction false} TailIndex(cs: seq<Code>, b: bool, i: nat) returns (k: nat)
    requires NonEmpty(cs) && i < |Tails(cs, b)|
    ensures k < |cs| && cs[k] == [b] + Tails(cs, b)[i]
  {
    var n := |cs| - 1;
    if cs[n][0] == b && i == |Tails(cs, b)| - 1 {
      k := n;
    } else {
      k := TailIndex(cs[..n], b, i);
    }
  }

  lemma ApartTails(a: Code, b: Code, x: bool)
    requires Apart([x] + a, [x] + b)
    ensures Apart(a, b)
  {
  }

  lemma {:induction false} TailsPrefixFree(cs: seq<Code>, b: bool)
    requires NonEmpty(cs) && PrefixFree(cs)
    ensures PrefixFree(Tails(cs, b))
  {
    if cs != [] {
      var n := |cs| - 1;
      TailsPrefixFree(cs[..n], b);
      var rest := Tails(cs[..n], b);
      if cs[n][0] == b {
        forall i | 0 <= i < |rest| ensures Apart(rest[i], cs[n][1..]) {
          var k := TailIndex(cs[..n], b, i);
          assert Apart(cs[k], cs[n]) && cs[n] == [b] + cs[n][1..];
          ApartTails(rest[i], cs[n][1..], b);
        }
      }
    }
  }

  lemma {:induction false} TailsShort(cs: seq<Code>, b: bool, m: nat)
    requires NonEmpty(cs) && Short(cs, m) && m > 0
    ensures Short(Tails(cs, b), m - 1)
  {
    if cs != [] { TailsShort(cs[..|cs| - 1], b, m); }
  }

  lemma {:induction false} CoveredTails(cs: seq<Code>, m: nat)
    requires NonEmpty(cs) && Short(cs, m) && m > 0
    requires Short(Tails(cs, false), m - 1) && Short(Tails(cs, true), m - 1)
    ensures Covered(cs, m) == Covered(Tails(cs, false), m - 1) + Covered(Tails(cs, true), m - 1)
  {
    if cs != [] {
      var n := |cs| - 1;
      TailsShort(cs[..n], false, m);
      TailsShort(cs[..n], true, m);
      CoveredTails(cs[..n], m);
      if cs[n][0] {
        OneMore(cs, m, Tails(cs[..n], true), Tails(cs[..n], false), true);
      } else {
        OneMore(cs, m, Tails(cs[..n], false), Tails(cs[..n], true), false);
      }
    }
  }

  /** The last code goes to the tails of its first bit. */
  lemma {:induction false} OneMore(cs: seq<Code>, m: nat, same: seq<Code>, other: seq<Code>, b: bool)
    requires NonEmpty(cs) && Short(cs, m) && m > 0 && cs != [] && cs[|cs| - 1][0] == b
    requires same == Tails(cs[..|cs| - 1], b) && other == Tails(cs[..|cs| - 1], !b)
    requires Short(same, m - 1) && Short(other, m - 1)
    requires Covered(cs[..|cs| - 1], m) == Covered(same, m - 1) + Covered(other, m - 1)
    ensures Tails(cs, b) == same + [cs[|cs| - 1][1..]] && Tails(cs, !b) == other && Short(Tails(cs, b), m - 1)
    ensures Covered(cs, m) == Covered(Tails(cs, b), m - 1) + Covered(other, m - 1)
  {
    var last := cs[|cs| - 1];
    CoveredLast(same, last[1..], m - 1);
  }

  lemma {:induction false} CoveredLast(cs: seq<Code>, c: Code, m: nat)
    requires Short(cs, m) && |c| <= m
    ensures Short(cs + [c], m) && Covered(cs + [c], m) == Covered(cs, m) + Pow2(m - |c|)
  {
    assert (cs + [c])[..|cs|] == cs;
  }

  lemma {:induction false} EmptyAlone(cs: seq<Code>, i: nat)
    requires PrefixFree(cs) && i < |cs| && cs[i] == []
    ensures |cs| == 1
  {
    var j := if i == 0 then |cs| - 1 else 0;
    assert cs[i] <= cs[j];
  }

  /** Different codes of a prefix code begin different strings. */
  lemma {:induction false} KraftInequality(cs: seq<Code>, m: nat)
    requires PrefixFree(cs) && Short(cs, m)
    ensures Covered(cs, m) <= Pow2(m)
    decreases m
  {
    if NonEmpty(cs) {
      if cs != [] {
        assert cs[0] != [];
        TailsShort(cs, false, m);
        TailsShort(cs, true, m);
        TailsPrefixFree(cs, false);
        TailsPrefixFree(cs, true);
        KraftInequality(Tails(cs, false), m - 1);
        KraftInequality(Tails(cs, true), m - 1);
        CoveredTails(cs, m);
      }
    } else {
      var i :| 0 <= i < |cs| && cs[i] == [];
      EmptyAlone(cs, i);
      assert cs[..0] == [];
    }
  }
}
