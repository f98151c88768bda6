/** Strings put together from the codes of their symbols. */
module Spelling {
  ghost function Spell<T, U>(code: T -> seq<U>, text: seq<T>): seq<U> {
    if text == [] then [] else Spell(code, text[..|text| - 1]) + code(text[|text| - 1])
  }

  lemma Regroup<U>(a: seq<U>, b: seq<U>, c: seq<U>)
    ensures (a + b) + c == a + (b + c)
  {
  }

  /** The first code comes first. */
  lemma {:induction false} SpellFirst<T, U>(code: T -> seq<U>, text: seq<T>)
    requires text != []
    ensures Spell(code, text) == code(text[0]) + Spell(code, text[1..])
    decreases |text|
  {
    var n := |text| - 1;
    var front := text[..n];
    if n == 0 {
      assert Spell(code, front) == [] && Spell(code, text[1..]) == [];
    } else {
      SpellFirst(code, front);
      assert text[1..][..n - 1] == front[1..];
      Regroup(code(text[0]), Spell(code, front[1..]), code(text[n]));
    }
  }
}
