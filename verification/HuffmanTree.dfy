/**
 Huffman trees and their two serialisations in libbcl/huffman.c: the description that precedes the
 data, and the code of each symbol.
 */
module HuffmanTree {
  import opened Binary
  import opened BitStrings
  import opened Bytes
  import opened Options
  import opened Spelling

  datatype Tree = Leaf(symbol: byte) | Node(a: Tree, b: Tree)

  /** The symbols, from left to right. */
  function Leaves(t: Tree): (r: seq<byte>)
    ensures r != []
  {
    match t
    case Leaf(s) => [s]
    case Node(a, b) => Leaves(a) + Leaves(b)
  }

  /** No symbol has two codes. */
  ghost predicate Distinct(t: Tree) {
    match t
    case Leaf(_) => true
    case Node(a, b) => Distinct(a) && Distinct(b) && forall s :: s in Leaves(a) ==> s !in Leaves(b)
  }

  function Height(t: Tree): nat {
    match t
    case Leaf(_) => 0
    case Node(a, b) => 1 + if Height(a) >= Height(b) then Height(a) else Height(b)
  }

  function Size(t: Tree): nat {
    match t
    case Leaf(_) => 1
    case Node(a, b) => 1 + Size(a) + Size(b)
  }

  /** The way to a symbol: `false` is branch A. */
  function Path(t: Tree, s: byte): (p: seq<bool>)
    requires s in Leaves(t)
    ensures |p| <= Height(t)
  {
    match t
    case Leaf(_) => []
    case Node(a, b) => if s in Leaves(a) then [false] + Path(a, s) else [true] + Path(b, s)
  }

  /** The code of a symbol; a tree of one leaf spends one bit all the same. */
  function Code(t: Tree, s: byte): seq<bool>
    requires s in Leaves(t)
  {
    if t.Leaf? then [false] else Path(t, s)
  }

  // ---------------------------------------------------------------- descriptions

  function Describe(t: Tree): seq<bool> {
    match t
    case Leaf(s) => [true] + ToBits(s, 8)
    case Node(a, b) => [false] + Describe(a) + Describe(b)
  }

  /** Ten bits for each symbol, less one; and two nodes, less one. */
  lemma {:induction false} DescriptionSize(t: Tree)
    ensures |Describe(t)| == 10 * |Leaves(t)| - 1 && Size(t) == 2 * |Leaves(t)| - 1
  {
    if t.Node? {
      DescriptionSize(t.a);
      DescriptionSize(t.b);
    }
  }

  function FromBits(s: seq<bool>): (v: nat)
    ensures v < Pow2(|s|)
  {
    if s == [] then 0 else 2 * FromBits(s[..|s| - 1]) + if s[|s| - 1] then 1 else 0
  }

  lemma {:induction false} ToFromBits(s: seq<bool>)
    ensures ToBits(FromBits(s), |s|) == s
  {
    if s != [] { ToFromBits(s[..|s| - 1]); }
  }

  lemma {:induction false} FromToBits(v: nat, n: nat)
    requires v < Pow2(n)
    ensures FromBits(ToBits(v, n)) == v
  {
    ToFromBits(ToBits(v, n));
    BitsInjective(FromBits(ToBits(v, n)), v, n);
  }

  function SymbolOf(s: seq<bool>): (r: byte)
    requires |s| == 8
  {
    assert Pow2(8) == 256;
    FromBits(s)
  }

  /** A tree read from the front of a bit string, and what is left; `None` if the string ends too early. */
  function Parse(bits: seq<bool>): (r: Option<(Tree, seq<bool>)>)
    ensures r.Some? ==> |r.value.1| < |bits|
    decreases |bits|
  {
    if bits == [] then None
    else if bits[0] then
      if |bits| < 9 then None else Some((Leaf(SymbolOf(bits[1..9])), bits[9..]))
    else
      var a := Parse(bits[1..]);
      if a.None? then None
      else
        var b := Parse(a.value.1);
        if b.None? then None else Some((Node(a.value.0, b.value.0), b.value.1))
  }

  /** What was described is recovered, and nothing more is read. */
  lemma {:induction false} ParseDescription(t: Tree, rest: seq<bool>)
    ensures Parse(Describe(t) + rest) == Some((t, rest))
  {
    var bits := Describe(t) + rest;
    match t
    case Leaf(s) =>
      assert bits[1..9] == ToBits(s, 8) && bits[9..] == rest;
      ByteBelowPow2(s);
      FromToBits(s, 8);
    case Node(a, b) =>
      assert bits[1..] == Describe(a) + (Describe(b) + rest);
      ParseDescription(a, Describe(b) + rest);
      ParseDescription(b, rest);
  }

  /** What was recovered was described there. */
  lemma {:induction false} ParsedDescription(bits: seq<bool>)
    requires Parse(bits).Some?
    ensures bits == Describe(Parse(bits).value.0) + Parse(bits).value.1
    decreases |bits|
  {
    if bits[0] {
      ToFromBits(bits[1..9]);
      assert bits == [true] + bits[1..9] + bits[9..];
    } else {
      ParsedDescription(bits[1..]);
      var a := Parse(bits[1..]).value;
      ParsedDescription(a.1);
      var b := Parse(a.1).value;
      var da, db := Describe(a.0), Describe(b.0);
      assert [false] + (da + (db + b.1)) == ([false] + da + db) + b.1;
    }
  }

  /** A tree is recovered exactly from its description, whatever follows. */
  lemma {:induction false} ParsesExactly(bits: seq<bool>, t: Tree, rest: seq<bool>)
    ensures Parse(bits) == Some((t, rest)) <==> bits == Describe(t) + rest
  {
    ParseDescription(t, rest);
    if Parse(bits).Some? { ParsedDescription(bits); }
  }

  // ---------------------------------------------------------------- data

  ghost predicate Covers(t: Tree, text: seq<byte>) {
    forall i :: 0 <= i < |text| ==> text[i] in Leaves(t)
  }

  ghost function Encode(t: Tree, text: seq<byte>): seq<bool>
    requires Covers(t, text)
  {
    if text == [] then [] else Encode(t, text[..|text| - 1]) + Code(t, text[|text| - 1])
  }

  /** The leaf that the bits lead to, and the bits that are left. */
  function Walk(t: Tree, bits: seq<bool>): (r: Option<(byte, seq<bool>)>)
    ensures r.Some? ==> |r.value.1| <= |bits|
  {
    match t
    case Leaf(s) => Some((s, bits))
    case Node(a, b) => if bits == [] then None else Walk(if bits[0] then b else a, bits[1..])
  }

  /** `n` symbols, or `None` if the bits run out. */
  function Decode(t: Tree, bits: seq<bool>, n: nat): (r: Option<seq<byte>>)
    ensures r.Some? ==> |r.value| == n
    decreases n
  {
    if n == 0 then Some([])
    else
      var w := Walk(t, bits);
      if w.None? then None
      else
        var more := Decode(t, w.value.1, n - 1);
        if more.None? then None else Some([w.value.0] + more.value)
  }

  lemma {:induction false} WalkPath(t: Tree, s: byte, rest: seq<bool>)
    requires s in Leaves(t)
    ensures Walk(t, Path(t, s) + rest) == Some((s, rest))
  {
    match t
    case Leaf(_) =>
      assert Path(t, s) + rest == rest;
    case Node(a, b) =>
      var c := if s in Leaves(a) then a else b;
      assert (Path(t, s) + rest)[1..] == Path(c, s) + rest;
      WalkPath(c, s, rest);
  }

  ghost function CodeOf(t: Tree): byte -> seq<bool> {
    s => if s in Leaves(t) then Code(t, s) else []
  }

  lemma {:induction false} EncodeSpells(t: Tree, text: seq<byte>)
    requires Covers(t, text)
    ensures Encode(t, text) == Spell(CodeOf(t), text)
  {
    if text != [] { EncodeSpells(t, text[..|text| - 1]); }
  }

  lemma {:induction false} EncodeFirst(t: Tree, text: seq<byte>)
    requires text != [] && Covers(t, text)
    ensures Encode(t, text) == Code(t, text[0]) + Encode(t, text[1..])
  {
    EncodeSpells(t, text);
    EncodeSpells(t, text[1..]);
    SpellFirst(CodeOf(t), text);
  }

  /**
   The data round trip. A tree of one leaf is decoded without reading the bits that were written
   for it.
   */
  lemma {:induction false} DecodeEncoded(t: Tree, text: seq<byte>, rest: seq<bool>)
    requires Covers(t, text)
    ensures Decode(t, Encode(t, text) + rest, |text|) == Some(text)
    decreases |text|
  {
    if t.Leaf? {
      DecodeLeaf(t, Encode(t, text) + rest, text);
    } else if text != [] {
      var more := Encode(t, text[1..]) + rest;
      EncodeFirst(t, text);
      Regroup(Path(t, text[0]), Encode(t, text[1..]), rest);
      WalkPath(t, text[0], more);
      DecodeEncoded(t, text[1..], rest);
      DecodeFirst(t, Encode(t, text) + rest, text, more);
    }
  }

  lemma {:induction false} DecodeFirst(t: Tree, bits: seq<bool>, text: seq<byte>, more: seq<bool>)
    requires text != [] && Walk(t, bits) == Some((text[0], more)) && Decode(t, more, |text| - 1) == Some(text[1..])
    ensures Decode(t, bits, |text|) == Some(text)
  {
    assert text == [text[0]] + text[1..];
  }

  lemma {:induction false} DecodeLeaf(t: Tree, bits: seq<bool>, text: seq<byte>)
    requires t.Leaf? && Covers(t, text)
    ensures Decode(t, bits, |text|) == Some(text)
  {
    if text != [] {
      DecodeLeaf(t, bits, text[1..]);
      assert text[0] in Leaves(t) && text == [text[0]] + text[1..];
    }
  }

  /** What `Huffman_Uncompress` makes of a stream. */
  function Uncompressed(bits: seq<bool>, n: nat): Option<seq<byte>> {
    var p := Parse(bits);
    if p.None? then None else Decode(p.value.0, p.value.1, n)
  }

  /** The whole stream, with anything behind it, is decoded to the text. */
  lemma {:induction false} StreamRoundTrip(t: Tree, text: seq<byte>, rest: seq<bool>)
    requires Covers(t, text)
    ensures Uncompressed(Describe(t) + Encode(t, text) + rest, |text|) == Some(text)
  {
    var bits := Describe(t) + Encode(t, text) + rest;
    assert bits == Describe(t) + (Encode(t, text) + rest);
    ParseDescription(t, Encode(t, text) + rest);
    DecodeEncoded(t, text, rest);
  }
}
