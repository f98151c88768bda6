/** The decoder of libbcl/huffman.c, and the round trip through the encoder. */
module HuffmanDecoder {
  import opened BitStrings
  import opened Bytes
  import opened Huffman
  import opened HuffmanDepth
  import opened HuffmanText
  import opened HuffmanTree
  import opened Options

  /** The nodes from `lo` to `hi` hold `t` with its root at `i`; a symbol may carry bits above its low eight. */
  ghost predicate Holds(nodes: seq<DecodeNode>, lo: nat, hi: nat, i: int, t: Tree)
    decreases t
  {
    && lo <= i < hi <= |nodes|
    && match t
       case Leaf(s) => nodes[i].symbol >= 0 && nodes[i].symbol % 256 == s
       case Node(a, b) =>
         && nodes[i].symbol < 0
         && Holds(nodes, lo, hi, nodes[i].childA, a) && Holds(nodes, lo, hi, nodes[i].childB, b)
  }

  lemma {:induction false} HoldsKept(s: seq<DecodeNode>, r: seq<DecodeNode>, lo: nat, hi: nat, i: int, t: Tree,
                                     lo': nat, hi': nat)
    requires Holds(s, lo, hi, i, t) && lo' <= lo && hi <= hi' <= |r|
    requires forall k :: lo <= k < hi ==> s[k] == r[k]
    ensures Holds(r, lo', hi', i, t)
    decreases t
  {
    if t.Node? {
      HoldsKept(s, r, lo, hi, s[i].childA, t.a, lo', hi');
      HoldsKept(s, r, lo, hi, s[i].childB, t.b, lo', hi');
    }
  }

  /** The bits that are still to be read. */
  ghost function Ahead(stream: BitStream): seq<bool>
    requires stream.Valid()
    reads stream, stream.buf
  {
    StreamBits(stream.buf[..])[stream.Position()..]
  }

  method NextBit(stream: BitStream) returns (b: bool)
    requires stream.Valid() && Ahead(stream) != []
    modifies stream`bytePtr, stream`bitPos
    ensures stream.Valid() && b == old(Ahead(stream))[0] && Ahead(stream) == old(Ahead(stream))[1..]
  {
    b := stream.ReadBit();
  }

  /** The low eight bits are the symbol. */
  lemma LowByte(x: nat, s: seq<bool>)
    requires |s| == 8 && ToBits(x, 8) == s
    ensures x % 256 == SymbolOf(s)
  {
    assert Binary.Pow2(8) == 256;
    BitsOfRemainder(x, 8);
    ToFromBits(s);
    BitsInjective(x % 256, SymbolOf(s), 8);
  }

  method NextSymbol(stream: BitStream) returns (x: nat)
    requires stream.Valid() && |Ahead(stream)| > 8
    modifies stream`bytePtr
    ensures stream.Valid() && x % 256 == SymbolOf(old(Ahead(stream))[..8]) && Ahead(stream) == old(Ahead(stream))[8..]
  {
    ghost var all, p := StreamBits(stream.buf[..]), stream.Position();
    x := stream.Read8Bits();
    assert all[p..p + 8] == all[p..][..8];
    LowByte(x, all[p..p + 8]);
    assert all[p + 8..] == all[p..][8..];
  }

  /** A node whose children were recovered into the nodes behind it. */
  lemma {:induction false} HoldsNode(first: seq<DecodeNode>, after: seq<DecodeNode>, num: nat, middle: nat, next: nat,
                                     t: Tree)
    requires t.Node? && num < middle <= next <= |after| == |first|
    requires Holds(first, num + 1, middle, num + 1, t.a) && Holds(after, middle, next, middle, t.b)
    requires forall k :: num < k < middle ==> first[k] == after[k]
    ensures Holds(after[num := DecodeNode(num + 1, middle, -1)], num, next, num, t)
  {
    var last := after[num := DecodeNode(num + 1, middle, -1)];
    HoldsKept(first, last, num + 1, middle, num + 1, t.a, num, next);
    HoldsKept(after, last, middle, next, middle, t.b, num, next);
  }

  lemma {:induction false} ParsedNode(bits: seq<bool>)
    requires Parse(bits).Some? && !bits[0]
    ensures Parse(bits[1..]).Some? && Parse(Parse(bits[1..]).value.1).Some?
    ensures var (a, more) := Parse(bits[1..]).value;
      Parse(bits).value == (Node(a, Parse(more).value.0), Parse(more).value.1)
  {
  }

  ghost predicate Unchanged(s: seq<DecodeNode>, r: seq<DecodeNode>, lo: nat, hi: nat) {
    |s| == |r| && forall k :: 0 <= k < |s| && !(lo <= k < hi) ==> s[k] == r[k]
  }

  /** `_Huffman_RecoverTree`: reads the description of `t`. */
  method RecoverTree(nodes: array<DecodeNode>, stream: BitStream, num: nat, ghost t: Tree, ghost rest: seq<bool>)
    returns (root: nat, next: nat)
    requires stream.Valid() && Parse(Ahead(stream)) == Some((t, rest)) && rest != []
    requires num + Size(t) <= nodes.Length
    modifies nodes, stream`bytePtr, stream`bitPos
    ensures stream.Valid() && Ahead(stream) == rest
    ensures root == num && next == num + Size(t) && Holds(nodes[..], num, next, root, t)
    ensures Unchanged(old(nodes[..]), nodes[..], num, next)
    decreases t
  {
    ghost var bits := Ahead(stream);
    root := num;
    nodes[root] := DecodeNode(-1, -1, -1);
    var leaf := NextBit(stream);
    if leaf {
      assert bits[1..][..8] == bits[1..9] && bits[1..][8..] == bits[9..];
      var x := NextSymbol(stream);
      nodes[root] := nodes[root].(symbol := x);
      next := num + 1;
    } else {
      ParsedNode(bits);
      next := RecoverChildren(nodes, stream, num, t, rest);
    }
  }

  /** The branches of `_Huffman_RecoverTree`. */
  method RecoverChildren(nodes: array<DecodeNode>, stream: BitStream, num: nat, ghost t: Tree, ghost rest: seq<bool>)
    returns (next: nat)
    requires stream.Valid() && rest != [] && t.Node? && Parse(Ahead(stream)).Some?
    requires Parse(Ahead(stream)).value.0 == t.a
    requires Parse(Parse(Ahead(stream)).value.1) == Some((t.b, rest))
    requires num + Size(t) <= nodes.Length && nodes[num] == DecodeNode(-1, -1, -1)
    modifies nodes, stream`bytePtr, stream`bitPos
    ensures stream.Valid() && Ahead(stream) == rest
    ensures next == num + Size(t) && Holds(nodes[..], num, next, num, t)
    ensures Unchanged(old(nodes[..]), nodes[..], num, next)
    decreases t, 0
  {
    ghost var more := Parse(Ahead(stream)).value.1;
    var a, middle := RecoverTree(nodes, stream, num + 1, t.a, more);
    ghost var first := nodes[..];
    var b, last := RecoverTree(nodes, stream, middle, t.b, rest);
    ghost var second := nodes[..];
    next := last;
    nodes[num] := nodes[num].(childA := a, childB := b);
    assert second[num] == DecodeNode(-1, -1, -1) && nodes[..] == second[num := DecodeNode(a, b, -1)];
    HoldsNode(first, second, num, middle, next, t);
  }

  /** The inner loop of `Huffman_Uncompress`: from the root to a leaf. */
  method NextLeaf(nodes: array<DecodeNode>, stream: BitStream, root: nat, ghost hi: nat, ghost t: Tree)
    returns (symbol: byte)
    requires stream.Valid() && Holds(nodes[..], 0, hi, root, t) && Walk(t, Ahead(stream)).Some?
    modifies stream`bytePtr, stream`bitPos
    ensures stream.Valid() && symbol == old(Walk(t, Ahead(stream)).value.0)
    ensures Ahead(stream) == old(Walk(t, Ahead(stream)).value.1)
  {
    var node := root;
    ghost var at := t;
    while nodes[node].symbol < 0
      invariant stream.Valid() && Holds(nodes[..], 0, hi, node, at)
      invariant Walk(at, Ahead(stream)) == old(Walk(t, Ahead(stream)))
      decreases at
    {
      var bit := NextBit(stream);
      at := if bit then at.b else at.a;
      node := if bit then nodes[node].childB else nodes[node].childA;
    }
    symbol := nodes[node].symbol % 256;
  }

  /** The streams that the decoder can read: it checks nothing itself. */
  ghost predicate Readable(bits: seq<bool>, n: nat) {
    && Parse(bits).Some? && Parse(bits).value.1 != [] && Size(Parse(bits).value.0) <= MAX_TREE_NODES
    && Uncompressed(bits, n).Some?
  }

  lemma {:induction false} DecodeStep(t: Tree, bits: seq<bool>, n: nat)
    requires n > 0 && Decode(t, bits, n).Some?
    ensures Walk(t, bits).Some? && Decode(t, Walk(t, bits).value.1, n - 1).Some?
    ensures Decode(t, bits, n).value == [Walk(t, bits).value.0] + Decode(t, Walk(t, bits).value.1, n - 1).value
  {
  }

  /** `Huffman_Uncompress`. */
  method Uncompress(input: array<byte>, output: array<byte>, insize: nat, outsize: nat)
    requires input != output && insize <= input.Length && outsize <= output.Length
    requires insize >= 1 ==> Readable(StreamBits(input[..]), outsize)
    modifies output
    ensures insize == 0 ==> output[..] == old(output[..])
    ensures insize >= 1 ==> Uncompressed(StreamBits(input[..]), outsize) == Some(output[..outsize])
    ensures output[outsize..] == old(output[outsize..])
  {
    if insize < 1 {
      return;
    }
    var stream := new BitStream(input);
    ghost var bits := StreamBits(input[..]);
    assert Ahead(stream) == bits;
    ghost var t, data := Parse(bits).value.0, Parse(bits).value.1;
    var nodes := new DecodeNode[MAX_TREE_NODES](_ => DecodeNode(-1, -1, -1));
    var root, next := RecoverTree(nodes, stream, 0, t, data);
    DecodeSymbols(nodes, stream, root, output, outsize, next, t);
  }

  /** The outer loop of `Huffman_Uncompress`. */
  method DecodeSymbols(nodes: array<DecodeNode>, stream: BitStream, root: nat, output: array<byte>, n: nat,
                       ghost hi: nat, ghost t: Tree)
    requires stream.Valid() && Holds(nodes[..], 0, hi, root, t) && n <= output.Length && output != stream.buf
    requires Decode(t, Ahead(stream), n).Some?
    modifies output, stream`bytePtr, stream`bitPos
    ensures output[..n] == old(Decode(t, Ahead(stream), n).value) && output[n..] == old(output[n..])
  {
    ghost var left := Decode(t, Ahead(stream), n).value;
    ghost var all := left;
    for k := 0 to n
      invariant stream.Valid() && Decode(t, Ahead(stream), n - k) == Some(left)
      invariant all == output[..k] + left
      invariant forall i :: n <= i < output.Length ==> output[i] == old(output[i])
    {
      DecodeStep(t, Ahead(stream), n - k);
      var symbol := NextLeaf(nodes, stream, root, hi, t);
      ghost var done := output[..k];
      output[k] := symbol;
      assert output[..k + 1] == done + [symbol];
      MoveOne(done, left);
      left := left[1..];
    }
  }

  lemma MoveOne(done: seq<byte>, left: seq<byte>)
    requires left != []
    ensures done + left == (done + [left[0]]) + left[1..]
  {
  }

  /** The decoder reads what the encoder writes, whatever is in the rest of the last byte. */
  lemma {:induction false} CompressedIsReadable(text: seq<byte>, out: seq<byte>)
    requires text != [] && Covers(TreeOf(text), text) && Compressed(text, out)
    ensures Readable(StreamBits(out), |text|) && Uncompressed(StreamBits(out), |text|) == Some(text)
  {
    var t, bits := TreeOf(text), StreamBits(out);
    var rest := bits[|Describe(t) + Encode(t, text)|..];
    assert bits == Describe(t) + Encode(t, text) + rest;
    StreamRoundTrip(t, text, rest);
    assert bits == Describe(t) + (Encode(t, text) + rest);
    ParseDescription(t, Encode(t, text) + rest);
    StreamSize(text);
    EncodeFirst(t, text);
    assert |Code(t, text[0])| >= 1;
  }

  /** Any text whose codes fit a word comes back, through buffers of the documented sizes. */
  method RoundTrip(input: array<byte>) returns (output: array<byte>)
    requires input.Length < 0x8000_0000
    requires input.Length > 0 ==> Height(TreeOf(input[..])) <= 32
    ensures output[..] == input[..]
  {
    var packed := new byte[input.Length + 384](_ => 0);
    var size := Compress(input, packed);
    ghost var stored := packed[..size];
    output := new byte[input.Length](_ => 0);
    if input.Length > 0 {
      CompressedIsReadable(input[..], stored);
      var exact := new byte[size](i requires 0 <= i < size reads packed => packed[i]);
      assert exact[..] == stored;
      Uncompress(exact, output, size, output.Length);
    }
  }

  /** Below the limit the codes of every text fit. */
  method RoundTripBelowLimit(input: array<byte>) returns (output: array<byte>)
    requires input.Length < 9227465
    ensures output[..] == input[..]
  {
    if input.Length > 0 { CodesFit(input[..]); }
    output := RoundTrip(input);
  }
}
