/** The decoder of libbcl/lz.c, and the round trip through either encoder. */
module LzDecoder {
  import opened BackCopy
  import opened Binary
  import opened Bytes
  import opened Lz
  import opened LzCode
  import opened Options
  import opened VarSize

  /** Nothing that was expanded is taken back. */
  lemma {:induction false} ExpandGrows(marker: byte, s: seq<byte>, done: Text)
    requires Expand(marker, s, done).Some?
    ensures |done| <= |Expand(marker, s, done).value|
    decreases |s|
  {
    if s != [] {
      if s[0] != marker {
        ExpandGrows(marker, s[1..], done + [s[0]]);
      } else if s[1] == 0 {
        ExpandGrows(marker, s[2..], done + [marker]);
      } else {
        var r := ParseRef(s[1..]).value;
        ExpandGrows(marker, s[1 + r.size..], Grown(done, r).value);
      }
    }
  }

  /** The copying loop, byte after byte. */
  method CopyBack(output: array<byte>, at: nat, offset: nat, length: nat)
    requires at + length <= output.Length && Grown(output[..at], Ref(length, offset, 0)).Some?
    modifies output
    ensures output[..at + length] == Grown(old(output[..at]), Ref(length, offset, 0)).value
  {
    for i := 0 to length
      invariant i == 0 ==> output[..at] == old(output[..at])
      invariant i > 0 ==> output[..at + i] == Copied(old(output[..at]), offset, i)
    {
      ghost var done := output[..at + i];
      assert done == Copied(old(output[..at]), offset, i);
      output[at + i] := output[at + i - offset];
      assert output[..at + i + 1] == done + [done[|done| - offset]];
    }
  }

  /** The two numbers of a reference. */
  method ReadReference(input: array<byte>, at: nat, ghost insize: nat) returns (length: nat, offset: nat, size: nat)
    requires at <= insize <= input.Length && ParseRef(input[at..insize]).Some?
    ensures ParseRef(input[at..insize]) == Some(Ref(length, offset, size))
  {
    var n, k;
    length, n := ReadVarSize(input, at, insize);
    assert input[at..insize][n..] == input[at + n..insize];
    offset, k := ReadVarSize(input, at + n, insize);
    size := n + k;
  }

  /** What a reference expands to. */
  lemma {:induction false} ExpandedReference(marker: byte, s: seq<byte>, done: Text)
    requires |s| >= 2 && s[0] == marker && s[1] != 0 && Expand(marker, s, done).Some?
    ensures ParseRef(s[1..]).Some? && Grown(done, ParseRef(s[1..]).value).Some?
    ensures var r := ParseRef(s[1..]).value;
      Expand(marker, s, done) == Expand(marker, s[1 + r.size..], Grown(done, r).value) &&
      |done| + r.length <= |Expand(marker, s, done).value|
  {
    var r := ParseRef(s[1..]).value;
    ExpandGrows(marker, s[1 + r.size..], Grown(done, r).value);
  }

  /** A reference of the stream, from its marker on. */
  method ExpandOne(input: array<byte>, insize: nat, at: nat, output: array<byte>, pos: nat, ghost v: Text)
    returns (next: nat, end: nat)
    requires input != output && at + 1 < insize <= input.Length && pos <= output.Length && |v| <= output.Length
    requires input[at + 1] != 0 && Expand(input[at], input[at..insize], output[..pos]) == Some(v)
    modifies output
    ensures at < next <= insize && end <= output.Length
    ensures Expand(input[at], input[next..insize], output[..end]) == Some(v)
  {
    ghost var s, done := input[at..insize], output[..pos];
    assert s[1..] == input[at + 1..insize];
    ExpandedReference(input[at], s, done);
    var length, offset, size := ReadReference(input, at + 1, insize);
    next, end := at + 1 + size, pos + length;
    assert s[1 + size..] == input[next..insize];
    CopyBack(output, pos, offset, length);
  }

  /** One turn of the loop of `LZ_Uncompress`. */
  method UncompressStep(input: array<byte>, insize: nat, at: nat, output: array<byte>, pos: nat, marker: byte,
                        ghost v: Text)
    returns (next: nat, end: nat)
    requires input != output && at < insize <= input.Length && pos <= output.Length && |v| <= output.Length
    requires Expand(marker, input[at..insize], output[..pos]) == Some(v)
    modifies output
    ensures at < next <= insize && end <= output.Length && Expand(marker, input[next..insize], output[..end]) == Some(v)
  {
    ghost var s, done := input[at..insize], output[..pos];
    var symbol := input[at];
    if symbol == marker {
      assert |s| >= 2 && s[1] == input[at + 1];
      if input[at + 1] == 0 {
        assert s[2..] == input[at + 2..insize];
        ExpandGrows(marker, s[2..], done + [marker]);
        output[pos] := marker;
        assert output[..pos + 1] == done + [marker];
        next, end := at + 2, pos + 1;
      } else {
        next, end := ExpandOne(input, insize, at, output, pos, v);
      }
    } else {
      assert s[1..] == input[at + 1..insize];
      ExpandGrows(marker, s[1..], done + [symbol]);
      output[pos] := symbol;
      assert output[..pos + 1] == done + [symbol];
      next, end := at + 1, pos + 1;
    }
  }

  /** `LZ_Uncompress`, on the streams it can read: it checks nothing itself. */
  method Uncompress(input: array<byte>, output: array<byte>, insize: nat)
    requires input != output && insize <= input.Length
    requires insize > 0 ==>
      Uncompressed(input[..insize]).Some? && |Uncompressed(input[..insize]).value| <= output.Length
    modifies output
    ensures insize == 0 ==> output[..] == old(output[..])
    ensures insize > 0 ==> var v := Uncompressed(input[..insize]).value; output[..|v|] == v
  {
    if insize < 1 {
      return;
    }
    ghost var v := Uncompressed(input[..insize]).value;
    var marker := input[0];
    var at: nat, pos: nat := 1, 0;
    assert input[..insize][1..] == input[1..insize] && output[..0] == [];
    while at < insize
      invariant at <= insize && pos <= output.Length && Expand(marker, input[at..insize], output[..pos]) == Some(v)
    {
      at, pos := UncompressStep(input, insize, at, output, pos, marker, v);
    }
  }

  /** Both encoders, and the decoder behind each, on buffers of the documented sizes. */
  method RoundTrip(input: array<byte>, past: byte, max: nat) returns (slow: array<byte>, fast: array<byte>)
    requires input.Length < WORD && max >= 1
    ensures slow[..] == input[..] && fast[..] == input[..]
  {
    var n := input.Length;
    slow, fast := new byte[n](_ => 0), new byte[n](_ => 0);
    var packed := new byte[n + n / 256 + 1](_ => 0);
    var work := new nat[n + 65536](_ => 0);
    if n > 0 {
      LzCode.RoundTrip(input[..], max);
      LzCode.RoundTrip(input[..], max - 1);
    }
    var size := Compress(input, packed, past, max);
    Uncompress(packed, slow, size);
    var size' := CompressFast(input, packed, work, past, max);
    Uncompress(packed, fast, size');
  }
}
