/** Blocks of libbcl/rice.c, packed and unpacked. */
module RiceCoder {
  import opened Binary
  import opened BitStrings
  import opened Bytes
  import opened Rice
  import opened RiceBlock
  import opened RiceCode
  import opened RiceStream

  const NOTHING: Hist := [0, 0, 0, 0, 0, 0, 0, 0, 0, 0, 0, 0, 0, 0, 0, 0]

  /** The codes of a block. */
  ghost function Codes(words: seq<nat>): seq<bool>
    requires words != []
  {
    Encoded(words, 0, InitialK(words), NOTHING)
  }

  /** Each word is coded with the parameter that the lengths of the sixteen words before it give. */
  lemma {:induction false} CodesAre(words: seq<nat>)
    requires words != []
    ensures Codes(words) == CodesFrom(words, 0)
  {
    EncodedIs(words, 0, InitialK(words), NOTHING);
  }

  /** The initial parameter is the rounded mean length of the first words, sixteen at most, and one at least. */
  lemma {:induction false} InitialIs(words: seq<nat>, m: nat, k: nat)
    requires words != [] && m == (if |words| < 16 then |words| else 16) && k == InitialK(words)
    ensures k == 1 || 2 * LengthsBetween(words, 0, m) < m * (2 * k + 1) <= 2 * LengthsBetween(words, 0, m) + 2 * m
    ensures k == 1 ==> 2 * LengthsBetween(words, 0, m) < 3 * m
  {
    LengthsAre(words, m);
    MeanRounds(Lengths(words, m), m);
  }

  lemma {:induction false} LengthsAre(words: seq<nat>, m: nat)
    requires m <= |words|
    ensures Lengths(words, m) == LengthsBetween(words, 0, m)
  {
    if m > 0 { LengthsAre(words, m - 1); }
  }

  /** The bytes 1 and 2: the parameter is 2, and each code is a zero and two bits. */
  lemma {:induction false} KnownBlock()
    ensures InitialK([1, 2]) == 2 && Codes([1, 2]) == [false, false, true, false, true, false]
  {
    var ws := [1, 2];
    KnownParameter(ws);
    KnownCode(1, [false, true]);
    KnownCode(2, [true, false]);
    CodesAre(ws);
    KnownCodes(ws, EncodeWord(1, 2), EncodeWord(2, 2));
  }

  lemma {:induction false} KnownParameter(ws: seq<nat>)
    requires ws == [1, 2]
    ensures InitialK(ws) == 2
  {
    assert NumBits(1) == 1 && NumBits(2) == 2;
    assert Lengths(ws, 2) == 3 by { assert Lengths(ws, 1) == 1 by { assert Lengths(ws, 0) == 0; } }
  }

  lemma {:induction false} KnownCode(x: nat, low: seq<bool>)
    requires x < 4 && low == ToBits(x, 2)
    ensures EncodeWord(x, 2) == [false] + low
  {
    assert ShiftRight(x, 2) == ShiftRight(x / 2, 1) == 0;
  }

  lemma {:induction false} KnownCodes(ws: seq<nat>, a: seq<bool>, b: seq<bool>)
    requires ws == [1, 2] && InitialK(ws) == 2 && a == EncodeWord(1, 2) && b == EncodeWord(2, 2)
    ensures CodesFrom(ws, 0) == a + b
  {
    assert CodesFrom(ws, 2) == [];
    assert CodesFrom(ws, 1) == b + [] == b;
  }

  /** The buffer is full before the last word: the block is stored raw. */
  ghost predicate TooLong(words: seq<nat>, insize: nat)
    requires words != []
  {
    FrontLength(words, 0, InitialK(words), NOTHING) >= 8 * insize
  }

  /** The bits that a buffer of `insize` bytes and one keeps. */
  ghost function Kept(words: seq<nat>, insize: nat): seq<bool>
    requires words != []
  {
    if |Codes(words)| < 8 * insize then Codes(words) else Codes(words)[..8 * insize]
  }

  ghost function Body(words: seq<nat>, width: nat, insize: nat): seq<bool>
    requires words != []
  {
    if TooLong(words, insize) then RawBits(words, width) else Kept(words, insize)
  }

  ghost function Marker(words: seq<nat>, insize: nat): nat
    requires words != []
  {
    if TooLong(words, insize) then 0 else InitialK(words)
  }

  /** A block: the marker, and the body in as many bytes as it needs. */
  ghost predicate Block(words: seq<nat>, width: nat, insize: nat, out: seq<byte>)
    requires words != []
  {
    var body := Body(words, width, insize);
    && |out| >= 1 && out[0] == Marker(words, insize) && body <= StreamBits(out)[8..]
    && |body| <= 8 * (|out| - 1) < |body| + 8
  }

  /** A raw block of bytes is a zero and the bytes themselves. */
  lemma {:induction false} RawBlockIs(words: seq<nat>, insize: nat, out: seq<byte>, j: nat)
    requires Narrower(words, 8) && j < |words| && TooLong(words, insize) && Block(words, 8, insize, out)
    ensures |out| == |words| + 1 && out[0] == 0 && out[j + 1] as int == words[j]
  {
    var raw, bits := RawBits(words, 8), StreamBits(out);
    RawByte(words, j);
    StreamByte(out, j + 1, 8 * j + 8);
    Behind(bits, raw, 8 * j);
    ByteBelowPow2(out[j + 1]);
    BitsInjective(out[j + 1], words[j], 8);
  }

  lemma Behind(bits: seq<bool>, raw: seq<bool>, p: nat)
    requires 8 <= |bits| && raw <= bits[8..] && p + 8 <= |raw|
    ensures bits[p + 8..p + 16] == raw[p..p + 8]
  {
  }

  /** `Rice_Compress` does not shift by 32: no word is coded with a parameter above 31. */
  ghost predicate Defined(words: seq<nat>, insize: nat)
    requires words != []
  {
    Shiftable(words, 0, InitialK(words), NOTHING, 8 * insize)
  }

  /** The formats of 8 and 16 bits, and 32-bit words that leave the highest bit clear. */
  lemma {:induction false} SmallIsDefined(words: seq<nat>, insize: nat)
    requires words != [] && Small(words)
    ensures Defined(words, insize)
  {
    InitialKBelow(words);
    SmallIsShiftable(words, 0, InitialK(words), NOTHING, 8 * insize);
  }

  /** A block that holds the word 2^32 - 1 alone is coded with the parameter 32. */
  lemma {:induction false} WideIsNotDefined()
    ensures !Defined([WORD - 1], 4)
  {
    var ws := [WORD - 1];
    Pow2Word();
    NumBitsIs(WORD - 1, 32);
    assert Lengths(ws, 1) == 32 by { assert Lengths(ws, 0) == 0; }
    assert InitialK(ws) == 32;
  }

  /** What the decoder makes of a block: `k` zero says that the words are raw. */
  ghost function Unpacked(out: seq<byte>, n: nat, width: nat): seq<nat>
    requires out != []
  {
    var bits := StreamBits(out)[8..];
    if out[0] == 0 then RawWords(bits, n, width) else Decoded32(bits, n, 0, out[0], NOTHING)
  }

  lemma NarrowBelow(words: seq<nat>, width: nat)
    requires width <= 32 && Narrower(words, width)
    ensures Below(words)
  {
    Pow2Word();
    Pow2Monotone(width, 32);
  }

  /** Decoding gives words that are no larger, and the same exactly if nothing was lost. */
  ghost predicate Back(got: seq<nat>, words: seq<nat>, nothingLost: bool) {
    AtMost(got, words) && (got == words <==> nothingLost)
  }

  /** A block comes back exactly if it was stored raw or no one bit of its last code was dropped. */
  lemma {:induction false} BlockRoundTrip(words: seq<nat>, width: nat, insize: nat, out: seq<byte>)
    requires words != [] && width <= 32 && Block(words, width, insize, out) && Narrower(words, width)
    ensures Unpacked(out, |words|, width) == words <==>
      TooLong(words, insize) || NoOnes(Codes(words)[|Kept(words, insize)|..])
    ensures AtMost(Unpacked(out, |words|, width), words)
  {
    if TooLong(words, insize) {
      RawBlockBack(words, width, insize, out);
    } else {
      KeptBlockBack(words, width, insize, out);
    }
  }

  lemma {:induction false} RawBlockBack(words: seq<nat>, width: nat, insize: nat, out: seq<byte>)
    requires words != [] && Block(words, width, insize, out) && Narrower(words, width) && TooLong(words, insize)
    ensures Unpacked(out, |words|, width) == words
  {
    RawRoundTrip(words, width, StreamBits(out)[8..]);
  }

  lemma {:induction false} KeptBlockBack(words: seq<nat>, width: nat, insize: nat, out: seq<byte>)
    requires words != [] && width <= 32 && Block(words, width, insize, out) && Narrower(words, width)
    requires !TooLong(words, insize)
    ensures Back(Unpacked(out, |words|, width), words, NoOnes(Codes(words)[|Kept(words, insize)|..]))
  {
    var bits, body := StreamBits(out)[8..], Kept(words, insize);
    NarrowBelow(words, width);
    KeptBitsBack(words, insize, out, Codes(words), bits, body, bits[|body|..]);
  }

  lemma {:induction false} KeptBitsBack(words: seq<nat>, insize: nat, out: seq<byte>, codes: seq<bool>,
                                        bits: seq<bool>, body: seq<bool>, t: seq<bool>)
    requires words != [] && Below(words) && !TooLong(words, insize) && codes == Codes(words)
    requires body == Kept(words, insize) && |out| >= 1 && bits == StreamBits(out)[8..]
    requires body <= bits && t == bits[|body|..] && |body| <= 8 * (|out| - 1) < |body| + 8
    ensures Back(Decoded32(bits, |words|, 0, InitialK(words), NOTHING), words, NoOnes(codes[|body|..]))
  {
    assert bits == body + t;
    KeptRoundTrip(words, insize, out, codes, body, t);
    BackFits(bits, words, NoOnes(codes[|body|..]));
  }

  lemma {:induction false} BackFits(bits: seq<bool>, words: seq<nat>, nothingLost: bool)
    requires words != [] && Below(words)
    requires Back(Decoded(bits, |words|, 0, InitialK(words), NOTHING), words, nothingLost)
    ensures Back(Decoded32(bits, |words|, 0, InitialK(words), NOTHING), words, nothingLost)
  {
    DecodedFits(bits, |words|, 0, InitialK(words), NOTHING);
  }

  lemma {:induction false} KeptRoundTrip(words: seq<nat>, insize: nat, out: seq<byte>, codes: seq<bool>,
                                         body: seq<bool>, t: seq<bool>)
    requires words != [] && !TooLong(words, insize) && codes == Codes(words) && body == Kept(words, insize)
    requires |out| >= 1 && StreamBits(out)[8..] == body + t && |body| <= 8 * (|out| - 1) < |body| + 8
    ensures Back(Decoded(body + t, |words|, 0, InitialK(words), NOTHING), words, NoOnes(codes[|body|..]))
  {
    if |codes| < 8 * insize {
      WholeBack(words, codes, t);
    } else {
      FullBlock(out, body, t, 8 * insize);
      CutBack(words, codes, 8 * insize, body);
    }
  }

  lemma {:induction false} WholeBack(words: seq<nat>, codes: seq<bool>, t: seq<bool>)
    requires words != [] && codes == Codes(words)
    ensures Back(Decoded(codes + t, |words|, 0, InitialK(words), NOTHING), words, NoOnes(codes[|codes|..]))
  {
    assert words[0..] == words;
    DecodeWhole(words, 0, InitialK(words), NOTHING, NOTHING, t);
  }

  lemma {:induction false} CutBack(words: seq<nat>, codes: seq<bool>, c: nat, body: seq<bool>)
    requires words != [] && codes == Codes(words) && FrontLength(words, 0, InitialK(words), NOTHING) <= c <= |codes|
    requires body == codes[..c]
    ensures Back(Decoded(body, |words|, 0, InitialK(words), NOTHING), words, NoOnes(codes[c..]))
  {
    assert words[0..] == words;
    CutAtMost(words, 0, InitialK(words), NOTHING, NOTHING, c);
    DecodeCut(words, 0, InitialK(words), NOTHING, NOTHING, c);
  }

  lemma {:induction false} FullBlock(out: seq<byte>, body: seq<bool>, t: seq<bool>, c: nat)
    requires |out| >= 1 && StreamBits(out)[8..] == body + t && |body| == c && c % 8 == 0 && 8 * (|out| - 1) < c + 8
    ensures body + t == body
  {
  }

  /** A single byte of 255 is not stored raw and does not come back. */
  lemma {:induction false} LastBitLost()
    ensures !TooLong([255], 1) && !NoOnes(Codes([255])[|Kept([255], 1)|..])
  {
    var ws := [255];
    NumBitsIs255();
    assert Lengths(ws, 1) == 8 by { assert Lengths(ws, 0) == 0; }
    assert InitialK(ws) == 8;
    var e := EncodeWord(255, 8);
    assert ShiftRight(255, 8) == 0;
    assert Unary(0) == [false];
    assert |ToBits(255, 8)| == 8 && ToBits(255, 8)[7];
    assert e[8];
    assert Codes(ws) == e by {
      assert Encoded(ws, 1, 8, Noted(NOTHING, 0, 255)) == [];
      assert e + [] == e;
    }
    assert |Kept(ws, 1)| == 8;
    assert e[8..][0];
  }

  lemma NumBitsIs255()
    ensures NumBits(255) == 8
  {
    assert Pow2(7) == 128 && Pow2(8) == 256;
    NumBitsIs(255, 8);
  }

  // ---------------------------------------------------------------- the encoder

  lemma {:induction false} FirstByte(s: seq<byte>)
    requires s != []
    ensures StreamBits(s)[..8] == ToBits(s[0], 8)
  {
    StreamByte(s, 0, 0);
  }

  /** The buffer with a marker and a body in it. */
  lemma {:induction false} BodyWritten(s: seq<byte>, size: nat, pre: seq<bool>, body: seq<bool>, pos: nat)
    requires 1 <= size <= |s| && |pre| == 8 && pos == 8 + |body| <= 8 * size && StreamBits(s)[..pos] == pre + body
    ensures body <= StreamBits(s[..size])[8..]
  {
    StreamPrefix(s, size);
    assert StreamBits(s[..size])[..pos] == pre + body;
    assert StreamBits(s[..size])[8..][..|body|] == StreamBits(s[..size])[..pos][8..];
  }

  /** A stream behind the marker. */
  method Marked(output: array<byte>, bytes: nat, k: byte) returns (stream: Stream, ghost pre: seq<bool>)
    requires 1 <= bytes <= output.Length
    modifies output
    ensures fresh(stream) && stream.buf == output && stream.numBytes == bytes && |pre| == 8 && stream.Wrote(pre)
    ensures pre == ToBits(k, 8)
  {
    output[0] := k;
    FirstByte(output[..]);
    pre := ToBits(k, 8);
    stream := new Stream(output, bytes, 8);
  }

  /** The marker is not touched by what is written behind it. */
  lemma {:induction false} MarkerStays(s: seq<byte>, k: byte, w: seq<bool>, pos: nat)
    requires s != [] && 8 <= pos <= |w| && pos <= 8 * |s| && StreamBits(s)[..pos] == w[..pos] && w[..8] == ToBits(k, 8)
    ensures s[0] == k
  {
    FirstByte(s);
    assert StreamBits(s)[..8] == StreamBits(s)[..pos][..8] == w[..8];
    ByteBelowPow2(s[0]);
    ByteBelowPow2(k);
    BitsInjective(s[0], k, 8);
  }

  /** The raw block always fits: the words take no more than the bytes they came from. */
  lemma {:induction false} RawFits(words: seq<nat>, width: nat, insize: nat)
    requires width % 8 == 0 && width > 0 && |words| == insize / (width / 8)
    ensures |RawBits(words, width)| <= 8 * insize
  {
    RawLength(words, width);
    var b := width / 8;
    QuotientBounds(insize, b);
    assert |words| * width == 8 * (|words| * b);
  }

  /** `Rice_Compress` on the words that `_Rice_ReadWord` gives. */
  method CompressWords(words: array<nat>, output: array<byte>, insize: nat, width: nat) returns (size: nat)
    requires (width == 8 || width == 16 || width == 32) && words.Length == insize / (width / 8)
    requires Below(words[..]) && (words.Length > 0 ==> Defined(words[..], insize)) && output.Length >= insize + 1
    modifies output
    ensures words.Length == 0 ==> size == 0 && output[..] == old(output[..])
    ensures words.Length > 0 ==> 1 <= size <= insize + 1 && Block(words[..], width, insize, output[..size])
  {
    if words.Length == 0 {
      return 0;
    }
    assert insize > 0;
    ghost var ws := words[..];
    var stream, pre, full := Encode(words, output, insize, width);
    size := (stream.bitPos + 7) / 8;
    Packed(output[..], ws, width, insize, pre, full, stream.bitPos, size);
  }

  /** The marker, and the codes or, if they are too long, the raw words. */
  method Encode(words: array<nat>, output: array<byte>, insize: nat, width: nat)
    returns (stream: Stream, ghost pre: seq<bool>, ghost full: seq<bool>)
    requires words.Length > 0 && Below(words[..]) && Defined(words[..], insize) && 0 < insize < output.Length
    modifies output
    ensures fresh(stream) && stream.buf == output && stream.numBytes == insize + 1 && stream.Wrote(pre + full)
    ensures Marker(words[..], insize) < 256 && pre == ToBits(Marker(words[..], insize), 8)
    ensures full == if TooLong(words[..], insize) then RawBits(words[..], width) else Codes(words[..])
  {
    var k := MeanLength(words);
    ghost var ws := words[..];
    var ok;
    stream, pre, ok := Attempt(words, output, insize, k);
    full := if ok then Codes(ws) else RawBits(ws, width);
    if !ok {
      stream, pre := StoreRaw(words, output, insize, width);
    }
  }

  lemma {:induction false} Packed(s: seq<byte>, ws: seq<nat>, width: nat, insize: nat, pre: seq<bool>,
                                  full: seq<bool>, pos: nat, size: nat)
    requires ws != [] && width % 8 == 0 && width > 0 && |ws| == insize / (width / 8)
    requires |s| >= insize + 1 && Marker(ws, insize) < 256 && pre == ToBits(Marker(ws, insize), 8)
    requires full == (if TooLong(ws, insize) then RawBits(ws, width) else Codes(ws))
    requires pos == (if |pre + full| < 8 * (insize + 1) then |pre + full| else 8 * (insize + 1))
    requires StreamBits(s)[..pos] == (pre + full)[..pos] && size == (pos + 7) / 8
    ensures 1 <= size <= insize + 1 && Block(ws, width, insize, s[..size])
  {
    RawFits(ws, width, insize);
    CutBehind(pre, full, insize);
    Finished(s, ws, width, insize, pre, full, pos, size);
  }

  lemma {:induction false} CutBehind(pre: seq<bool>, body: seq<bool>, insize: nat)
    requires |pre| == 8
    ensures var n := if |pre + body| < 8 * (insize + 1) then |pre + body| else 8 * (insize + 1);
      n == 8 + |Fitting(body, insize)| && (pre + body)[..n] == pre + Fitting(body, insize)
  {
  }

  /** The marker, and the codes as far as they fit; `ok` says that the loop came to its end. */
  method Attempt(words: array<nat>, output: array<byte>, insize: nat, k: nat)
    returns (stream: Stream, ghost pre: seq<bool>, ok: bool)
    requires words.Length > 0 && Below(words[..]) && k == InitialK(words[..]) && 0 < insize < output.Length
    requires Defined(words[..], insize)
    modifies output
    ensures fresh(stream) && stream.buf == output && stream.numBytes == insize + 1 && pre == ToBits(k, 8)
    ensures ok == !TooLong(words[..], insize) && (ok ==> stream.Wrote(pre + Codes(words[..])))
    ensures k < 32
  {
    stream, pre := Marked(output, insize + 1, k);
    var hist := new nat[HISTORY];
    EncodedAgrees(words[..], 0, k, hist[..], NOTHING);
    ShiftableAgrees(words[..], 0, k, hist[..], NOTHING, 8 * insize);
    var i := PutWords(words, k, insize, stream, pre, hist, 8 * insize);
    ok := i == words.Length;
  }

  /** The marker of a raw block, and its words. */
  method StoreRaw(words: array<nat>, output: array<byte>, insize: nat, width: nat)
    returns (stream: Stream, ghost pre: seq<bool>)
    requires insize < output.Length
    modifies output
    ensures fresh(stream) && stream.buf == output && stream.numBytes == insize + 1 && pre == ToBits(0, 8)
    ensures stream.Wrote(pre + RawBits(words[..], width))
  {
    stream, pre := Marked(output, insize + 1, 0);
    PutRaw(words, width, stream, pre);
  }

  /** The bits of `full` that fit behind the marker. */
  function Fitting(full: seq<bool>, insize: nat): seq<bool> {
    if |full| < 8 * insize then full else full[..8 * insize]
  }

  lemma {:induction false} Finished(s: seq<byte>, ws: seq<nat>, width: nat, insize: nat, pre: seq<bool>,
                                    full: seq<bool>, pos: nat, size: nat)
    requires ws != [] && |s| >= insize + 1 && Marker(ws, insize) < 256 && pre == ToBits(Marker(ws, insize), 8)
    requires full == (if TooLong(ws, insize) then RawBits(ws, width) else Codes(ws))
    requires |RawBits(ws, width)| <= 8 * insize
    requires pos == 8 + |Fitting(full, insize)| && StreamBits(s)[..pos] == pre + Fitting(full, insize)
    requires size == (pos + 7) / 8
    ensures 1 <= size <= insize + 1 && Block(ws, width, insize, s[..size])
  {
    var body := Fitting(full, insize);
    assert body == Body(ws, width, insize);
    FinishedBytes(s, insize, pre, Marker(ws, insize), body, pos, size);
  }

  lemma {:induction false} FinishedBytes(s: seq<byte>, insize: nat, pre: seq<bool>, k: byte, body: seq<bool>,
                                         pos: nat, size: nat)
    requires |s| >= insize + 1 && pre == ToBits(k, 8) && |body| <= 8 * insize && pos == 8 + |body|
    requires StreamBits(s)[..pos] == pre + body && size == (pos + 7) / 8
    ensures 1 <= size <= insize + 1 && s[..size][0] == k && body <= StreamBits(s[..size])[8..]
    ensures |body| <= 8 * (|s[..size]| - 1) < |body| + 8
  {
    BodyWritten(s, size, pre, body, pos);
    MarkerStays(s, k, pre + body, pos);
  }

  // ---------------------------------------------------------------- the decoder

  lemma {:induction false} ExtendBelow(y: nat, s: seq<bool>, n: nat, m: nat)
    requires y < Pow2(m)
    ensures Extend(y, s, n) < Pow2(m + n)
    decreases n
  {
    if n > 0 { ExtendBelow(2 * y + (if First(s) then 1 else 0), Drop(s, 1), n - 1, m + 1); }
  }

  /** A word of up to 32 bits is read whole. */
  lemma {:induction false} RawWordFits(s: seq<bool>, width: nat)
    requires width <= 32
    ensures Extend32(0, s, width) == Extend(0, s, width)
  {
    ExtendBelow(0, s, width, 0);
    Pow2Word();
    Pow2Monotone(width, 32);
    ExtendFits(0, s, width);
  }

  /** The array holds the first `i` words, and `left` are the others. */
  ghost predicate Filled(words: seq<nat>, i: nat, left: seq<nat>, all: seq<nat>) {
    i <= |words| && |left| == |words| - i && all == words[..i] + left
  }

  lemma FilledNext(words: seq<nat>, i: nat, x: nat, left: seq<nat>, all: seq<nat>)
    requires i < |words| && Filled(words, i, [x] + left, all)
    ensures Filled(words[i := x], i + 1, left, all)
  {
  }

  /** Before raw word `i`, with `n` to come. */
  ghost predicate Copying(words: seq<nat>, i: nat, n: nat, s: seq<bool>, width: nat, all: seq<nat>) {
    i + n == |words| && Filled(words, i, RawWords(s, n, width), all)
  }

  /** The copying of raw words. */
  method TakeRaw(stream: Stream, words: array<nat>, width: nat)
    requires stream.Valid() && width <= 32
    modifies stream`bitPos, words
    ensures words[..] == RawWords(old(stream.Ahead()), words.Length, width)
  {
    ghost var n: nat := words.Length;
    ghost var all := RawWords(stream.Ahead(), n, width);
    RawBelow(stream.Ahead(), n, width);
    FilledFirst(words[..], all);
    for i := 0 to words.Length
      invariant stream.Valid() && Copying(words[..], i, n, stream.Ahead(), width, all)
    {
      n := TakeRawWord(stream, words, i, width, n, all);
    }
    CopiedAll(words[..], words.Length, n, stream.Ahead(), width, all);
  }

  lemma CopiedAll(words: seq<nat>, i: nat, n: nat, s: seq<bool>, width: nat, all: seq<nat>)
    requires Copying(words, i, n, s, width, all) && i == |words|
    ensures words == all
  {
    FilledAll(words, i, RawWords(s, n, width), all);
  }

  lemma FilledFirst(words: seq<nat>, all: seq<nat>)
    requires |all| == |words|
    ensures Filled(words, 0, all, all)
  {
  }

  lemma FilledAll(words: seq<nat>, n: nat, left: seq<nat>, all: seq<nat>)
    requires n == |words| && Filled(words, n, left, all)
    ensures words == all
  {
  }

  lemma {:induction false} RawNext(s: seq<bool>, n: nat, width: nat) returns (left: seq<nat>)
    requires n > 0
    ensures left == RawWords(Drop(s, width), n - 1, width)
    ensures RawWords(s, n, width) == [Extend(0, s, width)] + left
  {
    left := RawWords(Drop(s, width), n - 1, width);
  }

  method TakeRawWord(stream: Stream, words: array<nat>, i: nat, width: nat, ghost n: nat, ghost all: seq<nat>)
    returns (ghost n': nat)
    requires stream.Valid() && width <= 32 && i < words.Length && Copying(words[..], i, n, stream.Ahead(), width, all)
    modifies stream`bitPos, words
    ensures stream.Valid() && Copying(words[..], i + 1, n', stream.Ahead(), width, all)
  {
    n' := n - 1;
    ghost var left := RawNext(stream.Ahead(), n, width);
    RawWordFits(stream.Ahead(), width);
    var x := TakeBits(0, width, stream);
    FilledNext(words[..], i, x, left, all);
    words[i] := x;
  }

  /** One turn of the decoding loop. */
  method TakeNext(stream: Stream, i: nat, k: nat, hist: array<nat>) returns (k': nat, x: nat)
    requires hist.Length == HISTORY && stream.Valid()
    modifies hist, stream`bitPos
    ensures stream.Valid() && k' == NextK(k, old(hist[..]), i)
    ensures (x, stream.Ahead()) == DecodeWord32(k', old(stream.Ahead())) && hist[..] == Noted(old(hist[..]), i, x)
  {
    k' := ReviseK(hist, k, i);
    x := TakeWord(k', stream);
    Note(hist, i, x);
  }

  /** The decoding loop. */
  method TakeWords(stream: Stream, words: array<nat>, k0: nat)
    requires stream.Valid()
    modifies stream`bitPos, words
    ensures words[..] == Decoded32(old(stream.Ahead()), words.Length, 0, k0, NOTHING)
  {
    var hist := new nat[HISTORY];
    DecodedAgrees(stream.Ahead(), words.Length, 0, k0, hist[..], NOTHING);
    ghost var all := Decoded32(stream.Ahead(), words.Length, 0, k0, NOTHING);
    ghost var left := all;
    var k: nat := k0;
    for i := 0 to words.Length
      invariant stream.Valid() && left == Decoded32(stream.Ahead(), words.Length, i, k, hist[..])
      invariant Filled(words[..], i, left, all)
    {
      left := DecodedNext(stream.Ahead(), words.Length, i, k, hist[..]);
      var x;
      k, x := TakeNext(stream, i, k, hist);
      FilledNext(words[..], i, x, left, all);
      words[i] := x;
    }
    FilledAll(words[..], words.Length, left, all);
  }

  lemma {:induction false} DecodedNext(s: seq<bool>, n: nat, i: nat, k: nat, h: Hist) returns (left: seq<nat>)
    requires i < n
    ensures var k' := NextK(k, h, i);
      var (x, t) := DecodeWord32(k', s);
      left == Decoded32(t, n, i + 1, k', Noted(h, i, x)) && Decoded32(s, n, i, k, h) == [x] + left
  {
    var k' := NextK(k, h, i);
    var (x, t) := DecodeWord32(k', s);
    left := Decoded32(t, n, i + 1, k', Noted(h, i, x));
  }

  /** The words of a block that `Rice_Uncompress` reads. */
  method UncompressWords(input: array<byte>, insize: nat, n: nat, width: nat) returns (words: array<nat>)
    requires 1 <= insize <= input.Length && width <= 32
    ensures fresh(words) && words[..] == Unpacked(input[..insize], n, width)
  {
    words := new nat[n](_ => 0);
    var k: nat := input[0];
    var stream := new Stream(input, insize, 8);
    assert stream.Ahead() == StreamBits(input[..insize])[8..] by { StreamPrefix(input[..], insize); }
    if k == 0 {
      TakeRaw(stream, words, width);
    } else {
      TakeWords(stream, words, k);
    }
  }

  // ---------------------------------------------------------------- values

  ghost predicate AllInRange(f: Format, values: seq<int>) {
    forall i :: 0 <= i < |values| ==> InRange(f, values[i])
  }

  function ReadWords(f: Format, values: seq<int>): (words: seq<nat>)
    requires AllInRange(f, values)
    ensures |words| == |values| && forall i :: 0 <= i < |values| ==> words[i] == ReadWord(f, values[i])
  {
    seq(|values|, i requires 0 <= i < |values| && InRange(f, values[i]) => ReadWord(f, values[i]))
  }

  function WriteWords(f: Format, words: seq<nat>): (values: seq<int>)
    requires Below(words)
    ensures |values| == |words| && forall i :: 0 <= i < |words| ==> values[i] == WriteWord(f, words[i])
  {
    seq(|words|, i requires 0 <= i < |words| && words[i] < WORD => WriteWord(f, words[i]))
  }

  lemma WordsNarrow(f: Format, values: seq<int>)
    requires !f.Other? && AllInRange(f, values)
    ensures Narrower(ReadWords(f, values), Width(f)) && Pow2(Width(f)) == Values(f)
    ensures Width(f) < 32 ==> Small(ReadWords(f, values))
  {
    WidthValues(f);
    forall i | 0 <= i < |values| ensures ReadWord(f, values[i]) < Values(f) { WordBack(f, values[i]); }
  }

  /** The coder is defined on the values; for a format of 8 or 16 bits it always is. */
  ghost predicate Codable(f: Format, values: seq<int>, insize: nat) {
    && !f.Other? && AllInRange(f, values)
    && (Width(f) == 32 && values != [] ==> Defined(ReadWords(f, values), insize))
  }

  lemma CodableIsDefined(f: Format, values: seq<int>, insize: nat)
    requires Codable(f, values, insize) && values != []
    ensures Defined(ReadWords(f, values), insize)
  {
    WordsNarrow(f, values);
    if Width(f) < 32 { SmallIsDefined(ReadWords(f, values), insize); }
  }

  /** The word of the least signed 32-bit number is not told from that of zero. */
  ghost predicate Foldable(f: Format, values: seq<int>) {
    f.Int32? ==> -0x8000_0000 !in values
  }

  lemma WidthValues(f: Format)
    requires !f.Other?
    ensures Values(f) == Pow2(Width(f))
  {
    assert Pow2(8) == 0x100;
    assert Pow2(16) == 0x100 * Pow2(8);
    Pow2Word();
  }

  lemma UnfoldedBack(x: nat, p: int)
    requires x < 2 * p <= WORD && x < WORD - 1
    ensures -p <= Unfold(x) < p && Fold(Unfold(x)) == x
  {
    var y := Unfold(x);
    if x % 2 == 1 {
      assert x + 1 < WORD && y == -((x + 1) / 2) && -1 - 2 * y == x;
    } else {
      assert y == x / 2 && 2 * y == x;
    }
  }

  lemma WrittenBack(f: Format, x: nat)
    requires !f.Other? && x < Values(f) && (f.Int32? ==> x < WORD - 1)
    ensures InRange(f, WriteWord(f, x)) && ReadWord(f, WriteWord(f, x)) == x
  {
    match f
    case Int8 => SignedBack(x, 0x80);
    case Int16 => SignedBack(x, 0x8000);
    case Int32 => SignedBack(x, 0x8000_0000);
    case _ =>
  }

  lemma SignedBack(x: nat, p: int)
    requires x < 2 * p <= WORD && x < WORD - 1
    ensures var v := Narrow(Unfold(x), 2 * p, true); -p <= v < p && Fold(v) == x
  {
    UnfoldedBack(x, p);
    NarrowNothing(Unfold(x), p);
  }

  /** The least signed 32-bit number is never written. */
  lemma NeverLeast(x: nat)
    requires x < WORD
    ensures WriteWord(Int32, x) != -0x8000_0000
  {
    if x < WORD - 1 {
      UnfoldedBack(x, 0x8000_0000);
      NarrowNothing(Unfold(x), 0x8000_0000);
      assert Unfold(x) > -0x8000_0000;
    }
  }

  lemma WrittenTells(f: Format, x: nat, v: int)
    requires !f.Other? && InRange(f, v) && x <= ReadWord(f, v)
    ensures x < WORD && (WriteWord(f, x) == v <==> x == ReadWord(f, v) && !(f.Int32? && v == -0x8000_0000))
  {
    WordBack(f, v);
    if f.Int32? && v == -0x8000_0000 {
      NeverLeast(x);
    } else {
      if f.Int32? { FoldBelow(v); }
      WrittenBack(f, x);
    }
  }

  lemma FoldBelow(v: int)
    requires -0x8000_0000 < v < 0x8000_0000
    ensures Fold(v) < WORD - 1
  {
  }

  /** Words in the range of the format are told apart by their values. */
  lemma WrittenTellsApart(f: Format, us: seq<nat>, values: seq<int>)
    requires !f.Other? && AllInRange(f, values) && AtMost(us, ReadWords(f, values)) && Below(us)
    ensures WriteWords(f, us) == values <==> us == ReadWords(f, values) && Foldable(f, values)
  {
    var words := ReadWords(f, values);
    forall i | 0 <= i < |us|
      ensures WriteWord(f, us[i]) == values[i] <==> us[i] == words[i] && !(f.Int32? && values[i] == -0x8000_0000)
    {
      WrittenTells(f, us[i], values[i]);
    }
  }

  /**
   What becomes of the values of a block: they come back if and only if the block was stored raw or no
   one bit of its last code was dropped, and the least signed 32-bit number is not among them.
   */
  lemma {:induction false} ValuesBack(f: Format, values: seq<int>, insize: nat, out: seq<byte>)
    requires !f.Other? && AllInRange(f, values) && values != [] && Block(ReadWords(f, values), Width(f), insize, out)
    ensures var words := ReadWords(f, values);
      && Below(Unpacked(out, |values|, Width(f)))
      && (WriteWords(f, Unpacked(out, |values|, Width(f))) == values <==>
          Foldable(f, values) && (TooLong(words, insize) || NoOnes(Codes(words)[|Kept(words, insize)|..])))
  {
    var words := ReadWords(f, values);
    WordsNarrow(f, values);
    BlockRoundTrip(words, Width(f), insize, out);
    UnpackedBelow(out, |values|, Width(f));
    WrittenTellsApart(f, Unpacked(out, |values|, Width(f)), values);
  }

  method ReadAll(input: array<int>, f: Format) returns (words: array<nat>)
    requires AllInRange(f, input[..])
    ensures fresh(words) && words[..] == ReadWords(f, input[..])
  {
    words := new nat[input.Length];
    for i := 0 to input.Length
      invariant words[..i] == ReadWords(f, input[..])[..i]
    {
      assert input[..][i] == input[i];
      words[i] := ReadWord(f, input[i]);
    }
  }

  method WriteAll(words: array<nat>, output: array<int>, f: Format)
    requires words.Length == output.Length && Below(words[..])
    modifies output
    ensures output[..] == WriteWords(f, old(words[..]))
  {
    ghost var ws := words[..];
    for i := 0 to output.Length
      invariant forall j :: i <= j < words.Length ==> words[j] == ws[j]
      invariant output[..i] == WriteWords(f, ws)[..i]
    {
      output[i] := WriteWord(f, words[i]);
    }
  }

  /** `Rice_Compress`: the values of the block are given by `input`. */
  method Compress(input: array<int>, output: array<byte>, insize: nat, f: Format) returns (size: nat)
    requires !f.Other? ==>
      input.Length == insize / (Width(f) / 8) && Codable(f, input[..], insize) && output.Length >= insize + 1
    modifies output
    ensures f.Other? || input.Length == 0 ==> size == 0 && output[..] == old(output[..])
    ensures !f.Other? && input.Length > 0 ==>
      1 <= size <= insize + 1 && Block(ReadWords(f, input[..]), Width(f), insize, output[..size])
  {
    if f.Other? {
      return 0;
    }
    WordsNarrow(f, input[..]);
    NarrowBelow(ReadWords(f, input[..]), Width(f));
    if input.Length > 0 { CodableIsDefined(f, input[..], insize); }
    var words := ReadAll(input, f);
    size := CompressWords(words, output, insize, Width(f));
  }

  /** `Rice_Uncompress`: the values of the block go to `output`. */
  method Uncompress(input: array<byte>, output: array<int>, insize: nat, outsize: nat, f: Format)
    requires !f.Other? ==>
      output.Length == outsize / (Width(f) / 8) && (output.Length > 0 ==> 1 <= insize <= input.Length)
    modifies output
    ensures f.Other? ==> output[..] == old(output[..])
    ensures !f.Other? && output.Length > 0 ==> Below(Unpacked(input[..insize], output.Length, Width(f)))
    ensures !f.Other? && output.Length > 0 ==>
      output[..] == WriteWords(f, Unpacked(input[..insize], output.Length, Width(f)))
  {
    if f.Other? || output.Length == 0 {
      return;
    }
    var words := UncompressWords(input, insize, output.Length, Width(f));
    UnpackedBelow(input[..insize], output.Length, Width(f));
    WriteAll(words, output, f);
  }

  /** Whatever the block holds, its words have 32 bits. */
  lemma {:induction false} UnpackedBelow(out: seq<byte>, n: nat, width: nat)
    requires out != [] && width <= 32
    ensures |Unpacked(out, n, width)| == n && Below(Unpacked(out, n, width))
  {
    var bits := StreamBits(out)[8..];
    if out[0] == 0 { RawBelow(bits, n, width); }
  }

  lemma {:induction false} RawBelow(bits: seq<bool>, n: nat, width: nat)
    requires width <= 32
    ensures |RawWords(bits, n, width)| == n && Below(RawWords(bits, n, width))
    decreases n
  {
    if n > 0 {
      RawBelow(Drop(bits, width), n - 1, width);
      ExtendBelow(0, bits, width, 0);
      Pow2Word();
      Pow2Monotone(width, 32);
    }
  }

  /** Compressing a block and uncompressing it: an exact account of when its values come back. */
  method RoundTrip(input: array<int>, packed: array<byte>, output: array<int>, insize: nat, f: Format)
    requires !f.Other? && input.Length == output.Length == insize / (Width(f) / 8) && input != output
    requires Codable(f, input[..], insize) && packed.Length >= insize + 1
    modifies packed, output
    ensures input.Length > 0 ==>
      var words := ReadWords(f, input[..]);
      output[..] == input[..] <==>
      Foldable(f, input[..]) && (TooLong(words, insize) || NoOnes(Codes(words)[|Kept(words, insize)|..]))
  {
    var size := Compress(input, packed, insize, f);
    if input.Length > 0 {
      ValuesBack(f, input[..], insize, packed[..size]);
      Uncompress(packed, output, size, insize, f);
    }
  }
}
