/**
 The streams of libbcl/lz.c. A stream is determined by the text, the marker and the window: at each
 position the longest earlier match in the window is taken, the nearest of the longest, if it pays.
 */
module LzCode {
  import opened BackCopy
  import opened Binary
  import opened Bytes
  import opened Histogram
  import opened Options
  import opened VarSize

  type Text = seq<byte>

  // ---------------------------------------------------------------- matches

  /** The length of the match between `i` and `j`, up to `max`. */
  function Common(s: Text, i: nat, j: nat, max: nat): (n: nat)
    requires j <= i && i + max <= |s|
    ensures n <= max
    decreases max
  {
    if max == 0 || s[i] != s[j] then 0 else 1 + Common(s, i + 1, j + 1, max - 1)
  }

  /** Up to there the bytes agree. */
  lemma {:induction false} CommonByte(s: Text, i: nat, j: nat, max: nat, k: nat)
    requires j <= i && i + max <= |s| && k < Common(s, i, j, max)
    ensures s[i + k] == s[j + k]
    decreases max
  {
    if k > 0 { CommonByte(s, i + 1, j + 1, max - 1, k - 1); }
  }

  /** There they differ. */
  lemma {:induction false} CommonEnd(s: Text, i: nat, j: nat, max: nat, n: nat)
    requires j <= i && i + max <= |s| && n == Common(s, i, j, max) < max
    ensures s[i + n] != s[j + n]
    decreases max
  {
    if n > 0 { CommonEnd(s, i + 1, j + 1, max - 1, n - 1); }
  }

  /** A match never reaches into itself, nor past the end. */
  function MatchLength(s: Text, i: nat, offset: nat): (n: nat)
    requires i <= |s| && offset <= i
    ensures n <= offset && n <= |s| - i
  {
    Common(s, i, i - offset, if |s| - i < offset then |s| - i else offset)
  }

  /** It reaches as far as the bytes agree. */
  lemma {:induction false} MatchLengthMeaning(s: Text, i: nat, offset: nat, k: nat)
    requires i <= |s| && offset <= i
    ensures var n := MatchLength(s, i, offset);
      && (k < n ==> s[i + k] == s[i - offset + k])
      && (n == offset || n == |s| - i || s[i + n] != s[i - offset + n])
  {
    var n, max := MatchLength(s, i, offset), if |s| - i < offset then |s| - i else offset;
    if k < n { CommonByte(s, i, i - offset, max, k); }
    if n < max { CommonEnd(s, i, i - offset, max, n); }
  }

  datatype Match = Match(length: nat, offset: nat)

  /** The better of a match and the one at `offset`. */
  function Better(s: Text, i: nat, m: Match, offset: nat): (r: Match)
    requires offset <= i <= |s|
  {
    if MatchLength(s, i, offset) > m.length then Match(MatchLength(s, i, offset), offset) else m
  }

  /** The longest match of more than three bytes among the offsets up to `k`, and the nearest of these. */
  function Best(s: Text, i: nat, k: nat): (m: Match)
    requires k <= i <= |s|
    ensures 3 <= m.length && m.offset <= k && (m.offset == 0 ==> m.length == 3)
    ensures m.offset > 0 ==> m.length == MatchLength(s, i, m.offset) && m.length > 3
  {
    if k == 0 then Match(3, 0) else Better(s, i, Best(s, i, k - 1), k)
  }

  /** No offset up to `k` has a longer match, and no smaller offset has one as long. */
  lemma {:induction false} BestMeaning(s: Text, i: nat, k: nat, o: nat)
    requires k <= i <= |s| && 1 <= o <= k
    ensures var m := Best(s, i, k);
      MatchLength(s, i, o) <= m.length && (o < m.offset ==> MatchLength(s, i, o) < m.length)
  {
    if o < k { BestMeaning(s, i, k - 1, o); }
  }

  /** Offsets that cannot do better may be left out. */
  lemma {:induction false} BestSkips(s: Text, i: nat, j: nat, k: nat)
    requires j <= k <= i <= |s|
    requires forall o :: j < o <= k ==> MatchLength(s, i, o) <= Best(s, i, j).length
    ensures Best(s, i, k) == Best(s, i, j)
  {
    if j < k {
      BestSkips(s, i, j, k - 1);
      assert MatchLength(s, i, k) <= Best(s, i, j).length;
    }
  }

  /** Offsets of three or less never do. */
  lemma {:induction false} SmallOffsets(s: Text, i: nat, k: nat)
    requires k <= i <= |s| && k <= 3
    ensures Best(s, i, k) == Match(3, 0)
  {
    if k > 0 { SmallOffsets(s, i, k - 1); }
  }

  // ---------------------------------------------------------------- streams

  /** A match is worth a reference. */
  predicate Pays(m: Match) {
    || m.length >= 8
    || (m.length == 4 && m.offset <= 0x7f)
    || (m.length == 5 && m.offset <= 0x3fff)
    || (m.length == 6 && m.offset <= 0x1f_ffff)
    || (m.length == 7 && m.offset <= 0xfff_ffff)
  }

  /** A reference is worth it exactly if it takes fewer bytes than it stands for. */
  lemma {:induction false} PaysExactly(marker: byte, m: Match)
    requires m.length < WORD && m.offset < WORD
    ensures Pays(m) <==> |Reference(marker, m)| < m.length
  {
    CodeLength(m.length);
    CodeLength(m.offset);
  }

  /** The marker, the length and the offset, in that order. */
  lemma {:induction false} ShortReference(marker: byte, m: Match)
    requires m.length < 128 && m.offset < 128
    ensures Reference(marker, m) == [marker, m.length, m.offset]
  {
  }

  function Window(i: nat, max: nat): nat {
    if i < max then i else max
  }

  function Literal(marker: byte, b: byte): seq<byte> {
    if b == marker then [marker, 0] else [b]
  }

  function Reference(marker: byte, m: Match): seq<byte> {
    [marker] + VarCode(m.length) + VarCode(m.offset)
  }

  /** The match at `i` within a window of `max`. */
  function MatchAt(s: Text, i: nat, max: nat): Match
    requires i <= |s|
  {
    Best(s, i, Window(i, max))
  }

  /**
   What is found within a window of `max`: the longest match of more than three bytes, the nearest of
   these, or none.
   */
  lemma {:induction false} MatchAtMeaning(s: Text, i: nat, max: nat, o: nat)
    requires i <= |s| && 1 <= o <= i && o <= max
    ensures var m := MatchAt(s, i, max);
      && 3 <= m.length && m.offset <= i && m.offset <= max && MatchLength(s, i, o) <= m.length
      && (if m.offset == 0 then m.length == 3 else m.length > 3 && m.length == MatchLength(s, i, m.offset))
      && (o < m.offset ==> MatchLength(s, i, o) < m.length)
  {
    BestMeaning(s, i, Window(i, max), o);
  }

  /** What position `i` contributes. */
  function Piece(s: Text, marker: byte, max: nat, i: nat): seq<byte>
    requires i < |s|
  {
    var m := MatchAt(s, i, max);
    if Pays(m) then Reference(marker, m) else Literal(marker, s[i])
  }

  /** The position after it. */
  function Next(s: Text, max: nat, i: nat): (n: nat)
    requires i < |s|
    ensures i < n <= |s|
  {
    var m := MatchAt(s, i, max);
    if Pays(m) then i + m.length else i + 1
  }

  /** The stream from position `i` on. */
  function Packed(s: Text, marker: byte, max: nat, i: nat): seq<byte>
    requires i <= |s|
    decreases |s| - i
  {
    if i == |s| then [] else Piece(s, marker, max, i) + Packed(s, marker, max, Next(s, max, i))
  }

  /** Texts without a marker in them that are too short for a match are stored as they are. */
  lemma {:induction false} ShortText(s: Text, marker: byte, max: nat, i: nat)
    requires i <= |s| < 8 && marker !in s
    ensures Packed(s, marker, max, i) == s[i..]
    decreases |s| - i
  {
    if i < |s| {
      NoRoom(s, i, Window(i, max));
      ShortText(s, marker, max, i + 1);
      assert s[i..] == [s[i]] + s[i + 1..];
    }
  }

  lemma {:induction false} NoRoom(s: Text, i: nat, k: nat)
    requires k <= i <= |s| < 8
    ensures Best(s, i, k) == Match(3, 0)
  {
    if k > 0 { NoRoom(s, i, k - 1); }
  }

  /** A marker in the text takes two bytes, the second of them zero. */
  lemma {:induction false} MarkerText(marker: byte, max: nat)
    ensures Packed([marker], marker, max, 0) == [marker, 0]
  {
    assert Packed([marker], marker, max, 1) == [];
  }

  /** Four bytes and the same again: the marker, the length and the distance. */
  lemma {:induction false} TwiceFour(s: Text, marker: byte, max: nat)
    requires |s| == 8 && s[..4] == s[4..] && marker !in s && max >= 4
    ensures Packed(s, marker, max, 0) == s[..4] + [marker, 4, 4]
  {
    SecondFour(s, marker, max);
    FirstFour(s, marker, max, 0);
  }

  lemma {:induction false} FirstFour(s: Text, marker: byte, max: nat, i: nat)
    requires |s| == 8 && i <= 4 && marker !in s
    ensures Packed(s, marker, max, i) == s[i..4] + Packed(s, marker, max, 4)
    decreases 4 - i
  {
    if i < 4 {
      FirstFour(s, marker, max, i + 1);
      assert Packed(s, marker, max, i) == [s[i]] + Packed(s, marker, max, i + 1) by { OneLiteral(s, marker, max, i); }
      Prepended(s, i, 4, Packed(s, marker, max, 4));
    }
  }

  lemma {:induction false} OneLiteral(s: Text, marker: byte, max: nat, i: nat)
    requires i < 4 && i < |s| && marker !in s
    ensures Packed(s, marker, max, i) == [s[i]] + Packed(s, marker, max, i + 1)
  {
    SmallOffsets(s, i, Window(i, max));
  }

  lemma Prepended(s: Text, i: nat, j: nat, rest: seq<byte>)
    requires i < j <= |s|
    ensures [s[i]] + (s[i + 1..j] + rest) == s[i..j] + rest
  {
  }

  lemma {:induction false} SecondFour(s: Text, marker: byte, max: nat)
    requires |s| == 8 && s[..4] == s[4..] && max >= 4
    ensures Packed(s, marker, max, 4) == [marker, 4, 4]
  {
    forall k | 0 <= k < 4 ensures s[4 + k] == s[k] { assert s[4..][k] == s[..4][k]; }
    MatchLengthMeaning(s, 4, 4, 0);
    SmallOffsets(s, 4, 3);
    assert MatchAt(s, 4, max) == Match(4, 4);
    ShortReference(marker, Match(4, 4));
    assert Packed(s, marker, max, 8) == [];
  }

  // ---------------------------------------------------------------- expansion

  /** The numbers of a reference, and the bytes they take. */
  datatype Ref = Ref(length: nat, offset: nat, size: nat)

  function ParseRef(s: seq<byte>): (r: Option<Ref>)
    ensures r.Some? ==> r.value.size <= |s|
  {
    var l := ReadVar(s, 0);
    if l.None? then None
    else
      var o := ReadVar(s[l.value.1..], 0);
      if o.None? then None else Some(Ref(l.value.0, o.value.0, l.value.1 + o.value.1))
  }

  /** The output after a reference; `None` if it reaches back too far, or nowhere. */
  function Grown(done: Text, r: Ref): (g: Option<Text>)
    ensures g.Some? ==> |g.value| == |done| + r.length
  {
    if r.length == 0 then Some(done)
    else if 1 <= r.offset <= |done| then Some(Copied(done, r.offset, r.length))
    else None
  }

  /**
   What `LZ_Uncompress` appends to `done`; `None` if it would read past the stream, or before the
   start of the output.
   */
  function Expand(marker: byte, s: seq<byte>, done: Text): (r: Option<Text>)
    decreases |s|
  {
    if s == [] then Some(done)
    else if s[0] != marker then Expand(marker, s[1..], done + [s[0]])
    else if |s| < 2 then None
    else if s[1] == 0 then Expand(marker, s[2..], done + [marker])
    else
      var r := ParseRef(s[1..]);
      if r.None? then None
      else
        var grown := Grown(done, r.value);
        if grown.None? then None else Expand(marker, s[1 + r.value.size..], grown.value)
  }

  /** The loop body runs at least once. */
  function Uncompressed(s: seq<byte>): Option<Text> {
    if |s| < 2 then None else Expand(s[0], s[1..], [])
  }

  // ---------------------------------------------------------------- the round trip

  /** A copy that matches the text continues it. */
  lemma {:induction false} CopyMatches(s: Text, i: nat, offset: nat, n: nat)
    requires 1 <= offset <= i && i + n <= |s| && n <= MatchLength(s, i, offset)
    ensures Copied(s[..i], offset, n) == s[..i + n]
  {
    if n > 0 {
      CopyMatches(s, i, offset, n - 1);
      var max := if |s| - i < offset then |s| - i else offset;
      CommonByte(s, i, i - offset, max, n - 1);
      assert s[..i + n] == s[..i + (n - 1)] + [s[i + (n - 1)]];
    }
  }

  lemma {:induction false} ExpandLiteral(marker: byte, b: byte, rest: seq<byte>, done: Text)
    ensures Expand(marker, Literal(marker, b) + rest, done) == Expand(marker, rest, done + [b])
  {
    var s := Literal(marker, b) + rest;
    assert s[|Literal(marker, b)|..] == rest;
  }

  lemma {:induction false} ParseWritten(m: Match, rest: seq<byte>)
    requires m.length < WORD && m.offset < WORD
    ensures var l, o := VarCode(m.length), VarCode(m.offset);
      ParseRef(l + o + rest) == Some(Ref(m.length, m.offset, |l| + |o|))
  {
    var l, o := VarCode(m.length), VarCode(m.offset);
    var s := l + o + rest;
    assert s == l + (o + rest) && s[|l|..] == o + rest;
    ReadWritten(m.length, o + rest);
    ReadWritten(m.offset, rest);
  }

  lemma {:induction false} ExpandReference(marker: byte, m: Match, rest: seq<byte>, done: Text)
    requires 1 <= m.length < WORD && 1 <= m.offset <= |done| && m.offset < WORD
    ensures Expand(marker, Reference(marker, m) + rest, done) == Expand(marker, rest, Copied(done, m.offset, m.length))
  {
    var l, o := VarCode(m.length), VarCode(m.offset);
    var s := Reference(marker, m) + rest;
    assert s[1..] == l + o + rest && s[1 + (|l| + |o|)..] == rest;
    ParseWritten(m, rest);
    NeverStartsWithZero(m.length);
    assert s[1] == l[0];
  }

  lemma {:induction false} ExpandPiece(s: Text, marker: byte, max: nat, i: nat, rest: seq<byte>)
    requires i < |s| < WORD
    ensures Expand(marker, Piece(s, marker, max, i) + rest, s[..i]) == Expand(marker, rest, s[..Next(s, max, i)])
  {
    var m := MatchAt(s, i, max);
    if Pays(m) {
      ExpandReference(marker, m, rest, s[..i]);
      CopyMatches(s, i, m.offset, m.length);
    } else {
      ExpandLiteral(marker, s[i], rest, s[..i]);
      OneByteMore(s, i);
    }
  }

  lemma OneByteMore(s: Text, i: nat)
    requires i < |s|
    ensures s[..i] + [s[i]] == s[..i + 1]
  {
  }

  /** The stream from any position expands to the text, whatever the marker and the window. */
  lemma {:induction false} ExpandPacked(s: Text, marker: byte, max: nat, i: nat)
    requires i <= |s| < WORD
    ensures Expand(marker, Packed(s, marker, max, i), s[..i]) == Some(s)
    decreases |s| - i
  {
    if i == |s| {
      assert s[..i] == s;
    } else {
      var n := Next(s, max, i);
      var rest := Packed(s, marker, max, n);
      assert Expand(marker, rest, s[..n]) == Some(s) by { ExpandPacked(s, marker, max, n); }
      ExpandPiece(s, marker, max, i, rest);
    }
  }

  // ---------------------------------------------------------------- the marker

  /** The first of the least common symbols below `k`. */
  function LeastCommon(c: Counts, k: nat): (m: byte)
    requires 1 <= k <= 256
    ensures m < k && forall s :: 0 <= s < k ==> c[m] <= c[s]
  {
    if k == 1 then 0
    else
      var m := LeastCommon(c, k - 1);
      if c[k - 1] < c[m] then k - 1 else m
  }

  function Marker(s: Text): byte {
    LeastCommon(CountsOf(s), 256)
  }

  lemma {:induction false} SumAtLeast(c: Counts, x: nat, k: nat)
    requires k <= 256 && forall s :: 0 <= s < 256 ==> x <= c[s]
    ensures x * k <= Sum(c, k)
  {
    if k > 0 { SumAtLeast(c, x, k - 1); }
  }

  /** The marker is rare: one byte in 256, or fewer. */
  lemma {:induction false} MarkerIsRare(s: Text)
    ensures CountsOf(s)[Marker(s)] <= |s| / 256
  {
    SumAtLeast(CountsOf(s), CountsOf(s)[Marker(s)], 256);
    SumOfText(s);
  }

  // ---------------------------------------------------------------- the size

  lemma {:induction false} CountsGrow(s: Text, i: nat, n: nat, b: byte)
    requires i <= n <= |s|
    ensures CountsOf(s[..i])[b] <= CountsOf(s[..n])[b]
    decreases n
  {
    if i < n {
      CountsGrow(s, i, n - 1, b);
      assert s[..n][..n - 1] == s[..n - 1];
    }
  }

  lemma {:induction false} PieceSize(s: Text, marker: byte, max: nat, i: nat)
    requires i < |s| < WORD
    ensures var n := Next(s, max, i);
      |Piece(s, marker, max, i)| <= n - i + CountsOf(s[..n])[marker] - CountsOf(s[..i])[marker]
  {
    var n := Next(s, max, i);
    CountsGrow(s, i, n, marker);
    if Pays(MatchAt(s, i, max)) {
      PaysExactly(marker, MatchAt(s, i, max));
    } else {
      assert s[..i + 1][..i] == s[..i];
    }
  }

  lemma {:induction false} PackedSize(s: Text, marker: byte, max: nat, i: nat)
    requires i <= |s| < WORD
    ensures |Packed(s, marker, max, i)| <= |s| - i + CountsOf(s)[marker] - CountsOf(s[..i])[marker]
    decreases |s| - i
  {
    if i == |s| {
      assert s[..i] == s;
    } else {
      PieceSize(s, marker, max, i);
      PackedSize(s, marker, max, Next(s, max, i));
    }
  }

  /** The stream of a text. */
  function Compressed(s: Text, max: nat): seq<byte> {
    [Marker(s)] + Packed(s, Marker(s), max, 0)
  }

  /** The stream is at most a 256th longer than the text, and a byte. */
  lemma {:induction false} CompressedSize(s: Text, max: nat)
    requires |s| < WORD
    ensures |Compressed(s, max)| <= |s| + |s| / 256 + 1
  {
    PackedSize(s, Marker(s), max, 0);
    MarkerIsRare(s);
  }

  /** Every text comes back. */
  lemma {:induction false} RoundTrip(s: Text, max: nat)
    requires 0 < |s| < WORD
    ensures Uncompressed(Compressed(s, max)) == Some(s)
  {
    var stream := Compressed(s, max);
    assert stream[1..] == Packed(s, Marker(s), max, 0) && s[..0] == [];
    ExpandPacked(s, Marker(s), max, 0);
    assert |Piece(s, Marker(s), max, 0)| >= 1;
  }
}
