/**
 libbcl/lz.c on its own buffers. The window is a parameter; the byte behind the input, which the
 search may look at, is another.
 */
module Lz {
  import opened Binary
  import opened Bytes
  import opened Histogram
  import opened LzCode
  import opened VarSize

  const NONE := 0xffff_ffff

  // ---------------------------------------------------------------- shared parts

  method CountSymbols(input: array<byte>) returns (histogram: array<nat>)
    ensures histogram[..] == CountsOf(input[..])
  {
    histogram := new nat[256](_ => 0);
    assert histogram[..] == CountsOf(input[..0]);
    for i := 0 to input.Length
      invariant histogram.Length == 256 && histogram[..] == CountsOf(input[..i])
    {
      assert input[..i + 1][..i] == input[..i] && input[..i + 1][i] == input[i];
      histogram[input[i]] := histogram[input[i]] + 1;
    }
    assert input[..input.Length] == input[..];
  }

  /** The least common byte. */
  method FindMarker(input: array<byte>) returns (marker: byte)
    ensures marker == Marker(input[..])
  {
    var histogram := CountSymbols(input);
    ghost var c := CountsOf(input[..]);
    marker := 0;
    for i := 1 to 256
      invariant marker == LeastCommon(c, i)
    {
      assert histogram[..][i] == c[i] && histogram[..][marker] == c[marker];
      if histogram[i] < histogram[marker] {
        marker := i;
      }
    }
  }

  /** `_LZ_StringCompare`. */
  method StringCompare(s: array<byte>, i: nat, j: nat, minlen: nat, maxlen: nat) returns (len: nat)
    requires j <= i && i + maxlen <= s.Length && (minlen <= maxlen ==> minlen <= Common(s[..], i, j, maxlen))
    ensures len == if minlen <= maxlen then Common(s[..], i, j, maxlen) else minlen
  {
    len := minlen;
    while len < maxlen && s[i + len] == s[j + len]
      invariant minlen <= len && (minlen <= maxlen ==> len <= Common(s[..], i, j, maxlen))
      invariant maxlen < minlen ==> len == minlen
    {
      if len == Common(s[..], i, j, maxlen) { CommonEnd(s[..], i, j, maxlen, len); }
      len := len + 1;
    }
    if minlen <= maxlen && len < Common(s[..], i, j, maxlen) { CommonByte(s[..], i, j, maxlen, len); }
  }

  /** The byte behind the input is whatever it is. */
  function Peek(s: Text, past: byte, i: nat): byte
    requires i <= |s|
  {
    if i < |s| then s[i] else past
  }

  /** A match that is longer than `best` passes the quick test. */
  lemma {:induction false} QuickTest(s: Text, past: byte, i: nat, o: nat, best: nat)
    requires 1 <= o <= i <= |s| && i + best <= |s| && MatchLength(s, i, o) > best
    ensures i < |s| && s[i] == s[i - o] && Peek(s, past, i + best) == Peek(s, past, i - o + best)
  {
    var max := if |s| - i < o then |s| - i else o;
    CommonByte(s, i, i - o, max, 0);
    CommonByte(s, i, i - o, max, best);
  }

  /** One candidate of `LZ_Compress`. */
  method TryOffset(input: array<byte>, past: byte, i: nat, offset: nat, m: Match) returns (r: Match)
    requires 1 <= offset <= i < input.Length && i + m.length <= input.Length
    ensures r == Better(input[..], i, m, offset)
  {
    r := m;
    var s := input[..];
    if input[i] == input[i - offset] && Peek(s, past, i + m.length) == Peek(s, past, i - offset + m.length) {
      var left := input.Length - i;
      var length := StringCompare(input, i, i - offset, 0, if left < offset then left else offset);
      if length > m.length {
        r := Match(length, offset);
      }
    } else if MatchLength(s, i, offset) > m.length {
      QuickTest(s, past, i, offset, m.length);
    }
  }

  method SearchOffsets(input: array<byte>, past: byte, i: nat, maxoffset: nat) returns (m: Match)
    requires 3 <= maxoffset <= i < input.Length && input.Length - i > 3
    ensures m == Best(input[..], i, maxoffset)
  {
    m := Match(3, 0);
    assert m == Best(input[..], i, 2) by { SmallOffsets(input[..], i, 2); }
    for offset := 3 to maxoffset + 1
      invariant m == Best(input[..], i, offset - 1)
    {
      m := TryOffset(input, past, i, offset, m);
    }
  }

  /** The search of `LZ_Compress`. */
  method SearchWindow(input: array<byte>, past: byte, i: nat, max: nat) returns (m: Match)
    requires i < input.Length && (i == 0 || input.Length - i > 3)
    ensures m == MatchAt(input[..], i, max)
  {
    var maxoffset := if i > max then max else i;
    if maxoffset < 3 {
      SmallOffsets(input[..], i, maxoffset);
      return Match(3, 0);
    }
    m := SearchOffsets(input, past, i, maxoffset);
  }

  // ---------------------------------------------------------------- the jump table

  /** The bytes at `i` and behind it, as one index. */
  function Pair(s: Text, i: nat): (p: nat)
    requires i + 1 < |s|
    ensures p < 65536
  {
    s[i] as int * 256 + s[i + 1]
  }

  /** The nearest position before `i` with the pair `p`. */
  function LastPair(s: Text, p: nat, i: nat): (j: nat)
    requires i < |s| < WORD
    ensures j != NONE ==> j < i && Pair(s, j) == p
  {
    if i == 0 then NONE else if Pair(s, i - 1) == p then i - 1 else LastPair(s, p, i - 1)
  }

  /** Between it and `i` there is no such pair. */
  lemma {:induction false} LastPairIsLast(s: Text, p: nat, i: nat, k: nat)
    requires i < |s| < WORD && k < i && (LastPair(s, p, i) != NONE ==> LastPair(s, p, i) < k)
    ensures Pair(s, k) != p
  {
    if k < i - 1 { LastPairIsLast(s, p, i - 1, k); }
  }

  /** The second part of `work` links each position to the last one with its pair. */
  ghost predicate JumpTable(s: Text, work: seq<nat>)
    requires |s| < WORD
  {
    && |work| >= |s| + 65536 && 0 < |s| && work[65536 + |s| - 1] == NONE
    && forall i :: 0 <= i < |s| - 1 ==> Jump(work, i) == LastPair(s, Pair(s, i), i)
  }

  function Jump(work: seq<nat>, i: nat): nat
    requires 65536 + i < |work|
  {
    work[65536 + i]
  }

  /** The table when the pairs before position `n` are in it. */
  ghost predicate TableUpTo(s: Text, work: seq<nat>, n: nat)
    requires |s| < WORD && n < |s|
  {
    && |work| >= |s| + 65536
    && (forall p :: 0 <= p < 65536 ==> work[p] == LastPair(s, p, n))
    && (forall j :: 0 <= j < n ==> Jump(work, j) == LastPair(s, Pair(s, j), j))
  }

  lemma {:induction false} TableEmpty(s: Text, work: seq<nat>)
    requires 0 < |s| < WORD && |work| >= |s| + 65536 && forall p :: 0 <= p < 65536 ==> work[p] == NONE
    ensures TableUpTo(s, work, 0)
  {
  }

  lemma {:induction false} TableNext(s: Text, work: seq<nat>, n: nat, p: nat)
    requires n + 1 < |s| < WORD && TableUpTo(s, work, n) && p == Pair(s, n)
    ensures TableUpTo(s, work[p := n][65536 + n := work[p]], n + 1)
  {
    var after := work[p := n][65536 + n := work[p]];
    forall q | 0 <= q < 65536 ensures after[q] == LastPair(s, q, n + 1) { PairEntered(s, work, n, p, q); }
    forall j | 0 <= j < n + 1 ensures Jump(after, j) == LastPair(s, Pair(s, j), j) { JumpEntered(s, work, n, p, j); }
  }

  lemma {:induction false} PairEntered(s: Text, work: seq<nat>, n: nat, p: nat, q: nat)
    requires n + 1 < |s| < WORD && TableUpTo(s, work, n) && p == Pair(s, n) && q < 65536
    ensures work[p := n][65536 + n := work[p]][q] == LastPair(s, q, n + 1)
  {
    LastPairNext(s, q, n, p);
    assert work[q] == LastPair(s, q, n);
  }

  lemma {:induction false} JumpEntered(s: Text, work: seq<nat>, n: nat, p: nat, j: nat)
    requires n + 1 < |s| < WORD && TableUpTo(s, work, n) && p == Pair(s, n) && j <= n
    ensures Jump(work[p := n][65536 + n := work[p]], j) == LastPair(s, Pair(s, j), j)
  {
    if j < n {
      assert Jump(work, j) == LastPair(s, Pair(s, j), j);
      OtherJump(work, p, n, n, work[p], j);
    } else {
      NewJump(work, p, n, work[p]);
      assert work[p] == LastPair(s, p, n);
    }
  }

  lemma NewJump(work: seq<nat>, p: nat, n: nat, w: nat)
    requires p < 65536 && 65536 + n < |work|
    ensures Jump(work[p := n][65536 + n := w], n) == w
  {
  }

  lemma OtherJump(work: seq<nat>, p: nat, v: nat, n: nat, w: nat, j: nat)
    requires p < 65536 && j < n && 65536 + n < |work|
    ensures Jump(work[p := v][65536 + n := w], j) == Jump(work, j)
  {
  }

  lemma {:induction false} LastPairNext(s: Text, q: nat, n: nat, p: nat)
    requires n + 1 < |s| < WORD && p == Pair(s, n)
    ensures LastPair(s, q, n + 1) == if q == p then n else LastPair(s, q, n)
  {
  }

  method BuildJumpTable(input: array<byte>, work: array<nat>)
    requires 0 < input.Length < WORD && work.Length >= input.Length + 65536
    modifies work
    ensures JumpTable(input[..], work[..])
  {
    for i := 0 to 65536
      invariant forall p :: 0 <= p < i ==> work[p] == NONE
    {
      work[i] := NONE;
    }
    TableEmpty(input[..], work[..]);
    EnterPairs(input, work);
    TableDone(input[..], work[..]);
    work[65536 + input.Length - 1] := NONE;
  }

  /** The loop over the positions. */
  method EnterPairs(input: array<byte>, work: array<nat>)
    requires 0 < input.Length < WORD && TableUpTo(input[..], work[..], 0)
    modifies work
    ensures TableUpTo(input[..], work[..], input.Length - 1)
  {
    ghost var s := input[..];
    for i := 0 to input.Length - 1
      invariant input[..] == s && TableUpTo(s, work[..], i)
    {
      var symbols: nat := input[i] as int * 256 + input[i + 1];
      ghost var before: seq<nat> := work[..];
      TableNext(s, before, i, symbols);
      var index := work[symbols];
      work[symbols] := i;
      work[65536 + i] := index;
      ghost var after: seq<nat> := before[symbols := i];
      assert work[..] == after[65536 + i := before[symbols]];
    }
  }

  lemma {:induction false} TableDone(s: Text, work: seq<nat>)
    requires 0 < |s| < WORD && TableUpTo(s, work, |s| - 1)
    ensures JumpTable(s, work[65536 + |s| - 1 := NONE])
  {
    forall j | 0 <= j < |s| - 1 ensures Jump(work[65536 + |s| - 1 := NONE], j) == LastPair(s, Pair(s, j), j) {
      assert Jump(work, j) == LastPair(s, Pair(s, j), j);
    }
  }

  lemma {:induction false} LongMatch(s: Text, i: nat, o: nat)
    requires 1 <= o <= i && i + 1 < |s| && MatchLength(s, i, o) > 1
    ensures Pair(s, i - o) == Pair(s, i)
  {
    var max := if |s| - i < o then |s| - i else o;
    CommonByte(s, i, i - o, max, 0);
    CommonByte(s, i, i - o, max, 1);
  }

  /** Positions with different pairs do not match. */
  lemma {:induction false} OtherPair(s: Text, i: nat, o: nat)
    requires 1 <= o <= i && i + 1 < |s| && Pair(s, i - o) != Pair(s, i)
    ensures MatchLength(s, i, o) <= 1
  {
    if MatchLength(s, i, o) > 1 { LongMatch(s, i, o); }
  }

  /** The positions that the chain leaves out do not matter. */
  lemma {:induction false} ChainSkips(s: Text, i: nat, j: nat, k: nat)
    requires j <= i && i + 1 < |s| < WORD && i - j <= k <= i
    requires LastPair(s, Pair(s, i), j) != NONE ==> k < i - LastPair(s, Pair(s, i), j)
    ensures Best(s, i, k) == Best(s, i, i - j)
  {
    forall o | i - j < o <= k ensures MatchLength(s, i, o) <= Best(s, i, i - j).length {
      LastPairIsLast(s, Pair(s, i), j, i - o);
      OtherPair(s, i, o);
    }
    BestSkips(s, i, i - j, k);
  }

  lemma {:induction false} SamePair(s: Text, i: nat, o: nat)
    requires 2 <= o <= i && i + 1 < |s| && Pair(s, i - o) == Pair(s, i)
    ensures MatchLength(s, i, o) >= 2
  {
    var max := if |s| - i < o then |s| - i else o;
    assert s[i] == s[i - o] && s[i + 1] == s[i - o + 1];
    assert Common(s, i, i - o, max) == 1 + Common(s, i + 1, i - o + 1, max - 1);
  }

  /** One candidate of `LZ_CompressFast`. */
  method TryPair(input: array<byte>, past: byte, i: nat, index: nat, m: Match) returns (r: Match)
    requires index < i && i + 1 < input.Length && 3 <= m.length && i + m.length <= input.Length
    requires Pair(input[..], index) == Pair(input[..], i)
    ensures r == Better(input[..], i, m, i - index)
  {
    r := m;
    var s := input[..];
    var offset := i - index;
    if Peek(s, past, index + m.length) == Peek(s, past, i + m.length) {
      var left := input.Length - i;
      if offset >= 2 { SamePair(s, i, offset); }
      var length := StringCompare(input, i, index, 2, if left < offset then left else offset);
      if length > m.length {
        r := Match(length, offset);
      }
    } else if MatchLength(s, i, offset) > m.length {
      QuickTest(s, past, i, offset, m.length);
    }
  }

  /** The chain has been followed down to `j`, and continues at `index`. */
  ghost predicate Followed(s: Text, i: nat, j: nat, index: nat, m: Match) {
    j <= i && i + 1 < |s| < WORD && index == LastPair(s, Pair(s, i), j) && m == Best(s, i, i - j)
  }

  lemma {:induction false} FollowedNext(s: Text, i: nat, j: nat, index: nat, m: Match)
    requires Followed(s, i, j, index, m) && index != NONE
    ensures index < j <= i && Pair(s, index) == Pair(s, i)
    ensures Followed(s, i, index, LastPair(s, Pair(s, index), index), Better(s, i, m, i - index))
  {
    ChainSkips(s, i, j, i - index - 1);
  }

  lemma {:induction false} FollowedAll(s: Text, i: nat, j: nat, index: nat, m: Match, max: nat)
    requires Followed(s, i, j, index, m) && i - j <= max && (index == NONE || i - index > max)
    ensures m == MatchAt(s, i, max)
  {
    ChainSkips(s, i, j, Window(i, max));
  }

  method FollowChain(input: array<byte>, past: byte, work: array<nat>, i: nat, max: nat) returns (m: Match)
    requires i + 1 < input.Length < WORD && (i == 0 || input.Length - i > 3) && max >= 1
    requires JumpTable(input[..], work[..])
    ensures m == MatchAt(input[..], i, max - 1)
  {
    ghost var s := input[..];
    ghost var j: nat := i;
    m := Match(3, 0);
    var index := JumpFrom(work, i, s);
    while index != NONE && i - index < max
      invariant Followed(s, i, j, index, m) && i - j <= max - 1
      decreases j
    {
      index, m, j := FollowOne(input, past, work, i, index, m, s, j);
    }
    FollowedAll(s, i, j, index, m, max - 1);
  }

  /** One turn of the loop: the pair at `index` is tried, and the link there is followed. */
  method FollowOne(input: array<byte>, past: byte, work: array<nat>, i: nat, index: nat, m: Match, ghost s: Text,
                   ghost j: nat)
    returns (index': nat, m': Match, ghost j': nat)
    requires s == input[..] && |s| < WORD && JumpTable(s, work[..]) && (i == 0 || |s| - i > 3)
    requires Followed(s, i, j, index, m) && index != NONE
    ensures j' == index < j && Followed(s, i, j', index', m')
  {
    FollowedNext(s, i, j, index, m);
    m' := TryPair(input, past, i, index, m);
    j' := index;
    index' := JumpFrom(work, index, s);
  }

  /** The link of a pair. */
  method JumpFrom(work: array<nat>, i: nat, ghost s: Text) returns (j: nat)
    requires i + 1 < |s| < WORD && JumpTable(s, work[..])
    ensures j == LastPair(s, Pair(s, i), i)
  {
    assert Jump(work[..], i) == LastPair(s, Pair(s, i), i);
    j := work[65536 + i];
  }

  /** The search of `LZ_CompressFast`; a text of one byte has no pair. */
  method SearchChain(input: array<byte>, past: byte, work: array<nat>, i: nat, max: nat) returns (m: Match)
    requires i < input.Length < WORD && (i == 0 || input.Length - i > 3) && max >= 1
    requires JumpTable(input[..], work[..])
    ensures m == MatchAt(input[..], i, max - 1)
  {
    if i + 1 == input.Length {
      return Match(3, 0);
    }
    m := FollowChain(input, past, work, i, max);
  }

  // ---------------------------------------------------------------- compression

  method EmitLiteral(b: byte, output: array<byte>, at: nat, marker: byte) returns (end: nat)
    requires at + |Literal(marker, b)| <= output.Length
    modifies output
    ensures end == at + |Literal(marker, b)| && output[..end] == old(output[..at]) + Literal(marker, b)
  {
    output[at] := b;
    end := at + 1;
    if b == marker {
      output[end] := 0;
      end := end + 1;
    }
  }

  method EmitReference(m: Match, output: array<byte>, at: nat, marker: byte) returns (end: nat)
    requires m.length < WORD && m.offset < WORD && at + |Reference(marker, m)| <= output.Length
    modifies output
    ensures end == at + |Reference(marker, m)| && output[..end] == old(output[..at]) + Reference(marker, m)
  {
    output[at] := marker;
    assert output[..at + 1] == old(output[..at]) + [marker];
    var n := WriteVarSize(m.length, output, at + 1);
    var k := WriteVarSize(m.offset, output, at + 1 + n);
    end := at + 1 + n + k;
  }

  /** One step of either compressor: a reference if the match pays, a byte otherwise. */
  method Emit(input: array<byte>, i: nat, m: Match, output: array<byte>, at: nat, marker: byte, ghost max: nat)
    returns (next: nat, end: nat)
    requires input != output && i < input.Length < WORD && m == MatchAt(input[..], i, max)
    requires at + |Piece(input[..], marker, max, i)| <= output.Length
    modifies output
    ensures next == Next(input[..], max, i) && end == at + |Piece(input[..], marker, max, i)|
    ensures output[..end] == old(output[..at]) + Piece(input[..], marker, max, i)
  {
    if Pays(m) {
      end := EmitReference(m, output, at, marker);
      next := i + m.length;
    } else {
      end := EmitLiteral(input[i], output, at, marker);
      next := i + 1;
    }
  }

  /** The last three bytes never start a match. */
  lemma {:induction false} TailIsLiteral(s: Text, marker: byte, max: nat, i: nat)
    requires i < |s| && |s| - i <= 3
    ensures Piece(s, marker, max, i) == Literal(marker, s[i]) && Next(s, max, i) == i + 1
  {
    BestSkips(s, i, 0, Window(i, max));
  }

  /** What is written and what is to come. */
  ghost predicate Progress(s: Text, marker: byte, max: nat, i: nat, done: seq<byte>, whole: seq<byte>) {
    i <= |s| && done + Packed(s, marker, max, i) == whole
  }

  lemma {:induction false} ProgressStep(s: Text, marker: byte, max: nat, i: nat, done: seq<byte>, whole: seq<byte>)
    requires i < |s| && Progress(s, marker, max, i, done, whole)
    ensures |done| + |Piece(s, marker, max, i)| <= |whole|
    ensures Progress(s, marker, max, Next(s, max, i), done + Piece(s, marker, max, i), whole)
  {
    var piece, rest := Piece(s, marker, max, i), Packed(s, marker, max, Next(s, max, i));
    assert done + (piece + rest) == (done + piece) + rest;
  }

  /** The loop that dumps the remaining bytes. */
  method EmitTail(input: array<byte>, start: nat, output: array<byte>, at: nat, marker: byte, ghost max: nat,
                  ghost whole: seq<byte>)
    returns (end: nat)
    requires input != output && start <= input.Length < WORD && input.Length - start <= 3
    requires at <= output.Length && |whole| <= output.Length
    requires Progress(input[..], marker, max, start, output[..at], whole)
    modifies output
    ensures end <= output.Length && output[..end] == whole
  {
    end := at;
    for i := start to input.Length
      invariant end <= output.Length && Progress(input[..], marker, max, i, output[..end], whole)
    {
      TailIsLiteral(input[..], marker, max, i);
      ProgressStep(input[..], marker, max, i, output[..end], whole);
      end := EmitLiteral(input[i], output, end, marker);
    }
    assert output[..end] + [] == output[..end];
  }

  /** `LZ_Compress` with a window of `max`. */
  method Compress(input: array<byte>, output: array<byte>, past: byte, max: nat) returns (size: nat)
    requires input != output && input.Length < WORD && output.Length >= input.Length + input.Length / 256 + 1
    modifies output
    ensures input.Length == 0 ==> size == 0 && output[..] == old(output[..])
    ensures input.Length > 0 ==> size <= output.Length && output[..size] == Compressed(input[..], max)
  {
    if input.Length < 1 {
      return 0;
    }
    ghost var s := input[..];
    ghost var whole := Compressed(s, max);
    CompressedSize(s, max);
    var marker := FindMarker(input);
    output[0] := marker;
    var i: nat, at: nat := 0, 1;
    assert output[..at] == [marker];
    while i == 0 || input.Length - i > 3
      invariant i <= |s| && at <= output.Length && Progress(s, marker, max, i, output[..at], whole)
      decreases |s| - i
    {
      ProgressStep(s, marker, max, i, output[..at], whole);
      var m := SearchWindow(input, past, i, max);
      i, at := Emit(input, i, m, output, at, marker, max);
    }
    size := EmitTail(input, i, output, at, marker, max, whole);
  }

  /** `LZ_CompressFast` with a window of `max` writes what `LZ_Compress` writes with a window one smaller. */
  method CompressFast(input: array<byte>, output: array<byte>, work: array<nat>, past: byte, max: nat)
    returns (size: nat)
    requires input != output && input.Length < WORD && output.Length >= input.Length + input.Length / 256 + 1
    requires work.Length >= input.Length + 65536 && max >= 1
    modifies output, work
    ensures input.Length == 0 ==> size == 0 && output[..] == old(output[..])
    ensures input.Length > 0 ==> size <= output.Length && output[..size] == Compressed(input[..], max - 1)
  {
    if input.Length < 1 {
      return 0;
    }
    ghost var s := input[..];
    ghost var whole := Compressed(s, max - 1);
    CompressedSize(s, max - 1);
    BuildJumpTable(input, work);
    var marker := FindMarker(input);
    output[0] := marker;
    var i: nat, at: nat := 0, 1;
    assert output[..at] == [marker];
    while i == 0 || input.Length - i > 3
      invariant i <= |s| && at <= output.Length && Progress(s, marker, max - 1, i, output[..at], whole)
      invariant JumpTable(s, work[..])
      decreases |s| - i
    {
      ProgressStep(s, marker, max - 1, i, output[..at], whole);
      var m := SearchChain(input, past, work, i, max);
      i, at := Emit(input, i, m, output, at, marker, max - 1);
    }
    size := EmitTail(input, i, output, at, marker, max - 1, whole);
  }
}
