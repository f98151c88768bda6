/** The Rice coder of libbcl/rice.c. */
module Rice {
  import opened Binary
  import opened BitStrings
  import Multiples
  import opened RiceBlock
  import opened RiceCode
  import opened RiceStream
  import opened Spelling

  // ---------------------------------------------------------------- words

  method PutOnes(n: nat, stream: Stream, ghost w: seq<bool>)
    requires stream.Wrote(w)
    modifies stream`bitPos, stream.buf
    ensures stream.Wrote(w + Repeat(n))
  {
    assert w + Repeat(0) == w;
    for j := 0 to n
      invariant stream.Wrote(w + Repeat(j))
    {
      stream.WriteBit(true, w + Repeat(j));
      assert w + Repeat(j) + [true] == w + Repeat(j + 1);
    }
  }

  /** The low `n` bits of a word, the highest first. */
  method PutLow(x: nat, n: nat, stream: Stream, ghost w: seq<bool>)
    requires stream.Wrote(w)
    modifies stream`bitPos, stream.buf
    ensures stream.Wrote(w + ToBits(x, n))
  {
    ghost var code := ToBits(x, n);
    assert w + code[..0] == w;
    for j := 0 to n
      invariant stream.Wrote(w + code[..j])
    {
      BitOfBits(x, n - 1 - j, n);
      stream.WriteBit(Bit(x, n - 1 - j), w + code[..j]);
      assert w + code[..j] + [code[j]] == w + code[..j + 1];
    }
    assert code[..n] == code;
  }

  /** An excess over the threshold: its length in unary, and its bits below the highest. */
  method PutExcess(e: nat, stream: Stream, ghost w: seq<bool>)
    requires 1 <= e < WORD && stream.Wrote(w)
    modifies stream`bitPos, stream.buf
    ensures stream.Wrote(w + (Repeat(NumBits(e)) + [false] + ToBits(e, NumBits(e) - 1)))
  {
    var o := CountBits(e);
    ghost var ones, low := Repeat(o), ToBits(e, o - 1);
    PutOnes(o, stream, w);
    stream.WriteBit(false, w + ones);
    PutLow(e, o - 1, stream, w + ones + [false]);
    RegroupThree(w, ones, [false], low);
  }

  lemma RegroupThree(w: seq<bool>, a: seq<bool>, b: seq<bool>, c: seq<bool>)
    ensures w + a + b + c == w + (a + b + c)
  {
  }

  lemma {:induction false} UnaryParts(w: seq<bool>, q: nat)
    requires q > THRESHOLD
    ensures var e := q - THRESHOLD;
      w + Repeat(THRESHOLD) + (Repeat(NumBits(e)) + [false] + ToBits(e, NumBits(e) - 1)) == w + Unary(q)
  {
    var e := q - THRESHOLD;
    UnaryIsEscape(q, e);
    RegroupFour(w, Repeat(THRESHOLD), Repeat(NumBits(e)), [false], ToBits(e, NumBits(e) - 1));
  }

  lemma RegroupFour(w: seq<bool>, a: seq<bool>, b: seq<bool>, c: seq<bool>, d: seq<bool>)
    ensures w + a + (b + c + d) == w + (a + b + c + d)
  {
  }

  method PutUnary(q: nat, stream: Stream, ghost w: seq<bool>)
    requires q < WORD && stream.Wrote(w)
    modifies stream`bitPos, stream.buf
    ensures stream.Wrote(w + Unary(q))
  {
    if q > THRESHOLD {
      UnaryParts(w, q);
      PutOnes(THRESHOLD, stream, w);
      PutExcess(q - THRESHOLD, stream, w + Repeat(THRESHOLD));
    } else {
      ghost var ones := Repeat(q);
      PutOnes(q, stream, w);
      stream.WriteBit(false, w + ones);
      Regroup(w, ones, [false]);
    }
  }

  lemma {:induction false} ShiftRightAtMost(x: nat, k: nat)
    ensures ShiftRight(x, k) <= x
  {
    if k > 0 { ShiftRightAtMost(x / 2, k - 1); }
  }

  /** `_Rice_EncodeWord`; a shift by 32 is not defined. */
  method PutWord(x: nat, k: nat, stream: Stream, ghost w: seq<bool>)
    requires x < WORD && k < 32 && stream.Wrote(w)
    modifies stream`bitPos, stream.buf
    ensures stream.Wrote(w + EncodeWord(x, k))
  {
    ShiftRightAtMost(x, k);
    PutUnary(ShiftRight(x, k), stream, w);
    PutLow(x, k, stream, w + Unary(ShiftRight(x, k)));
    assert w + Unary(ShiftRight(x, k)) + ToBits(x, k) == w + EncodeWord(x, k);
  }

  method TakeOnes(stream: Stream) returns (n: nat)
    requires stream.Valid()
    modifies stream`bitPos
    ensures stream.Valid() && n == Ones(old(stream.Ahead())) && stream.Ahead() == BehindOnes(old(stream.Ahead()))
  {
    ghost var all := stream.Ahead();
    n := 0;
    assert Drop(all, 0) == all;
    var bit := stream.ReadBit();
    while bit
      invariant stream.Valid() && n <= Ones(all) && stream.Ahead() == Drop(all, n + 1)
      invariant bit == First(Drop(all, n)) && Ones(all) == n + Ones(Drop(all, n))
      decreases |all| - n
    {
      OnesNext(all, n);
      n := n + 1;
      bit := stream.ReadBit();
      assert Drop(Drop(all, n), 1) == Drop(all, n + 1);
    }
  }

  lemma {:induction false} OnesNext(all: seq<bool>, n: nat)
    requires First(Drop(all, n))
    ensures n < |all| && Ones(Drop(all, n)) == 1 + Ones(Drop(all, n + 1))
  {
    assert Drop(all, n)[1..] == Drop(all, n + 1);
  }

  /** `n` more bits behind `x`. */
  method TakeBits(x: nat, n: nat, stream: Stream) returns (y: nat)
    requires stream.Valid() && x < WORD
    modifies stream`bitPos
    ensures stream.Valid() && y == Extend32(x, old(stream.Ahead()), n) && stream.Ahead() == Drop(old(stream.Ahead()), n)
  {
    ghost var all := stream.Ahead();
    y := x;
    for i := 0 to n
      invariant stream.Valid() && stream.Ahead() == Drop(all, i) && y < WORD
      invariant Extend32(y, stream.Ahead(), n - i) == Extend32(x, all, n)
    {
      var bit := stream.ReadBit();
      assert Drop(Drop(all, i), 1) == Drop(all, i + 1);
      y := Wrapped(2 * y + if bit then 1 else 0);
    }
  }

  /** An excess over the threshold. */
  method TakeExcess(o: nat, stream: Stream) returns (q: nat)
    requires stream.Valid()
    modifies stream`bitPos
    ensures stream.Valid() && (q, stream.Ahead()) == Excess32(o, old(stream.Ahead()))
  {
    q := TakeBits(1, o, stream);
    q := Wrapped(q + THRESHOLD);
  }

  /** The first part of `_Rice_DecodeWord`. */
  method TakeQuotient(stream: Stream) returns (q: nat)
    requires stream.Valid()
    modifies stream`bitPos
    ensures stream.Valid() && (q, stream.Ahead()) == DecodeQuotient32(old(stream.Ahead()))
  {
    q := TakeOnes(stream);
    if q > THRESHOLD {
      q := TakeExcess(q - THRESHOLD - 1, stream);
    }
  }

  /** `_Rice_DecodeWord`. */
  method TakeWord(k: nat, stream: Stream) returns (x: nat)
    requires stream.Valid()
    modifies stream`bitPos
    ensures stream.Valid() && (x, stream.Ahead()) == DecodeWord32(k, old(stream.Ahead()))
  {
    var q := TakeQuotient(stream);
    x := TakeBits(q, k, stream);
  }

  // ---------------------------------------------------------------- formats

  datatype Format = Int8 | Uint8 | Int16 | Uint16 | Int32 | Uint32 | Other

  function Width(f: Format): nat {
    match f
    case Int8 => 8
    case Uint8 => 8
    case Int16 => 16
    case Uint16 => 16
    case Int32 => 32
    case Uint32 => 32
    case Other => 0
  }

  predicate Signed(f: Format) {
    f.Int8? || f.Int16? || f.Int32?
  }

  predicate InRange(f: Format, v: int) {
    match f
    case Int8 => -0x80 <= v < 0x80
    case Uint8 => 0 <= v < 0x100
    case Int16 => -0x8000 <= v < 0x8000
    case Uint16 => 0 <= v < 0x1_0000
    case Int32 => -0x8000_0000 <= v < 0x8000_0000
    case Uint32 => 0 <= v < WORD
    case Other => false
  }

  /** `_Rice_ReadWord`. */
  function ReadWord(f: Format, v: int): nat
    requires InRange(f, v)
  {
    if Signed(f) then Fold(v) else v
  }

  /** A number cut to `m` values, centred on zero or not. */
  function Narrow(v: int, m: nat, signed: bool): int
    requires m > 0
  {
    if signed then (v + m / 2) % m - m / 2 else v % m
  }

  function Values(f: Format): nat {
    match f
    case Int8 => 0x100
    case Uint8 => 0x100
    case Int16 => 0x1_0000
    case Uint16 => 0x1_0000
    case _ => WORD
  }

  /** `_Rice_WriteWord`. */
  function WriteWord(f: Format, x: nat): int
    requires x < WORD
  {
    Narrow(if Signed(f) then Unfold(x) else x, Values(f), Signed(f))
  }

  /** A value comes back from its word, unless it is the least signed 32-bit number. */
  lemma WordBack(f: Format, v: int)
    requires InRange(f, v)
    ensures ReadWord(f, v) < Values(f) && (WriteWord(f, ReadWord(f, v)) == v <==> !(f.Int32? && v == -0x8000_0000))
  {
    match f
    case Int8 => SignedWordBack(v, 0x80);
    case Int16 => SignedWordBack(v, 0x8000);
    case Int32 => SignedWordBack(v, 0x8000_0000);
    case _ =>
  }

  lemma SignedWordBack(v: int, p: int)
    requires -p <= v < p && 0 < p <= 0x8000_0000
    ensures Fold(v) < 2 * p && (Narrow(Unfold(Fold(v)), 2 * p, true) == v <==> v != -0x8000_0000)
  {
    FoldedBack(v);
    NarrowNothing(Unfold(Fold(v)), p);
  }

  lemma NarrowNothing(v: int, p: int)
    requires 0 < p && -p <= v < p
    ensures Narrow(v, 2 * p, true) == v
  {
    Multiples.Remainder(v + p, 2 * p, 0, v + p);
  }

  // ---------------------------------------------------------------- blocks

  ghost predicate Small(words: seq<nat>) {
    forall i :: 0 <= i < |words| ==> words[i] < WORD / 2
  }

  ghost predicate SmallHist(h: Hist, i: nat) {
    forall j :: 0 <= j < HISTORY && (i >= HISTORY || j < i) ==> h[j] <= 31
  }

  lemma {:induction false} TotalBound(h: seq<nat>)
    requires forall j :: 0 <= j < |h| ==> h[j] <= 31
    ensures Total(h) <= 31 * |h|
  {
    if h != [] { TotalBound(h[..|h| - 1]); }
  }

  lemma {:induction false} NextKBelow(k: nat, h: Hist, i: nat)
    requires k < 32 && SmallHist(h, i)
    ensures NextK(k, h, i) < 32
  {
    if i >= HISTORY {
      TotalBound(h);
      MeanBound(Total(h), HISTORY);
    }
  }

  lemma {:induction false} SmallNoted(h: Hist, i: nat, x: nat)
    requires SmallHist(h, i) && x < WORD / 2
    ensures SmallHist(Noted(h, i, x), i + 1)
  {
    Pow2Word();
    NumBitsAtMost(x, 31);
  }

  lemma {:induction false} LengthsBound(words: seq<nat>, m: nat)
    requires m <= |words| && Small(words)
    ensures Lengths(words, m) <= 31 * m
  {
    if m > 0 {
      LengthsBound(words, m - 1);
      Pow2Word();
      NumBitsAtMost(words[m - 1], 31);
    }
  }

  lemma {:induction false} InitialKBelow(words: seq<nat>)
    requires words != [] && Small(words)
    ensures InitialK(words) < 32
  {
    var m := if |words| < HISTORY then |words| else HISTORY;
    LengthsBound(words, m);
    MeanBound(Lengths(words, m), m);
  }

  lemma MeanBound(t: nat, m: nat)
    requires 0 < m && t <= 31 * m
    ensures Mean(t, m) < 32
  {
    var x := t + m / 2;
    assert x < 32 * m;
    if x / m >= 32 {
      Multiples.MulMonotone(32, x / m, m);
      Binary.QuotientBounds(x, m);
    }
  }

  /** Before word `i`: what is written, and what is to come. */
  ghost predicate Coding(words: seq<nat>, whole: seq<bool>, front: nat, i: nat, k: nat, h: Hist, done: seq<bool>) {
    && i <= |words| && done + Encoded(words, i, k, h) == whole
    && (i < |words| ==> front == |done| + FrontLength(words, i, k, h))
  }

  lemma {:induction false} CodingNext(words: seq<nat>, whole: seq<bool>, front: nat, i: nat, k: nat, h: Hist,
                                      done: seq<bool>)
    requires i < |words| && Coding(words, whole, front, i, k, h, done)
    ensures var k' := NextK(k, h, i);
      Coding(words, whole, front, i + 1, k', Noted(h, i, words[i]), done + EncodeWord(words[i], k'))
    ensures i + 1 == |words| ==> front == |done|
  {
    var k', x := NextK(k, h, i), words[i];
    Regroup(done, EncodeWord(x, k'), Encoded(words, i + 1, k', Noted(h, i, x)));
  }

  /**
   Every parameter used from word `i` on is below 32, as the shift of a 32-bit word needs it; no word is
   coded when there is no room left.
   */
  ghost predicate Shiftable(words: seq<nat>, i: nat, k: nat, h: Hist, room: int)
    requires i <= |words|
    decreases |words| - i
  {
    i < |words| && room > 0 ==>
      var k' := NextK(k, h, i);
      k' < 32 && Shiftable(words, i + 1, k', Noted(h, i, words[i]), room - |EncodeWord(words[i], k')|)
  }

  /** Words that leave the highest bit clear keep the parameter below 32. */
  lemma {:induction false} SmallIsShiftable(words: seq<nat>, i: nat, k: nat, h: Hist, room: int)
    requires i <= |words| && Small(words) && k < 32 && SmallHist(h, i)
    ensures Shiftable(words, i, k, h, room)
    decreases |words| - i
  {
    if i < |words| {
      StepBounds(words, i, k, h);
      var k' := NextK(k, h, i);
      SmallIsShiftable(words, i + 1, k', Noted(h, i, words[i]), room - |EncodeWord(words[i], k')|);
    }
  }

  lemma {:induction false} ShiftableAgrees(words: seq<nat>, i: nat, k: nat, h: Hist, g: Hist, room: int)
    requires i <= |words| && Agree(i, h, g)
    ensures Shiftable(words, i, k, h, room) == Shiftable(words, i, k, g, room)
    decreases |words| - i
  {
    if i < |words| {
      AgreeK(i, k, h, g);
      AgreeNoted(i, h, g, words[i]);
      var k' := NextK(k, h, i);
      ShiftableAgrees(words, i + 1, k', Noted(h, i, words[i]), Noted(g, i, words[i]),
                      room - |EncodeWord(words[i], k')|);
    }
  }

  /** What the encoding loop knows before word `i`, with room for `room` bits in all. */
  ghost predicate Ready(words: seq<nat>, whole: seq<bool>, front: nat, i: nat, k: nat, h: Hist, done: seq<bool>,
                        room: nat)
  {
    Coding(words, whole, front, i, k, h, done) && Shiftable(words, i, k, h, room - |done|)
  }

  lemma {:induction false} Turn(words: seq<nat>, whole: seq<bool>, front: nat, i: nat, k: nat, h: Hist, done: seq<bool>,
                                room: nat)
    requires i < |words| && Ready(words, whole, front, i, k, h, done, room) && |done| < room
    ensures var k' := NextK(k, h, i);
      k' < 32 && Ready(words, whole, front, i + 1, k', Noted(h, i, words[i]), done + EncodeWord(words[i], k'), room)
    ensures i + 1 == |words| ==> front == |done|
  {
    CodingNext(words, whole, front, i, k, h, done);
    var k' := NextK(k, h, i);
    LongerBy(done, EncodeWord(words[i], k'), room);
  }

  lemma LongerBy(done: seq<bool>, code: seq<bool>, room: int)
    ensures room - |done + code| == room - |done| - |code|
  {
  }

  /** The initial `k`. */
  method MeanLength(words: array<nat>) returns (k: nat)
    requires words.Length > 0 && Below(words[..])
    ensures k == InitialK(words[..])
  {
    var sum: nat, i: nat := 0, 0;
    while i < HISTORY && i < words.Length
      invariant i <= HISTORY && i <= words.Length && sum == Lengths(words[..], i)
    {
      assert words[..][i] == words[i];
      var n := CountBits(words[i]);
      sum := sum + n;
      i := i + 1;
    }
    k := Mean(sum, i);
    if k == 0 {
      k := 1;
    }
  }

  /** `k` from the history, once there is one. */
  method ReviseK(hist: array<nat>, k: nat, i: nat) returns (r: nat)
    requires hist.Length == HISTORY
    ensures r == NextK(k, hist[..], i)
  {
    r := k;
    if i >= HISTORY {
      r := 0;
      for j := 0 to HISTORY
        invariant r == Total(hist[..j])
      {
        assert hist[..j + 1][..j] == hist[..j];
        r := r + hist[j];
      }
      assert hist[..HISTORY] == hist[..];
      r := Mean(r, HISTORY);
    }
  }

  method Note(hist: array<nat>, i: nat, x: nat)
    requires hist.Length == HISTORY && x < WORD
    modifies hist
    ensures hist[..] == Noted(old(hist[..]), i, x)
  {
    var n := CountBits(x);
    hist[i % HISTORY] := n;
  }

  lemma {:induction false} StepBounds(words: seq<nat>, i: nat, k: nat, h: Hist)
    requires i < |words| && Small(words) && k < 32 && SmallHist(h, i)
    ensures NextK(k, h, i) < 32 && SmallHist(Noted(h, i, words[i]), i + 1)
  {
    NextKBelow(k, h, i);
    SmallNoted(h, i, words[i]);
  }

  /** One turn of the encoding loop. */
  method PutNext(x: nat, i: nat, k: nat, hist: array<nat>, stream: Stream, ghost w: seq<bool>) returns (k': nat)
    requires hist.Length == HISTORY && x < WORD && NextK(k, hist[..], i) < 32 && stream.Wrote(w)
    modifies hist, stream`bitPos, stream.buf
    ensures k' == NextK(k, old(hist[..]), i) && hist[..] == Noted(old(hist[..]), i, x)
    ensures stream.Wrote(w + EncodeWord(x, k'))
  {
    k' := ReviseK(hist, k, i);
    PutWord(x, k', stream, w);
    Note(hist, i, x);
  }

  /** What is known before each word: its number, the parameter, the history and the bits written. */
  type Known = (nat, nat, Hist, seq<bool>) -> bool

  /** What is known before a word that is coded is known before the next one. */
  ghost predicate Moves(known: Known, ws: seq<nat>, room: nat, i: nat, k: nat, h: Hist, done: seq<bool>) {
    i < |ws| && |done| < room && known(i, k, h, done) ==>
      var k' := NextK(k, h, i);
      k' < 32 && known(i + 1, k', Noted(h, i, ws[i]), done + EncodeWord(ws[i], k'))
  }

  ghost predicate Lasts(known: Known, ws: seq<nat>, room: nat) {
    forall i: nat, k: nat, h: Hist, done: seq<bool> :: Moves(known, ws, room, i, k, h, done)
  }

  /** The encoding loop, with anything that it keeps. */
  method PutLoop(words: array<nat>, k0: nat, insize: nat, stream: Stream, ghost pre: seq<bool>, hist: array<nat>,
                 ghost room: nat, ghost known: Known)
    returns (i: nat, k: nat, ghost done: seq<bool>)
    requires Below(words[..]) && hist.Length == HISTORY && words != hist
    requires |pre| == 8 && stream.Wrote(pre) && stream.numBytes == insize + 1 && room == 8 * insize
    requires known(0, k0, hist[..], []) && Lasts(known, words[..], room)
    modifies stream`bitPos, stream.buf, hist
    ensures i <= words.Length && stream.Wrote(pre + done) && known(i, k, hist[..], done)
    ensures i < words.Length ==> |done| >= room
  {
    ghost var ws := words[..];
    i, k, done := 0, k0, [];
    assert pre + [] == pre;
    while i < words.Length && stream.bitPos / 8 <= insize
      invariant i <= |ws| && words[..] == ws && known(i, k, hist[..], done) && stream.Wrote(pre + done)
    {
      RoomLeft(pre, done, stream.bitPos, insize, room);
      assert Moves(known, ws, room, i, k, hist[..], done);
      k, done := PutTurn(words[i], ws, i, k, hist, stream, pre, done, room, known);
      i := i + 1;
    }
    if i < words.Length { NoRoomLeft(pre, done, stream.bitPos, insize, room); }
  }

  /** One turn of the encoding loop, with what it adds to the stream. */
  method PutTurn(x: nat, ghost ws: seq<nat>, i: nat, k: nat, hist: array<nat>, stream: Stream, ghost pre: seq<bool>,
                 ghost done: seq<bool>, ghost room: nat, ghost known: Known)
    returns (k': nat, ghost done': seq<bool>)
    requires i < |ws| && x == ws[i] < WORD && hist.Length == HISTORY && |done| < room && stream.Wrote(pre + done)
    requires known(i, k, hist[..], done) && Moves(known, ws, room, i, k, hist[..], done)
    modifies hist, stream`bitPos, stream.buf
    ensures known(i + 1, k', hist[..], done') && stream.Wrote(pre + done')
  {
    k' := PutNext(x, i, k, hist, stream, pre + done);
    Regroup(pre, done, EncodeWord(x, k'));
    done' := done + EncodeWord(x, k');
  }

  lemma RoomLeft(pre: seq<bool>, done: seq<bool>, pos: nat, insize: nat, room: nat)
    requires |pre| == 8 && room == 8 * insize && pos / 8 <= insize
    requires pos == if |pre + done| < 8 * (insize + 1) then |pre + done| else 8 * (insize + 1)
    ensures |done| < room
  {
  }

  lemma NoRoomLeft(pre: seq<bool>, done: seq<bool>, pos: nat, insize: nat, room: nat)
    requires |pre| == 8 && room == 8 * insize && pos / 8 > insize
    requires pos == if |pre + done| < 8 * (insize + 1) then |pre + done| else 8 * (insize + 1)
    ensures |done| >= room
  {
  }

  /** What the encoding loop keeps: when it is through, all words but the last have left room. */
  ghost function Progress(ws: seq<nat>, whole: seq<bool>, front: nat, room: nat): Known {
    (i: nat, k: nat, h: Hist, done: seq<bool>) =>
      Ready(ws, whole, front, i, k, h, done, room) && (i == |ws| ==> front < room)
  }

  lemma {:induction false} ProgressKept(ws: seq<nat>, whole: seq<bool>, front: nat, room: nat)
    ensures Lasts(Progress(ws, whole, front, room), ws, room)
  {
    forall i: nat, k: nat, h: Hist, done: seq<bool>
      ensures Moves(Progress(ws, whole, front, room), ws, room, i, k, h, done)
    {
      ProgressMoves(ws, whole, front, room, i, k, h, done);
    }
  }

  lemma {:induction false} ProgressMoves(ws: seq<nat>, whole: seq<bool>, front: nat, room: nat, i: nat, k: nat,
                                         h: Hist, done: seq<bool>)
    ensures Moves(Progress(ws, whole, front, room), ws, room, i, k, h, done)
  {
    if i < |ws| && |done| < room && Ready(ws, whole, front, i, k, h, done, room) {
      Turn(ws, whole, front, i, k, h, done, room);
    }
  }

  /**
   The encoding loop: it stops early exactly if the buffer is full before the last word, so a last
   word that does not fit goes unnoticed.
   */
  method PutWords(words: array<nat>, k0: nat, insize: nat, stream: Stream, ghost pre: seq<bool>, hist: array<nat>,
                  ghost room: nat)
    returns (i: nat)
    requires words.Length > 0 && Below(words[..]) && insize > 0 && hist.Length == HISTORY && words != hist
    requires room == 8 * insize && Shiftable(words[..], 0, k0, hist[..], room)
    requires |pre| == 8 && stream.Wrote(pre) && stream.numBytes == insize + 1
    modifies stream`bitPos, stream.buf, hist
    ensures i <= words.Length && stream.Valid()
    ensures i < words.Length <==> FrontLength(words[..], 0, k0, old(hist[..])) >= room
    ensures i == words.Length ==> stream.Wrote(pre + Encoded(words[..], 0, k0, old(hist[..])))
  {
    ghost var ws := words[..];
    ghost var whole, front := Encoded(ws, 0, k0, hist[..]), FrontLength(ws, 0, k0, hist[..]);
    ReadyFirst(ws, k0, hist[..], pre, room);
    ProgressKept(ws, whole, front, room);
    var k: nat;
    ghost var done;
    i, k, done := PutLoop(words, k0, insize, stream, pre, hist, room, Progress(ws, whole, front, room));
    ReadyLast(ws, whole, front, i, k, hist[..], done, room);
  }

  lemma {:induction false} ReadyFirst(words: seq<nat>, k: nat, h: Hist, pre: seq<bool>, room: nat)
    requires words != [] && Shiftable(words, 0, k, h, room)
    ensures Ready(words, Encoded(words, 0, k, h), FrontLength(words, 0, k, h), 0, k, h, [], room) && pre + [] == pre
  {
    assert [] + Encoded(words, 0, k, h) == Encoded(words, 0, k, h);
  }

  lemma {:induction false} ReadyLast(words: seq<nat>, whole: seq<bool>, front: nat, i: nat, k: nat, h: Hist,
                                     done: seq<bool>, room: nat)
    requires i <= |words| && Ready(words, whole, front, i, k, h, done, room)
    ensures if i == |words| then done == whole else |done| <= front
  {
    assert done + [] == done;
  }

  /** The raw words of the fallback. */
  method PutRaw(words: array<nat>, width: nat, stream: Stream, ghost pre: seq<bool>)
    requires stream.Wrote(pre)
    modifies stream`bitPos, stream.buf
    ensures stream.Wrote(pre + RawBits(words[..], width))
  {
    ghost var ws := words[..];
    ghost var raw := RawBits(ws, width);
    ghost var done: seq<bool> := [];
    assert pre + [] == pre && ws[0..] == ws && [] + raw == raw;
    for i := 0 to words.Length
      invariant words[..] == ws && stream.Wrote(pre + done) && done + RawBits(ws[i..], width) == raw
    {
      assert ws[i..][0] == words[i] && ws[i..][1..] == ws[i + 1..];
      PutLow(words[i], width, stream, pre + done);
      Regroup(pre, done, ToBits(words[i], width));
      Regroup(done, ToBits(words[i], width), RawBits(ws[i + 1..], width));
      done := done + ToBits(words[i], width);
    }
    assert done + [] == done;
  }
}
