/** The compressor of libbcl/prs.c: its position in the source, its output buffer, and the control byte it fills. */
module Prs {
  import BackCopy
  import opened Binary
  import opened Bytes
  import opened Options
  import opened PrsCode
  import opened PrsStream

  // ---------------------------------------------------------------- pushing bits into a control byte

  /** A bit is pushed in from above. */
  function Push(c: byte, bit: bool): byte {
    c / 2 + if bit then 128 else 0
  }

  lemma {:induction false} ShiftedSum(x: nat, j: nat, m: nat)
    requires m <= j && x < Pow2(j)
    ensures ShiftRight(x + Pow2(j), m) == ShiftRight(x, m) + Pow2(j - m)
    decreases m
  {
    if m > 0 { ShiftedSum(x / 2, j - 1, m - 1); }
  }

  lemma {:induction false} ValueAppend(bits: seq<bool>, b: bool)
    ensures Value(bits + [b]) == Value(bits) + if b then Pow2(|bits|) else 0
  {
    if bits != [] {
      assert (bits + [b])[1..] == bits[1..] + [b];
      ValueAppend(bits[1..], b);
    }
  }

  /** The bits pushed so far are on top. */
  ghost predicate OnTop(c: byte, bits: seq<bool>) {
    |bits| <= 8 && ShiftRight(c, 8 - |bits|) == Value(bits)
  }

  lemma {:induction false} PushOnTop(c: byte, bits: seq<bool>, b: bool)
    requires |bits| < 8 && OnTop(c, bits)
    ensures OnTop(Push(c, b), bits + [b])
  {
    var m := 7 - |bits|;
    ShiftRightHalf(c, m);
    ValueAppend(bits, b);
    assert Pow2(7) == 128;
    if b { ShiftedSum(c / 2, 7, m); }
  }

  lemma {:induction false} ShiftedDouble(x: nat, m: nat)
    ensures ShiftRight(2 * x, m + 1) == ShiftRight(x, m)
  {
    ShiftRightHalf(2 * x, m);
  }

  /** `prs_finish` moves the pushed bits down and clears what was above them: `(x << k) >> 8`. */
  function MoveDown(x: nat, k: nat): nat
    decreases k
  {
    if k == 0 then x / 256 else MoveDown(2 * x, k - 1)
  }

  lemma {:induction false} EightHalves(x: nat)
    ensures ShiftRight(x, 8) == x / 256
  {
    assert ShiftRight(x, 1) == x / 2;
    ShiftRightHalf(x, 1);
    assert ShiftRight(x, 2) == x / 4;
    ShiftRightHalf(x, 2);
    assert ShiftRight(x, 3) == x / 8;
    ShiftRightHalf(x, 3);
    assert ShiftRight(x, 4) == x / 16;
    ShiftRightHalf(x, 4);
    assert ShiftRight(x, 5) == x / 32;
    ShiftRightHalf(x, 5);
    assert ShiftRight(x, 6) == x / 64;
    ShiftRightHalf(x, 6);
    assert ShiftRight(x, 7) == x / 128;
    ShiftRightHalf(x, 7);
  }

  lemma {:induction false} MovedDown(x: nat, k: nat, m: nat)
    requires k + m == 8
    ensures MoveDown(x, k) == ShiftRight(x, m)
    decreases k
  {
    if k == 0 {
      EightHalves(x);
    } else {
      MovedDown(2 * x, k - 1, m + 1);
      ShiftedDouble(x, m);
    }
  }

  lemma {:induction false} ControlMoved(c: byte, bits: seq<bool>)
    requires OnTop(c, bits)
    ensures MoveDown(c, |bits|) == Control(bits)
  {
    MovedDown(c, |bits|, 8 - |bits|);
  }

  // ---------------------------------------------------------------- the buffer

  /** The buffer while the control byte at `cp` is being filled. */
  ghost predicate Open(s: seq<byte>, cp: nat, dst: nat, bits: nat, w: Layout) {
    && cp == |w.done| && dst == |w.done| + 1 + |w.data| <= |s| && bits == |w.ctrl| <= 8
    && s[..cp] == w.done && s[cp + 1..dst] == w.data && OnTop(s[cp], w.ctrl)
  }

  /** The buffer between calls: a control byte that is full has been left, and the next one reserved. */
  ghost predicate Saved(s: seq<byte>, cp: nat, dst: nat, bits: nat, w: Layout) {
    if |w.ctrl| == 8 then bits == 0 && cp == |BytesOf(w)| && dst == cp + 1 <= |s| && s[..cp] == BytesOf(w)
    else Open(s, cp, dst, bits, w)
  }

  /** The buffer space that a layout takes between calls. */
  function Space(w: Layout): nat {
    |w.done| + 1 + |w.data| + if |w.ctrl| == 8 then 1 else 0
  }

  lemma {:induction false} OpenBit(s: seq<byte>, cp: nat, dst: nat, bits: nat, w: Layout, b: bool)
    requires Saved(s, cp, dst, bits, w) && |w.ctrl| <= 8
    ensures cp < |s| && Open(s[cp := Push(s[cp], b)], cp, dst, bits + 1, Put(w, Bit(b)))
  {
    var t := s[cp := Push(s[cp], b)];
    assert t[..cp] == s[..cp] && t[cp + 1..dst] == s[cp + 1..dst];
    if |w.ctrl| == 8 {
      assert OnTop(s[cp], []) by { MovedDown(s[cp], 0, 8); }
      PushOnTop(s[cp], [], b);
      assert [] + [b] == [b];
    } else {
      PushOnTop(s[cp], w.ctrl, b);
    }
  }

  lemma {:induction false} OpenSave(s: seq<byte>, cp: nat, dst: nat, w: Layout)
    requires Open(s, cp, dst, 8, w)
    ensures s[..dst] == BytesOf(w)
  {
    assert ShiftRight(s[cp], 0) == s[cp];
    assert s[..dst] == s[..cp] + [s[cp]] + s[cp + 1..dst];
  }

  lemma {:induction false} OpenData(s: seq<byte>, cp: nat, dst: nat, bits: nat, w: Layout, d: byte)
    requires Open(s, cp, dst, bits, w) && dst < |s|
    ensures Open(s[dst := d], cp, dst + 1, bits, Put(w, Data(d)))
  {
    var t := s[dst := d];
    assert t[..cp] == s[..cp] && t[cp + 1..dst + 1] == s[cp + 1..dst] + [d];
  }

  /** What one more token adds. */
  lemma {:induction false} WrittenNext(tokens: seq<Item>, t: Item)
    requires Sized(tokens) && (t.Copy? ==> t.size <= 255)
    ensures Sized(tokens + [t])
    ensures PutAll(EMPTY, AllEvents(tokens + [t])) == PutAll(PutAll(EMPTY, AllEvents(tokens)), Events(t))
  {
    assert (tokens + [t])[..|tokens|] == tokens;
    PutAllConcat(EMPTY, AllEvents(tokens), Events(t));
  }

  lemma {:induction false} PutTwo(w: Layout, a: Event, b: Event)
    requires |w.ctrl| <= 8
    ensures PutAll(w, [a, b]) == Put(Put(w, a), b)
  {
    assert [a, b] == [a] + ([b] + []);
    PutFirst(w, a, [b] + []);
    PutFirst(Put(w, a), b, []);
  }

  lemma {:induction false} PutMore(w: Layout, a: Event, b: Event, rest: seq<Event>)
    requires |w.ctrl| <= 8
    ensures PutAll(w, [a, b] + rest) == PutAll(Put(Put(w, a), b), rest)
  {
    assert [a, b] + rest == [a] + ([b] + rest);
    PutFirst(w, a, [b] + rest);
    PutFirst(Put(w, a), b, rest);
  }

  lemma {:induction false} ShortLayouts(w: Layout, x: bool, y: bool, d: byte)
    returns (w1: Layout, w2: Layout, w3: Layout, w4: Layout)
    requires |w.ctrl| <= 8
    ensures w1 == Put(w, Bit(false)) && w2 == Put(w1, Bit(false)) && w3 == Put(w2, Bit(x)) && w4 == Put(w3, Bit(y))
    ensures PutAll(w, [Bit(false), Bit(false), Bit(x), Bit(y), Data(d)]) == Put(w4, Data(d))
    ensures Space(w1) <= Space(w2) <= Space(w3) <= Space(w4) <= Space(Put(w4, Data(d)))
  {
    w1, w2 := Put(w, Bit(false)), Put(Put(w, Bit(false)), Bit(false));
    w3, w4 := Put(w2, Bit(x)), Put(Put(w2, Bit(x)), Bit(y));
    var tail := [Data(d)];
    assert [Bit(false), Bit(false), Bit(x), Bit(y), Data(d)] == [Bit(false), Bit(false)] + ([Bit(x), Bit(y)] + tail);
    PutMore(w, Bit(false), Bit(false), [Bit(x), Bit(y)] + tail);
    PutMore(w2, Bit(x), Bit(y), tail);
    PutFirst(w4, Data(d), []);
    assert tail == [Data(d)] + [];
  }

  function LongData(w: Layout, low: byte, high: byte, size: nat): Layout
    requires |w.ctrl| <= 8 && size <= 255
  {
    var v := Put(Put(w, Data(low)), Data(high));
    if size > 9 then Put(v, Data(size - 1)) else v
  }

  lemma {:induction false} LongLayout(w: Layout, o: int, size: nat, low: byte, high: byte)
    requires |w.ctrl| <= 8 && size <= 255 && !IsShort(o, size) && low == LowByte(o, size) && high == o / 32 % 256
    ensures var v := Put(Put(w, Bit(false)), Bit(true));
      && PutAll(w, Events(Copy(o, size))) == LongData(v, low, high, size)
      && Space(Put(w, Bit(false))) <= Space(LongData(v, low, high, size))
  {
    var v := Put(Put(w, Bit(false)), Bit(true));
    var tail := if size > 9 then [Data(size - 1)] else [];
    assert Events(Copy(o, size)) == [Bit(false), Bit(true)] + ([Data(low), Data(high)] + tail);
    PutMore(w, Bit(false), Bit(true), [Data(low), Data(high)] + tail);
    PutMore(v, Data(low), Data(high), tail);
    if size > 9 {
      assert tail == [Data(size - 1)] + [];
      PutFirst(Put(Put(v, Data(low)), Data(high)), Data(size - 1), []);
    }
  }

  /** `PRS_COMPRESSOR`, with the tokens it was given and what its buffer held at first. */
  class Compressor {
    const src: seq<byte>
    const dst: array<byte>
    var bitpos: nat
    var controlbyteptr: nat
    var srcptr: nat
    var dstptr: nat
    ghost var tokens: seq<Item>
    ghost const blank: seq<byte>

    ghost function Written(): Layout
      requires Sized(tokens)
      reads this
    {
      PutAll(EMPTY, AllEvents(tokens))
    }

    /** What was never written is as it was; a reserved byte counts as not written. */
    ghost predicate Untouched()
      reads this, dst
    {
      && dst.Length == |blank| && dstptr <= dst.Length && dst[dstptr..] == blank[dstptr..]
      && (bitpos == 0 && controlbyteptr < dst.Length ==> dst[controlbyteptr] == blank[controlbyteptr])
    }

    ghost predicate Valid()
      reads this, dst
    {
      && srcptr <= |src| && Sized(tokens) && Untouched()
      && Saved(dst[..], controlbyteptr, dstptr, bitpos, Written())
    }

    /** `prs_init`. */
    constructor (source: seq<byte>, dest: array<byte>)
      requires dest.Length >= 1
      ensures Valid() && src == source && dst == dest && blank == dest[..] && srcptr == 0 && tokens == []
    {
      src, dst, blank := source, dest, dest[..];
      bitpos, controlbyteptr, srcptr, dstptr := 0, 0, 0, 1;
      tokens := [];
      new;
      MovedDown(dst[0], 0, 8);
    }

    /** `prs_put_control_bit_nosave`. */
    method PutControlBitNosave(bit: bool, ghost w: Layout)
      requires |w.ctrl| <= 8 && Saved(dst[..], controlbyteptr, dstptr, bitpos, w) && Untouched()
      modifies this`bitpos, dst
      ensures Open(dst[..], controlbyteptr, dstptr, bitpos, Put(w, Bit(bit))) && Untouched()
    {
      OpenBit(dst[..], controlbyteptr, dstptr, bitpos, w, bit);
      ghost var before := dst[..];
      assert controlbyteptr < dstptr;
      dst[controlbyteptr] := Push(dst[controlbyteptr], bit);
      assert dst[..] == before[controlbyteptr := Push(before[controlbyteptr], bit)];
      assert dst[dstptr..] == before[dstptr..];
      bitpos := bitpos + 1;
    }

    /** `prs_put_control_save`. */
    method PutControlSave(ghost w: Layout)
      requires Open(dst[..], controlbyteptr, dstptr, bitpos, w) && bitpos > 0 && Space(w) <= dst.Length && Untouched()
      modifies this`bitpos, this`controlbyteptr, this`dstptr
      ensures Saved(dst[..], controlbyteptr, dstptr, bitpos, w) && Untouched()
    {
      if bitpos >= 8 {
        OpenSave(dst[..], controlbyteptr, dstptr, w);
        assert dst[dstptr] == dst[dstptr..][0] == blank[dstptr..][0];
        assert dst[dstptr + 1..] == dst[dstptr..][1..] && blank[dstptr + 1..] == blank[dstptr..][1..];
        bitpos := 0;
        controlbyteptr := dstptr;
        dstptr := dstptr + 1;
      }
    }

    /** `prs_put_static_data`, behind an unsaved control bit. */
    method PutStaticData(data: byte, ghost w: Layout)
      requires Open(dst[..], controlbyteptr, dstptr, bitpos, w) && bitpos > 0 && dstptr < dst.Length && Untouched()
      modifies this`dstptr, dst
      ensures Open(dst[..], controlbyteptr, dstptr, bitpos, Put(w, Data(data))) && Untouched()
    {
      OpenData(dst[..], controlbyteptr, dstptr, bitpos, w, data);
      ghost var before := dst[..];
      dst[dstptr] := data;
      assert dst[..] == before[dstptr := data];
      assert dst[dstptr + 1..] == before[dstptr..][1..] && blank[dstptr + 1..] == blank[dstptr..][1..];
      dstptr := dstptr + 1;
    }

    /** `prs_put_control_bit`. */
    method PutControlBit(bit: bool, ghost w: Layout)
      requires |w.ctrl| <= 8 && Saved(dst[..], controlbyteptr, dstptr, bitpos, w) && Untouched()
      requires Space(Put(w, Bit(bit))) <= dst.Length
      modifies this`bitpos, this`controlbyteptr, this`dstptr, dst
      ensures Saved(dst[..], controlbyteptr, dstptr, bitpos, Put(w, Bit(bit))) && Untouched()
    {
      PutControlBitNosave(bit, w);
      PutControlSave(Put(w, Bit(bit)));
    }

    /** There is room for one more item. */
    ghost predicate Room(t: Item)
      requires Sized(tokens) && (t.Copy? ==> t.size <= 255)
      reads this
    {
      Space(PutAll(Written(), Events(t))) <= dst.Length
    }

    /** A control bit, its data, and only then the save: the order that the decoder relies on. */
    method PutBitAndData(bit: bool, data: byte, ghost w: Layout)
      requires |w.ctrl| <= 8 && Saved(dst[..], controlbyteptr, dstptr, bitpos, w) && Untouched()
      requires Space(Put(Put(w, Bit(bit)), Data(data))) <= dst.Length
      modifies this`bitpos, this`controlbyteptr, this`dstptr, dst
      ensures Saved(dst[..], controlbyteptr, dstptr, bitpos, Put(Put(w, Bit(bit)), Data(data))) && Untouched()
    {
      PutControlBitNosave(bit, w);
      PutStaticData(data, Put(w, Bit(bit)));
      PutControlSave(Put(Put(w, Bit(bit)), Data(data)));
    }

    method PutTwoBits(a: bool, b: bool, ghost w: Layout)
      requires |w.ctrl| <= 8 && Saved(dst[..], controlbyteptr, dstptr, bitpos, w) && Untouched()
      requires Space(Put(Put(w, Bit(a)), Bit(b))) <= dst.Length
      modifies this`bitpos, this`controlbyteptr, this`dstptr, dst
      ensures Saved(dst[..], controlbyteptr, dstptr, bitpos, Put(Put(w, Bit(a)), Bit(b))) && Untouched()
    {
      PutControlBit(a, w);
      PutControlBit(b, Put(w, Bit(a)));
    }

    /** `prs_rawbyte`: the next byte of the source, as it is. */
    method RawByte()
      requires Valid() && srcptr < |src| && Room(Raw(src[srcptr]))
      modifies this, dst
      ensures Valid() && tokens == old(tokens) + [Raw(src[old(srcptr)])] && srcptr == old(srcptr) + 1
    {
      var b := src[srcptr];
      srcptr := srcptr + 1;
      PutTwo(Written(), Bit(true), Data(b));
      WrittenNext(tokens, Raw(b));
      PutBitAndData(true, b, Written());
      tokens := tokens + [Raw(b)];
    }

    /** `prs_shortcopy`. */
    method ShortCopy(offset: int, size: nat, ghost w: Layout)
      requires |w.ctrl| <= 8 && size <= 255 && IsShort(offset, size)
      requires Saved(dst[..], controlbyteptr, dstptr, bitpos, w) && Untouched()
      requires Space(PutAll(w, Events(Copy(offset, size)))) <= dst.Length
      modifies this`bitpos, this`controlbyteptr, this`dstptr, dst
      ensures Saved(dst[..], controlbyteptr, dstptr, bitpos, PutAll(w, Events(Copy(offset, size)))) && Untouched()
    {
      var z := size - 2;
      var x, y, d := z / 2 % 2 == 1, z % 2 == 1, offset % 256;
      ghost var w1, w2, w3, w4 := ShortLayouts(w, x, y, d);
      PutTwoBits(false, false, w);
      PutControlBit(x, w2);
      PutBitAndData(y, d, w3);
    }

    /** The data of a long form. */
    method PutLongData(low: byte, high: byte, size: nat, ghost w: Layout)
      requires size <= 255 && Open(dst[..], controlbyteptr, dstptr, bitpos, w) && bitpos > 0 && Untouched()
      requires Space(LongData(w, low, high, size)) <= dst.Length
      modifies this`bitpos, this`controlbyteptr, this`dstptr, dst
      ensures Saved(dst[..], controlbyteptr, dstptr, bitpos, LongData(w, low, high, size)) && Untouched()
    {
      PutStaticData(low, w);
      PutStaticData(high, Put(w, Data(low)));
      if size > 9 {
        PutStaticData(size - 1, Put(Put(w, Data(low)), Data(high)));
      }
      PutControlSave(LongData(w, low, high, size));
    }

    /** The bits and the data of a long form. */
    method PutLong(low: byte, high: byte, size: nat, ghost w: Layout, ghost v: Layout)
      requires |w.ctrl| <= 8 && size <= 255 && v == Put(w, Bit(false))
      requires Saved(dst[..], controlbyteptr, dstptr, bitpos, w) && Untouched()
      requires Space(v) <= dst.Length && Space(LongData(Put(v, Bit(true)), low, high, size)) <= dst.Length
      modifies this`bitpos, this`controlbyteptr, this`dstptr, dst
      ensures Saved(dst[..], controlbyteptr, dstptr, bitpos, LongData(Put(v, Bit(true)), low, high, size))
      ensures Untouched()
    {
      PutControlBit(false, w);
      PutControlBitNosave(true, v);
      PutLongData(low, high, size, Put(v, Bit(true)));
    }

    /** `prs_longcopy`. */
    method LongCopy(offset: int, size: nat, ghost w: Layout)
      requires |w.ctrl| <= 8 && size <= 255 && !IsShort(offset, size)
      requires Saved(dst[..], controlbyteptr, dstptr, bitpos, w) && Untouched()
      requires Space(PutAll(w, Events(Copy(offset, size)))) <= dst.Length
      modifies this`bitpos, this`controlbyteptr, this`dstptr, dst
      ensures Saved(dst[..], controlbyteptr, dstptr, bitpos, PutAll(w, Events(Copy(offset, size)))) && Untouched()
    {
      var low: byte, high: byte := LowByte(offset, size), offset / 32 % 256;
      LongLayout(w, offset, size, low, high);
      PutLong(low, high, size, w, Put(w, Bit(false)));
    }

    /** `prs_copy`. */
    method CopyBack(offset: int, size: nat)
      requires Valid() && size <= 255 && srcptr + size <= |src| && Room(Copy(offset, size))
      modifies this, dst
      ensures Valid() && tokens == old(tokens) + [Copy(offset, size)] && srcptr == old(srcptr) + size
    {
      ghost var w := Written();
      if offset > -0x100 && size <= 5 {
        ShortCopy(offset, size, w);
      } else {
        LongCopy(offset, size, w);
      }
      srcptr := srcptr + size;
      WrittenNext(tokens, Copy(offset, size));
      tokens := tokens + [Copy(offset, size)];
    }

    /** The terminator's two bits, and what `prs_finish` does to an unfinished control byte. */
    method Close()
      requires Valid() && Space(Closing(Written())) <= dst.Length
      modifies this`bitpos, this`controlbyteptr, this`dstptr, dst
      ensures dstptr == Space(Closing(Written())) && dst.Length == |blank|
      ensures var v := Closing(Written()); |BytesOf(v)| <= dst.Length && dst[..|BytesOf(v)|] == BytesOf(v)
      ensures |Closing(Written()).ctrl| == 8 ==> dst[dstptr - 1] == blank[dstptr - 1]
    {
      ghost var v := Closing(Written());
      PutTwoBits(false, true, Written());
      if bitpos != 0 {
        ControlMoved(dst[controlbyteptr], v.ctrl);
        dst[controlbyteptr] := MoveDown(dst[controlbyteptr], bitpos);
        assert dst[..controlbyteptr] == v.done && dst[controlbyteptr + 1..dstptr] == v.data;
        assert dst[..dstptr] == dst[..controlbyteptr] + [dst[controlbyteptr]] + dst[controlbyteptr + 1..dstptr];
      }
    }

    /**
     `prs_finish`. The stream decodes to the expansion of the tokens if and only if no control byte
     was reserved in front of the terminator or the buffer held a zero there.
     */
    method Finish()
      requires Valid() && Space(Closing(Written())) + 2 <= dst.Length
      modifies this`bitpos, this`controlbyteptr, this`dstptr, dst
      ensures var w := Written(); dstptr == |Finished(w, blank[|BytesOf(Closing(w))|])| <= dst.Length
      ensures dst[..dstptr] == Finished(Written(), blank[|BytesOf(Closing(Written()))|])
      ensures Fits(tokens, []) ==>
        (Decompressed(dst[..]) == Some(Expansion(tokens, [])) <==>
         |Closing(Written()).ctrl| < 8 || blank[|BytesOf(Closing(Written()))|] == 0)
    {
      Terminate();
      if Fits(tokens, []) { FinishedDecodes(tokens, blank[|BytesOf(Closing(Written()))|], dst[..], dstptr); }
    }

    /** The terminator: its bits, and a word of zero. */
    method Terminate()
      requires Valid() && Space(Closing(Written())) + 2 <= dst.Length
      modifies this`bitpos, this`controlbyteptr, this`dstptr, dst
      ensures var w := Written(); dstptr == |Finished(w, blank[|BytesOf(Closing(w))|])| <= dst.Length
      ensures dst[..dstptr] == Finished(Written(), blank[|BytesOf(Closing(Written()))|])
    {
      Close();
      ghost var w, before, p := Written(), dst[..], dstptr;
      TerminatorBytes(before, p, w, blank[|BytesOf(Closing(w))|]);
      dst[dstptr] := 0;
      dst[dstptr + 1] := 0;
      dstptr := dstptr + 2;
      assert dst[..] == before[p := 0][p + 1 := 0];
    }
  }

  lemma {:induction false} TerminatorBytes(s: seq<byte>, p: nat, w: Layout, stale: byte)
    requires |w.ctrl| <= 8 && p == Space(Closing(w)) && p + 2 <= |s|
    requires s[..|BytesOf(Closing(w))|] == BytesOf(Closing(w)) && (|Closing(w).ctrl| == 8 ==> s[p - 1] == stale)
    ensures |Finished(w, stale)| == p + 2 && s[p := 0][p + 1 := 0][..p + 2] == Finished(w, stale)
  {
    var b := BytesOf(Closing(w));
    if |Closing(w).ctrl| == 8 {
      ThreeMore(s, |b|, p, stale);
    } else {
      TwoMore(s, p);
    }
  }

  lemma TwoMore(s: seq<byte>, p: nat)
    requires p + 2 <= |s|
    ensures s[p := 0][p + 1 := 0][..p + 2] == s[..p] + [0, 0]
  {
  }

  lemma ThreeMore(s: seq<byte>, n: nat, p: nat, stale: byte)
    requires p == n + 1 && p + 2 <= |s| && s[n] == stale
    ensures s[p := 0][p + 1 := 0][..p + 2] == s[..n] + [stale, 0, 0]
  {
  }

  lemma {:induction false} FinishedDecodes(tokens: seq<Item>, stale: byte, s: seq<byte>, p: nat)
    requires Fits(tokens, []) && Sized(tokens) && p <= |s|
    requires s[..p] == Finished(PutAll(EMPTY, AllEvents(tokens)), stale)
    ensures var w := PutAll(EMPTY, AllEvents(tokens));
      Decompressed(s) == Some(Expansion(tokens, [])) <==> |Closing(w).ctrl| < 8 || stale == 0
  {
    assert s == s[..p] + s[p..];
    RoundTrip(tokens, stale, s[p..]);
  }

  // ---------------------------------------------------------------- what the tokens stand for

  /** How many bytes an item stands for. */
  function Span(t: Item): nat {
    match t
    case End => 0
    case Raw(_) => 1
    case Copy(_, n) => n
  }

  function Length(tokens: seq<Item>): nat {
    if tokens == [] then 0 else Span(tokens[0]) + Length(tokens[1..])
  }

  /** The item stands for the bytes of the source at `pos`: a copy repeats what is before it. */
  ghost predicate StandsFor(t: Item, src: seq<byte>, pos: nat) {
    && pos + Span(t) <= |src|
    && match t
       case End => false
       case Raw(b) => src[pos] == b
       case Copy(o, n) => Encodable(o, n) && 1 <= -o <= pos && forall k :: pos <= k < pos + n ==> src[k] == src[k + o]
  }

  /** The tokens describe the source from `pos` on. */
  ghost predicate Describes(src: seq<byte>, tokens: seq<Item>, pos: nat)
    decreases |tokens|
  {
    && pos <= |src|
    && (tokens != [] ==> StandsFor(tokens[0], src, pos) && Describes(src, tokens[1..], pos + Span(tokens[0])))
  }

  lemma {:induction false} CopyRepeats(src: seq<byte>, pos: nat, o: nat, n: nat)
    requires 1 <= o <= pos && pos + n <= |src| && forall k :: pos <= k < pos + n ==> src[k] == src[k - o]
    ensures BackCopy.Copied(src[..pos], o, n) == src[..pos + n]
  {
    if n > 0 {
      CopyRepeats(src, pos, o, n - 1);
      assert src[..pos + n] == src[..pos + n - 1] + [src[pos + n - 1]];
    }
  }

  lemma {:induction false} AppliedIsSource(t: Item, src: seq<byte>, pos: nat, next: nat)
    requires StandsFor(t, src, pos) && next == pos + Span(t)
    ensures Proper(t) && Applicable(t, src[..pos]) && Apply(t, src[..pos]) == src[..next]
  {
    match t
    case Raw(b) => assert src[..pos] + [b] == src[..pos + 1];
    case Copy(o, n) => CopyRepeats(src, pos, -o, n);
  }

  /** Tokens that describe the source expand to it. */
  lemma {:induction false} ExpansionIsSource(src: seq<byte>, tokens: seq<Item>, pos: nat, end: nat)
    requires Describes(src, tokens, pos) && end == pos + Length(tokens)
    ensures end <= |src| && Fits(tokens, src[..pos]) && Expansion(tokens, src[..pos]) == src[..end]
    decreases |tokens|
  {
    if tokens != [] {
      var next := pos + Span(tokens[0]);
      AppliedIsSource(tokens[0], src, pos, next);
      ExpansionIsSource(src, tokens[1..], next, end);
    }
  }
}
