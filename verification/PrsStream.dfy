/**
 The streams that libbcl/prs.c finishes. `prs_finish` may reserve a control byte in front of the
 terminator; the decoder takes it for the terminator's first byte.
 */
module PrsStream {
  import opened Bytes
  import opened Options
  import opened PrsCode

  /** The layout after the terminator's two bits. */
  function Closing(w: Layout): (r: Layout)
    requires |w.ctrl| <= 8
    ensures 1 <= |r.ctrl| <= 8
  {
    Put(Put(w, Bit(false)), Bit(true))
  }

  lemma {:induction false} ClosingBits(w: Layout)
    requires |w.ctrl| <= 8
    ensures PutAll(w, [Bit(false)] + ([Bit(true)] + [])) == Closing(w)
  {
    PutFirst(w, Bit(false), [Bit(true)] + []);
    PutFirst(Put(w, Bit(false)), Bit(true), []);
  }

  /** What `prs_finish` leaves: `stale` is what was in the byte it reserves, if it reserves one. */
  function Finished(w: Layout, stale: byte): seq<byte>
    requires |w.ctrl| <= 8
  {
    BytesOf(Closing(w)) + if |Closing(w).ctrl| == 8 then [stale, 0, 0] else [0, 0]
  }

  lemma {:induction false} BytesComplete(w: Layout, more: seq<byte>)
    requires |w.ctrl| <= 8
    ensures Completes(BytesOf(w) + more, w)
  {
    var s, d := BytesOf(w) + more, |w.done|;
    assert s[..d] == w.done && s[d] == Control(w.ctrl) && s[d + 1..d + 1 + |w.data|] == w.data;
    forall i | 0 <= i < |w.ctrl| ensures Binary.Bit(s[d], i) == w.ctrl[i] { ValueBit(w.ctrl, i); }
  }

  /** The decoder never takes output back. */
  lemma {:induction false} DecodeGrows(s: seq<byte>, r: Reader, out: seq<byte>)
    requires r.pos <= |s| && Decode(s, r, out).Some?
    ensures |Decode(s, r, out).value| >= |out|
    decreases |s| - r.pos
  {
    var i := ReadItem(s, r).value;
    if !i.0.End? { DecodeGrows(s, i.1, Apply(i.0, out)); }
  }

  lemma {:induction false} LongItemSize(s: seq<byte>, r: Reader)
    requires LongItem(s, r).Some? && LongItem(s, r).value.0.Copy?
    ensures LongItem(s, r).value.0.size >= 1
  {
  }

  /** After the terminator's bits, the decoder stops if and only if it sees two zero bytes. */
  lemma {:induction false} DecodeEnd(s: seq<byte>, w: Layout, out: seq<byte>)
    requires |w.ctrl| <= 8 && Completes(s, Closing(w)) && At(s, Closing(w)).pos + 1 < |s|
    ensures var p := At(s, Closing(w)).pos;
      Completes(s, w) && (Decode(s, At(s, w), out) == Some(out) <==> s[p] == 0 && s[p + 1] == 0)
  {
    ClosingBits(w);
    var v := StepTwo(s, w, true, [], [Bit(false)] + ([Bit(true)] + []));
    var item := LongItem(s, At(s, v));
    if item.Some? && item.value.0.Copy? && Applicable(item.value.0, out) {
      LongItemSize(s, At(s, v));
      if Decode(s, item.value.1, Apply(item.value.0, out)).Some? {
        DecodeGrows(s, item.value.1, Apply(item.value.0, out));
      }
    }
  }

  /**
   The round trip, with anything behind the stream: it succeeds exactly if no control byte is
   reserved for the terminator or the reserved byte was zero.
   */
  lemma {:induction false} RoundTrip(tokens: seq<Item>, stale: byte, more: seq<byte>)
    requires Fits(tokens, [])
    ensures Sized(tokens)
    ensures var w := PutAll(EMPTY, AllEvents(tokens));
      Decompressed(Finished(w, stale) + more) == Some(Expansion(tokens, [])) <==> |Closing(w).ctrl| < 8 || stale == 0
  {
    FitsSized(tokens, []);
    var w := PutAll(EMPTY, AllEvents(tokens));
    var s := Finished(w, stale) + more;
    var p := FinishedTail(w, stale, more);
    DecodeTokens(s, EMPTY, tokens, []);
    assert At(s, EMPTY) == Reader(1, s[0], 8);
    DecodeEnd(s, w, Expansion(tokens, []));
  }

  /** The two bytes that the decoder looks at. */
  lemma {:induction false} FinishedTail(w: Layout, stale: byte, more: seq<byte>) returns (p: nat)
    requires |w.ctrl| <= 8
    ensures var s := Finished(w, stale) + more;
      && Completes(s, Closing(w)) && Completes(s, w) && p == At(s, Closing(w)).pos && p + 1 < |s|
      && s[p] == (if |Closing(w).ctrl| == 8 then stale else 0) && s[p + 1] == 0
  {
    var v, s := Closing(w), Finished(w, stale) + more;
    var tail := if |v.ctrl| == 8 then [stale, 0, 0] else [0, 0];
    assert s == BytesOf(v) + (tail + more);
    BytesComplete(v, tail + more);
    CompletesBefore(s, Put(w, Bit(false)), Bit(true));
    CompletesBefore(s, w, Bit(false));
    p := |BytesOf(v)|;
    assert s[p] == tail[0] && s[p + 1] == tail[1];
  }

  // ---------------------------------------------------------------- when a byte is reserved

  function BitCount(events: seq<Event>): nat {
    if events == [] then 0 else (if events[0].Bit? then 1 else 0) + BitCount(events[1..])
  }

  lemma {:induction false} ControlBits(w: Layout, events: seq<Event>)
    requires |w.ctrl| <= 8
    ensures var n := BitCount(events);
      |PutAll(w, events).ctrl| == if n == 0 then |w.ctrl| else (|w.ctrl| + n - 1) % 8 + 1
    decreases |events|
  {
    if events != [] { ControlBits(Put(w, events[0]), events[1..]); }
  }

  /** A byte is reserved for the terminator exactly if the control bits, its own two included, fill their bytes. */
  lemma {:induction false} ReservedByte(events: seq<Event>)
    ensures |Closing(PutAll(EMPTY, events)).ctrl| == 8 <==> (BitCount(events) + 2) % 8 == 0
  {
    ControlBits(EMPTY, events);
    var end := [Bit(false)] + ([Bit(true)] + []);
    assert BitCount(end) == 2 by { assert end[1..] == [Bit(true)] && [Bit(true)][1..] == []; }
    ControlBits(PutAll(EMPTY, events), end);
    ClosingBits(PutAll(EMPTY, events));
  }

  // ---------------------------------------------------------------- a stream

  /** A byte and a copy of it, four times: one control byte, its first bit lowest, in front of all data. */
  lemma {:induction false} KnownStream(stale: byte)
    ensures Finished(PutAll(EMPTY, AllEvents([Raw(97), Copy(-1, 4)])), stale) == [0x49, 97, 255, 0, 0]
  {
    var raw, copy := [Bit(true), Data(97)], [Bit(false), Bit(false), Bit(true), Bit(false), Data(255)];
    KnownEvents(raw, copy);
    PutAllConcat(EMPTY, raw, copy);
    KnownRaw(raw);
    KnownCopy(copy);
    var ctrl, more := [true, false, false, true, false], [true, false, false, true, false, false];
    KnownEnd(ctrl, more, [true, false, false, true, false, false, true], [97, 255], stale);
  }

  lemma {:induction false} KnownRaw(raw: seq<Event>)
    requires raw == [Bit(true), Data(97)]
    ensures PutAll(EMPTY, raw) == Layout([], [true], [97])
  {
    assert raw == [Bit(true)] + ([Data(97)] + []);
    PutFirst(EMPTY, Bit(true), [Data(97)] + []);
    OneBit([], true, [], [true]);
    PutFirst(Layout([], [true], []), Data(97), []);
  }

  lemma {:induction false} KnownEnd(ctrl: seq<bool>, more: seq<bool>, bits: seq<bool>, data: seq<byte>, stale: byte)
    requires ctrl == [true, false, false, true, false] && more == [true, false, false, true, false, false]
    requires bits == [true, false, false, true, false, false, true] && data == [97, 255]
    ensures Finished(Layout([], ctrl, data), stale) == [0x49, 97, 255, 0, 0]
  {
    KnownControl(bits);
    assert more == ctrl + [false];
    assert bits == more + [true];
    FinishedIs(ctrl, more, bits, data, stale);
    Listed(data, 0x49);
  }

  lemma Listed(data: seq<byte>, control: byte)
    requires data == [97, 255]
    ensures [control] + data + [0, 0] == [control, 97, 255, 0, 0]
  {
  }

  lemma FinishedIs(ctrl: seq<bool>, more: seq<bool>, bits: seq<bool>, data: seq<byte>, stale: byte)
    requires |ctrl| == 5 && more == ctrl + [false] && bits == more + [true]
    ensures Finished(Layout([], ctrl, data), stale) == [Control(bits)] + data + [0, 0]
  {
    OneBit(ctrl, false, data, more);
    OneBit(more, true, data, bits);
  }

  lemma OneBit(ctrl: seq<bool>, b: bool, data: seq<byte>, more: seq<bool>)
    requires |ctrl| < 8 && more == ctrl + [b]
    ensures Put(Layout([], ctrl, data), Bit(b)) == Layout([], more, data)
  {
  }

  lemma {:induction false} KnownEvents(raw: seq<Event>, copy: seq<Event>)
    requires raw == [Bit(true), Data(97)] && copy == [Bit(false), Bit(false), Bit(true), Bit(false), Data(255)]
    ensures AllEvents([Raw(97), Copy(-1, 4)]) == raw + copy
  {
    var tokens := [Raw(97), Copy(-1, 4)];
    assert tokens[..1] == [Raw(97)] && [Raw(97)][..0] == [];
    assert AllEvents([Raw(97)]) == [] + raw;
    assert Events(Copy(-1, 4)) == copy;
  }

  lemma {:induction false} KnownCopy(copy: seq<Event>)
    requires copy == [Bit(false), Bit(false), Bit(true), Bit(false), Data(255)]
    ensures PutAll(Layout([], [true], [97]), copy) == Layout([], [true, false, false, true, false], [97, 255])
  {
    FiveEvents(Bit(false), Bit(false), Bit(true), Bit(false), Data(255));
    var r3, r4 := [Bit(false)] + ([Data(255)] + []), [Data(255)] + [];
    var r2 := [Bit(true)] + r3;
    var c1, c2 := [true, false], [true, false, false];
    var c3, c4 := [true, false, false, true], [true, false, false, true, false];
    PutFirst(Layout([], [true], [97]), Bit(false), [Bit(false)] + r2);
    OneBit([true], false, [97], c1);
    PutFirst(Layout([], c1, [97]), Bit(false), r2);
    OneBit(c1, false, [97], c2);
    PutFirst(Layout([], c2, [97]), Bit(true), r3);
    OneBit(c2, true, [97], c3);
    PutFirst(Layout([], c3, [97]), Bit(false), r4);
    OneBit(c3, false, [97], c4);
    PutFirst(Layout([], c4, [97]), Data(255), []);
  }

  lemma {:induction false} KnownControl(bits: seq<bool>)
    requires bits == [true, false, false, true, false, false, true]
    ensures Control(bits) == 0x49
  {
    assert bits[1..] == [false, false, true, false, false, true];
    assert bits[1..][1..] == [false, true, false, false, true];
    assert Value([true]) == 1 by { assert [true][1..] == []; }
    assert Value([false, true]) == 2 by { assert [false, true][1..] == [true]; }
    assert Value([false, false, true]) == 4 by { assert [false, false, true][1..] == [false, true]; }
    var four := [true, false, false, true];
    assert Value(four) == 9 by { assert four[1..] == [false, false, true]; }
    assert Value([false] + four) == 18 by { assert ([false] + four)[1..] == four; }
    assert bits[1..] == [false] + ([false] + four);
    assert Value([false] + ([false] + four)) == 36 by { assert ([false] + ([false] + four))[1..] == [false] + four; }
  }
}
