/**
 The streams of libbcl/prs.c: data bytes, and between them control bytes that hold eight bits each,
 the first bit lowest. A control byte stands where its first bit is needed.
 */
module PrsCode {
  import opened BackCopy
  import opened Binary
  import opened Bytes
  import opened Options
  import opened Spelling

  /** What a stream is made of. */
  datatype Event = Bit(bit: bool) | Data(byte: byte)

  // ---------------------------------------------------------------- writing

  /** Finished bytes, the bits of the current control byte, and the data behind it. */
  datatype Layout = Layout(done: seq<byte>, ctrl: seq<bool>, data: seq<byte>)

  /** Bits as a number, the first bit lowest. */
  function Value(bits: seq<bool>): (v: nat)
    ensures v < Pow2(|bits|)
  {
    if bits == [] then 0 else (if bits[0] then 1 else 0) + 2 * Value(bits[1..])
  }

  function Control(bits: seq<bool>): byte
    requires |bits| <= 8
  {
    assert Pow2(8) == 256;
    Pow2Monotone(|bits|, 8);
    Value(bits)
  }

  function Put(w: Layout, e: Event): (r: Layout)
    requires |w.ctrl| <= 8
    ensures |r.ctrl| <= 8
  {
    match e
    case Data(d) => w.(data := w.data + [d])
    case Bit(b) =>
      if |w.ctrl| == 8 then Layout(w.done + [Control(w.ctrl)] + w.data, [b], [])
      else w.(ctrl := w.ctrl + [b])
  }

  function PutAll(w: Layout, events: seq<Event>): (r: Layout)
    requires |w.ctrl| <= 8
    ensures |r.ctrl| <= 8
    decreases |events|
  {
    if events == [] then w else PutAll(Put(w, events[0]), events[1..])
  }

  /** The bytes of a finished stream. */
  function BytesOf(w: Layout): seq<byte>
    requires |w.ctrl| <= 8
  {
    w.done + [Control(w.ctrl)] + w.data
  }

  const EMPTY := Layout([], [], [])

  lemma {:induction false} PutAllConcat(w: Layout, x: seq<Event>, y: seq<Event>)
    requires |w.ctrl| <= 8
    ensures PutAll(w, x + y) == PutAll(PutAll(w, x), y)
    decreases |x|
  {
    if x == [] {
      assert x + y == y;
    } else {
      assert (x + y)[0] == x[0] && (x + y)[1..] == x[1..] + y;
      PutAllConcat(Put(w, x[0]), x[1..], y);
    }
  }

  // ---------------------------------------------------------------- reading

  /** The reader: its position, the rest of the control byte, and how many bits of it are left. */
  datatype Reader = Reader(pos: nat, current: nat, left: nat)

  /** A control byte is loaded when a bit is needed and none is left. */
  function NextBit(s: seq<byte>, r: Reader): (o: Option<(bool, Reader)>)
    ensures o.Some? ==> r.pos <= o.value.1.pos <= r.pos + 1
  {
    if r.left == 0 then
      if r.pos < |s| then Some((s[r.pos] % 2 == 1, Reader(r.pos + 1, s[r.pos] / 2, 7))) else None
    else Some((r.current % 2 == 1, Reader(r.pos, r.current / 2, r.left - 1)))
  }

  function NextData(s: seq<byte>, r: Reader): (o: Option<(byte, Reader)>)
    ensures o.Some? ==> o.value.1.pos == r.pos + 1 <= |s|
  {
    if r.pos < |s| then Some((s[r.pos], r.(pos := r.pos + 1))) else None
  }

  /** The stream holds what the layout says, so far. */
  ghost predicate Completes(s: seq<byte>, w: Layout) {
    && |w.ctrl| <= 8 && |w.done| + 1 + |w.data| <= |s|
    && s[..|w.done|] == w.done && s[|w.done| + 1..|w.done| + 1 + |w.data|] == w.data
    && forall i :: 0 <= i < |w.ctrl| ==> Binary.Bit(s[|w.done|], i) == w.ctrl[i]
  }

  lemma {:induction false} ShiftedBit(v: nat, k: nat)
    ensures ShiftRight(v, k) % 2 == 1 <==> Binary.Bit(v, k)
  {
    if k > 0 { ShiftedBit(v / 2, k - 1); }
  }

  /** Where the reader is when it has read what the layout says. */
  function At(s: seq<byte>, w: Layout): Reader
    requires |w.ctrl| <= 8 && |w.done| < |s|
  {
    Reader(|w.done| + 1 + |w.data|, ShiftRight(s[|w.done|], |w.ctrl|), 8 - |w.ctrl|)
  }

  lemma {:induction false} ValueBit(bits: seq<bool>, i: nat)
    requires i < |bits|
    ensures Binary.Bit(Value(bits), i) == bits[i]
  {
    if i > 0 { ValueBit(bits[1..], i - 1); }
  }

  /** A control byte that is full is in the finished bytes. */
  lemma {:induction false} FullControl(s: seq<byte>, w: Layout)
    requires |w.ctrl| == 8 && |w.done| + 1 + |w.data| <= |s|
    requires s[..|w.done| + 1 + |w.data|] == w.done + [Control(w.ctrl)] + w.data
    ensures Completes(s, w)
  {
    var d, n := |w.done|, |w.done| + 1 + |w.data|;
    assert s[..d] == s[..n][..d] && s[d + 1..n] == s[..n][d + 1..] && s[d] == s[..n][d];
    forall i | 0 <= i < 8 ensures Binary.Bit(s[d], i) == w.ctrl[i] { ValueBit(w.ctrl, i); }
  }

  lemma {:induction false} CompletesBefore(s: seq<byte>, w: Layout, e: Event)
    requires |w.ctrl| <= 8 && Completes(s, Put(w, e))
    ensures Completes(s, w)
  {
    match e
    case Data(d) =>
      var n := |w.done| + 1 + |w.data|;
      assert s[|w.done| + 1..n] == s[|w.done| + 1..n + 1][..|w.data|];
    case Bit(b) =>
      if |w.ctrl| == 8 {
        FullControl(s, w);
      } else {
        assert forall i :: 0 <= i < |w.ctrl| ==> (w.ctrl + [b])[i] == w.ctrl[i];
      }
  }

  lemma {:induction false} CompletesPrefix(s: seq<byte>, w: Layout, events: seq<Event>)
    requires |w.ctrl| <= 8 && Completes(s, PutAll(w, events))
    ensures Completes(s, w)
    decreases |events|
  {
    if events != [] {
      CompletesPrefix(s, Put(w, events[0]), events[1..]);
      CompletesBefore(s, w, events[0]);
    }
  }

  /** The reader meets what the writer puts, and ends up where the writer does. */
  lemma {:induction false} ReadPutData(s: seq<byte>, w: Layout, d: byte)
    requires |w.ctrl| <= 8 && Completes(s, Put(w, Data(d))) && Completes(s, w)
    ensures NextData(s, At(s, w)) == Some((d, At(s, Put(w, Data(d)))))
  {
    var n, after := |w.done| + 1 + |w.data|, Put(w, Data(d));
    assert s[n] == s[|w.done| + 1..n + 1][|w.data|] == after.data[|w.data|];
  }

  lemma {:induction false} ReadPutBit(s: seq<byte>, w: Layout, b: bool)
    requires |w.ctrl| <= 8 && Completes(s, Put(w, Bit(b))) && Completes(s, w)
    ensures NextBit(s, At(s, w)) == Some((b, At(s, Put(w, Bit(b)))))
  {
    var k := |w.ctrl|;
    if k == 8 {
      var n := |w.done| + 1 + |w.data|;
      assert Put(w, Bit(b)).ctrl[0] == b;
      assert Binary.Bit(s[n], 0) == b;
      assert ShiftRight(s[n], 1) == s[n] / 2;
    } else {
      assert Put(w, Bit(b)).ctrl[k] == b;
      ShiftedBit(s[|w.done|], k);
      ShiftRightHalf(s[|w.done|], k);
    }
  }

  // ---------------------------------------------------------------- tokens

  /** What the compressor is asked to put, and what the decoder finds: a byte, a copy or the end. */
  datatype Item = End | Raw(b: byte) | Copy(offset: int, size: nat)

  /** The copies that have a form: size 2 has only the short one, and the farthest offset only the inline one. */
  predicate Encodable(offset: int, size: nat) {
    && -0x2000 <= offset <= -1 && 2 <= size <= 255
    && (size == 2 ==> offset > -0x100) && (offset == -0x2000 ==> size <= 9)
  }

  predicate IsShort(offset: int, size: nat) {
    offset > -0x100 && size <= 5
  }

  /** The events of an item, as `prs_rawbyte`, `prs_copy` and `prs_finish` put them. */
  function Events(t: Item): seq<Event>
    requires t.Copy? ==> t.size <= 255
  {
    match t
    case End => [Bit(false), Bit(true), Data(0), Data(0)]
    case Raw(b) => [Bit(true), Data(b)]
    case Copy(o, size) =>
      if IsShort(o, size) then
        [Bit(false), Bit(false), Bit((size - 2) / 2 % 2 == 1), Bit((size - 2) % 2 == 1), Data(o % 256)]
      else if size <= 9 then [Bit(false), Bit(true), Data(o * 8 % 256 + (size - 2) % 8), Data(o / 32 % 256)]
      else [Bit(false), Bit(true), Data(o * 8 % 256), Data(o / 32 % 256), Data(size - 1)]
  }

  /** The two bytes of a long form, and the size byte if it has one. */
  function LongItem(s: seq<byte>, r: Reader): (o: Option<(Item, Reader)>)
    ensures o.Some? ==> r.pos < o.value.1.pos <= |s|
  {
    if r.pos + 1 >= |s| then None
    else
      var low, high := s[r.pos], s[r.pos + 1];
      var word := high as int * 256 + low;
      if word == 0 then Some((End, r.(pos := r.pos + 2)))
      else if low % 8 != 0 then Some((Copy(word / 8 - 0x2000, low % 8 + 2), r.(pos := r.pos + 2)))
      else if r.pos + 2 >= |s| then None
      else Some((Copy(word / 8 - 0x2000, s[r.pos + 2] as int + 1), r.(pos := r.pos + 3)))
  }

  function ShortItem(s: seq<byte>, r: Reader): (o: Option<(Item, Reader)>)
    ensures o.Some? ==> r.pos < o.value.1.pos <= |s|
  {
    var a := NextBit(s, r);
    if a.None? then None
    else
      var b := NextBit(s, a.value.1);
      if b.None? then None
      else
        var d := NextData(s, b.value.1);
        if d.None? then None
        else
          var size := (if a.value.0 then 2 else 0) + (if b.value.0 then 1 else 0) + 2;
          Some((Copy(d.value.0 as int - 256, size), d.value.1))
  }

  /** One turn of the decoder's loop. */
  function ReadItem(s: seq<byte>, r: Reader): (o: Option<(Item, Reader)>)
    ensures o.Some? ==> r.pos < o.value.1.pos <= |s|
  {
    var a := NextBit(s, r);
    if a.None? then None
    else if a.value.0 then
      var d := NextData(s, a.value.1);
      if d.None? then None else Some((Raw(d.value.0), d.value.1))
    else
      var b := NextBit(s, a.value.1);
      if b.None? then None
      else if b.value.0 then LongItem(s, b.value.1) else ShortItem(s, b.value.1)
  }

  // ---------------------------------------------------------------- every item is read back

  lemma {:induction false} PutFirst(w: Layout, e: Event, rest: seq<Event>)
    requires |w.ctrl| <= 8
    ensures PutAll(w, [e] + rest) == PutAll(Put(w, e), rest)
  {
    assert ([e] + rest)[1..] == rest;
  }

  lemma {:induction false} StepBit(s: seq<byte>, w: Layout, b: bool, rest: seq<Event>)
    requires |w.ctrl| <= 8 && Completes(s, PutAll(w, [Bit(b)] + rest))
    ensures Completes(s, w) && Completes(s, PutAll(Put(w, Bit(b)), rest))
    ensures PutAll(w, [Bit(b)] + rest) == PutAll(Put(w, Bit(b)), rest)
    ensures Completes(s, Put(w, Bit(b))) && NextBit(s, At(s, w)) == Some((b, At(s, Put(w, Bit(b)))))
  {
    PutFirst(w, Bit(b), rest);
    CompletesPrefix(s, Put(w, Bit(b)), rest);
    CompletesBefore(s, w, Bit(b));
    ReadPutBit(s, w, b);
  }

  lemma {:induction false} StepData(s: seq<byte>, w: Layout, d: byte, rest: seq<Event>)
    requires |w.ctrl| <= 8 && Completes(s, PutAll(w, [Data(d)] + rest))
    ensures Completes(s, w) && Completes(s, PutAll(Put(w, Data(d)), rest))
    ensures PutAll(w, [Data(d)] + rest) == PutAll(Put(w, Data(d)), rest)
    ensures Completes(s, Put(w, Data(d))) && NextData(s, At(s, w)) == Some((d, At(s, Put(w, Data(d)))))
  {
    PutFirst(w, Data(d), rest);
    CompletesPrefix(s, Put(w, Data(d)), rest);
    CompletesBefore(s, w, Data(d));
    ReadPutData(s, w, d);
  }

  lemma {:induction false} ReadRaw(s: seq<byte>, w: Layout, b: byte)
    requires |w.ctrl| <= 8 && Completes(s, PutAll(w, Events(Raw(b))))
    ensures Completes(s, w) && ReadItem(s, At(s, w)) == Some((Raw(b), At(s, PutAll(w, Events(Raw(b))))))
  {
    assert Events(Raw(b)) == [Bit(true)] + ([Data(b)] + []);
    StepBit(s, w, true, [Data(b)] + []);
    StepData(s, Put(w, Bit(true)), b, []);
  }

  /** The arithmetic of the long forms. */
  lemma LongWord(o: int, z: nat)
    requires -0x2000 <= o <= -1 && z < 8
    ensures 0 <= o * 8 % 256 + z < 256 && (o * 8 % 256 + z) % 8 == z
    ensures var word := o / 32 % 256 * 256 + (o * 8 % 256 + z);
      word / 8 - 0x2000 == o && (word == 0 <==> o == -0x2000 && z == 0)
  {
    var q, t := o / 32, o % 32;
    assert o == 32 * q + t && -256 <= q <= -1;
    assert q % 256 == q + 256;
    assert o * 8 == 256 * q + 8 * t && o * 8 % 256 == 8 * t;
  }

  /** Two control bits lead to what follows them. */
  lemma {:induction false} StepTwo(s: seq<byte>, w: Layout, b: bool, rest: seq<Event>, events: seq<Event>)
    returns (v: Layout)
    requires events == [Bit(false)] + ([Bit(b)] + rest) && |w.ctrl| <= 8 && Completes(s, PutAll(w, events))
    ensures |v.ctrl| <= 8 && PutAll(w, events) == PutAll(v, rest)
    ensures Completes(s, w) && Completes(s, v)
    ensures ReadItem(s, At(s, w)) == if b then LongItem(s, At(s, v)) else ShortItem(s, At(s, v))
  {
    StepBit(s, w, false, [Bit(b)] + rest);
    var w1 := Put(w, Bit(false));
    StepBit(s, w1, b, rest);
    v := Put(w1, Bit(b));
  }

  lemma {:induction false} StepPair(s: seq<byte>, w: Layout, low: byte, high: byte, rest: seq<Event>)
    returns (v: Layout)
    requires |w.ctrl| <= 8 && Completes(s, PutAll(w, [Data(low)] + ([Data(high)] + rest)))
    ensures |v.ctrl| <= 8 && PutAll(w, [Data(low)] + ([Data(high)] + rest)) == PutAll(v, rest) && Completes(s, w)
    ensures Completes(s, v)
    ensures var r := At(s, w);
      r.pos + 1 < |s| && s[r.pos] == low && s[r.pos + 1] == high && At(s, v) == r.(pos := r.pos + 2)
  {
    StepData(s, w, low, [Data(high)] + rest);
    var w1 := Put(w, Data(low));
    StepData(s, w1, high, rest);
    v := Put(w1, Data(high));
  }

  lemma FourEvents(a: Event, b: Event, c: Event, d: Event)
    ensures [a, b, c, d] == [a] + ([b] + ([c] + ([d] + [])))
  {
  }

  /** The reader behind the two control bits of a long form without a size byte. */
  lemma {:induction false} InlineForm(s: seq<byte>, w: Layout, low: byte, high: byte, rest: seq<Event>,
                                      events: seq<Event>)
    returns (r: Reader)
    requires IsPair(rest, low, high) && events == [Bit(false)] + ([Bit(true)] + rest)
    requires |w.ctrl| <= 8 && Completes(s, PutAll(w, events))
    ensures Completes(s, w) && ReadItem(s, At(s, w)) == LongItem(s, r)
    ensures r.pos + 1 < |s| && s[r.pos] == low && s[r.pos + 1] == high
    ensures At(s, PutAll(w, events)) == r.(pos := r.pos + 2)
  {
    var v := StepTwo(s, w, true, rest, events);
    r := StepLast(s, v, low, high, rest, PutAll(w, events));
  }

  predicate IsPair(events: seq<Event>, low: byte, high: byte) {
    events == [Data(low)] + ([Data(high)] + [])
  }

  lemma {:induction false} StepLast(s: seq<byte>, w: Layout, low: byte, high: byte, events: seq<Event>, z: Layout)
    returns (r: Reader)
    requires |w.ctrl| <= 8 && IsPair(events, low, high) && z == PutAll(w, events) && Completes(s, z)
    ensures Completes(s, w) && r == At(s, w) && At(s, z) == r.(pos := r.pos + 2)
    ensures r.pos + 1 < |s| && s[r.pos] == low && s[r.pos + 1] == high
  {
    var u := StepPair(s, w, low, high, []);
    r := At(s, w);
  }

  lemma FiveEvents(a: Event, b: Event, c: Event, d: Event, e: Event)
    ensures [a, b, c, d, e] == [a] + ([b] + ([c] + ([d] + ([e] + []))))
  {
  }

  /** The reader behind the two control bits of a long form with a size byte. */
  lemma {:induction false} ExtendedForm(s: seq<byte>, w: Layout, low: byte, high: byte, more: byte, rest: seq<Event>,
                                        events: seq<Event>)
    returns (r: Reader)
    requires IsTriple(rest, low, high, more) && events == [Bit(false)] + ([Bit(true)] + rest)
    requires |w.ctrl| <= 8 && Completes(s, PutAll(w, events))
    ensures Completes(s, w) && ReadItem(s, At(s, w)) == LongItem(s, r)
    ensures r.pos + 2 < |s| && s[r.pos] == low && s[r.pos + 1] == high && s[r.pos + 2] == more
    ensures At(s, PutAll(w, events)) == r.(pos := r.pos + 3)
  {
    var v := StepTwo(s, w, true, rest, events);
    r := StepTriple(s, v, low, high, more, rest, PutAll(w, events));
  }

  predicate IsTriple(events: seq<Event>, low: byte, high: byte, more: byte) {
    events == [Data(low)] + ([Data(high)] + ([Data(more)] + []))
  }

  lemma {:induction false} StepTriple(s: seq<byte>, w: Layout, low: byte, high: byte, more: byte, events: seq<Event>,
                                      z: Layout)
    returns (r: Reader)
    requires |w.ctrl| <= 8 && IsTriple(events, low, high, more) && z == PutAll(w, events) && Completes(s, z)
    ensures Completes(s, w) && r == At(s, w) && At(s, z) == r.(pos := r.pos + 3)
    ensures r.pos + 2 < |s| && s[r.pos] == low && s[r.pos + 1] == high && s[r.pos + 2] == more
  {
    var u := StepPair(s, w, low, high, [Data(more)] + []);
    StepData(s, u, more, []);
    r := At(s, w);
  }

  lemma {:induction false} ShortTail(s: seq<byte>, w: Layout, x: bool, y: bool, d: byte, tail: seq<Event>)
    requires |w.ctrl| <= 8 && tail == [Bit(x)] + ([Bit(y)] + ([Data(d)] + [])) && Completes(s, PutAll(w, tail))
    ensures Completes(s, w)
    ensures ShortItem(s, At(s, w)) ==
      Some((Copy(d as int - 256, (if x then 2 else 0) + (if y then 1 else 0) + 2), At(s, PutAll(w, tail))))
  {
    StepBit(s, w, x, [Bit(y)] + ([Data(d)] + []));
    var w1 := Put(w, Bit(x));
    StepBit(s, w1, y, [Data(d)] + []);
    StepData(s, Put(w1, Bit(y)), d, []);
  }

  lemma {:induction false} ReadEnd(s: seq<byte>, w: Layout)
    requires |w.ctrl| <= 8 && Completes(s, PutAll(w, Events(End)))
    ensures Completes(s, w) && ReadItem(s, At(s, w)) == Some((End, At(s, PutAll(w, Events(End)))))
  {
    FourEvents(Bit(false), Bit(true), Data(0), Data(0));
    var r := InlineForm(s, w, 0, 0, [Data(0)] + ([Data(0)] + []), Events(End));
  }

  // ---------------------------------------------------------------- the forms of a copy

  /** The three ways to write a copy: with one data byte, with two, and with three. */
  datatype Form =
    | Brief(x: bool, y: bool, d: byte)
    | Middle(low: byte, high: byte)
    | Full(low: byte, high: byte, more: byte)

  predicate Telling(f: Form) {
    match f
    case Brief(_, _, _) => true
    case Middle(low, _) => low % 8 != 0
    case Full(low, high, _) => low % 8 == 0 && (low != 0 || high != 0)
  }

  function FormEvents(f: Form): seq<Event> {
    match f
    case Brief(x, y, d) => [Bit(false), Bit(false), Bit(x), Bit(y), Data(d)]
    case Middle(low, high) => [Bit(false), Bit(true), Data(low), Data(high)]
    case Full(low, high, more) => [Bit(false), Bit(true), Data(low), Data(high), Data(more)]
  }

  /** The copy that a form stands for: the size is in two bits, in three, or in a byte of its own. */
  function FormCopy(f: Form): Item {
    match f
    case Brief(x, y, d) => Copy(d as int - 256, 2 + (if x then 2 else 0) + if y then 1 else 0)
    case Middle(low, high) => Copy(high as int * 32 + low as int / 8 - 0x2000, 2 + low as int % 8)
    case Full(low, high, more) => Copy(high as int * 32 + low as int / 8 - 0x2000, 1 + more as int)
  }

  /** The bits that events take in a stream. */
  function Cost(es: seq<Event>): nat {
    if es == [] then 0 else (if es[0].Bit? then 1 else 8) + Cost(es[1..])
  }

  lemma {:induction false} CostFrom(es: seq<Event>, k: nat)
    requires k < |es|
    ensures Cost(es[k..]) == (if es[k].Bit? then 1 else 8) + Cost(es[k + 1..])
  {
    assert es[k..][1..] == es[k + 1..];
  }

  lemma {:induction false} FormCost(f: Form)
    ensures Cost(FormEvents(f)) == match f case Brief(_, _, _) => 12 case Middle(_, _) => 18 case Full(_, _, _) => 26
  {
    var es := FormEvents(f);
    CostFrom(es, 0);
    CostFrom(es, 1);
    CostFrom(es, 2);
    CostFrom(es, 3);
    if |es| == 5 { CostFrom(es, 4); }
    assert es[0..] == es && es[|es|..] == [];
  }

  lemma LongOffset(low: byte, high: byte)
    ensures var word := high as int * 256 + low;
      word / 8 - 0x2000 == high as int * 32 + low as int / 8 - 0x2000 && (word == 0 <==> low == 0 && high == 0)
  {
  }

  lemma {:induction false} ShortRead(s: seq<byte>, w: Layout, x: bool, y: bool, d: byte, tail: seq<Event>,
                                     events: seq<Event>)
    requires |w.ctrl| <= 8 && events == [Bit(false)] + ([Bit(false)] + tail)
    requires tail == [Bit(x)] + ([Bit(y)] + ([Data(d)] + [])) && Completes(s, PutAll(w, events))
    ensures Completes(s, w) && ReadItem(s, At(s, w)) == Some((FormCopy(Brief(x, y, d)), At(s, PutAll(w, events))))
  {
    var v := StepTwo(s, w, false, tail, events);
    assert Completes(s, PutAll(v, tail));
    var item, end := Copy(d as int - 256, (if x then 2 else 0) + (if y then 1 else 0) + 2), PutAll(w, events);
    assert ShortItem(s, At(s, v)) == Some((item, At(s, end))) by { ShortTail(s, v, x, y, d, tail); }
  }

  lemma {:induction false} BriefRead(s: seq<byte>, w: Layout, x: bool, y: bool, d: byte, events: seq<Event>)
    requires |w.ctrl| <= 8 && events == [Bit(false), Bit(false), Bit(x), Bit(y), Data(d)]
    requires Completes(s, PutAll(w, events))
    ensures Completes(s, w) && ReadItem(s, At(s, w)) == Some((FormCopy(Brief(x, y, d)), At(s, PutAll(w, events))))
  {
    FiveEvents(Bit(false), Bit(false), Bit(x), Bit(y), Data(d));
    ShortRead(s, w, x, y, d, [Bit(x)] + ([Bit(y)] + ([Data(d)] + [])), events);
  }

  lemma {:induction false} MiddleRead(s: seq<byte>, w: Layout, low: byte, high: byte, events: seq<Event>)
    requires |w.ctrl| <= 8 && events == [Bit(false), Bit(true), Data(low), Data(high)]
    requires Completes(s, PutAll(w, events)) && low % 8 != 0
    ensures Completes(s, w) && ReadItem(s, At(s, w)) == Some((FormCopy(Middle(low, high)), At(s, PutAll(w, events))))
  {
    FourEvents(Bit(false), Bit(true), Data(low), Data(high));
    var r := InlineForm(s, w, low, high, [Data(low)] + ([Data(high)] + []), events);
    MiddleItem(s, r, low, high);
  }

  lemma MiddleItem(s: seq<byte>, r: Reader, low: byte, high: byte)
    requires r.pos + 1 < |s| && s[r.pos] == low && s[r.pos + 1] == high && low % 8 != 0
    ensures LongItem(s, r) == Some((FormCopy(Middle(low, high)), r.(pos := r.pos + 2)))
  {
    LongOffset(low, high);
  }

  lemma {:induction false} FullRead(s: seq<byte>, w: Layout, low: byte, high: byte, more: byte, events: seq<Event>)
    requires |w.ctrl| <= 8 && events == [Bit(false), Bit(true), Data(low), Data(high), Data(more)]
    requires Completes(s, PutAll(w, events)) && low % 8 == 0 && (low != 0 || high != 0)
    ensures Completes(s, w)
    ensures ReadItem(s, At(s, w)) == Some((FormCopy(Full(low, high, more)), At(s, PutAll(w, events))))
  {
    var rest := [Data(low)] + ([Data(high)] + ([Data(more)] + []));
    FiveEvents(Bit(false), Bit(true), Data(low), Data(high), Data(more));
    var r := ExtendedForm(s, w, low, high, more, rest, events);
    FullItem(s, r, low, high, more);
  }

  lemma FullItem(s: seq<byte>, r: Reader, low: byte, high: byte, more: byte)
    requires r.pos + 2 < |s| && s[r.pos] == low && s[r.pos + 1] == high && s[r.pos + 2] == more
    requires low % 8 == 0 && (low != 0 || high != 0)
    ensures LongItem(s, r) == Some((FormCopy(Full(low, high, more)), r.(pos := r.pos + 3)))
  {
    LongOffset(low, high);
  }

  /** The decoder reads every form as what it stands for. */
  lemma {:induction false} FormRead(s: seq<byte>, w: Layout, f: Form)
    requires |w.ctrl| <= 8 && Telling(f) && Completes(s, PutAll(w, FormEvents(f)))
    ensures Completes(s, w) && ReadItem(s, At(s, w)) == Some((FormCopy(f), At(s, PutAll(w, FormEvents(f)))))
  {
    match f
    case Brief(x, y, d) => BriefRead(s, w, x, y, d, FormEvents(f));
    case Middle(low, high) => MiddleRead(s, w, low, high, FormEvents(f));
    case Full(low, high, more) => FullRead(s, w, low, high, more, FormEvents(f));
  }

  /** The form that the compressor gives to a copy. */
  function FormOf(o: int, size: nat): Form
    requires Encodable(o, size)
  {
    if IsShort(o, size) then Brief((size - 2) / 2 % 2 == 1, (size - 2) % 2 == 1, o % 256)
    else if size <= 9 then Middle(LowByte(o, size), o / 32 % 256)
    else Full(LowByte(o, size), o / 32 % 256, size - 1)
  }

  lemma BriefOf(o: int, size: nat)
    requires -0x100 < o <= -1 && 2 <= size <= 5
    ensures FormCopy(Brief((size - 2) / 2 % 2 == 1, (size - 2) % 2 == 1, o % 256)) == Copy(o, size)
  {
  }

  lemma LongOf(o: int, size: nat)
    requires Encodable(o, size) && !IsShort(o, size)
    ensures var f := FormOf(o, size);
      Telling(f) && FormEvents(f) == Events(Copy(o, size)) && FormCopy(f) == Copy(o, size)
  {
    LongWord(o, if size <= 9 then size - 2 else 0);
    LongOffset(LowByte(o, size), o / 32 % 256);
  }

  lemma {:induction false} FormOfIs(o: int, size: nat)
    requires Encodable(o, size)
    ensures var f := FormOf(o, size);
      Telling(f) && FormEvents(f) == Events(Copy(o, size)) && FormCopy(f) == Copy(o, size)
  {
    if IsShort(o, size) { BriefOf(o, size); } else { LongOf(o, size); }
  }

  /**
   A copy takes the shortest form that stands for it, but for sizes up to 5 at the offset -0x100: that
   would fit a data byte, and is not given one.
   */
  lemma {:induction false} ShortestForm(o: int, size: nat)
    requires Encodable(o, size)
    ensures var cost := Cost(Events(Copy(o, size)));
      (forall f :: Telling(f) && FormCopy(f) == Copy(o, size) ==> cost <= Cost(FormEvents(f)))
      <==> !(o == -0x100 && size <= 5)
  {
    FormOfIs(o, size);
    FormCost(FormOf(o, size));
    if o == -0x100 && size <= 5 {
      var f := SpareForm(size);
      FormCost(f);
    } else {
      forall f | Telling(f) && FormCopy(f) == Copy(o, size) ensures Cost(Events(Copy(o, size))) <= Cost(FormEvents(f)) {
        FormCost(f);
        NoShorter(o, size, f);
      }
    }
  }

  lemma NoShorter(o: int, size: nat, f: Form)
    requires Encodable(o, size) && Telling(f) && FormCopy(f) == Copy(o, size) && !(o == -0x100 && size <= 5)
    ensures f.Brief? ==> IsShort(o, size)
    ensures f.Middle? ==> size <= 9
  {
  }

  lemma SpareForm(size: nat) returns (f: Form)
    requires 2 <= size <= 5
    ensures f.Brief? && FormCopy(f) == Copy(-0x100, size)
  {
    f := Brief((size - 2) / 2 % 2 == 1, (size - 2) % 2 == 1, 0);
  }

  ghost predicate Proper(t: Item) {
    t.Copy? ==> Encodable(t.offset, t.size)
  }

  /** Whatever the bits and bytes before it, an item is read as it was put. */
  lemma {:induction false} ReadBack(s: seq<byte>, w: Layout, t: Item)
    requires |w.ctrl| <= 8 && Proper(t) && Completes(s, PutAll(w, Events(t)))
    ensures Completes(s, w) && ReadItem(s, At(s, w)) == Some((t, At(s, PutAll(w, Events(t)))))
  {
    match t
    case End => ReadEnd(s, w);
    case Raw(b) => ReadRaw(s, w, b);
    case Copy(o, size) =>
      FormOfIs(o, size);
      FormRead(s, w, FormOf(o, size));
  }

  /** A short form has room for the sizes 2 to 5 and the offsets -256 to -1. */
  lemma {:induction false} ShortMisread(s: seq<byte>, w: Layout, o: int, size: nat)
    requires |w.ctrl| <= 8 && IsShort(o, size) && !Encodable(o, size)
    requires Completes(s, PutAll(w, Events(Copy(o, size))))
    ensures Completes(s, w) && ReadItem(s, At(s, w)).Some? && ReadItem(s, At(s, w)).value.0 != Copy(o, size)
  {
    var x, y, d: byte := (size - 2) / 2 % 2 == 1, (size - 2) % 2 == 1, o % 256;
    BriefRead(s, w, x, y, d, Events(Copy(o, size)));
  }

  /** The first byte of a long form. */
  function LowByte(offset: int, size: nat): (low: nat)
    ensures low < 256 && low % 8 == if size <= 9 then (size - 2) % 8 else 0
  {
    assert offset * 8 % 256 == 8 * (offset % 32);
    offset * 8 % 256 + if size <= 9 then (size - 2) % 8 else 0
  }

  /** What the two bytes of a long form stand for, if the copy has no form. */
  lemma {:induction false} LongIsNot(s: seq<byte>, r: Reader, o: int, size: nat)
    requires size <= 255 && !IsShort(o, size) && !Encodable(o, size) && r.pos + 1 < |s|
    requires s[r.pos] == LowByte(o, size) && s[r.pos + 1] == o / 32 % 256
    ensures LongItem(s, r) != Some((Copy(o, size), r.(pos := r.pos + if size <= 9 then 2 else 3)))
  {
    if -0x2000 <= o <= -1 {
      LongWord(o, if size <= 9 then (size - 2) % 8 else 0);
    } else {
      InRange(s[r.pos], s[r.pos + 1]);
    }
  }

  lemma InRange(low: byte, high: byte)
    ensures -0x2000 <= (high as int * 256 + low) / 8 - 0x2000 <= -1
  {
  }

  lemma {:induction false} LongMisread(s: seq<byte>, w: Layout, o: int, size: nat)
    requires |w.ctrl| <= 8 && size <= 255 && !IsShort(o, size) && !Encodable(o, size)
    requires Completes(s, PutAll(w, Events(Copy(o, size))))
    ensures Completes(s, w)
    ensures ReadItem(s, At(s, w)) != Some((Copy(o, size), At(s, PutAll(w, Events(Copy(o, size))))))
  {
    var low: byte, high: byte := LowByte(o, size), o / 32 % 256;
    if size <= 9 {
      FourEvents(Bit(false), Bit(true), Data(low), Data(high));
      var r := InlineForm(s, w, low, high, [Data(low)] + ([Data(high)] + []), Events(Copy(o, size)));
      LongIsNot(s, r, o, size);
    } else {
      var rest := [Data(low)] + ([Data(high)] + ([Data(size - 1)] + []));
      FiveEvents(Bit(false), Bit(true), Data(low), Data(high), Data(size - 1));
      var r := ExtendedForm(s, w, low, high, size - 1, rest, Events(Copy(o, size)));
      LongIsNot(s, r, o, size);
    }
  }

  /** Exactly the copies that have a form are read back, of all that `prs_copy` takes. */
  lemma {:induction false} ReadBackExact(s: seq<byte>, w: Layout, o: int, size: nat)
    requires |w.ctrl| <= 8 && size <= 255 && Completes(s, PutAll(w, Events(Copy(o, size))))
    ensures Completes(s, w)
    ensures ReadItem(s, At(s, w)) == Some((Copy(o, size), At(s, PutAll(w, Events(Copy(o, size)))))) <==>
      Encodable(o, size)
  {
    if Encodable(o, size) {
      ReadBack(s, w, Copy(o, size));
    } else if IsShort(o, size) {
      ShortMisread(s, w, o, size);
    } else {
      LongMisread(s, w, o, size);
    }
  }

  // ---------------------------------------------------------------- whole streams

  ghost predicate Sized(tokens: seq<Item>) {
    forall i :: 0 <= i < |tokens| && tokens[i].Copy? ==> tokens[i].size <= 255
  }

  ghost function AllEvents(tokens: seq<Item>): seq<Event>
    requires Sized(tokens)
  {
    if tokens == [] then [] else AllEvents(tokens[..|tokens| - 1]) + Events(tokens[|tokens| - 1])
  }

  /** A byte, or a copy that reaches back into the output. */
  predicate Applicable(t: Item, out: seq<byte>) {
    match t
    case End => false
    case Raw(_) => true
    case Copy(o, _) => 1 <= -o <= |out|
  }

  function Apply(t: Item, out: seq<byte>): (r: seq<byte>)
    requires Applicable(t, out)
    ensures |r| == |out| + if t.Raw? then 1 else t.size
  {
    match t
    case Raw(b) => out + [b]
    case Copy(o, n) => Copied(out, -o, n)
  }

  /** The decoder, from any of its states. */
  function Decode(s: seq<byte>, r: Reader, out: seq<byte>): (v: Option<seq<byte>>)
    requires r.pos <= |s|
    decreases |s| - r.pos
  {
    var i := ReadItem(s, r);
    if i.None? then None
    else if i.value.0.End? then Some(out)
    else if Applicable(i.value.0, out) then Decode(s, i.value.1, Apply(i.value.0, out))
    else None
  }

  /** The control byte is loaded before the loop. */
  function Decompressed(s: seq<byte>): Option<seq<byte>> {
    if s == [] then None else Decode(s, Reader(1, s[0], 8), [])
  }

  /** Bytes and copies that have a form and reach back into the output. */
  ghost predicate Fits(tokens: seq<Item>, out: seq<byte>)
    decreases |tokens|
  {
    tokens != [] ==> Proper(tokens[0]) && Applicable(tokens[0], out) && Fits(tokens[1..], Apply(tokens[0], out))
  }

  ghost function Expansion(tokens: seq<Item>, out: seq<byte>): seq<byte>
    requires Fits(tokens, out)
    decreases |tokens|
  {
    if tokens == [] then out else Expansion(tokens[1..], Apply(tokens[0], out))
  }

  lemma {:induction false} FitsSized(tokens: seq<Item>, out: seq<byte>)
    requires Fits(tokens, out)
    ensures Sized(tokens)
    decreases |tokens|
  {
    if tokens != [] {
      FitsSized(tokens[1..], Apply(tokens[0], out));
      assert forall i :: 1 <= i < |tokens| ==> tokens[i] == tokens[1..][i - 1];
    }
  }

  lemma {:induction false} EventsFirst(tokens: seq<Item>)
    requires tokens != [] && Sized(tokens)
    ensures Sized(tokens[1..]) && AllEvents(tokens) == Events(tokens[0]) + AllEvents(tokens[1..])
  {
    EventsSpelled(tokens);
    EventsSpelled(tokens[1..]);
    SpellFirst(EventsOf(), tokens);
  }

  ghost function EventsOf(): Item -> seq<Event> {
    (t: Item) => if t.Copy? && t.size > 255 then [] else Events(t)
  }

  lemma {:induction false} EventsSpelled(tokens: seq<Item>)
    requires Sized(tokens)
    ensures AllEvents(tokens) == Spell(EventsOf(), tokens)
  {
    if tokens != [] { EventsSpelled(tokens[..|tokens| - 1]); }
  }

  /** The decoder follows the tokens, and then goes on from there. */
  lemma {:induction false} DecodeTokens(s: seq<byte>, w: Layout, tokens: seq<Item>, out: seq<byte>)
    requires |w.ctrl| <= 8 && Fits(tokens, out) && Sized(tokens) && Completes(s, PutAll(w, AllEvents(tokens)))
    ensures Completes(s, w)
    ensures Decode(s, At(s, w), out) == Decode(s, At(s, PutAll(w, AllEvents(tokens))), Expansion(tokens, out))
    decreases |tokens|
  {
    if tokens != [] {
      var t, rest := tokens[0], tokens[1..];
      EventsFirst(tokens);
      PutAllConcat(w, Events(t), AllEvents(rest));
      var v := PutAll(w, Events(t));
      DecodeTokens(s, v, rest, Apply(t, out));
      ReadBack(s, w, t);
    }
  }
}
