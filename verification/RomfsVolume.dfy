/** Whole volumes of tools/genromfs/genromfs.c: what can be relied on in the image of any directory. */
module RomfsVolume {
  import opened Binary
  import opened Bytes
  import opened Multiples
  import opened RomfsHeader
  import opened RomfsLayout

  // ---------------------------------------------------------------- alignment

  lemma {:induction false} MultipleOf16(x: nat, k: nat)
    requires k >= 4 && x % Pow2(k) == 0
    ensures x % 16 == 0
    decreases k
  {
    if k == 4 {
      assert Pow2(4) == 16;
    } else {
      var p := Pow2(k - 1);
      var q := x / (2 * p);
      assert x == q * (2 * p) == (2 * q) * p;
      Remainder(x, p, 2 * q, 0);
      MultipleOf16(x, k - 1);
    }
  }

  lemma Sixteens(a: nat, b: nat, c: nat)
    requires a % 16 == 0 && c % 16 == 0 && (a + b + c) % 16 == 0
    ensures b % 16 == 0
  {
  }

  /** A header on a multiple of 16, and what is to be aligned on a multiple of the alignment. */
  ghost predicate NodePlaced(i: Info, o: nat) {
    o % 16 == 0 && i.align > 0 && AlignedAt(i, o)
  }

  lemma {:induction false} PadPlaces(i: Info, cur: nat)
    requires (exists k :: k >= 4 && i.align == Pow2(k)) && cur % 16 == 0
    ensures i.align > 0 && NodePlaced(i, cur + Pad(i, cur)) && (cur + Pad(i, cur) + Space(i)) % 16 == 0
  {
    AlignPositive(i);
    var pad := Pad(i, cur);
    assert pad % 16 == 0 by { PadMultiple(i, cur); }
    Add16(cur, pad);
    Add16(cur + pad, Space(i));
  }

  lemma Add16(a: nat, b: nat)
    requires a % 16 == 0 && b % 16 == 0
    ensures (a + b) % 16 == 0
  {
  }

  lemma {:induction false} PadMultiple(i: Info, cur: nat)
    requires (exists k :: k >= 4 && i.align == Pow2(k)) && cur % 16 == 0
    ensures i.align > 0 && Pad(i, cur) % 16 == 0
  {
    var k: nat :| k >= 4 && i.align == Pow2(k);
    var x := cur + Pad(i, cur) + Lead(i);
    assert x % 16 == 0 by { MultipleOf16(x, k); }
    Sixteens(cur, Pad(i, cur), Lead(i));
  }

  ghost predicate WellPlaced(n: Nodes) {
    n.Node? ==> NodePlaced(n.info, n.offset) && WellPlaced(n.children) && WellPlaced(n.next)
  }

  lemma {:induction false} LayoutPlaces(es: Entries, cur: nat)
    requires Aligned(es) && cur % 16 == 0
    ensures WellPlaced(Layout(es, cur).0) && Layout(es, cur).1 % 16 == 0 && cur <= Layout(es, cur).1
    decreases es
  {
    if es.Cons? {
      var first, middle := LayoutCons(es, cur);
      PadPlaces(es.info, cur);
      LayoutPlaces(es.children, first);
      LayoutPlaces(es.rest, middle);
    }
  }

  // ---------------------------------------------------------------- what a header says

  lemma {:induction false} FourWords(a: nat, b: nat, c: nat, d: seq<byte>)
    requires |d| >= 4
    ensures var h := BE32(a) + BE32(b) + BE32(c) + d;
      && h[..4] == BE32(a) && h[4..8] == BE32(b) && h[8..12] == BE32(c) && h[12..] == d
  {
  }

  /** The fields of a header, as a reader finds them. */
  lemma {:induction false} HeaderSays(n: Nodes, offsets: seq<nat>)
    requires n.Node?
    ensures var h := Header(n, offsets);
      && WordAt(h[..4]) == NextField(n) % WORD && WordAt(h[4..8]) == SpecOf(n, offsets) % WORD
      && WordAt(h[8..12]) == |Contents(n.info)| % WORD && h[16..] == Padded(n.info.name + [0])
  {
    var next, spec, size := NextField(n), SpecOf(n, offsets), |Contents(n.info)|;
    var tail := BE32(0x5555_5555) + Padded(n.info.name + [0]);
    var raw := RawHeader(next, spec, size, n.info.name);
    assert raw == BE32(next) + BE32(spec) + BE32(size) + tail;
    FourWords(next, spec, size, tail);
    WordOfBE32(next);
    WordOfBE32(spec);
    WordOfBE32(size);
    var h := FixSum(raw, |raw|);
    assert h[..4] == h[..12][..4] && h[4..8] == h[..12][4..8] && h[8..12] == h[..12][8..12];
    assert raw[..4] == raw[..12][..4] && raw[4..8] == raw[..12][4..8] && raw[8..12] == raw[..12][8..12];
    assert raw[16..] == tail[4..] == Padded(n.info.name + [0]);
  }

  /** What a reader finds at the offset of a node: its link, type, size, name and contents, and a sum of zero. */
  ghost predicate NodeReadable(img: seq<byte>, n: Nodes, offsets: seq<nat>)
    requires n.Node?
  {
    var end := n.offset + HeaderSize(n.info);
    && end <= |img| && HeaderReadable(img[n.offset..end], n, offsets) && At(img, end, Contents(n.info))
  }

  ghost predicate HeaderReadable(h: seq<byte>, n: Nodes, offsets: seq<nat>)
    requires n.Node? && |h| >= 16
  {
    && Sum(h) == 0
    && WordAt(h[..4]) / 16 * 16 == NextOffset(n) % WORD && WordAt(h[..4]) % 16 == ExecBit(n.info) + TypeOf(n.info.kind)
    && WordAt(h[4..8]) == SpecOf(n, offsets) % WORD && WordAt(h[8..12]) == |Contents(n.info)| % WORD
    && h[16..] == Padded(n.info.name + [0])
  }

  ghost predicate Readable(img: seq<byte>, n: Nodes, offsets: seq<nat>) {
    n.Node? ==> NodeReadable(img, n, offsets) && Readable(img, n.children, offsets) && Readable(img, n.next, offsets)
  }

  lemma LinkWord(o: nat, t: nat)
    requires o % 16 == 0 && t < 16
    ensures (o + t) % WORD / 16 * 16 == o % WORD && (o + t) % WORD % 16 == t
  {
    var a, m := o / 16, 0x1000_0000;
    var q, s := a / m, a % m;
    QuotientAndRemainder(o, WORD, q, 16 * s);
    QuotientAndRemainder(o + t, WORD, q, 16 * s + t);
    QuotientAndRemainder(16 * s + t, 16, s, t);
  }

  lemma {:induction false} HeaderIsReadable(n: Nodes, offsets: seq<nat>)
    requires n.Node? && WellPlaced(n)
    ensures HeaderReadable(Header(n, offsets), n, offsets)
  {
    HeaderSum(n, offsets);
    HeaderSays(n, offsets);
    NextIs(n, NextField(n));
    ReadableFrom(Header(n, offsets), NextField(n), n, offsets);
  }

  lemma {:induction false} NextIs(n: Nodes, next: nat)
    requires n.Node? && WellPlaced(n) && next == NextField(n)
    ensures NextOffset(n) % 16 == 0 && next == NextOffset(n) + ExecBit(n.info) + TypeOf(n.info.kind)
  {
    NextFieldIsSum(n);
  }

  lemma ReadableFrom(h: seq<byte>, next: nat, n: Nodes, offsets: seq<nat>)
    requires n.Node? && |h| >= 16 && Sum(h) == 0 && NextOffset(n) % 16 == 0
    requires next == NextOffset(n) + ExecBit(n.info) + TypeOf(n.info.kind) && WordAt(h[..4]) == next % WORD
    requires WordAt(h[4..8]) == SpecOf(n, offsets) % WORD && WordAt(h[8..12]) == |Contents(n.info)| % WORD
    requires h[16..] == Padded(n.info.name + [0])
    ensures HeaderReadable(h, n, offsets)
  {
    LinkWord(NextOffset(n), ExecBit(n.info) + TypeOf(n.info.kind));
  }

  ghost predicate GoodHeaders(hs: Headers, offsets: seq<nat>) {
    forall n: Nodes :: n.Node? && WellPlaced(n) ==> |hs(n)| == HeaderSize(n.info) && HeaderReadable(hs(n), n, offsets)
  }

  lemma {:induction false} HeadersAreGood(offsets: seq<nat>)
    ensures GoodHeaders(HeadersFor(offsets), offsets)
  {
    forall n: Nodes | n.Node? && WellPlaced(n) ensures HeaderReadable(Header(n, offsets), n, offsets) {
      HeaderIsReadable(n, offsets);
    }
  }

  lemma {:induction false} InPlaceIsReadable(img: seq<byte>, n: Nodes, offsets: seq<nat>, hs: Headers)
    requires WellPlaced(n) && InPlace(img, n, hs) && GoodHeaders(hs, offsets)
    ensures Readable(img, n, offsets)
    decreases n
  {
    if n.Node? {
      InPlaceIsReadable(img, n.children, offsets, hs);
      InPlaceIsReadable(img, n.next, offsets, hs);
    }
  }

  // ---------------------------------------------------------------- volumes

  ghost function HeadersFor(offsets: seq<nat>): Headers {
    (n: Nodes) => if n.Node? then Header(n, offsets) else []
  }

  lemma {:induction false} HeadersSized(offsets: seq<nat>)
    ensures Sized(HeadersFor(offsets))
  {
  }

  function VolumeHeader(volume: seq<byte>, size: nat): seq<byte> {
    RawHeader(0x2d72_6f6d, 0x3166_732d, size, volume)
  }

  function Tail(size: nat): (n: nat)
    ensures n < 1024 && (size + n) % 1024 == 0
  {
    if size % 1024 == 0 then 0 else 1024 - size % 1024
  }

  /** The bytes that the second pass hands to `dumpdata`, in order. */
  ghost function Dumped(volume: seq<byte>, n: Nodes, size: nat): seq<byte> {
    VolumeHeader(volume, size) + ImageWith(n, HeadersFor(Offsets(n))) + Zeros(Tail(size))
  }

  function Start(volume: seq<byte>): (n: nat)
    ensures n % 16 == 0 && n >= 32
  {
    16 + Up16(|volume| + 1)
  }

  function Checked(size: nat): nat {
    if 512 < size then 512 else size
  }

  /** The file: `dumpdata` fixes the checksum of the first bytes on their way out. */
  ghost function Volume(volume: seq<byte>, n: Nodes, size: nat): seq<byte>
    requires 32 <= size && size <= |Dumped(volume, n, size)|
  {
    FixSum(Dumped(volume, n, size), Checked(size))
  }

  lemma {:induction false} DumpedSize(volume: seq<byte>, es: Entries)
    requires Aligned(es)
    ensures var (n, size) := Layout(es, Start(volume));
      && 32 <= size && size % 16 == 0 && |Dumped(volume, n, size)| == size + Tail(size)
      && At(Dumped(volume, n, size), Start(volume), ImageWith(n, HeadersFor(Offsets(n))))
  {
    var (n, size) := Layout(es, Start(volume));
    var hs := HeadersFor(Offsets(n));
    HeadersSized(Offsets(n));
    LayoutPlaces(es, Start(volume));
    ImageSize(es, Start(volume), hs);
    var h, img, z := VolumeHeader(volume, size), ImageWith(n, hs), Zeros(Tail(size));
    assert (h + img + z)[|h|..|h| + |img|] == img;
  }

  /** A volume begins with the letters `-rom1fs-`, its size and its checksum. */
  lemma {:induction false} VolumeBegins(volume: seq<byte>, n: Nodes, size: nat)
    requires 32 <= size <= |Dumped(volume, n, size)|
    ensures var img := Volume(volume, n, size);
      img[..8] == [0x2d, 0x72, 0x6f, 0x6d, 0x31, 0x66, 0x73, 0x2d] && WordAt(img[8..12]) == size % WORD
  {
    var raw := Dumped(volume, n, size);
    assert raw[..12] == VolumeHeader(volume, size)[..12];
    VolumeWords(volume, size);
    FrontWords(Volume(volume, n, size), BE32(0x2d72_6f6d), BE32(0x3166_732d), BE32(size));
    WordOfBE32(size);
    Letters();
  }

  lemma VolumeWords(volume: seq<byte>, size: nat)
    ensures VolumeHeader(volume, size)[..12] == BE32(0x2d72_6f6d) + BE32(0x3166_732d) + BE32(size)
  {
  }

  lemma Letters()
    ensures BE32(0x2d72_6f6d) + BE32(0x3166_732d) == [0x2d, 0x72, 0x6f, 0x6d, 0x31, 0x66, 0x73, 0x2d]
  {
  }

  lemma FrontWords(s: seq<byte>, a: seq<byte>, b: seq<byte>, c: seq<byte>)
    requires |a| == |b| == |c| == 4 && |s| >= 12 && s[..12] == a + b + c
    ensures s[..8] == a + b && s[8..12] == c
  {
    assert s[..8] == s[..12][..8] && s[8..12] == s[..12][8..];
  }

  /** A change before the offset does not matter. */
  lemma AtKept(a: seq<byte>, b: seq<byte>, o: nat, s: seq<byte>, k: nat)
    requires At(a, o, s) && |a| == |b| && k <= o && k <= |a| && a[k..] == b[k..]
    ensures At(b, o, s)
  {
    forall i | 0 <= i < |s| ensures b[o + i] == s[i] {
      assert a[o + i] == a[o..o + |s|][i] && a[o + i] == a[k..][o + i - k] && b[o + i] == b[k..][o + i - k];
    }
  }

  /**
   The image of any directory: as long as the first pass says, up to a multiple of 1024; every node
   where the first pass put it, readable and adding up to zero, with links that are offsets; and the
   first 512 bytes adding up to zero, or all of them if there are fewer.
   */
  lemma {:induction false} VolumeIsRight(volume: seq<byte>, es: Entries)
    requires Aligned(es)
    ensures var (n, size) := Layout(es, Start(volume));
      && 32 <= size <= |Dumped(volume, n, size)|
      && |Volume(volume, n, size)| == size + Tail(size)
      && InPlace(Volume(volume, n, size), n, HeadersFor(Offsets(n)))
      && WellPlaced(n) && Readable(Volume(volume, n, size), n, Offsets(n))
      && Sum(Volume(volume, n, size)[..Checked(size)]) == 0
  {
    var (n, size) := Layout(es, Start(volume));
    var hs := HeadersFor(Offsets(n));
    DumpedSize(volume, es);
    var raw := Dumped(volume, n, size);
    var img := Volume(volume, n, size);
    FixedSum(raw, Checked(size));
    AtKept(raw, img, Start(volume), ImageWith(n, hs), 16);
    HeadersSized(Offsets(n));
    PassesAgree(es, Start(volume), hs, img);
    LayoutPlaces(es, Start(volume));
    HeadersAreGood(Offsets(n));
    InPlaceIsReadable(img, n, Offsets(n), hs);
  }
}
