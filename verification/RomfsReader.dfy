/**
 A reader of the images of tools/genromfs/genromfs.c. It knows nothing but the image: it finds the first
 header behind that of the volume, and follows the links.
 */
module RomfsReader {
  import opened Binary
  import opened Bytes
  import opened Multiples
  import opened Options
  import opened RomfsHeader
  import opened RomfsLayout
  import opened RomfsVolume

  // ---------------------------------------------------------------- the reader

  /** The first zero at or behind `o`, or the end. */
  function ZeroFrom(img: seq<byte>, o: nat): (e: nat)
    requires o <= |img|
    ensures o <= e <= |img|
    decreases |img| - o
  {
    if o == |img| || img[o] == 0 then o else ZeroFrom(img, o + 1)
  }

  /** What a header says. */
  datatype Head = Head(next: nat, tag: nat, exec: bool, spec: nat, size: nat, name: seq<byte>)

  /** The header at `o`, if its words add up to zero. */
  function ReadHead(img: seq<byte>, o: nat): (h: Option<Head>)
    ensures h.Some? ==> o + 16 <= |img|
  {
    if o + 16 > |img| then None
    else
      var e := ZeroFrom(img, o + 16);
      var end := o + 16 + Up16(e + 1 - (o + 16));
      if e == |img| || end > |img| || Sum(img[o..end]) != 0 then None
      else Some(ParseHead(img[o..end], img[o + 16..e]))
  }

  function ParseHead(h: seq<byte>, name: seq<byte>): Head
    requires |h| >= 16
  {
    var w := WordAt(h[..4]);
    Head(w / 16 * 16, w % 8, w % 16 >= EXEC, WordAt(h[4..8]), WordAt(h[8..12]), name)
  }

  /** What the entry is; a hard link names the offset of its target. */
  function KindAt(img: seq<byte>, data: nat, h: Head): Option<Kind> {
    match h.tag
    case 0 => Some(Hard(h.spec))
    case 1 => Some(Dir)
    case 2 => if data + h.size <= |img| then Some(Reg(img[data..data + h.size])) else None
    case 3 => if data + h.size <= |img| then Some(Lnk(img[data..data + h.size])) else None
    case 4 => Some(Blk(h.spec))
    case 5 => Some(Chr(h.spec))
    case 6 => Some(Sock)
    case _ => Some(Fifo)
  }

  /** A header and what its entry is, at an offset. */
  type Reading = nat -> Option<(Head, Kind)>

  function ReadEntry(img: seq<byte>, o: nat): Option<(Head, Kind)> {
    var h := ReadHead(img, o);
    if h.None? then None
    else
      var k := KindAt(img, o + 16 + Up16(|h.value.name| + 1), h.value);
      if k.None? then None else Some((h.value, k.value))
  }

  /** The list whose first header is at `o`. Links lead upwards, and an empty directory names itself. */
  function ListWith(read: Reading, limit: nat, o: nat): Option<Nodes>
    decreases if o < limit then limit - o else 0
  {
    if o >= limit || read(o).None? then None
    else
      var (h, kind) := read(o).value;
      var children :=
        if h.tag != 1 || h.spec == o then Some(End) else if h.spec > o then ListWith(read, limit, h.spec) else None;
      var rest := if h.next == 0 then Some(End) else if h.next > o then ListWith(read, limit, h.next) else None;
      if children.None? || rest.None? then None
      else Some(Node(Info(h.name, kind, h.exec, 0), o, 0, children.value, rest.value))
  }

  function Reader(img: seq<byte>): Reading {
    (x: nat) => ReadEntry(img, x)
  }

  function ReadList(img: seq<byte>, o: nat): Option<Nodes> {
    ListWith(Reader(img), |img|, o)
  }

  function IndexOf(s: seq<nat>, x: nat): nat {
    if s == [] || s[0] == x then 0 else 1 + IndexOf(s[1..], x)
  }

  /** The entries of a list; a hard link names its target by its place in the order of the offsets. */
  function Forget(n: Nodes, offsets: seq<nat>): Entries {
    match n
    case End => Nil
    case Node(i, _, _, c, r) =>
      var kind := if i.kind.Hard? then Hard(IndexOf(offsets, i.kind.target)) else i.kind;
      Cons(i.(kind := kind), Forget(c, offsets), Forget(r, offsets))
  }

  /** Where the first header should be, and the end, according to the header of the volume. */
  function ReadFront(img: seq<byte>): Option<(nat, nat)> {
    if |img| < 16 || WordAt(img[..4]) != 0x2d72_6f6d || WordAt(img[4..8]) != 0x3166_732d then None
    else
      var size, e := WordAt(img[8..12]), ZeroFrom(img, 16);
      var start := 16 + Up16(e + 1 - 16);
      if e == |img| || !(start <= size <= |img|) || Sum(img[..Checked(size)]) != 0 then None else Some((start, size))
  }

  /** The directory in an image. */
  function ReadVolume(img: seq<byte>): Option<Entries> {
    var front := ReadFront(img);
    if front.None? then None
    else if front.value.0 == front.value.1 then Some(Nil)
    else
      var n := ReadList(img, front.value.0);
      if n.None? then None else Some(Forget(n.value, Offsets(n.value)))
  }

  // ---------------------------------------------------------------- what can be seen of a directory

  /** An image holds everything but the alignments, and the execute bits of directories and regular files only. */
  function Visible(es: Entries): Entries {
    match es
    case Nil => Nil
    case Cons(i, c, r) =>
      Cons(Info(i.name, i.kind, i.exec && (i.kind.Dir? || i.kind.Reg?), 0), Visible(c), Visible(r))
  }

  function SeenKind(k: Kind, offsets: seq<nat>): Kind {
    match k
    case Hard(t) => Hard(if t < |offsets| then offsets[t] else 0)
    case _ => k
  }

  function Seen(n: Nodes, offsets: seq<nat>): Nodes {
    match n
    case End => End
    case Node(i, o, _, c, r) =>
      Node(Info(i.name, SeenKind(i.kind, offsets), ExecBit(i) == EXEC, 0), o, 0, Seen(c, offsets), Seen(r, offsets))
  }

  function Count(es: Entries): nat {
    match es
    case Nil => 0
    case Cons(_, c, r) => 1 + Count(c) + Count(r)
  }

  /** Names are strings, hard links have targets, and device numbers have 32 bits. */
  ghost predicate Storable(es: Entries, count: nat) {
    match es
    case Nil => true
    case Cons(i, c, r) => 0 !in i.name && KindFits(i.kind, count) && Storable(c, count) && Storable(r, count)
  }

  predicate KindFits(k: Kind, count: nat) {
    match k
    case Hard(t) => t < count
    case Chr(d) => d < WORD
    case Blk(d) => d < WORD
    case _ => true
  }

  // ---------------------------------------------------------------- one header

  lemma {:induction false} ZeroIs(img: seq<byte>, o: nat, name: seq<byte>)
    requires At(img, o, name + [0]) && 0 !in name
    ensures ZeroFrom(img, o) == o + |name|
    decreases |name|
  {
    var s := name + [0];
    assert img[o] == img[o..o + |s|][0] == s[0];
    if name != [] {
      assert img[o + 1..o + |s|] == img[o..o + |s|][1..] && s[1..] == name[1..] + [0];
      ZeroIs(img, o + 1, name[1..]);
    }
  }

  lemma SliceBehind(img: seq<byte>, o: nat, end: nat)
    requires o + 16 <= end <= |img|
    ensures img[o..end][16..] == img[o + 16..end]
  {
  }

  lemma NameAt(img: seq<byte>, o: nat, end: nat, name: seq<byte>)
    requires o <= end <= |img| && img[o..end] == Padded(name + [0])
    ensures At(img, o, name + [0]) && end == o + Up16(|name| + 1) && img[o..o + |name|] == name
  {
    var s := name + [0];
    assert img[o..o + |s|] == img[o..end][..|s|] == s;
    assert img[o..o + |name|] == img[o..o + |s|][..|name|] == name;
  }

  lemma LowFour(w: nat, e: nat, t: nat)
    requires w % 16 == e + t && (e == 0 || e == EXEC) && t < 8
    ensures w % 8 == t && (w % 16 >= EXEC <==> e == EXEC)
  {
    QuotientAndRemainder(w, 8, 2 * (w / 16) + e / 8, t);
  }

  /** The node can be read: what it refers to fits 32-bit words, and links lead upwards. */
  ghost predicate Plain(n: Nodes, offsets: seq<nat>) {
    n.Node? ==>
      && 0 < n.offset < WORD && |Contents(n.info)| < WORD && 0 !in n.info.name
      && KindFits(n.info.kind, |offsets|) && (n.info.kind.Hard? ==> offsets[n.info.kind.target] < WORD)
      && (!n.info.kind.Dir? ==> n.children == End)
      && (n.children.Node? ==> n.offset < n.children.offset) && (n.next.Node? ==> n.offset < n.next.offset)
      && Plain(n.children, offsets) && Plain(n.next, offsets)
  }

  function HeadOf(n: Nodes, offsets: seq<nat>): Head
    requires n.Node?
  {
    Head(NextOffset(n), TypeOf(n.info.kind), ExecBit(n.info) == EXEC, SpecOf(n, offsets), |Contents(n.info)|,
         n.info.name)
  }

  lemma {:induction false} PlainWords(n: Nodes, offsets: seq<nat>)
    requires n.Node? && Plain(n, offsets)
    ensures NextOffset(n) < WORD && SpecOf(n, offsets) < WORD && |Contents(n.info)| < WORD
  {
    assert Plain(n.next, offsets) && Plain(n.children, offsets);
  }

  lemma {:induction false} HeadIs(img: seq<byte>, n: Nodes, offsets: seq<nat>)
    requires n.Node? && NodeReadable(img, n, offsets) && Plain(n, offsets)
    ensures ReadHead(img, n.offset) == Some(HeadOf(n, offsets))
  {
    var o, end := n.offset, n.offset + HeaderSize(n.info);
    PlainWords(n, offsets);
    SliceBehind(img, o, end);
    HeadAt(img, o, end, n.info.name);
    WordsAre(img[o..end], n, offsets);
  }

  lemma {:induction false} HeadAt(img: seq<byte>, o: nat, end: nat, name: seq<byte>)
    requires o + 16 <= end <= |img| && img[o + 16..end] == Padded(name + [0]) && 0 !in name && Sum(img[o..end]) == 0
    ensures ReadHead(img, o) == Some(ParseHead(img[o..end], name))
  {
    NameAt(img, o + 16, end, name);
    ZeroIs(img, o + 16, name);
  }

  lemma {:induction false} WordsAre(h: seq<byte>, n: Nodes, offsets: seq<nat>)
    requires n.Node? && |h| >= 16 && HeaderReadable(h, n, offsets)
    requires NextOffset(n) < WORD && SpecOf(n, offsets) < WORD && |Contents(n.info)| < WORD
    ensures ParseHead(h, n.info.name) == HeadOf(n, offsets)
  {
    InWord(NextOffset(n));
    InWord(SpecOf(n, offsets));
    InWord(|Contents(n.info)|);
    FieldsAre(h, WordAt(h[..4]), NextOffset(n), ExecBit(n.info), TypeOf(n.info.kind), SpecOf(n, offsets),
              |Contents(n.info)|, n.info.name);
  }

  lemma InWord(x: nat)
    requires x < WORD
    ensures x % WORD == x
  {
  }

  lemma FieldsAre(h: seq<byte>, w: nat, next: nat, e: nat, t: nat, spec: nat, size: nat, name: seq<byte>)
    requires |h| >= 16 && w == WordAt(h[..4]) && w / 16 * 16 == next && w % 16 == e + t
    requires (e == 0 || e == EXEC) && t < 8
    requires WordAt(h[4..8]) == spec && WordAt(h[8..12]) == size
    ensures ParseHead(h, name) == Head(next, t, e == EXEC, spec, size, name)
  {
    LowFour(w, e, t);
  }

  // ---------------------------------------------------------------- all headers

  lemma {:induction false} KindIs(img: seq<byte>, n: Nodes, offsets: seq<nat>)
    requires n.Node? && NodeReadable(img, n, offsets) && Plain(n, offsets)
    ensures KindAt(img, n.offset + HeaderSize(n.info), HeadOf(n, offsets)) == Some(SeenKind(n.info.kind, offsets))
  {
    var data := n.offset + HeaderSize(n.info);
    assert img[data..data + |Contents(n.info)|] == Contents(n.info);
  }

  /** The reader finds what each node says. */
  ghost predicate Reads(read: Reading, limit: nat, n: Nodes, offsets: seq<nat>) {
    n.Node? ==>
      && n.offset < limit && read(n.offset) == Some((HeadOf(n, offsets), SeenKind(n.info.kind, offsets)))
      && Reads(read, limit, n.children, offsets) && Reads(read, limit, n.next, offsets)
  }

  lemma {:induction false} ReadableReads(img: seq<byte>, n: Nodes, offsets: seq<nat>)
    requires Readable(img, n, offsets) && Plain(n, offsets)
    ensures Reads(Reader(img), |img|, n, offsets)
    decreases n
  {
    if n.Node? {
      EntryIs(img, n, offsets);
      ReadableReads(img, n.children, offsets);
      ReadableReads(img, n.next, offsets);
    }
  }

  lemma {:induction false} EntryIs(img: seq<byte>, n: Nodes, offsets: seq<nat>)
    requires n.Node? && NodeReadable(img, n, offsets) && Plain(n, offsets)
    ensures ReadEntry(img, n.offset) == Some((HeadOf(n, offsets), SeenKind(n.info.kind, offsets)))
  {
    HeadIs(img, n, offsets);
    KindIs(img, n, offsets);
    EntryFrom(img, n.offset, HeadOf(n, offsets), SeenKind(n.info.kind, offsets));
  }

  lemma EntryFrom(img: seq<byte>, o: nat, h: Head, kind: Kind)
    requires ReadHead(img, o) == Some(h) && KindAt(img, o + 16 + Up16(|h.name| + 1), h) == Some(kind)
    ensures ReadEntry(img, o) == Some((h, kind))
  {
  }

  /** So it finds the list that was laid out. */
  lemma {:induction false} ReadsBack(read: Reading, limit: nat, n: Nodes, offsets: seq<nat>)
    requires n.Node? && Reads(read, limit, n, offsets) && Plain(n, offsets)
    ensures ListWith(read, limit, n.offset) == Some(Seen(n, offsets))
    decreases n
  {
    assert Plain(n.next, offsets) && Plain(n.children, offsets);
    if n.children.Node? { ReadsBack(read, limit, n.children, offsets); }
    if n.next.Node? { ReadsBack(read, limit, n.next, offsets); }
    OneNode(read, limit, n.offset, HeadOf(n, offsets), SeenKind(n.info.kind, offsets), Seen(n.children, offsets),
            Seen(n.next, offsets));
  }

  /** One step of the reader. */
  lemma {:induction false} OneNode(read: Reading, limit: nat, o: nat, h: Head, kind: Kind, children: Nodes, next: Nodes)
    requires o < limit && read(o) == Some((h, kind))
    requires if h.tag != 1 || h.spec == o then children == End
             else h.spec > o && ListWith(read, limit, h.spec) == Some(children)
    requires if h.next == 0 then next == End else h.next > o && ListWith(read, limit, h.next) == Some(next)
    ensures ListWith(read, limit, o) == Some(Node(Info(h.name, kind, h.exec, 0), o, 0, children, next))
  {
  }

  // ---------------------------------------------------------------- the first pass

  ghost predicate Increasing(s: seq<nat>, low: nat, high: nat) {
    && (forall i :: 0 <= i < |s| ==> low <= s[i] < high)
    && forall i, j :: 0 <= i < j < |s| ==> s[i] < s[j]
  }

  lemma IncreasingParts(o: nat, c: seq<nat>, r: seq<nat>, low: nat, first: nat, middle: nat, high: nat)
    requires low <= o < first <= middle <= high && Increasing(c, first, middle) && Increasing(r, middle, high)
    ensures Increasing([o] + c + r, low, high)
  {
  }

  /** The offsets of a list are as many as its entries, and each is greater than the one before. */
  lemma {:induction false} OffsetsIncrease(es: Entries, cur: nat)
    requires Aligned(es)
    ensures var (n, end) := Layout(es, cur); cur <= end && |Offsets(n)| == Count(es) && Increasing(Offsets(n), cur, end)
    decreases es
  {
    if es.Cons? {
      var first, middle := LayoutCons(es, cur);
      OffsetsIncrease(es.children, first);
      OffsetsIncrease(es.rest, middle);
      var n := Layout(es, cur).0;
      IncreasingParts(n.offset, Offsets(n.children), Offsets(n.next), cur, first, middle, Layout(es, cur).1);
    }
  }

  /** A directory is followed by what is in it, and all of that by the next entry. */
  lemma {:induction false} DepthFirst(es: Entries, cur: nat, j: nat)
    requires Aligned(es) && es.Cons? && j < |Offsets(Layout(es, cur).0.children)|
    ensures var n := Layout(es, cur).0; var o := Offsets(n.children)[j];
      n.offset < o && (n.next.Node? ==> o < n.next.offset)
  {
    var n := Layout(es, cur).0;
    var first, middle := LayoutCons(es, cur);
    OffsetsIncrease(es.children, first);
    OffsetsIncrease(es.rest, middle);
    assert n.next.Node? ==> Offsets(n.next)[0] == n.next.offset;
  }

  /** Where a list begins. */
  lemma {:induction false} LayoutBegins(es: Entries, cur: nat)
    requires Aligned(es)
    ensures var (n, end) := Layout(es, cur);
      cur <= end && (n.Node? <==> es.Cons?) && (n.Node? ==> cur <= n.offset < end)
  {
    if es.Cons? {
      var first, middle := LayoutCons(es, cur);
      OffsetsIncrease(es.children, first);
      OffsetsIncrease(es.rest, middle);
    }
    OffsetsIncrease(es, cur);
  }

  lemma {:induction false} LayoutPlain(es: Entries, cur: nat, offsets: seq<nat>)
    requires Aligned(es) && Storable(es, |offsets|) && 0 < cur && Layout(es, cur).1 <= WORD
    requires forall t :: 0 <= t < |offsets| ==> offsets[t] < WORD
    ensures Plain(Layout(es, cur).0, offsets)
    decreases es
  {
    if es.Cons? {
      var first, middle := LayoutCons(es, cur);
      LayoutBegins(es.children, first);
      LayoutBegins(es.rest, middle);
      LayoutPlain(es.children, first, offsets);
      LayoutPlain(es.rest, middle, offsets);
    }
  }

  // ---------------------------------------------------------------- back to the entries

  lemma {:induction false} OffsetsSeen(n: Nodes, offsets: seq<nat>)
    ensures Offsets(Seen(n, offsets)) == Offsets(n)
  {
    if n.Node? {
      OffsetsSeen(n.children, offsets);
      OffsetsSeen(n.next, offsets);
    }
  }

  lemma {:induction false} IndexIs(s: seq<nat>, t: nat, low: nat, high: nat)
    requires t < |s| && Increasing(s, low, high)
    ensures IndexOf(s, s[t]) == t
  {
    if t > 0 {
      assert s[0] < s[t] && s[1..][t - 1] == s[t];
      IndexIs(s[1..], t - 1, low, high);
    }
  }

  lemma {:induction false} ForgetSeen(es: Entries, cur: nat, offsets: seq<nat>, low: nat, high: nat)
    requires Aligned(es) && Storable(es, |offsets|) && Increasing(offsets, low, high)
    ensures Forget(Seen(Layout(es, cur).0, offsets), offsets) == Visible(es)
    decreases es
  {
    if es.Cons? {
      var first, middle := LayoutCons(es, cur);
      ForgetSeen(es.children, first, offsets, low, high);
      ForgetSeen(es.rest, middle, offsets, low, high);
      if es.info.kind.Hard? { IndexIs(offsets, es.info.kind.target, low, high); }
    }
  }

  // ---------------------------------------------------------------- volumes

  lemma {:induction false} VolumeWords(volume: seq<byte>, size: nat)
    requires size < WORD
    ensures var h := VolumeHeader(volume, size);
      && WordAt(h[..4]) == 0x2d72_6f6d && WordAt(h[4..8]) == 0x3166_732d && WordAt(h[8..12]) == size
      && h[16..] == Padded(volume + [0])
  {
    var tail := BE32(0x5555_5555) + Padded(volume + [0]);
    var h := VolumeHeader(volume, size);
    assert h == BE32(0x2d72_6f6d) + BE32(0x3166_732d) + BE32(size) + tail;
    ThreeWords(0x2d72_6f6d, 0x3166_732d, size, tail, h);
    assert h[16..] == h[12..][4..];
  }

  lemma {:induction false} ThreeWords(a: nat, b: nat, c: nat, tail: seq<byte>, h: seq<byte>)
    requires a < WORD && b < WORD && c < WORD && |tail| >= 4 && h == BE32(a) + BE32(b) + BE32(c) + tail
    ensures WordAt(h[..4]) == a && WordAt(h[4..8]) == b && WordAt(h[8..12]) == c && h[12..] == tail
  {
    FourWords(a, b, c, tail);
    WordBack(a);
    WordBack(b);
    WordBack(c);
  }

  lemma {:induction false} WordBack(v: nat)
    requires v < WORD
    ensures WordAt(BE32(v)) == v
  {
    WordOfBE32(v);
  }

  /** The front of an image: the reader finds the size and where the first header should be. */
  lemma {:induction false} VolumeFront(volume: seq<byte>, img: seq<byte>, h: seq<byte>, size: nat)
    requires h == VolumeHeader(volume, size) && size < WORD && 0 !in volume && |h| <= |img|
    requires img[..12] == h[..12] && img[16..|h|] == h[16..]
    requires Start(volume) <= size <= |img| && Sum(img[..Checked(size)]) == 0
    ensures ReadFront(img) == Some((Start(volume), size))
  {
    VolumeWords(volume, size);
    assert img[..4] == img[..12][..4] && img[4..8] == img[..12][4..8] && img[8..12] == img[..12][8..12];
    assert h[..4] == h[..12][..4] && h[4..8] == h[..12][4..8] && h[8..12] == h[..12][8..12];
    NameAt(img, 16, |h|, volume);
    ZeroIs(img, 16, volume);
  }

  /** In front of a header that was moved up, the reader finds zeros: a hard link to nowhere. */
  lemma {:induction false} MovedUp(img: seq<byte>, start: nat, pad: nat)
    requires 0 < start && 16 <= pad && At(img, start, Zeros(pad))
    ensures ReadList(img, start).Some? ==>
      var n := ReadList(img, start).value;
      n.Node? && n.next == End && n.children == End && n.offset == start && n.info.kind == Hard(0)
  {
    ZeroEntry(img, start, pad);
    var entry := ReadEntry(img, start);
    if entry.Some? { OneNode(Reader(img), |img|, start, entry.value.0, Hard(0), End, End); }
  }

  lemma {:induction false} ZeroEntry(img: seq<byte>, start: nat, pad: nat)
    requires 0 < start && 16 <= pad && At(img, start, Zeros(pad))
    ensures ReadEntry(img, start).Some? ==>
      var (h, kind) := ReadEntry(img, start).value; h.next == 0 && h.tag == 0 && kind == Hard(0)
  {
    var head := ReadHead(img, start);
    if head.Some? {
      var e := ZeroFrom(img, start + 16);
      var end := start + 16 + Up16(e + 1 - (start + 16));
      ZeroHead(img, start, pad, end, img[start + 16..e]);
    }
  }

  lemma {:induction false} ZeroHead(img: seq<byte>, start: nat, pad: nat, end: nat, name: seq<byte>)
    requires 16 <= pad && At(img, start, Zeros(pad)) && start + 16 <= end <= |img|
    ensures var h := ParseHead(img[start..end], name); h.next == 0 && h.tag == 0 && h.spec == 0 && !h.exec
  {
    var h := img[start..end];
    forall i | 0 <= i < 8 ensures h[i] == 0 {
      assert h[i] == img[start + i] && img[start + i] == img[start..start + pad][i] && Zeros(pad)[i] == 0;
    }
  }

  lemma {:induction false} NotThat(n: Nodes, es: Entries)
    requires n.Node? && n.next == End && n.children == End && n.offset != 0 && n.info.kind == Hard(0)
    requires Storable(es, Count(es))
    ensures Forget(n, Offsets(n)) != Visible(es)
  {
    assert Offsets(n) == [n.offset];
    assert IndexOf([n.offset], 0) == 1;
    if es.Cons? && Visible(es.children) == Nil && Visible(es.rest) == Nil {
      assert Count(es) == 1;
    }
  }

  lemma {:induction false} ImageBegins(img: seq<byte>, n: Nodes, hs: Headers, start: nat)
    requires n.Node? && At(img, start, ImageWith(n, hs))
    ensures At(img, start, Zeros(n.pad))
  {
    var z, h, d := Zeros(n.pad), hs(n), Padded(Contents(n.info));
    var c, r := ImageWith(n.children, hs), ImageWith(n.next, hs);
    AtParts(img, start, z + h + d + c, r);
    AtParts(img, start, z + h + d, c);
    AtParts(img, start, z + h, d);
    AtParts(img, start, z, h);
  }

  lemma FrontKept(h: seq<byte>, image: seq<byte>, z: seq<byte>, raw: seq<byte>, img: seq<byte>)
    requires |h| >= 16 && raw == h + image + z && |img| == |raw| && img[..12] == raw[..12] && img[16..] == raw[16..]
    ensures img[..12] == h[..12] && img[16..|h|] == h[16..]
  {
    assert raw[..12] == h[..12] && raw[16..|h|] == h[16..];
    assert img[16..|h|] == img[16..][..|h| - 16] && raw[16..|h|] == raw[16..][..|h| - 16];
  }

  /** The image, its front, and the list that was laid out in it. */
  lemma {:induction false} VolumeParts(volume: seq<byte>, es: Entries, n: Nodes, size: nat, img: seq<byte>)
    requires Aligned(es) && 0 !in volume && (n, size) == Layout(es, Start(volume)) && size < WORD
    requires 32 <= size <= |Dumped(volume, n, size)| && img == Volume(volume, n, size)
    requires Start(volume) <= size && Sum(img[..Checked(size)]) == 0
    ensures At(img, Start(volume), ImageWith(n, HeadersFor(Offsets(n))))
    ensures ReadFront(img) == Some((Start(volume), size))
  {
    var h, raw := VolumeHeader(volume, size), Dumped(volume, n, size);
    DumpedSize(volume, es);
    AtKept(raw, img, Start(volume), ImageWith(n, HeadersFor(Offsets(n))), 16);
    var image, z := ImageWith(n, HeadersFor(Offsets(n))), Zeros(Tail(size));
    FrontKept(h, image, z, raw, img);
    VolumeFront(volume, img, h, size);
  }

  /**
   The directory is read back from the image alone if and only if the first entry is not moved up by an
   alignment: it must be right behind the header of the volume, and nothing else says where it is.
   */
  lemma {:induction false} VolumeReadsBack(volume: seq<byte>, es: Entries)
    requires Aligned(es) && Storable(es, Count(es)) && 0 !in volume && Layout(es, Start(volume)).1 < WORD
    ensures var (n, size) := Layout(es, Start(volume));
      && 32 <= size <= |Dumped(volume, n, size)|
      && (ReadVolume(Volume(volume, n, size)) == Some(Visible(es)) <==> n.End? || n.pad == 0)
  {
    var (n, size) := Layout(es, Start(volume));
    DumpedSize(volume, es);
    ImageReadsBack(volume, es, n, size, Volume(volume, n, size));
  }

  lemma {:induction false} ImageReadsBack(volume: seq<byte>, es: Entries, n: Nodes, size: nat, img: seq<byte>)
    requires Aligned(es) && Storable(es, Count(es)) && 0 !in volume
    requires (n, size) == Layout(es, Start(volume)) && size < WORD
    requires 32 <= size <= |Dumped(volume, n, size)| && img == Volume(volume, n, size)
    ensures ReadVolume(img) == Some(Visible(es)) <==> n.End? || n.pad == 0
  {
    VolumeHolds(volume, es, n, size, img);
    LayoutBegins(es, Start(volume));
    VolumeParts(volume, es, n, size, img);
    if n.Node? { ListReadsBack(volume, es, n, size, img); }
  }

  lemma {:induction false} VolumeHolds(volume: seq<byte>, es: Entries, n: Nodes, size: nat, img: seq<byte>)
    requires Aligned(es) && (n, size) == Layout(es, Start(volume))
    requires 32 <= size <= |Dumped(volume, n, size)| && img == Volume(volume, n, size)
    ensures Readable(img, n, Offsets(n)) && Checked(size) <= |img| && Sum(img[..Checked(size)]) == 0
  {
    VolumeIsRight(volume, es);
  }

  lemma {:induction false} ListReadsBack(volume: seq<byte>, es: Entries, n: Nodes, size: nat, img: seq<byte>)
    requires Aligned(es) && Storable(es, Count(es)) && (n, size) == Layout(es, Start(volume)) && size < WORD
    requires n.Node? && Readable(img, n, Offsets(n)) && At(img, Start(volume), ImageWith(n, HeadersFor(Offsets(n))))
    ensures n.pad == 0 <==> ListIs(ReadList(img, Start(volume)), es)
  {
    var start := Start(volume);
    LayoutFirst(es, start, n);
    if n.pad == 0 {
      OffsetsIncrease(es, start);
      InFront(es, start, n, size, Offsets(n), img);
    } else {
      MovedList(es, start, n, HeadersFor(Offsets(n)), img);
    }
  }

  ghost predicate ListIs(l: Option<Nodes>, es: Entries) {
    l.Some? && Forget(l.value, Offsets(l.value)) == Visible(es)
  }

  lemma {:induction false} LayoutFirst(es: Entries, start: nat, n: Nodes)
    requires Aligned(es) && n == Layout(es, start).0 && n.Node?
    ensures es.Cons? && es.info.align > 0 && n.pad == Pad(es.info, start) && n.offset == start + n.pad
  {
    LayoutBegins(es, start);
    var first, middle := LayoutCons(es, start);
  }

  lemma {:induction false} InFront(es: Entries, start: nat, n: Nodes, size: nat, offsets: seq<nat>, img: seq<byte>)
    requires Aligned(es) && Storable(es, |offsets|) && (n, size) == Layout(es, start) && 0 < start && size < WORD
    requires n.Node? && n.offset == start && offsets == Offsets(n) && Increasing(offsets, start, size)
    requires Readable(img, n, offsets)
    ensures ListIs(ReadList(img, start), es)
  {
    LayoutPlain(es, start, offsets);
    SeenInFront(n, offsets, img);
    OffsetsSeen(n, offsets);
    ForgetSeen(es, start, offsets, start, size);
  }

  lemma {:induction false} SeenInFront(n: Nodes, offsets: seq<nat>, img: seq<byte>)
    requires n.Node? && Plain(n, offsets) && Readable(img, n, offsets)
    ensures ReadList(img, n.offset) == Some(Seen(n, offsets))
  {
    ReadableReads(img, n, offsets);
    ReadsBack(Reader(img), |img|, n, offsets);
  }

  lemma {:induction false} MovedList(es: Entries, start: nat, n: Nodes, hs: Headers, img: seq<byte>)
    requires Aligned(es) && es.Cons? && Storable(es, Count(es)) && start % 16 == 0 && 0 < start
    requires n.Node? && es.info.align > 0 && n.pad == Pad(es.info, start) > 0 && At(img, start, ImageWith(n, hs))
    ensures !ListIs(ReadList(img, start), es)
  {
    PadMultiple(es.info, start);
    ImageBegins(img, n, hs, start);
    MovedUp(img, start, n.pad);
    var l := ReadList(img, start);
    if l.Some? { NotThat(l.value, es); }
  }

  /** The root of a volume without a name, aligned to 64 bytes: its header is 32 bytes too far up. */
  lemma {:induction false} MovedRootIsMissed()
    ensures var es := Cons(Info([46], Dir, false, 64), Nil, Nil);
      && Aligned(es) && Storable(es, Count(es))
      && var (n, size) := Layout(es, Start([]));
         32 <= size <= |Dumped([], n, size)| && ReadVolume(Volume([], n, size)) != Some(Visible(es))
  {
    var es := Cons(Info([46], Dir, false, 64), Nil, Nil);
    assert 64 == Pow2(6) by { assert Pow2(5) == 32; }
    assert Aligned(es);
    var first, middle := LayoutCons(es, 32);
    assert Start([]) == 32 && Pad(es.info, 32) == 32;
    VolumeReadsBack([], es);
  }
}
