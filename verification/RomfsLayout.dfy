/**
 The two passes of tools/genromfs/genromfs.c over a directory: one gives each node its offset, the other
 writes the image. A directory is a linked list of entries, each with the list of its own.
 */
module RomfsLayout {
  import opened Binary
  import opened Bytes
  import opened Multiples
  import opened RomfsHeader

  /** A hard link names its target by its place in the order in which nodes are laid out. */
  datatype Kind =
    | Hard(target: nat)
    | Dir
    | Reg(data: seq<byte>)
    | Lnk(text: seq<byte>)
    | Chr(dev: nat)
    | Blk(dev: nat)
    | Fifo
    | Sock

  /** What the file system says of an entry, and the alignment that `findalign` finds for it. */
  datatype Info = Info(name: seq<byte>, kind: Kind, exec: bool, align: nat)

  datatype Entries = Nil | Cons(info: Info, children: Entries, rest: Entries)

  /** An entry with the offset and the padding that the first pass gives it. */
  datatype Nodes = End | Node(info: Info, offset: nat, pad: nat, children: Nodes, next: Nodes)

  function Up16(n: nat): (r: nat)
    ensures r % 16 == 0 && n <= r < n + 16
  {
    (n + 15) / 16 * 16
  }

  /** The header with the name. */
  function HeaderSize(i: Info): (n: nat)
    ensures n % 16 == 0 && n >= 32
  {
    16 + Up16(|i.name| + 1)
  }

  function Contents(i: Info): seq<byte> {
    match i.kind
    case Reg(d) => d
    case Lnk(t) => t
    case _ => []
  }

  /** `spaceneeded`, once the size is known. */
  function Space(i: Info): (n: nat)
    ensures n % 16 == 0 && n >= 32
  {
    HeaderSize(i) + Up16(|Contents(i)|)
  }

  /** What `alignnode` aligns: the data of a regular file, the header of anything else. */
  function Lead(i: Info): (n: nat)
    ensures n % 16 == 0
  {
    if i.kind.Reg? then HeaderSize(i) else 0
  }

  /** With its header at `o`, the data of a regular file is aligned, and the header of anything else. */
  predicate AlignedAt(i: Info, o: nat)
    requires i.align > 0
  {
    if i.kind.Reg? then (o + 16 + Up16(|i.name| + 1)) % i.align == 0 else o % i.align == 0
  }

  /** `alignnode`; the alignment is a power of two, so its mask is a remainder. */
  function Pad(i: Info, cur: nat): (p: nat)
    requires i.align > 0
    ensures p < i.align && AlignedAt(i, cur + p)
  {
    var d := (cur + Lead(i)) % i.align;
    if d == 0 then 0
    else
      PadAligns(cur + Lead(i), i.align);
      i.align - d
  }

  lemma PadAligns(x: nat, a: nat)
    requires a > 0
    ensures (x + (a - x % a)) % a == 0
  {
    var q, r := x / a, x % a;
    assert x == q * a + r;
    assert x + (a - r) == (q + 1) * a;
    Remainder(x + (a - r), a, q + 1, 0);
  }

  /** The alignments that the options accept. */
  ghost predicate Aligned(es: Entries) {
    match es
    case Nil => true
    case Cons(i, c, r) =>
      (exists k :: k >= 4 && i.align == Pow2(k)) && (!i.kind.Dir? ==> c == Nil) && Aligned(c) && Aligned(r)
  }

  /** The first pass from offset `cur` on, and the offset after it. */
  function Layout(es: Entries, cur: nat): (r: (Nodes, nat))
    requires Aligned(es)
  {
    match es
    case Nil => (End, cur)
    case Cons(i, c, rest) =>
      AlignPositive(i);
      var pad := Pad(i, cur);
      var (children, middle) := Layout(c, cur + pad + Space(i));
      var (next, end) := Layout(rest, middle);
      (Node(i, cur + pad, pad, children, next), end)
  }

  lemma AlignPositive(i: Info)
    requires exists k :: k >= 4 && i.align == Pow2(k)
    ensures i.align > 0
  {
  }

  // ---------------------------------------------------------------- the image

  function Zeros(n: nat): (s: seq<byte>)
    ensures |s| == n && forall k :: 0 <= k < n ==> s[k] == 0
  {
    seq(n, _ => 0)
  }

  function Padded(s: seq<byte>): (r: seq<byte>)
    ensures |r| == Up16(|s|) && r[..|s|] == s
  {
    s + Zeros(Up16(|s|) - |s|)
  }

  const EXEC := 8

  function TypeOf(k: Kind): (t: nat)
    ensures t < 8
  {
    match k
    case Hard(_) => 0
    case Dir => 1
    case Reg(_) => 2
    case Lnk(_) => 3
    case Blk(_) => 4
    case Chr(_) => 5
    case Sock => 6
    case Fifo => 7
  }

  /** Only directories and regular files are executable; a hard link conveys nothing. */
  function ExecBit(i: Info): nat {
    if i.exec && (i.kind.Dir? || i.kind.Reg?) then EXEC else 0
  }

  /** Where the next entry of the directory is; zero at the end of the list. */
  function NextOffset(n: Nodes): nat
    requires n.Node?
  {
    if n.next.Node? then n.next.offset else 0
  }

  /** The offsets in the order of the first pass. */
  function Offsets(n: Nodes): seq<nat> {
    match n
    case End => []
    case Node(_, o, _, c, r) => [o] + Offsets(c) + Offsets(r)
  }

  function SpecOf(n: Nodes, offsets: seq<nat>): nat
    requires n.Node?
  {
    match n.info.kind
    case Hard(t) => if t < |offsets| then offsets[t] else 0
    case Dir => if n.children.Node? then n.children.offset else n.offset
    case Chr(d) => d
    case Blk(d) => d
    case _ => 0
  }

  /** The first word of a header: the next link, with the type in its low bits. */
  function NextField(n: Nodes): nat
    requires n.Node?
  {
    Or(Or(NextOffset(n), ExecBit(n.info)), TypeOf(n.info.kind))
  }

  /** The type bits do not collide with the link. */
  lemma {:induction false} NextFieldIsSum(n: Nodes)
    requires n.Node? && NextOffset(n) % 16 == 0
    ensures NextField(n) == NextOffset(n) + ExecBit(n.info) + TypeOf(n.info.kind)
    ensures NextField(n) / 16 * 16 == NextOffset(n)
  {
    OrThree(NextOffset(n), ExecBit(n.info), TypeOf(n.info.kind));
  }

  lemma {:induction false} OrLow(a: nat, b: nat, k: nat, p: nat)
    requires ((k == 4 && p == 16) || (k == 3 && p == 8)) && a % p == 0 && b < p
    ensures Or(a, b) == a + b
  {
    assert Pow2(3) == 8 && Pow2(4) == 16;
    OrDisjoint(a, b, k, p);
  }

  lemma {:induction false} OrThree(o: nat, e: nat, t: nat)
    requires o % 16 == 0 && (e == 0 || e == EXEC) && t < 8
    ensures Or(Or(o, e), t) == o + e + t && (o + e + t) / 16 * 16 == o
  {
    LowBitsFree(o, e, t);
    OrLow(o, e, 4, 16);
    OrLow(o + e, t, 3, 8);
  }

  lemma LowBitsFree(o: nat, e: nat, t: nat)
    requires o % 16 == 0 && (e == 0 || e == EXEC) && t < 8
    ensures (o + e) % 8 == 0 && (o + e + t) / 16 * 16 == o
  {
    QuotientAndRemainder(o + e + t, 16, o / 16, e + t);
    QuotientAndRemainder(o + e, 8, o / 16 * 2 + e / 8, 0);
  }

  /** A header as `dumpnode` fills it in, and the name behind it. */
  function RawHeader(next: nat, spec: nat, size: nat, name: seq<byte>): (h: seq<byte>)
    ensures |h| == 16 + Up16(|name| + 1)
  {
    BE32(next) + BE32(spec) + BE32(size) + BE32(0x5555_5555) + Padded(name + [0])
  }

  function Header(n: Nodes, offsets: seq<nat>): (h: seq<byte>)
    requires n.Node?
    ensures |h| == HeaderSize(n.info)
  {
    var raw := RawHeader(NextField(n), SpecOf(n, offsets), |Contents(n.info)|, n.info.name);
    FixSum(raw, |raw|)
  }

  /** The first word of a last header, by the type numbers of the file system. */
  lemma {:induction false} TypeNumbers(n: Nodes)
    requires n.Node? && n.next == End
    ensures NextField(n) == (if n.info.exec && (n.info.kind.Dir? || n.info.kind.Reg?) then 8 else 0) +
      match n.info.kind
      case Hard(_) => 0
      case Dir => 1
      case Reg(_) => 2
      case Lnk(_) => 3
      case Blk(_) => 4
      case Chr(_) => 5
      case Sock => 6
      case Fifo => 7
  {
    NextFieldIsSum(n);
  }

  /** The words of a header add up to zero. */
  lemma {:induction false} HeaderSum(n: Nodes, offsets: seq<nat>)
    requires n.Node?
    ensures Sum(Header(n, offsets)) == 0
  {
    var raw := RawHeader(NextField(n), SpecOf(n, offsets), |Contents(n.info)|, n.info.name);
    FixedSum(raw, |raw|);
    assert FixSum(raw, |raw|)[..|raw|] == FixSum(raw, |raw|);
  }

  /** A header for each node. */
  type Headers = Nodes -> seq<byte>

  ghost predicate Sized(hs: Headers) {
    forall n: Nodes :: n.Node? ==> |hs(n)| == HeaderSize(n.info)
  }

  /** What the second pass writes for a node, its list and what follows in its own. */
  ghost function ImageWith(n: Nodes, hs: Headers): seq<byte> {
    match n
    case End => []
    case Node(i, _, pad, c, r) => Zeros(pad) + hs(n) + Padded(Contents(i)) + ImageWith(c, hs) + ImageWith(r, hs)
  }

  // ---------------------------------------------------------------- the passes agree

  /** The second pass writes as many bytes as the first pass counts. */
  lemma {:induction false} ImageSize(es: Entries, cur: nat, hs: Headers)
    requires Aligned(es) && Sized(hs)
    ensures cur + |ImageWith(Layout(es, cur).0, hs)| == Layout(es, cur).1
    decreases es
  {
    if es.Cons? {
      var first, middle := LayoutCons(es, cur);
      ImageSize(es.children, first, hs);
      ImageSize(es.rest, middle, hs);
    }
  }

  /** In `img`, every node's header is at the node's offset, and its contents are behind it. */
  ghost predicate InPlace(img: seq<byte>, n: Nodes, hs: Headers) {
    match n
    case End => true
    case Node(i, o, _, c, r) =>
      At(img, o, hs(n)) && At(img, o + HeaderSize(i), Contents(i)) && InPlace(img, c, hs) && InPlace(img, r, hs)
  }

  predicate At(img: seq<byte>, o: nat, s: seq<byte>) {
    o + |s| <= |img| && img[o..o + |s|] == s
  }

  lemma AtParts(img: seq<byte>, o: nat, a: seq<byte>, b: seq<byte>)
    requires At(img, o, a + b)
    ensures At(img, o, a) && At(img, o + |a|, b)
  {
    assert img[o..o + |a|] == img[o..o + |a + b|][..|a|];
    assert img[o + |a|..o + |a| + |b|] == img[o..o + |a + b|][|a|..];
  }

  /** The first pass on a list that is not empty. */
  lemma {:induction false} LayoutCons(es: Entries, cur: nat) returns (first: nat, middle: nat)
    requires Aligned(es) && es.Cons?
    ensures es.info.align > 0 && first == cur + Pad(es.info, cur) + Space(es.info)
    ensures middle == Layout(es.children, first).1 && Layout(es, cur).1 == Layout(es.rest, middle).1
    ensures Layout(es, cur).0 ==
      Node(es.info, cur + Pad(es.info, cur), Pad(es.info, cur), Layout(es.children, first).0, Layout(es.rest, middle).0)
  {
    AlignPositive(es.info);
    first := cur + Pad(es.info, cur) + Space(es.info);
    middle := Layout(es.children, first).1;
  }

  /** Where the first pass puts a node, the second pass writes it. */
  lemma {:induction false} PassesAgree(es: Entries, cur: nat, hs: Headers, img: seq<byte>)
    requires Aligned(es) && Sized(hs) && At(img, cur, ImageWith(Layout(es, cur).0, hs))
    ensures InPlace(img, Layout(es, cur).0, hs)
    decreases es
  {
    if es.Cons? {
      var first, middle := LayoutCons(es, cur);
      var n := Layout(es, cur).0;
      ImageSize(es.children, first, hs);
      NodeParts(img, cur, n, hs, first, middle);
      PartsInPlace(img, n, hs, es, first, middle);
    }
  }

  lemma {:induction false} PartsInPlace(img: seq<byte>, n: Nodes, hs: Headers, es: Entries, first: nat, middle: nat)
    requires Aligned(es) && es.Cons? && Sized(hs)
    requires n.Node? && n.children == Layout(es.children, first).0 && n.next == Layout(es.rest, middle).0
    requires At(img, n.offset, hs(n)) && At(img, n.offset + HeaderSize(n.info), Contents(n.info))
    requires At(img, first, ImageWith(n.children, hs)) && At(img, middle, ImageWith(n.next, hs))
    ensures InPlace(img, n, hs)
    decreases es, 0
  {
    PassesAgree(es.children, first, hs, img);
    PassesAgree(es.rest, middle, hs, img);
  }

  lemma {:induction false} FiveParts(img: seq<byte>, cur: nat, z: seq<byte>, h: seq<byte>, d: seq<byte>, c: seq<byte>,
                                     r: seq<byte>,
                                     o: nat, first: nat, middle: nat)
    requires At(img, cur, z + h + d + c + r) && o == cur + |z| && first == o + |h| + |d| && middle == first + |c|
    ensures At(img, o, h) && At(img, o + |h|, d) && At(img, first, c) && At(img, middle, r)
  {
    AtParts(img, cur, z + h + d + c, r);
    AtParts(img, cur, z + h + d, c);
    AtParts(img, cur, z + h, d);
    AtParts(img, cur, z, h);
  }

  lemma {:induction false} NodeParts(img: seq<byte>, cur: nat, n: Nodes, hs: Headers, first: nat, middle: nat)
    requires n.Node? && Sized(hs) && At(img, cur, ImageWith(n, hs)) && n.offset == cur + n.pad
    requires first == n.offset + Space(n.info) && middle == first + |ImageWith(n.children, hs)|
    ensures At(img, n.offset, hs(n)) && At(img, n.offset + HeaderSize(n.info), Contents(n.info))
    ensures At(img, first, ImageWith(n.children, hs)) && At(img, middle, ImageWith(n.next, hs))
  {
    var t := Contents(n.info);
    FiveParts(img, cur, Zeros(n.pad), hs(n), Padded(t), ImageWith(n.children, hs), ImageWith(n.next, hs), n.offset,
              first, middle);
    AtParts(img, n.offset + HeaderSize(n.info), t, Zeros(Up16(|t|) - |t|));
  }
}
