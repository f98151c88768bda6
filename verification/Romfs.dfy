/**
 The second pass of tools/genromfs/genromfs.c, on its buffers: the first 512 bytes are held back until
 the checksum over them can be fixed.
 */
module Romfs {
  import opened Binary
  import opened Bytes
  import opened Options
  import opened RomfsHeader
  import opened RomfsLayout
  import opened RomfsReader
  import opened RomfsVolume

  const BIG := 4096
  const FIRST := 512

  /** `romfs_checksum` of the first `n` bytes. */
  method Checksum(a: array<byte>, n: nat) returns (sum: nat)
    requires n <= a.Length && n % 4 == 0
    ensures sum == Sum(a[..n])
  {
    sum := 0;
    var left: nat, i: nat := n / 4, 0;
    ghost var s := a[..n];
    while left > 0
      invariant i + 4 * left == n && a[..n] == s && i % 4 == 0 && sum == Sum(s[..i])
    {
      var word := WordAt(a[i..i + 4]);
      assert a[i..i + 4] == s[i..i + 4];
      SumNext(s, i, word);
      sum := Added(sum, word);
      i, left := i + 4, left - 1;
    }
    assert s[..i] == s;
  }

  lemma {:induction false} SumNext(s: seq<byte>, i: nat, word: nat)
    requires i + 4 <= |s| && i % 4 == 0 && word == WordAt(s[i..i + 4])
    ensures Sum(s[..i + 4]) == Added(Sum(s[..i]), word)
  {
    var w := s[i..i + 4];
    assert s[..i + 4] == s[..i] + w;
    SumConcat(s[..i], w);
    SumOfWord(w, word);
  }

  lemma {:induction false} SumOfWord(w: seq<byte>, word: nat)
    requires |w| == 4 && word == WordAt(w)
    ensures Sum(w) == word
  {
    assert Sum(w[4..]) == 0;
  }

  lemma SmallWord(v: nat)
    requires v < WORD
    ensures BE32(v) == [v / 0x100_0000, v / 0x1_0000 % 256, v / 0x100 % 256, v % 256]
  {
    assert v % WORD == v;
  }

  method StoreWord(a: array<byte>, v: nat)
    requires a.Length >= 16 && v < WORD
    modifies a
    ensures a[..] == old(a[..12]) + BE32(v) + old(a[16..])
  {
    a[12], a[13], a[14], a[15] := v / 0x100_0000, v / 0x1_0000 % 256, v / 0x100 % 256, v % 256;
    SmallWord(v);
  }

  /** `fixsum` over the first `n` bytes. */
  method FixSumInPlace(a: array<byte>, n: nat)
    requires 16 <= n <= a.Length && n % 4 == 0
    modifies a
    ensures a[..] == FixSum(old(a[..]), n)
  {
    ghost var s := a[..];
    StoreWord(a, 0);
    var sum := Checksum(a, n);
    Patched(s, BE32(0), n);
    StoreWord(a, Negative(sum));
  }

  lemma Patched(s: seq<byte>, z: seq<byte>, n: nat)
    requires |z| == 4 && 16 <= n <= |s|
    ensures var t := s[..12] + z + s[16..]; t[..n] == s[..12] + z + s[16..n] && t[..12] == s[..12] && t[16..] == s[16..]
  {
  }

  /** The size that the bytes so far announce can be checked. */
  ghost predicate Sane(out: seq<byte>) {
    |out| >= 16 ==> var n := WordAt(out[8..12]); n >= 16 && n % 4 == 0
  }

  /** What `dumpdata` has written of the bytes that it was handed. */
  function Written(out: seq<byte>): seq<byte>
    requires |out| >= FIRST ==> Sane(out)
  {
    if |out| < FIRST then [] else FixSum(out[..FIRST], Checked(WordAt(out[8..12]))) + out[FIRST..]
  }

  lemma {:induction false} WrittenMore(out: seq<byte>, data: seq<byte>)
    requires |out| >= FIRST && Sane(out)
    ensures Sane(out + data) && Written(out + data) == Written(out) + data
  {
    assert (out + data)[8..12] == out[8..12] && (out + data)[..FIRST] == out[..FIRST];
    assert (out + data)[FIRST..] == out[FIRST..] + data;
  }

  lemma {:induction false} WrittenFirst(all: seq<byte>, held: seq<byte>)
    requires |all| >= FIRST && Sane(all) && held == all[..FIRST]
    ensures Sane(held) && Written(all) == FixSum(held, Checked(WordAt(held[8..12]))) + all[FIRST..]
  {
    assert held[8..12] == all[8..12];
  }

  class Dumper {
    const fixbuf: array<byte>
    const bigbuf: array<byte>
    var atoffs: nat
    var file: seq<byte>
    ghost var out: seq<byte>

    ghost predicate Valid()
      reads this, fixbuf, bigbuf
    {
      && fixbuf.Length == FIRST && bigbuf.Length == BIG && fixbuf != bigbuf && atoffs == |out| && Sane(out)
      && file == Written(out) && (atoffs < FIRST ==> fixbuf[..atoffs] == out)
    }

    constructor ()
      ensures Valid() && out == [] && fresh(fixbuf) && fresh(bigbuf)
    {
      fixbuf := new byte[FIRST](_ => 0);
      bigbuf := new byte[BIG](_ => 0);
      atoffs, file, out := 0, [], [];
    }

    /** `memcpy` into the bytes that are held back. */
    method Hold(data: seq<byte>)
      requires fixbuf.Length == FIRST && atoffs + |data| <= FIRST
      modifies this`atoffs, fixbuf
      ensures atoffs == old(atoffs) + |data| && fixbuf[..atoffs] == old(fixbuf[..atoffs]) + data
    {
      ghost var before := fixbuf[..];
      for k := 0 to |data|
        invariant atoffs == old(atoffs)
        invariant fixbuf[..atoffs] == before[..atoffs] && fixbuf[atoffs..atoffs + k] == data[..k]
      {
        fixbuf[atoffs + k] := data[k];
      }
      assert fixbuf[..atoffs + |data|] == fixbuf[..atoffs] + fixbuf[atoffs..atoffs + |data|];
      atoffs := atoffs + |data|;
    }

    /** The held back bytes are complete: their checksum is fixed, and they are written. */
    method Release()
      requires fixbuf.Length == FIRST && Sane(fixbuf[..])
      modifies this`file, fixbuf
      ensures file == old(file) + FixSum(old(fixbuf[..]), Checked(WordAt(old(fixbuf[8..12]))))
    {
      var size := WordAt(fixbuf[8..12]);
      assert fixbuf[..][8..12] == fixbuf[8..12];
      FixSumInPlace(fixbuf, if FIRST < size then FIRST else size);
      file := file + fixbuf[..];
    }

    /** `dumpdata`. */
    method DumpData(data: seq<byte>)
      requires Valid() && Sane(out + data)
      modifies this, fixbuf
      ensures Valid() && out == old(out) + data
    {
      ghost var before, all := out, out + data;
      out := all;
      if |data| == 0 {
        assert all == before;
        return;
      }
      if atoffs >= FIRST {
        WrittenMore(before, data);
        file := file + data;
        atoffs := atoffs + |data|;
        return;
      }
      var tocopy := if |data| < FIRST - atoffs then |data| else FIRST - atoffs;
      var rest := data[tocopy..];
      Hold(data[..tocopy]);
      assert fixbuf[..atoffs] == all[..atoffs];
      if atoffs == FIRST {
        WrittenFirst(all, fixbuf[..]);
        Release();
      }
      if rest != [] {
        file := file + rest;
        atoffs := atoffs + |rest|;
      }
    }

    /** Once the volume header is out, anything may follow. */
    ghost predicate Started()
      reads this
    {
      |out| >= 16
    }

    /** `dumpzero`. */
    method DumpZero(len: nat)
      requires Valid() && Started() && len <= BIG
      modifies this, fixbuf, bigbuf
      ensures Valid() && Started() && out == old(out) + Zeros(len)
    {
      for k := 0 to len
        invariant Valid() && out == old(out) && forall i :: 0 <= i < k ==> bigbuf[i] == 0
      {
        bigbuf[k] := 0;
      }
      assert bigbuf[..len] == Zeros(len);
      SaneKept(out, Zeros(len));
      DumpData(bigbuf[..len]);
    }

    /** `dumpdataa`. */
    method DumpPadded(data: seq<byte>)
      requires Valid() && Started()
      modifies this, fixbuf, bigbuf
      ensures Valid() && Started() && out == old(out) + Padded(data)
    {
      SaneKept(out, data);
      DumpData(data);
      if |data| % 16 != 0 {
        DumpZero(16 - |data| % 16);
      }
      assert Up16(|data|) - |data| == if |data| % 16 != 0 then 16 - |data| % 16 else 0;
      assert out == old(out) + Padded(data);
    }

    /** `memcpy` and `memset` of a header into `bigbuf`. */
    method Assemble(h: seq<byte>)
      requires |h| <= BIG && bigbuf.Length == BIG
      modifies bigbuf
      ensures bigbuf[..|h|] == h
    {
      for k := 0 to |h|
        invariant bigbuf[..k] == h[..k]
      {
        bigbuf[k] := h[k];
      }
    }

    /** `dumpri` for a node: its header is assembled in `bigbuf`, and its checksum fixed there. */
    method DumpHeader(n: Nodes, offsets: seq<nat>)
      requires Valid() && Started() && n.Node? && HeaderSize(n.info) <= BIG
      modifies this, fixbuf, bigbuf
      ensures Valid() && Started() && out == old(out) + Header(n, offsets)
    {
      var raw := RawHeader(NextField(n), SpecOf(n, offsets), |Contents(n.info)|, n.info.name);
      var len := |raw|;
      Assemble(raw);
      ghost var big := bigbuf[..];
      FixSumInPlace(bigbuf, len);
      FixSumPrefix(big, raw);
      SaneKept(out, Header(n, offsets));
      DumpData(bigbuf[..len]);
    }

    /** The copying loop of `dumpnode`: `read` may return fewer bytes than it is asked for. */
    method DumpFile(data: seq<byte>)
      requires Valid() && Started()
      modifies this, fixbuf, bigbuf
      ensures Valid() && Started() && out == old(out) + data
    {
      var offset: nat := 0;
      while offset < |data|
        invariant offset <= |data| && Valid() && Started() && out == old(out) + data[..offset]
      {
        var avail := if |data| - offset < BIG then |data| - offset else BIG;
        var len: nat :| 1 <= len <= avail;
        var chunk := data[offset..offset + len];
        Assemble(chunk);
        SaneKept(out, chunk);
        DumpData(bigbuf[..len]);
        assert data[..offset + len] == data[..offset] + chunk;
        offset := offset + len;
      }
      assert data[..offset] == data;
    }

    /** What follows the header of a node. */
    method DumpContents(i: Info)
      requires Valid() && Started() && LinkFits(i)
      modifies this, fixbuf, bigbuf
      ensures Valid() && Started() && out == old(out) + Padded(Contents(i))
    {
      var data := Contents(i);
      if i.kind.Reg? {
        DumpFile(data);
        DumpZero(Up16(|data|) - |data|);
        assert out == old(out) + Padded(data);
      } else if i.kind.Lnk? {
        Assemble(data);
        DumpPadded(bigbuf[..|data|]);
      } else {
        assert old(out) + Padded([]) == old(out);
      }
    }

    /** `dumpnode`: the padding, the header, the contents, and the directory's own list. */
    method DumpNode(n: Nodes, offsets: seq<nat>)
      requires Valid() && Started() && n.Node? && Buffered(n)
      modifies this, fixbuf, bigbuf
      ensures Valid() && Started() && out == old(out) + NodeImage(n, HeadersFor(offsets))
      decreases n, 0
    {
      ghost var hs, start := HeadersFor(offsets), out;
      DumpZero(n.pad);
      DumpHeader(n, offsets);
      DumpContents(n.info);
      DumpList(n.children, offsets);
      Assembled(start, Zeros(n.pad), Header(n, offsets), Padded(Contents(n.info)), ImageWith(n.children, hs));
    }

    /** The loop over a list of nodes. */
    method DumpList(n: Nodes, offsets: seq<nat>)
      requires Valid() && Started() && Buffered(n)
      modifies this, fixbuf, bigbuf
      ensures Valid() && Started() && out == old(out) + ImageWith(n, HeadersFor(offsets))
      decreases n, 1
    {
      if n.Node? {
        ghost var hs, start := HeadersFor(offsets), out;
        DumpNode(n, offsets);
        DumpList(n.next, offsets);
        ListImage(start, n, hs);
      }
    }
  }

  /** Headers, padding and the texts of symbolic links go through `bigbuf`. */
  ghost predicate Buffered(n: Nodes) {
    n.Node? ==>
      HeaderSize(n.info) <= BIG && n.pad <= BIG && LinkFits(n.info) && Buffered(n.children) && Buffered(n.next)
  }

  predicate LinkFits(i: Info) {
    i.kind.Lnk? ==> |Contents(i)| <= BIG
  }

  ghost function NodeImage(n: Nodes, hs: Headers): seq<byte>
    requires n.Node?
  {
    Zeros(n.pad) + hs(n) + Padded(Contents(n.info)) + ImageWith(n.children, hs)
  }

  lemma {:induction false} ListImage(start: seq<byte>, n: Nodes, hs: Headers)
    requires n.Node?
    ensures start + NodeImage(n, hs) + ImageWith(n.next, hs) == start + ImageWith(n, hs)
  {
  }

  lemma Assembled(s: seq<byte>, a: seq<byte>, b: seq<byte>, c: seq<byte>, d: seq<byte>)
    ensures s + a + b + c + d == s + (a + b + c + d)
  {
  }

  lemma {:induction false} SaneKept(out: seq<byte>, data: seq<byte>)
    requires |out| >= 16 && Sane(out)
    ensures Sane(out + data)
  {
    assert (out + data)[8..12] == out[8..12];
  }

  lemma {:induction false} FixSumPrefix(big: seq<byte>, raw: seq<byte>)
    requires 16 <= |raw| <= |big| && big[..|raw|] == raw
    ensures FixSum(big, |raw|)[..|raw|] == FixSum(raw, |raw|)
  {
    var n := |raw|;
    assert big[..12] == raw[..12] && big[16..n] == raw[16..n] && raw[16..n] == raw[16..];
    var c := BE32(Negative(Sum(raw[..12] + BE32(0) + raw[16..n])));
    assert (big[..12] + c + big[16..])[..n] == raw[..12] + c + raw[16..];
  }

  /**
   Both passes: the file is the volume that `RomfsVolume.VolumeIsRight` describes, and a reader finds the
   directory in it if and only if the first entry is right behind the header of the volume.
   */
  method Build(volume: seq<byte>, es: Entries) returns (file: seq<byte>)
    requires Aligned(es) && Start(volume) <= BIG && Buffered(Layout(es, Start(volume)).0)
    requires Layout(es, Start(volume)).1 < 0x8000_0000
    ensures var (n, size) := Layout(es, Start(volume));
      && 32 <= size <= |Dumped(volume, n, size)| && file == Volume(volume, n, size)
      && (Storable(es, Count(es)) && 0 !in volume ==>
            (ReadVolume(file) == Some(Visible(es)) <==> n.End? || n.pad == 0))
  {
    var (n, size) := Layout(es, Start(volume));
    DumpedSize(volume, es);
    var d := new Dumper();
    var h := VolumeHeader(volume, size);
    VolumeSane(volume, size);
    assert [] + h == h;
    d.DumpData(h);
    d.DumpList(n, Offsets(n));
    d.DumpZero(Tail(size));
    file := d.file;
    WholeVolume(volume, n, size, d.out);
    if Storable(es, Count(es)) && 0 !in volume { VolumeReadsBack(volume, es); }
  }

  lemma {:induction false} VolumeSane(volume: seq<byte>, size: nat)
    requires 32 <= size < WORD && size % 16 == 0
    ensures Sane(VolumeHeader(volume, size)) && WordAt(VolumeHeader(volume, size)[8..12]) == size
  {
    var h := VolumeHeader(volume, size);
    assert WordAt(h[8..12]) == size by {
      SizeField(0x2d72_6f6d, 0x3166_732d, size, volume);
      WordOfBE32(size);
    }
    SaneFrom(h, size);
  }

  lemma SaneFrom(h: seq<byte>, size: nat)
    requires |h| >= 16 && WordAt(h[8..12]) == size && size >= 16 && size % 16 == 0
    ensures Sane(h)
  {
  }

  lemma {:induction false} SizeField(a: nat, b: nat, size: nat, name: seq<byte>)
    ensures RawHeader(a, b, size, name)[8..12] == BE32(size)
  {
    var tail := BE32(0x5555_5555) + Padded(name + [0]);
    assert RawHeader(a, b, size, name) == BE32(a) + BE32(b) + BE32(size) + tail;
    FourWords(a, b, size, tail);
  }

  lemma {:induction false} WholeVolume(volume: seq<byte>, n: Nodes, size: nat, out: seq<byte>)
    requires 32 <= size < WORD && size % 16 == 0 && out == Dumped(volume, n, size) && |out| == size + Tail(size)
    ensures Sane(out) && Written(out) == Volume(volume, n, size)
  {
    assert WordAt(out[8..12]) == size by {
      VolumeSane(volume, size);
      HeaderFirst(VolumeHeader(volume, size), ImageWith(n, HeadersFor(Offsets(n))), Zeros(Tail(size)), out);
    }
    WrittenIs(out, size);
  }

  lemma HeaderFirst(h: seq<byte>, img: seq<byte>, z: seq<byte>, out: seq<byte>)
    requires |h| >= 16 && out == h + img + z
    ensures out[8..12] == h[8..12]
  {
  }

  lemma {:induction false} WrittenIs(out: seq<byte>, size: nat)
    requires |out| >= FIRST && WordAt(out[8..12]) == size && size >= 16 && size % 16 == 0
    ensures Sane(out) && Written(out) == FixSum(out, Checked(size))
  {
    FixFront(out, Checked(size), out[..FIRST], out[FIRST..]);
  }

  /** The first bytes may be fixed apart from the rest. */
  lemma {:induction false} FixFront(out: seq<byte>, k: nat, front: seq<byte>, rest: seq<byte>)
    requires 16 <= k <= FIRST == |front| && out == front + rest
    ensures FixSum(front, k) + rest == FixSum(out, k)
  {
    FrontParts(front, rest, k);
    FrontAndRest(out[..12], BE32(Negative(Sum(out[..12] + BE32(0) + out[16..k]))), front[16..], rest);
  }

  lemma FrontParts(front: seq<byte>, rest: seq<byte>, k: nat)
    requires 16 <= k <= |front|
    ensures (front + rest)[..12] == front[..12] && (front + rest)[16..k] == front[16..k]
    ensures (front + rest)[16..] == front[16..] + rest
  {
  }

  lemma FrontAndRest(a: seq<byte>, b: seq<byte>, c: seq<byte>, d: seq<byte>)
    ensures a + b + c + d == a + b + (c + d)
  {
  }
}
