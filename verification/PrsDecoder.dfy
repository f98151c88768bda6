/** The decoder of libbcl/prs.c, and its variant that only measures. */
module PrsDecoder {
  import opened BackCopy
  import opened Bytes
  import opened Options
  import opened PrsCode
  import opened PrsStream

  /** The registers of the decoder: `bitpos` is one more than the bits that are left. */
  class BitReader {
    const source: array<byte>
    var sourceptr: nat
    var currentbyte: nat
    var bitpos: nat

    ghost predicate Valid()
      reads this
    {
      1 <= bitpos <= 9
    }

    ghost function State(): Reader
      requires Valid()
      reads this
    {
      Reader(sourceptr, currentbyte, bitpos - 1)
    }

    constructor (s: array<byte>)
      requires s.Length > 0
      ensures Valid() && source == s && State() == Reader(1, s[0], 8)
    {
      source := s;
      sourceptr, currentbyte, bitpos := 1, s[0], 9;
    }

    method TakeBit() returns (flag: bool)
      requires Valid() && NextBit(source[..], State()).Some?
      modifies this
      ensures Valid() && Some((flag, State())) == NextBit(source[..], old(State()))
    {
      bitpos := bitpos - 1;
      if bitpos == 0 {
        currentbyte := source[sourceptr];
        bitpos := 8;
        sourceptr := sourceptr + 1;
      }
      flag := currentbyte % 2 == 1;
      currentbyte := currentbyte / 2;
    }

    method TakeLong() returns (item: Item)
      requires Valid() && LongItem(source[..], State()).Some?
      modifies this
      ensures Valid() && Some((item, State())) == LongItem(source[..], old(State()))
    {
      var low, high := source[sourceptr], source[sourceptr + 1];
      var word: nat := high as int * 256 + low;
      sourceptr := sourceptr + 2;
      if word == 0 {
        return End;
      }
      var size: nat := low % 8;
      if size == 0 {
        size := source[sourceptr] as int + 1;
        sourceptr := sourceptr + 1;
      } else {
        size := size + 2;
      }
      item := Copy(word / 8 - 0x2000, size);
    }

    method TakeShort() returns (item: Item)
      requires Valid() && ShortItem(source[..], State()).Some?
      modifies this
      ensures Valid() && Some((item, State())) == ShortItem(source[..], old(State()))
    {
      var a := TakeBit();
      var b := TakeBit();
      var size: nat := (if a then 2 else 0) + if b then 1 else 0;
      item := Copy(source[sourceptr] as int - 256, size + 2);
      sourceptr := sourceptr + 1;
    }

    /** One turn of the loop, up to the copying. */
    method TakeItem() returns (item: Item)
      requires Valid() && ReadItem(source[..], State()).Some?
      modifies this
      ensures Valid() && Some((item, State())) == ReadItem(source[..], old(State()))
    {
      var flag := TakeBit();
      if flag {
        item := Raw(source[sourceptr]);
        sourceptr := sourceptr + 1;
        return;
      }
      flag := TakeBit();
      if flag {
        item := TakeLong();
      } else {
        item := TakeShort();
      }
    }
  }

  /** The copying loop. */
  method CopyBytes(dest: array<byte>, at: nat, offset: nat, n: nat)
    requires 1 <= offset <= at && at + n <= dest.Length
    modifies dest
    ensures dest[..at + n] == Copied(old(dest[..at]), offset, n)
  {
    for x := 0 to n
      invariant dest[..at + x] == Copied(old(dest[..at]), offset, x)
    {
      ghost var done := dest[..at + x];
      dest[at + x] := dest[at + x - offset];
      assert dest[..at + x + 1] == done + [done[|done| - offset]];
    }
  }

  method Append(item: Item, dest: array<byte>, at: nat) returns (end: nat)
    requires at <= dest.Length && Applicable(item, dest[..at]) && |Apply(item, dest[..at])| <= dest.Length
    modifies dest
    ensures end <= dest.Length && dest[..end] == Apply(item, old(dest[..at]))
  {
    if item.Raw? {
      dest[at] := item.b;
      end := at + 1;
    } else {
      CopyBytes(dest, at, -item.offset, item.size);
      end := at + item.size;
    }
  }

  /** `prs_decompress`, on the streams it can read: it checks nothing itself. */
  method Decompress(source: array<byte>, dest: array<byte>) returns (n: nat)
    requires source != dest && Decompressed(source[..]).Some? && |Decompressed(source[..]).value| <= dest.Length
    modifies dest
    ensures n <= dest.Length && Decompressed(source[..]) == Some(dest[..n])
  {
    ghost var s := source[..];
    ghost var v := Decompressed(s).value;
    var reader := new BitReader(source);
    n := 0;
    assert dest[..0] == [];
    while true
      invariant reader.Valid() && reader.source == source && fresh(reader) && source[..] == s
      invariant n <= dest.Length && reader.State().pos <= |s| && Decode(s, reader.State(), dest[..n]) == Some(v)
      decreases |s| - reader.State().pos
    {
      ghost var r := reader.State();
      var item := reader.TakeItem();
      if item == End {
        return;
      }
      DecodeGrows(s, reader.State(), Apply(item, dest[..n]));
      n := Append(item, dest, n);
    }
  }

  // ---------------------------------------------------------------- measuring

  function SizeOf(item: Item): nat
    requires !item.End?
  {
    if item.Raw? then 1 else item.size
  }

  /** The number of bytes that the items of a stream stand for. */
  function Measured(s: seq<byte>, r: Reader, n: nat): (m: Option<nat>)
    requires r.pos <= |s|
    decreases |s| - r.pos
  {
    var i := ReadItem(s, r);
    if i.None? then None
    else if i.value.0.End? then Some(n)
    else Measured(s, i.value.1, n + SizeOf(i.value.0))
  }

  /** The measure is the length of what the decoder produces. */
  lemma {:induction false} MeasuredIsLength(s: seq<byte>, r: Reader, out: seq<byte>)
    requires r.pos <= |s| && Decode(s, r, out).Some?
    ensures Measured(s, r, |out|) == Some(|Decode(s, r, out).value|)
    decreases |s| - r.pos
  {
    var i := ReadItem(s, r).value;
    if !i.0.End? { MeasuredIsLength(s, i.1, Apply(i.0, out)); }
  }

  /** The measure of a whole stream. */
  function StreamSize(s: seq<byte>): Option<nat> {
    if s == [] then None else Measured(s, Reader(1, s[0], 8), 0)
  }

  /** A stream that can be decoded has the size of its output. */
  lemma {:induction false} SizeIsLength(s: seq<byte>)
    requires Decompressed(s).Some?
    ensures StreamSize(s) == Some(|Decompressed(s).value|)
  {
    MeasuredIsLength(s, Reader(1, s[0], 8), []);
  }

  /** `prs_decompress_size`. */
  method DecompressSize(source: array<byte>) returns (n: nat)
    requires StreamSize(source[..]).Some?
    ensures StreamSize(source[..]) == Some(n)
  {
    ghost var s := source[..];
    ghost var total := StreamSize(s).value;
    var reader := new BitReader(source);
    n := 0;
    while true
      invariant reader.Valid() && reader.source == source && fresh(reader) && reader.State().pos <= |s|
      invariant Measured(s, reader.State(), n) == Some(total)
      decreases |s| - reader.State().pos
    {
      var item := reader.TakeItem();
      if item == End {
        return;
      }
      n := n + SizeOf(item);
    }
  }
}
