/** The variable-length integers of libbcl/lz.c: seven bits in each byte, the last byte below 128. */
module VarSize {
  import opened Binary
  import opened Bytes
  import opened Options

  /** The bytes before the last one. */
  function Leading(x: nat): seq<byte> {
    (if x < 128 then [] else Leading(x / 128)) + [128 + x % 128]
  }

  function VarCode(x: nat): (r: seq<byte>)
    ensures r != []
  {
    (if x < 128 then [] else Leading(x / 128)) + [x % 128]
  }

  /** The number of bytes of a 32-bit word. */
  function VarLength(x: nat): (n: nat)
    ensures 1 <= n <= 5
  {
    if x >= 0x1000_0000 then 5 else if x >= 0x20_0000 then 4 else if x >= 0x4000 then 3 else if x >= 0x80 then 2 else 1
  }

  lemma {:induction false} CodeLength(x: nat)
    requires x < WORD
    ensures |VarCode(x)| == VarLength(x)
  {
    var a := x / 128;
    var b := a / 128;
    var c := b / 128;
    var d := c / 128;
    assert d < 128 && |Leading(d)| == 1;
    assert |Leading(c)| == 1 + if c < 128 then 0 else |Leading(d)|;
    assert |Leading(b)| == 1 + if b < 128 then 0 else |Leading(c)|;
    assert |Leading(a)| == 1 + if a < 128 then 0 else |Leading(b)|;
  }

  /** The group of seven bits that `k` others follow. */
  function Group(x: nat, k: nat): nat
    decreases k
  {
    if k == 0 then x % 128 else Group(x / 128, k - 1)
  }

  lemma {:induction false} LeadingGroups(x: nat, i: nat)
    requires i < |Leading(x)|
    ensures Leading(x)[i] as int == 128 + Group(x, |Leading(x)| - 1 - i)
  {
    if i < |Leading(x)| - 1 { LeadingGroups(x / 128, i); }
  }

  /** The highest group comes first, and every byte but the last has its highest bit set. */
  lemma {:induction false} CodeGroups(x: nat, i: nat)
    requires i < |VarCode(x)|
    ensures var n := |VarCode(x)|; VarCode(x)[i] as int == Group(x, n - 1 - i) + if i < n - 1 then 128 else 0
  {
    if i < |VarCode(x)| - 1 { LeadingGroups(x / 128, i); }
  }

  /** A code of a positive number does not begin with a zero byte. */
  lemma {:induction false} NeverStartsWithZero(x: nat)
    requires x >= 1
    ensures VarCode(x)[0] != 0
  {
    if x >= 128 { LeadingStart(x / 128); }
  }

  lemma {:induction false} LeadingStart(x: nat)
    ensures Leading(x)[0] >= 128
  {
    if x >= 128 { LeadingStart(x / 128); }
  }

  /** What `_LZ_ReadVarSize` makes of a stream: the word and the number of bytes, or `None` if the stream ends first. */
  function ReadVar(s: seq<byte>, y: nat): (r: Option<(nat, nat)>)
    ensures r.Some? ==> 1 <= r.value.1 <= |s|
    decreases |s|
  {
    if s == [] then None
    else
      var z := y * 128 % WORD + s[0] % 128;
      if s[0] < 128 then Some((z, 1))
      else Later(ReadVar(s[1..], z), 1)
  }

  /** The same outcome, `k` bytes further on. */
  function Later(r: Option<(nat, nat)>, k: nat): Option<(nat, nat)> {
    if r.None? then None else Some((r.value.0, k + r.value.1))
  }

  /** Reading leading bytes appends their bits. */
  lemma {:induction false} ReadLeading(x: nat, rest: seq<byte>)
    requires x * 128 < WORD
    ensures ReadVar(Leading(x) + rest, 0) == Later(ReadVar(rest, x), |Leading(x)|)
  {
    var last: byte := 128 + x % 128;
    if x < 128 {
      assert Leading(x) + rest == [last] + rest;
      ReadOne(last, rest, 0, x);
    } else {
      var front := Leading(x / 128);
      assert Leading(x) + rest == front + ([last] + rest);
      ReadLeading(x / 128, [last] + rest);
      ReadOne(last, rest, x / 128, x);
    }
  }

  lemma {:induction false} ReadOne(b: byte, rest: seq<byte>, y: nat, z: nat)
    requires b >= 128 && y * 128 < WORD && z == y * 128 + b % 128
    ensures ReadVar([b] + rest, y) == Later(ReadVar(rest, z), 1)
  {
    assert ([b] + rest)[1..] == rest;
  }

  /** Every word is read back, and nothing behind it is touched. */
  lemma {:induction false} ReadWritten(x: nat, rest: seq<byte>)
    requires x < WORD
    ensures ReadVar(VarCode(x) + rest, 0) == Some((x, |VarCode(x)|))
  {
    var last: byte := x % 128;
    if x < 128 {
      assert VarCode(x) + rest == [last] + rest;
    } else {
      assert VarCode(x) + rest == Leading(x / 128) + ([last] + rest);
      ReadLeading(x / 128, [last] + rest);
      ReadLast(last, rest, x / 128, x);
    }
  }

  lemma {:induction false} ReadLast(b: byte, rest: seq<byte>, y: nat, z: nat)
    requires b < 128 && y * 128 < WORD && z == y * 128 + b
    ensures ReadVar([b] + rest, y) == Some((z, 1))
  {
  }

  /** `_LZ_WriteVarSize`, first loop: the number of bytes, by looking for the highest bits that are set. */
  method NumBytes(x: nat) returns (n: nat)
    requires x < WORD
    ensures n == VarLength(x)
  {
    var y := x / 8;
    n := 5;
    while n >= 2
      invariant 1 <= n <= 5 && y < WORD
      invariant n == 5 ==> y == x / 8
      invariant n == 4 ==> y == x / 8 * 0x80 && x < 0x1000_0000
      invariant n == 3 ==> y == x / 8 * 0x4000 && x < 0x20_0000
      invariant n == 2 ==> y == x / 8 * 0x20_0000 && x < 0x4000
      invariant n == 1 ==> x < 0x80
    {
      if y >= 0x200_0000 {
        break;
      }
      y := y * 128 % WORD;
      n := n - 1;
    }
  }

  function Shift(x: nat, i: nat): nat {
    if i == 0 then x else Shift(x / 128, i - 1)
  }

  /** Byte `k` of the code, as the second loop computes it. */
  lemma {:induction false} CodeByte(x: nat, n: nat, i: nat)
    requires |VarCode(x)| == n && i < n
    ensures VarCode(x)[n - 1 - i] == Shift(x, i) % 128 + if i > 0 then 128 else 0
  {
    if i > 0 { LeadingByte(x / 128, n - 1, i - 1); }
  }

  lemma {:induction false} LeadingByte(x: nat, n: nat, i: nat)
    requires |Leading(x)| == n && i < n
    ensures Leading(x)[n - 1 - i] == Shift(x, i) % 128 + 128
  {
    if i > 0 { LeadingByte(x / 128, n - 1, i - 1); }
  }

  /** `_LZ_WriteVarSize`. */
  method WriteVarSize(x: nat, buf: array<byte>, at: nat) returns (n: nat)
    requires x < WORD && at + |VarCode(x)| <= buf.Length
    modifies buf
    ensures n == |VarCode(x)| && buf[..at + n] == old(buf[..at]) + VarCode(x)
  {
    CodeLength(x);
    n := NumBytes(x);
    ghost var code := VarCode(x);
    for k := 0 to n
      invariant buf[..at + k] == old(buf[..at]) + code[..k]
    {
      var i := n - 1 - k;
      CodeByte(x, n, i);
      assert code[..k + 1] == code[..k] + [code[k]];
      buf[at + k] := Shift(x, i) % 128 + if i > 0 then 128 else 0;
      assert buf[..at + k + 1] == buf[..at + k] + [code[k]];
    }
    assert code[..n] == code;
  }

  /** `_LZ_ReadVarSize`, on a stream that ends at `end`. */
  method ReadVarSize(buf: array<byte>, at: nat, ghost end: nat) returns (x: nat, n: nat)
    requires at <= end <= buf.Length && ReadVar(buf[at..end], 0).Some?
    ensures ReadVar(buf[at..end], 0) == Some((x, n))
  {
    x, n := 0, 0;
    var more := true;
    while more
      invariant at + n <= end
      invariant more ==> ReadVar(buf[at + n..end], x).Some?
      invariant more ==> ReadVar(buf[at..end], 0) == Later(ReadVar(buf[at + n..end], x), n)
      invariant !more ==> ReadVar(buf[at..end], 0) == Some((x, n))
      decreases more, buf.Length - n
    {
      var b := buf[at + n];
      assert buf[at + n..end][1..] == buf[at + n + 1..end];
      x := x * 128 % WORD + b % 128;
      n := n + 1;
      more := b >= 128;
    }
  }
}
