/** Copies within the output, as the decoders of libbcl/lz.c and libbcl/prs.c make them. */
module BackCopy {
  import opened Bytes
  import opened Multiples

  /** `n` bytes copied from `offset` back, each after the last. */
  function Copied(done: seq<byte>, offset: nat, n: nat): (r: seq<byte>)
    requires 1 <= offset <= |done|
    ensures |r| == |done| + n && r[..|done|] == done
  {
    if n == 0 then done
    else
      var r := Copied(done, offset, n - 1);
      r + [r[|r| - offset]]
  }

  /** A copy that is longer than its distance repeats the last `offset` bytes. */
  lemma {:induction false} CopiedRepeats(done: seq<byte>, offset: nat, n: nat, i: nat)
    requires 1 <= offset <= |done| && i < n
    ensures Copied(done, offset, n)[|done| + i] == done[|done| - offset + i % offset]
    decreases i
  {
    CopiedAt(done, offset, n, i);
    StepBack(i, offset);
    if i >= offset { CopiedRepeats(done, offset, n, i - offset); }
  }

  /** Each byte is the one `offset` before it. */
  lemma {:induction false} CopiedAt(done: seq<byte>, offset: nat, n: nat, i: nat)
    requires 1 <= offset <= |done| && i < n
    ensures var r := Copied(done, offset, n); r[|done| + i] == r[|done| + i - offset]
    decreases n
  {
    if i < n - 1 { CopiedAt(done, offset, n - 1, i); }
  }

  lemma StepBack(i: nat, offset: nat)
    requires 1 <= offset
    ensures i % offset < offset && if i < offset then i % offset == i else (i - offset) % offset == i % offset
  {
    if i < offset {
      Remainder(i, offset, 0, i);
    } else {
      Remainder(i - offset, offset, i / offset - 1, i % offset);
    }
  }
}
