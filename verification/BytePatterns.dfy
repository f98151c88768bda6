/** The 8-bit patterns of bytes. */
module BytePatterns {
  import opened Bytes

  lemma PatternBack(a: int)
    requires 0 <= a < 256
    ensures (a as bv8) as int == a
  {
  }

  function Bits(a: byte): bv8 {
    a as bv8
  }

  /** Bytes are told apart by their patterns. */
  lemma BitsInjective(a: byte, b: byte)
    ensures Bits(a) == Bits(b) <==> a == b
  {
    PatternBack(a);
    PatternBack(b);
  }
}
