/**
 * The unsigned order on 32-bit words, as `u32` comparisons see it.
 *
 * Equality from `x <= y && y <= x` is proved byte by byte, most
 * significant byte first; each byte is compared as an 8-bit word.
 */
module Order {

  /** The four bytes of a word, `Byte0` least significant. */
  function Byte3(x: bv32): bv8 { (x >> 24) as bv8 }
  function Byte2(x: bv32): bv8 { ((x >> 16) & 0xFF) as bv8 }
  function Byte1(x: bv32): bv8 { ((x >> 8) & 0xFF) as bv8 }
  function Byte0(x: bv32): bv8 { (x & 0xFF) as bv8 }

  lemma ByteAntisym(x: bv8, y: bv8)
    ensures x <= y && y <= x ==> x == y
  {
  }

  /** A word is determined by its bytes. */
  lemma Bytes(x: bv32, y: bv32)
    ensures (Byte0(x) == Byte0(y) && Byte1(x) == Byte1(y) && Byte2(x) == Byte2(y) &&
             Byte3(x) == Byte3(y)) ==> x == y
  {
  }

  lemma ByteMono3(x: bv32, y: bv32)
    ensures x <= y ==> Byte3(x) <= Byte3(y)
  {
  }

  lemma ByteMono2(x: bv32, y: bv32)
    ensures (x <= y && Byte3(x) == Byte3(y)) ==> Byte2(x) <= Byte2(y)
  {
  }

  lemma ByteMono1(x: bv32, y: bv32)
    ensures (x <= y && Byte3(x) == Byte3(y) && Byte2(x) == Byte2(y)) ==> Byte1(x) <= Byte1(y)
  {
  }

  lemma ByteMono0(x: bv32, y: bv32)
    ensures (x <= y && Byte3(x) == Byte3(y) && Byte2(x) == Byte2(y) && Byte1(x) == Byte1(y))
      ==> Byte0(x) <= Byte0(y)
  {
  }

  /** The unsigned order on words is antisymmetric. */
  lemma Antisym(x: bv32, y: bv32)
    requires x <= y && y <= x
    ensures x == y
  {
    ByteMono3(x, y);
    ByteMono3(y, x);
    ByteAntisym(Byte3(x), Byte3(y));
    ByteMono2(x, y);
    ByteMono2(y, x);
    ByteAntisym(Byte2(x), Byte2(y));
    ByteMono1(x, y);
    ByteMono1(y, x);
    ByteAntisym(Byte1(x), Byte1(y));
    ByteMono0(x, y);
    ByteMono0(y, x);
    ByteAntisym(Byte0(x), Byte0(y));
    Bytes(x, y);
  }
}
