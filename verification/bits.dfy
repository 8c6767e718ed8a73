/** Bit and nibble views of 32-bit words, and the facts that a word is determined by
    its bits and by its nibbles. Positions are bv32 values, as the shift amounts that
    select them are. */
module Bits {

  /** Bit i of x (0 or 1), counting from the least significant bit, read as (x >> i) & 1. */
  function Bit(x: bv32, i: bv32): (b: bv32)
    requires i < 32
    ensures b <= 1
  {
    (x >> i) & 1
  }

  /** Nibble j of x, counting from the least significant nibble, read as (x >> 4j) & 0xF. */
  function Nibble(x: bv32, j: bv32): (r: bv32)
    requires j < 8
    ensures r < 16
  {
    (x >> (4 * j)) & 0xF
  }

  /** A word is determined by its 32 bits. */
  lemma BitsDetermine(a: bv32, b: bv32)
    requires forall i: bv32 :: i < 32 ==> Bit(a, i) == Bit(b, i)
    ensures a == b
  {
    ByteOfBits0(a, b);
    ByteOfBits1(a, b);
    ByteOfBits2(a, b);
    ByteOfBits3(a, b);
  }

  /** Words whose bits agree have the same byte 0. */
  lemma ByteOfBits0(a: bv32, b: bv32)
    requires forall i: bv32 :: i < 32 ==> Bit(a, i) == Bit(b, i)
    ensures (a >> 0) & 0xFF == (b >> 0) & 0xFF
  {
    assert Bit(a, 0) == Bit(b, 0) && Bit(a, 1) == Bit(b, 1) && Bit(a, 2) == Bit(b, 2) && Bit(a, 3) == Bit(b, 3);
    assert Bit(a, 4) == Bit(b, 4) && Bit(a, 5) == Bit(b, 5) && Bit(a, 6) == Bit(b, 6) && Bit(a, 7) == Bit(b, 7);
  }

  /** Words whose bits agree have the same byte 1. */
  lemma ByteOfBits1(a: bv32, b: bv32)
    requires forall i: bv32 :: i < 32 ==> Bit(a, i) == Bit(b, i)
    ensures (a >> 8) & 0xFF == (b >> 8) & 0xFF
  {
    assert Bit(a, 8) == Bit(b, 8) && Bit(a, 9) == Bit(b, 9) && Bit(a, 10) == Bit(b, 10) && Bit(a, 11) == Bit(b, 11);
    assert Bit(a, 12) == Bit(b, 12) && Bit(a, 13) == Bit(b, 13) && Bit(a, 14) == Bit(b, 14) && Bit(a, 15) == Bit(b, 15);
  }

  /** Words whose bits agree have the same byte 2. */
  lemma ByteOfBits2(a: bv32, b: bv32)
    requires forall i: bv32 :: i < 32 ==> Bit(a, i) == Bit(b, i)
    ensures (a >> 16) & 0xFF == (b >> 16) & 0xFF
  {
    assert Bit(a, 16) == Bit(b, 16) && Bit(a, 17) == Bit(b, 17) && Bit(a, 18) == Bit(b, 18) && Bit(a, 19) == Bit(b, 19);
    assert Bit(a, 20) == Bit(b, 20) && Bit(a, 21) == Bit(b, 21) && Bit(a, 22) == Bit(b, 22) && Bit(a, 23) == Bit(b, 23);
  }

  /** Words whose bits agree have the same byte 3. */
  lemma ByteOfBits3(a: bv32, b: bv32)
    requires forall i: bv32 :: i < 32 ==> Bit(a, i) == Bit(b, i)
    ensures (a >> 24) & 0xFF == (b >> 24) & 0xFF
  {
    assert Bit(a, 24) == Bit(b, 24) && Bit(a, 25) == Bit(b, 25) && Bit(a, 26) == Bit(b, 26) && Bit(a, 27) == Bit(b, 27);
    assert Bit(a, 28) == Bit(b, 28) && Bit(a, 29) == Bit(b, 29) && Bit(a, 30) == Bit(b, 30) && Bit(a, 31) == Bit(b, 31);
  }

  /** A word is determined by its 8 nibbles. */
  lemma NibblesDetermine(a: bv32, b: bv32)
    requires forall j: bv32 :: j < 8 ==> Nibble(a, j) == Nibble(b, j)
    ensures a == b
  {
    assert Nibble(a, 0) == Nibble(b, 0) && Nibble(a, 1) == Nibble(b, 1);
    assert Nibble(a, 2) == Nibble(b, 2) && Nibble(a, 3) == Nibble(b, 3);
    assert Nibble(a, 4) == Nibble(b, 4) && Nibble(a, 5) == Nibble(b, 5);
    assert Nibble(a, 6) == Nibble(b, 6) && Nibble(a, 7) == Nibble(b, 7);
  }
}
