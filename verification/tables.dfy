/** The constant lookup tables of the GFSPX cipher: a 4-bit S-box, a 32-position
    bit permutation, and the inverse of each. The source stores every entry as an
    8-bit unsigned value, so the tables are sequences of bv8. */
module Tables {

  /** The forward nibble substitution box, written as the source's two rows of eight. */
  const SBOX: seq<bv8> :=
    [0xC, 0x5, 0x6, 0xB, 0x9, 0x0, 0xA, 0xD] +
    [0x3, 0xE, 0xF, 0x8, 0x4, 0x7, 0x1, 0x2]

  /** The inverse nibble substitution box. */
  const INV_SBOX: seq<bv8> :=
    [0x5, 0xE, 0xF, 0x8, 0xC, 0x1, 0x2, 0xD] +
    [0xB, 0x4, 0x6, 0x3, 0x0, 0x7, 0x9, 0xA]

  /** The bit permutation: output bit i takes input bit P_PERMUTATION[i]. Written as the
      source's four rows of eight. */
  const P_PERMUTATION: seq<bv8> :=
    [0, 8, 16, 24, 1, 9, 17, 25] +
    [2, 10, 18, 26, 3, 11, 19, 27] +
    [4, 12, 20, 28, 5, 13, 21, 29] +
    [6, 14, 22, 30, 7, 15, 23, 31]

  /** The inverse bit permutation. */
  const INV_P_PERMUTATION: seq<bv8> :=
    [0, 4, 8, 12, 16, 20, 24, 28] +
    [1, 5, 9, 13, 17, 21, 25, 29] +
    [2, 6, 10, 14, 18, 22, 26, 30] +
    [3, 7, 11, 15, 19, 23, 27, 31]

  /** Entry n of a table, widened to a 32-bit word as the source does before shifting. */
  function Lookup(table: seq<bv8>, n: bv32): bv32
    requires n as int < |table|
  {
    table[n as int] as bv32
  }

  /** A table with 16 entries, each a nibble value (below 16). */
  ghost predicate IsNibbleTable(box: seq<bv8>)
  {
    |box| == 16 && forall n: bv32 :: n < 16 ==> Lookup(box, n) < 16
  }

  /** A table with 32 entries, each a bit position (below 32). */
  ghost predicate IsPositionTable(table: seq<bv8>)
  {
    |table| == 32 && forall i: bv32 :: i < 32 ==> Lookup(table, i) < 32
  }

  /** Both S-boxes map nibbles to nibbles, and each undoes the other: the S-box is a
      permutation of 0..15 and INV_SBOX is its inverse. */
  lemma SboxInverse()
    ensures IsNibbleTable(SBOX) && IsNibbleTable(INV_SBOX)
    ensures forall n: bv32 :: n < 16 ==> Lookup(INV_SBOX, Lookup(SBOX, n)) == n
    ensures forall n: bv32 :: n < 16 ==> Lookup(SBOX, Lookup(INV_SBOX, n)) == n
  {
    forall n: bv32 | n < 16
      ensures Lookup(SBOX, n) < 16 && Lookup(INV_SBOX, n) < 16
      ensures Lookup(INV_SBOX, Lookup(SBOX, n)) == n && Lookup(SBOX, Lookup(INV_SBOX, n)) == n
    {
      NibbleCases(n);
    }
  }

  /** Both permutation tables hold bit positions, and each undoes the other. */
  lemma PermutationInverse()
    ensures IsPositionTable(P_PERMUTATION) && IsPositionTable(INV_P_PERMUTATION)
    ensures forall i: bv32 :: i < 32 ==> Lookup(P_PERMUTATION, Lookup(INV_P_PERMUTATION, i)) == i
    ensures forall i: bv32 :: i < 32 ==> Lookup(INV_P_PERMUTATION, Lookup(P_PERMUTATION, i)) == i
  {
    forall i: bv32 | i < 32
      ensures Lookup(P_PERMUTATION, i) < 32 && Lookup(INV_P_PERMUTATION, i) < 32
      ensures Lookup(P_PERMUTATION, Lookup(INV_P_PERMUTATION, i)) == i
      ensures Lookup(INV_P_PERMUTATION, Lookup(P_PERMUTATION, i)) == i
    {
      PositionCases(i);
    }
  }

  /** All four tables have the shape the cipher's loops rely on. */
  lemma TablesWellFormed()
    ensures IsNibbleTable(SBOX) && IsNibbleTable(INV_SBOX)
    ensures IsPositionTable(P_PERMUTATION) && IsPositionTable(INV_P_PERMUTATION)
  {
    SboxInverse();
    PermutationInverse();
  }

  /** Enumerates the 16 nibble values, so that every lookup is on a literal index. */
  lemma NibbleCases(n: bv32)
    requires n < 16
    ensures Lookup(SBOX, n) < 16 && Lookup(INV_SBOX, n) < 16
    ensures Lookup(INV_SBOX, Lookup(SBOX, n)) == n && Lookup(SBOX, Lookup(INV_SBOX, n)) == n
  {
    if n == 0 {} else if n == 1 {} else if n == 2 {} else if n == 3 {}
    else if n == 4 {} else if n == 5 {} else if n == 6 {} else if n == 7 {}
    else if n == 8 {} else if n == 9 {} else if n == 10 {} else if n == 11 {}
    else if n == 12 {} else if n == 13 {} else if n == 14 {} else {}
  }

  /** Enumerates the 32 bit positions, a quarter at a time. */
  lemma PositionCases(i: bv32)
    requires i < 32
    ensures Lookup(P_PERMUTATION, i) < 32 && Lookup(INV_P_PERMUTATION, i) < 32
    ensures Lookup(P_PERMUTATION, Lookup(INV_P_PERMUTATION, i)) == i
    ensures Lookup(INV_P_PERMUTATION, Lookup(P_PERMUTATION, i)) == i
  {
    if i < 8 { PositionCasesFrom0(i); } else if i < 16 { PositionCasesFrom8(i); }
    else if i < 24 { PositionCasesFrom16(i); } else { PositionCasesFrom24(i); }
  }

  lemma PositionCasesFrom0(n: bv32)
    requires 0 <= n < 8
    ensures Lookup(P_PERMUTATION, n) < 32 && Lookup(INV_P_PERMUTATION, n) < 32
    ensures Lookup(P_PERMUTATION, Lookup(INV_P_PERMUTATION, n)) == n
    ensures Lookup(INV_P_PERMUTATION, Lookup(P_PERMUTATION, n)) == n
  {
    if n == 0 {} else if n == 1 {} else if n == 2 {} else if n == 3 {}
    else if n == 4 {} else if n == 5 {} else if n == 6 {} else {}
  }

  lemma PositionCasesFrom8(n: bv32)
    requires 8 <= n < 16
    ensures Lookup(P_PERMUTATION, n) < 32 && Lookup(INV_P_PERMUTATION, n) < 32
    ensures Lookup(P_PERMUTATION, Lookup(INV_P_PERMUTATION, n)) == n
    ensures Lookup(INV_P_PERMUTATION, Lookup(P_PERMUTATION, n)) == n
  {
    if n == 8 {} else if n == 9 {} else if n == 10 {} else if n == 11 {}
    else if n == 12 {} else if n == 13 {} else if n == 14 {} else {}
  }

  lemma PositionCasesFrom16(n: bv32)
    requires 16 <= n < 24
    ensures Lookup(P_PERMUTATION, n) < 32 && Lookup(INV_P_PERMUTATION, n) < 32
    ensures Lookup(P_PERMUTATION, Lookup(INV_P_PERMUTATION, n)) == n
    ensures Lookup(INV_P_PERMUTATION, Lookup(P_PERMUTATION, n)) == n
  {
    if n == 16 {} else if n == 17 {} else if n == 18 {} else if n == 19 {}
    else if n == 20 {} else if n == 21 {} else if n == 22 {} else {}
  }

  lemma PositionCasesFrom24(n: bv32)
    requires 24 <= n < 32
    ensures Lookup(P_PERMUTATION, n) < 32 && Lookup(INV_P_PERMUTATION, n) < 32
    ensures Lookup(P_PERMUTATION, Lookup(INV_P_PERMUTATION, n)) == n
    ensures Lookup(INV_P_PERMUTATION, Lookup(P_PERMUTATION, n)) == n
  {
    if n == 24 {} else if n == 25 {} else if n == 26 {} else if n == 27 {}
    else if n == 28 {} else if n == 29 {} else if n == 30 {} else {}
  }
}
