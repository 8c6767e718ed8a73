/** The SPN round stage F2 and its inverse F2_inv (GFSPX_Cipher.cpp, lines 67-109):
    key XOR, a layer of eight 4-bit S-boxes, and a 32-position bit permutation.

    The specification functions follow the source's OR-accumulating loops one
    iteration at a time; the lemmas below characterise their result nibble by nibble
    and bit by bit, and from that prove that F2_inv undoes F2 for every input and key. */
module SpnStage {
  import opened Tables
  import opened Bits

  /** One iteration of the S-box loop: nibble j of x, looked up in box and put back
      at nibble j. */
  function SubstitutedNibble(x: bv32, box: seq<bv8>, j: bv32): bv32
    requires IsNibbleTable(box) && j < 8
  {
    Lookup(box, Nibble(x, j)) << (4 * j)
  }

  /** The S-box loop's output after its first n iterations. Naming x in the decreases
      clause too keeps a literal count alone from unrolling the whole definition. */
  function SubstitutedUpTo(x: bv32, box: seq<bv8>, n: bv32): bv32
    requires IsNibbleTable(box) && n <= 8
    decreases n, x
  {
    if n == 0 then 0 else SubstitutedUpTo(x, box, n - 1) | SubstitutedNibble(x, box, n - 1)
  }

  /** All eight nibbles of x substituted through box. */
  function Substituted(x: bv32, box: seq<bv8>): bv32
    requires IsNibbleTable(box)
  {
    SubstitutedUpTo(x, box, 8)
  }

  /** One iteration of the permutation loop: bit table[i] of x, moved to bit i. */
  function PermutedBit(x: bv32, table: seq<bv8>, i: bv32): bv32
    requires IsPositionTable(table) && i < 32
  {
    Bit(x, Lookup(table, i)) << i
  }

  /** The permutation loop's output after its first n iterations (x is in the decreases
      clause for the same reason). */
  function PermutedUpTo(x: bv32, table: seq<bv8>, n: bv32): bv32
    requires IsPositionTable(table) && n <= 32
    decreases n, x
  {
    if n == 0 then 0 else PermutedUpTo(x, table, n - 1) | PermutedBit(x, table, n - 1)
  }

  /** x with its bits permuted by table: output bit i is input bit table[i]. */
  function Permuted(x: bv32, table: seq<bv8>): bv32
    requires IsPositionTable(table)
  {
    PermutedUpTo(x, table, 32)
  }

  /** What F2 computes: key XOR, S-box layer, bit permutation. */
  function Spn(input: bv32, key: bv32): bv32
  {
    TablesWellFormed();
    Permuted(Substituted(input ^ key, SBOX), P_PERMUTATION)
  }

  /** What F2_inv computes: inverse permutation, inverse S-box layer, key XOR. */
  function SpnInverse(input: bv32, key: bv32): bv32
  {
    TablesWellFormed();
    Substituted(Permuted(input, INV_P_PERMUTATION), INV_SBOX) ^ key
  }

  /** The S-box loop shared by F2 (lines 74-79) and F2_inv (lines 100-105): each of the
      eight nibbles of x is looked up in box and ORed into the output at its own place. */
  method SubstituteNibbles(x: bv32, box: seq<bv8>) returns (output: bv32)
    requires IsNibbleTable(box)
    ensures output == Substituted(x, box)
  {
    output := 0;
    var i: bv32 := 0;
    while i < 8
      invariant i <= 8
      invariant output == SubstitutedUpTo(x, box, i)
    {
      var nibble := Nibble(x, i);
      nibble := Lookup(box, nibble);
      output := output | (nibble << (4 * i));
      SubstitutedStep(x, box, i);
      i := i + 1;
    }
  }

  /** The permutation loop shared by F2 (lines 81-84) and F2_inv (lines 94-97): output
      bit i is input bit table[i], ORed in one position at a time. */
  method PermuteBits(x: bv32, table: seq<bv8>) returns (permuted: bv32)
    requires IsPositionTable(table)
    ensures permuted == Permuted(x, table)
  {
    permuted := 0;
    var i: bv32 := 0;
    while i < 32
      invariant i <= 32
      invariant permuted == PermutedUpTo(x, table, i)
    {
      permuted := permuted | (Bit(x, Lookup(table, i)) << i);
      PermutedStep(x, table, i);
      i := i + 1;
    }
  }

  /** F2 (lines 68-87): key XOR, the S-box loop, then the permutation loop. Its result is
      the specification Spn, which F2_inv undoes. */
  method F2(input: bv32, key: bv32) returns (permutedOutput: bv32)
    ensures permutedOutput == Spn(input, key)
    ensures SpnInverse(permutedOutput, key) == input
  {
    TablesWellFormed();
    var x := input ^ key;
    var output := SubstituteNibbles(x, SBOX);
    permutedOutput := PermuteBits(output, P_PERMUTATION);
    SpnRoundTrip(input, key);
  }

  /** F2_inv (lines 90-109): the permutation loop with the inverse table, the S-box loop
      with the inverse S-box, then the key XOR. Its result is SpnInverse, which F2 undoes. */
  method F2Inv(input: bv32, key: bv32) returns (output: bv32)
    ensures output == SpnInverse(input, key)
    ensures Spn(output, key) == input
  {
    TablesWellFormed();
    var permutedOutput := PermuteBits(input, INV_P_PERMUTATION);
    var substituted := SubstituteNibbles(permutedOutput, INV_SBOX);
    output := substituted ^ key;
    SpnInverseRoundTrip(input, key);
  }

  /** One more iteration of the S-box loop ORs in the looked-up nibble i. */
  lemma SubstitutedStep(x: bv32, box: seq<bv8>, i: bv32)
    requires IsNibbleTable(box) && i < 8
    ensures SubstitutedUpTo(x, box, i + 1) == SubstitutedUpTo(x, box, i) | SubstitutedNibble(x, box, i)
  {
    assert (i + 1) - 1 == i;
  }

  /** One more iteration of the permutation loop ORs in bit table[i] of x at bit i. */
  lemma PermutedStep(x: bv32, table: seq<bv8>, i: bv32)
    requires IsPositionTable(table) && i < 32
    ensures PermutedUpTo(x, table, i + 1) == PermutedUpTo(x, table, i) | PermutedBit(x, table, i)
  {
    assert (i + 1) - 1 == i;
  }

  // Nibble-level and bit-level characterisations

  /** Placing a nibble value at nibble m changes only nibble m. */
  lemma NibbleOfPlaced(a: bv32, v: bv32, m: bv32, j: bv32)
    requires v < 16 && m < 8 && j < 8
    ensures j == m ==> Nibble(a | (v << (4 * m)), j) == Nibble(a, j) | v
    ensures j != m ==> Nibble(a | (v << (4 * m)), j) == Nibble(a, j)
  {
  }

  /** Nibble j of the S-box loop's output after n iterations is box applied to nibble j
      of the input when that nibble has been processed, and zero otherwise. */
  lemma {:induction false} NibbleOfSubstitutedUpTo(x: bv32, box: seq<bv8>, n: bv32, j: bv32)
    requires IsNibbleTable(box) && n <= 8 && j < 8
    ensures j < n ==> Nibble(SubstitutedUpTo(x, box, n), j) == Lookup(box, Nibble(x, j))
    ensures n <= j ==> Nibble(SubstitutedUpTo(x, box, n), j) == 0
    decreases n
  {
    if n != 0 {
      NibbleOfSubstitutedUpTo(x, box, n - 1, j);
      NibbleOfPlaced(SubstitutedUpTo(x, box, n - 1), Lookup(box, Nibble(x, n - 1)), n - 1, j);
      if j == n - 1 {
        assert Lookup(box, Nibble(x, j)) == Lookup(box, Nibble(x, n - 1));
      }
    }
  }

  /** Every nibble of Substituted(x, box) is box applied to the same nibble of x. */
  lemma NibbleOfSubstituted(x: bv32, box: seq<bv8>, j: bv32)
    requires IsNibbleTable(box) && j < 8
    ensures Nibble(Substituted(x, box), j) == Lookup(box, Nibble(x, j))
  {
    NibbleOfSubstitutedUpTo(x, box, 8, j);
  }

  /** Bit i of a | b is the OR of bit i of a and bit i of b. */
  lemma BitOfOr(a: bv32, b: bv32, i: bv32)
    requires i < 32
    ensures Bit(a | b, i) == Bit(a, i) | Bit(b, i)
  {
  }

  /** A one-bit value shifted to position m has bit m equal to it and every other bit clear. */
  lemma BitOfShifted(b: bv32, m: bv32, i: bv32)
    requires b <= 1 && m < 32 && i < 32
    ensures i == m ==> Bit(b << m, i) == b
    ensures i != m ==> Bit(b << m, i) == 0
  {
  }

  /** Bit i of the permutation loop's output after n iterations is bit table[i] of the
      input when position i has been processed, and clear otherwise. */
  lemma {:induction false} BitOfPermutedUpTo(x: bv32, table: seq<bv8>, n: bv32, i: bv32)
    requires IsPositionTable(table) && n <= 32 && i < 32
    ensures i < n ==> Bit(PermutedUpTo(x, table, n), i) == Bit(x, Lookup(table, i))
    ensures n <= i ==> Bit(PermutedUpTo(x, table, n), i) == 0
    decreases n
  {
    if n != 0 {
      BitOfPermutedUpTo(x, table, n - 1, i);
      BitOfOr(PermutedUpTo(x, table, n - 1), PermutedBit(x, table, n - 1), i);
      BitOfShifted(Bit(x, Lookup(table, n - 1)), n - 1, i);
      if i == n - 1 {
        assert Lookup(table, i) == Lookup(table, n - 1);
      }
    }
  }

  /** Output bit i of Permuted(x, table) is input bit table[i]. */
  lemma BitOfPermuted(x: bv32, table: seq<bv8>, i: bv32)
    requires IsPositionTable(table) && i < 32
    ensures Bit(Permuted(x, table), i) == Bit(x, Lookup(table, i))
  {
    BitOfPermutedUpTo(x, table, 32, i);
  }

  // Inverse layers

  /** Substituting through box and then through a table that undoes box gives back x. */
  lemma SubstitutedUndone(x: bv32, box: seq<bv8>, undo: seq<bv8>)
    requires IsNibbleTable(box) && IsNibbleTable(undo)
    requires forall n: bv32 :: n < 16 ==> Lookup(undo, Lookup(box, n)) == n
    ensures Substituted(Substituted(x, box), undo) == x
  {
    var s := Substituted(x, box);
    forall j: bv32 | j < 8
      ensures Nibble(Substituted(s, undo), j) == Nibble(x, j)
    {
      NibbleOfSubstituted(s, undo, j);
      NibbleOfSubstituted(x, box, j);
    }
    NibblesDetermine(Substituted(s, undo), x);
  }

  /** Permuting by table and then by a table that undoes it gives back x. */
  lemma PermutedUndone(x: bv32, table: seq<bv8>, undo: seq<bv8>)
    requires IsPositionTable(table) && IsPositionTable(undo)
    requires forall i: bv32 :: i < 32 ==> Lookup(table, Lookup(undo, i)) == i
    ensures Permuted(Permuted(x, table), undo) == x
  {
    var p := Permuted(x, table);
    forall i: bv32 | i < 32
      ensures Bit(Permuted(p, undo), i) == Bit(x, i)
    {
      BitOfPermuted(p, undo, i);
      BitOfPermuted(x, table, Lookup(undo, i));
    }
    BitsDetermine(Permuted(p, undo), x);
  }

  /** F2_inv undoes F2: F2_inv(F2(x, k), k) == x for every 32-bit x and k. This is the
      property the self-test TestF2AndF2Inv (lines 231-265) checks on 25 sample pairs. */
  lemma SpnRoundTrip(x: bv32, key: bv32)
    ensures SpnInverse(Spn(x, key), key) == x
  {
    SboxInverse();
    PermutationInverse();
    var s := Substituted(x ^ key, SBOX);
    PermutedUndone(s, P_PERMUTATION, INV_P_PERMUTATION);
    SubstitutedUndone(x ^ key, SBOX, INV_SBOX);
  }

  /** F2 undoes F2_inv as well, so F2 is a bijection on 32-bit words for every key. */
  lemma SpnInverseRoundTrip(y: bv32, key: bv32)
    ensures Spn(SpnInverse(y, key), key) == y
  {
    SboxInverse();
    PermutationInverse();
    var p := Permuted(y, INV_P_PERMUTATION);
    SubstitutedUndone(p, INV_SBOX, SBOX);
    PermutedUndone(y, INV_P_PERMUTATION, P_PERMUTATION);
  }
}
