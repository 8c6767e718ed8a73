/** The 128-bit rotation rotate_left_128 and the key schedule GenerateRoundKeys
    (GFSPX_Cipher.cpp, lines 111-150). The 128-bit unsigned integers of the source are
    bv128, whose shifts discard the bits shifted out as the fixed-width type does. */
module KeySchedule {
  import opened Tables

  /** The shift-and-OR expression of rotate_left_128 for an amount 0 <= s < 128: the bits
      of value moved up by s, with the s bits pushed out at the top brought in at the
      bottom. For s == 0 the right shift is by the full width and contributes nothing. */
  function ShiftOr(value: bv128, s: bv32): bv128
    requires s < 128
  {
    (value << s) | (value >> (128 - s))
  }

  /** rotate_left_128 (lines 112-125). The source's `int shift` is a 32-bit signed
      integer; it is given here by its bit pattern, and a negative shift (which would
      reach an undefined negative shift in the source) is excluded by the precondition.
      Amounts of 128 and more are reduced modulo 128; amounts of 64 and more then lose 64
      before the shift-and-OR. */
  function RotateLeft128(value: bv128, shift: bv32): (r: bv128)
    requires shift < 0x8000_0000
  {
    var s := if shift >= 128 then shift % 128 else shift;
    if s == 0 then value
    else if s < 64 then ShiftOr(value, s)
    else ShiftOr(value, s - 64)
  }

  /** What rotate_left_128 rotates by: the amount modulo 64, never 64 or more. */
  function EffectiveShift(shift: bv32): (r: bv32)
    ensures r < 64
  {
    shift % 64
  }

  /** A left rotation of value by r bits, for r < 64, as the reference the rotation is
      compared with. */
  function RotatedBy(value: bv128, r: bv32): bv128
    requires r < 64
  {
    if r == 0 then value else (value << r) | (value >> (128 - r))
  }

  /** rotate_left_128 rotates by the shift amount modulo 64: modulo 128 first, then down
      by 64 when that is 64 or more. The amounts 0, 64 and 128 leave the value unchanged. */
  lemma RotationAmount(value: bv128, shift: bv32)
    requires shift < 0x8000_0000
    ensures RotateLeft128(value, shift) == RotatedBy(value, EffectiveShift(shift))
  {
    var s := if shift >= 128 then shift % 128 else shift;
    assert s < 128;
    if s < 64 {
      assert s == shift % 64;
    } else {
      assert s - 64 == shift % 64;
    }
  }

  /** The schedule asks for a rotation by 113 bits; the code rotates left by 49. */
  lemma RotationBy113(value: bv128)
    ensures RotateLeft128(value, 113) == value.RotateLeft(49)
  {
  }

  /** Rotations by 0, 64 and 128 leave every value as it is. */
  lemma RotationIdentities(value: bv128)
    ensures RotateLeft128(value, 0) == value
    ensures RotateLeft128(value, 64) == value
    ensures RotateLeft128(value, 128) == value
  {
  }

  /** A byte with each of its two nibbles passed through SBOX (line 137). The
      expression is evaluated in int and stored in a uint8_t, so it is kept to 8 bits. */
  function SubstitutedByte(b: bv32): (r: bv32)
    requires b < 256
  {
    ((Lookup(SBOX, (b >> 4) & 0xF) << 4) | Lookup(SBOX, b & 0xF)) & 0xFF
  }

  /** One iteration of GenerateRoundKeys (lines 132-144): rotate the state, S-box its top
      byte, XOR the round counter into bits 10..14. */
  function KeyStep(key: bv128, round: bv8): bv128
  {
    var temp0 := RotateLeft128(key, 113);
    var highBits := ((temp0 >> 120) & 0xFF) as bv32;
    var temp1 := SubstitutedByte(highBits);
    var temp3 := (((temp0 >> 10) & 0x1F) as bv8) ^ round;
    var key1 := ((temp1 as bv128) << 120) | (temp0 & ((1 << 120) - 1));
    (key1 & !(0x1F << 10)) | ((temp3 as bv128) << 10)
  }

  /** The round key taken from a state: its top 32 bits (line 147; the comment there says
      64, the code takes 32). */
  function RoundKey(key: bv128): (r: bv32)
    ensures r as bv128 == key >> 96
  {
    ((key >> 96) & 0xFFFF_FFFF) as bv32
  }

  /** The bits of the state a step carries over from the rotated state unchanged: all but
      the top byte and bits 10..14. */
  const KEPT_BITS: bv128 := ((1 << 120) - 1) & !(0x1F << 10)

  /** What one step does to the state, field by field, for the round counters the schedule
      uses: each nibble of the top byte is the S-box image of the same nibble of the state
      rotated left by 49, bits 10..14 are those of the rotated state XORed with the round
      counter, and every other bit is the rotated state's. */
  lemma KeyStepFields(key: bv128, round: bv8)
    requires round < 32
    ensures (KeyStep(key, round) >> 124) as bv32 == Lookup(SBOX, (key.RotateLeft(49) >> 124) as bv32)
    ensures ((KeyStep(key, round) >> 120) & 0xF) as bv32
         == Lookup(SBOX, ((key.RotateLeft(49) >> 120) & 0xF) as bv32)
    ensures (KeyStep(key, round) >> 10) & 0x1F == ((key.RotateLeft(49) >> 10) & 0x1F) ^ (round as bv128)
    ensures KeyStep(key, round) & KEPT_BITS == key.RotateLeft(49) & KEPT_BITS
  {
    RotationBy113(key);
  }

  /** The state after the first n iterations. Naming initialKey in the decreases clause
      too keeps the literal count 20 alone from unrolling the whole schedule. */
  function StateAfter(initialKey: bv128, n: bv8): bv128
    decreases n, initialKey
  {
    if n == 0 then initialKey else KeyStep(StateAfter(initialKey, n - 1), n - 1)
  }

  /** The round keys pushed by the first n iterations, in order (initialKey is in the
      decreases clause for the same reason). */
  function RoundKeysUpTo(initialKey: bv128, n: bv8): (keys: seq<bv32>)
    decreases n, initialKey
  {
    if n == 0 then [] else RoundKeysUpTo(initialKey, n - 1) + [RoundKey(StateAfter(initialKey, n))]
  }

  /** The 20 round keys GenerateRoundKeys derives from a key. */
  function RoundKeys(initialKey: bv128): seq<bv32>
  {
    RoundKeysUpTo(initialKey, 20)
  }

  /** GenerateRoundKeys (lines 128-150). The vector passed by reference is given in and
      handed back; the source never clears it, so the 20 new keys follow what it held. */
  method GenerateRoundKeys(initialKey: bv128, roundKeys: seq<bv32>) returns (keys: seq<bv32>)
    ensures keys == roundKeys + RoundKeys(initialKey)
    ensures |keys| == |roundKeys| + 20
    ensures keys[..|roundKeys|] == roundKeys
  {
    var key := initialKey;
    keys := roundKeys;
    var i: bv8 := 0;
    while i < 20
      invariant i <= 20
      invariant key == StateAfter(initialKey, i)
      invariant keys == roundKeys + RoundKeysUpTo(initialKey, i)
    {
      key := KeyStep(key, i);
      var roundKey := RoundKey(key);
      keys := keys + [roundKey];
      ScheduleStep(initialKey, i);
      i := i + 1;
    }
    RoundKeysLength(initialKey, 20);
  }

  /** One more iteration advances the state by one KeyStep and pushes its round key. */
  lemma ScheduleStep(initialKey: bv128, i: bv8)
    requires i < 20
    ensures StateAfter(initialKey, i + 1) == KeyStep(StateAfter(initialKey, i), i)
    ensures RoundKeysUpTo(initialKey, i + 1)
         == RoundKeysUpTo(initialKey, i) + [RoundKey(KeyStep(StateAfter(initialKey, i), i))]
  {
    assert (i + 1) - 1 == i;
  }

  /** The first n iterations push n keys. */
  lemma {:induction false} RoundKeysLength(initialKey: bv128, n: bv8)
    requires n <= 20
    ensures |RoundKeysUpTo(initialKey, n)| == n as int
    decreases n
  {
    if n != 0 {
      RoundKeysLength(initialKey, n - 1);
    }
  }

  /** Key j of the first n is the round key of the state after j + 1 steps. */
  lemma {:induction false} RoundKeyAt(initialKey: bv128, n: bv8, j: bv8)
    requires j < n <= 20
    ensures |RoundKeysUpTo(initialKey, n)| == n as int
    ensures RoundKeysUpTo(initialKey, n)[j as int] == RoundKey(StateAfter(initialKey, j + 1))
    decreases n
  {
    RoundKeysLength(initialKey, n - 1);
    var earlier := RoundKeysUpTo(initialKey, n - 1);
    assert RoundKeysUpTo(initialKey, n) == earlier + [RoundKey(StateAfter(initialKey, n))];
    if j < n - 1 {
      RoundKeyAt(initialKey, n - 1, j);
      assert RoundKeysUpTo(initialKey, n)[j as int] == earlier[j as int];
    } else {
      assert j + 1 == n;
      assert StateAfter(initialKey, j + 1) == StateAfter(initialKey, n);
    }
  }
}
