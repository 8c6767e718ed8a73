# GFSPX cipher engine in Dafny

This project models the GFSPX block cipher of `GFSPX_Cipher.cpp` and proves properties of the model. GFSPX enciphers 64-bit blocks under a 128-bit master key. Its parts are:

- a key schedule that derives 20 round keys of 32 bits by rotating, S-boxing and round-counter mixing a 128-bit state;
- an SPN round function F2: key XOR, eight 4-bit S-boxes, then a 32-position bit permutation. F2_inv is its inverse;
- an ARX stage F1 whose "inverse" replays entries from a global history stack;
- a four-lane generalised Feistel network over the 16-bit lanes L0, L1, R0, R1, run for 20 rounds;
- a packer that turns a string into little-endian 64-bit blocks and back.

The model has six modules:

- `Tables` (`tables.dfy`): the four lookup tables, and the fact that each inverse table undoes its table.
- `Bits` (`bits.dfy`): bit and nibble views of 32-bit words.
- `SpnStage` (`spn.dfy`): the loops of F2 and F2_inv as methods, each proved against a specification function. F2_inv(F2(x, k), k) == x is proved for all x and k, and the other direction as well.
- `KeySchedule` (`key_schedule.dfy`): rotate_left_128 on `bv128`, one schedule step, and GenerateRoundKeys as a loop proved against the recurrence.
- `Feistel` (`feistel.dfy`):
  - The global `history` vector is the field of the class `Cipher`. F1_encrypt, F1_decrypt, GFSPX_Encrypt and GFSPX_Decrypt are its methods.
  - The network is defined once over an arbitrary round function. Decryption rounds undo encryption rounds whenever the round functions undo each other.
  - Encrypt returns `EncryptBlock(plaintext, keys)` and pushes exactly 40 entries. Decrypt returns `DecryptBlock(ciphertext, keys)` and pops exactly 40.
  - Neither result depends on the history, and `DecryptBlock(EncryptBlock(p, k), k) == p` for every block and every schedule.
- `Packer` (`packer.dfy`): stringToBlocks and blocksToString as loops proved against specification functions. The round trip is proved, and so is the layout of the bytes in a block.

The 128-bit, 64-bit, 32-bit, 16-bit and 8-bit unsigned integers of the source are the bit-vector types `bv128`, `bv64`, `bv32`, `bv16` and `bv8`. Their shifts and arithmetic wrap as the fixed-width C++ types do. A `std::string` is a sequence of `bv8`.

A few things the code does are easy to misread from its names and comments. The model follows the code:

- The schedule calls rotate_left_128 with 113 (line 132), but rotate_left_128 reduces 113 to 49 (lines 117-122), so the schedule rotates left by 49 (`KeySchedule.RotationBy113`). In general it rotates by the amount modulo 64 (`KeySchedule.RotationAmount`).
- The comment on line 146 speaks of the top 64 bits. The round key is the top 32 bits of the state (line 147).
- blocksToString drops every zero byte, not only the zero padding of the last block (lines 294-296).
- F1_decrypt pops whatever entry is on top of the history. Encrypting all blocks and then decrypting them in the same order (lines 318-337) pops entries that belong to other blocks. The values popped are discarded, so the blocks still decrypt correctly (`Feistel.Cipher.Decrypt`, `Feistel.BlockRoundTrip`).

## Model

| member | source | states |
|---|---|---|
| Tables.SboxInverse | GFSPX_Cipher.cpp:11-20 | Both S-boxes map 0..15 into 0..15, and INV_SBOX[SBOX[n]] == n and SBOX[INV_SBOX[n]] == n for every nibble n. |
| Tables.PermutationInverse | GFSPX_Cipher.cpp:23-36 | Both permutation tables hold positions below 32, and each table undoes the other at every position. |
| Tables.TablesWellFormed | GFSPX_Cipher.cpp:11-36 | Both S-boxes are nibble tables of 16 entries, and both permutation tables are position tables of 32 entries. |
| Bits.Bit | GFSPX_Cipher.cpp:83 | The bit read by `(x >> i) & 1` is 0 or 1. |
| Bits.Nibble | GFSPX_Cipher.cpp:75 | The nibble read by `(x >> 4i) & 0xF` is below 16. |
| Bits.BitsDetermine | GFSPX_Cipher.cpp:81-84 | Two words with the same 32 bits are equal, which is what makes a bit permutation reversible. |
| Bits.NibblesDetermine | GFSPX_Cipher.cpp:73-78 | Two words with the same eight nibbles are equal. |
| SpnStage.SubstituteNibbles | GFSPX_Cipher.cpp:73-78 | The S-box loop returns Substituted(x, box), the word after all eight iterations. |
| SpnStage.PermuteBits | GFSPX_Cipher.cpp:81-84 | The permutation loop returns Permuted(x, table), the word after all 32 iterations. |
| SpnStage.F2 | GFSPX_Cipher.cpp:68-87 | F2 returns Spn(input, key), and F2_inv's specification maps that result back to the input. |
| SpnStage.F2Inv | GFSPX_Cipher.cpp:90-109 | F2_inv returns SpnInverse(input, key), and F2's specification maps that result back to the input. |
| SpnStage.SubstitutedStep | GFSPX_Cipher.cpp:74-78 | One more S-box iteration ORs the substituted nibble i in at nibble i. |
| SpnStage.PermutedStep | GFSPX_Cipher.cpp:82-84 | One more permutation iteration ORs input bit table[i] in at bit i. |
| SpnStage.NibbleOfPlaced | GFSPX_Cipher.cpp:77 | ORing a nibble value in at nibble m changes nibble m only. |
| SpnStage.NibbleOfSubstitutedUpTo | GFSPX_Cipher.cpp:74-78 | After n iterations, nibble j of the output is box[nibble j of x] for j < n and 0 for j >= n. |
| SpnStage.NibbleOfSubstituted | GFSPX_Cipher.cpp:74-78 | Every nibble of the S-box layer's output is the box entry for the same nibble of its input. |
| SpnStage.BitOfOr | GFSPX_Cipher.cpp:83 | Bit i of a OR b is bit i of a OR bit i of b. |
| SpnStage.BitOfShifted | GFSPX_Cipher.cpp:83 | A 0/1 value shifted to bit m sets bit m to that value and leaves every other bit clear. |
| SpnStage.BitOfPermutedUpTo | GFSPX_Cipher.cpp:82-84 | After n iterations, output bit i is input bit table[i] for i < n and 0 for i >= n. |
| SpnStage.BitOfPermuted | GFSPX_Cipher.cpp:82-84 | Output bit i of the permutation layer is input bit table[i]. |
| SpnStage.SubstitutedUndone | GFSPX_Cipher.cpp:97-103 | Substituting through a box and then through a table that undoes it gives back the word. |
| SpnStage.PermutedUndone | GFSPX_Cipher.cpp:92-95 | Permuting by a table and then by a table that undoes it gives back the word. |
| SpnStage.SpnRoundTrip | GFSPX_Cipher.cpp:231-265 | F2_inv(F2(x, k), k) == x for every 32-bit x and k, the property the self-test checks on 25 sample pairs. |
| SpnStage.SpnInverseRoundTrip | GFSPX_Cipher.cpp:90-109 | F2(F2_inv(y, k), k) == y for every y and k, so F2 is a bijection for each key. |
| KeySchedule.EffectiveShift | GFSPX_Cipher.cpp:113-122 | The amount actually rotated is below 64. |
| KeySchedule.RotateLeft128 | GFSPX_Cipher.cpp:112-125 | rotate_left_128 on `bv128`, branch for branch. It has no ensures of its own: KeySchedule.RotationAmount states that it rotates by the shift modulo 64, and KeySchedule.RotationBy113 and KeySchedule.RotationIdentities state its values for 113, 0, 64 and 128. |
| KeySchedule.RotationAmount | GFSPX_Cipher.cpp:112-125 | rotate_left_128 rotates left by the shift modulo 64, not modulo 128, for every non-negative shift. |
| KeySchedule.RotationBy113 | GFSPX_Cipher.cpp:132 | The schedule's rotation "by 113" is a left rotation by 49. |
| KeySchedule.RotationIdentities | GFSPX_Cipher.cpp:113-114 | Shifts of 0, 64 and 128 return the value unchanged. |
| KeySchedule.RoundKey | GFSPX_Cipher.cpp:147 | The round key is the state shifted right by 96, that is, its top 32 bits. |
| KeySchedule.KeyStep | GFSPX_Cipher.cpp:132-144 | One iteration of the schedule loop on the state. KeySchedule.KeyStepFields states what it does to each field of the state. |
| KeySchedule.KeyStepFields | GFSPX_Cipher.cpp:132-144 | After a step, each nibble of the top byte is the S-box image of that nibble of the state rotated left by 49. Bits 10..14 are the rotated state's XOR the round counter. Every other bit is the rotated state's. |
| KeySchedule.GenerateRoundKeys | GFSPX_Cipher.cpp:128-150 | The vector comes back with exactly 20 more keys, those of the recurrence, appended after what it already held. |
| KeySchedule.ScheduleStep | GFSPX_Cipher.cpp:130-149 | One more iteration advances the state by one step and pushes the top 32 bits of the new state. |
| KeySchedule.RoundKeysLength | GFSPX_Cipher.cpp:130-149 | n iterations push n keys. |
| KeySchedule.RoundKeyAt | GFSPX_Cipher.cpp:147-148 | Key j is the top 32 bits of the state after j + 1 steps. |
| Feistel.Split | GFSPX_Cipher.cpp:155-158 | Cuts a block into the lanes L0, L1, R0, R1, as lines 155-158 and 193-196 do. Feistel.JoinSplit and Feistel.SplitJoin state that Feistel.Join undoes it. |
| Feistel.Join | GFSPX_Cipher.cpp:184-187 | Reassembles a block from the four lanes, as lines 184-187 and 224-227 do. Feistel.JoinSplit and Feistel.SplitJoin state that it undoes Feistel.Split. |
| Feistel.EncryptRound | GFSPX_Cipher.cpp:163-178 | One encryption round for any round function. Feistel.EncryptRoundsNext states its lane mapping, and Feistel.DecryptRoundUndoes states that a decryption round undoes it. |
| Feistel.DecryptRound | GFSPX_Cipher.cpp:201-218 | One decryption round for any round function. Feistel.DecryptRoundsNext states its lane mapping, and Feistel.EncryptRoundUndoes states that an encryption round undoes it. |
| Feistel.JoinSplit | GFSPX_Cipher.cpp:155-158 | Splitting a block into four lanes and reassembling them gives back the block. |
| Feistel.SplitJoin | GFSPX_Cipher.cpp:184-187 | Reassembling four lanes and splitting the block gives back the lanes. |
| Feistel.HalvesConcat | GFSPX_Cipher.cpp:171-175 | `(hi << 16) \| lo` splits back into hi and lo via `>> 16` and `& 0xFFFF`, and the reverse holds too. |
| Feistel.DecryptRoundUndoes | GFSPX_Cipher.cpp:201-218 | A decryption round undoes the encryption round with the same key when its round function undoes the encryption's. |
| Feistel.EncryptRoundUndoes | GFSPX_Cipher.cpp:163-178 | An encryption round undoes a decryption round, so each round is a bijection on lanes. |
| Feistel.DecryptRoundsUndo | GFSPX_Cipher.cpp:201-221 | The first m decryption rounds, run from key n-1 down, undo the last m of n encryption rounds. |
| Feistel.EncryptRoundsUndo | GFSPX_Cipher.cpp:163-181 | The first j encryption rounds undo the last j of n decryption rounds. |
| Feistel.SpnUndoes | GFSPX_Cipher.cpp:68-109 | F2 and F2_inv undo each other under every key. |
| Feistel.BlockRoundTrip | GFSPX_Cipher.cpp:153-228 | Decrypting an encrypted block gives back the block, for every block and every schedule of at least 20 keys. |
| Feistel.BlockRoundTripInverse | GFSPX_Cipher.cpp:153-228 | Encrypting a decrypted block gives back the block, so each schedule gives a permutation of the 64-bit blocks. |
| Feistel.ArxMixNotInjective | GFSPX_Cipher.cpp:48-56 | F1's result cannot be inverted: inputs 0x0000 and 0xFFFF give the same value under every key. |
| Feistel.EncryptTraceLength | GFSPX_Cipher.cpp:163-170 | n encryption rounds push exactly 2n history entries. |
| Feistel.EncryptRoundsNext | GFSPX_Cipher.cpp:163-181 | One encryption round maps (L0, L1, R0, R1) to (lo t, R1, L0, hi t) with t = F2(L1:R0, k), and pushes the entries for L1 and then R0. |
| Feistel.DecryptRoundsNext | GFSPX_Cipher.cpp:201-218 | One decryption round maps (L0, L1, R0, R1) to (R0, hi t, lo t, L1) with t = F2_inv(R1:L0, k). |
| Feistel.Cipher.constructor | GFSPX_Cipher.cpp:45 | The history starts empty. |
| Feistel.Cipher.F1Encrypt | GFSPX_Cipher.cpp:48-56 | Pushes (input, input rotated left by 5, input rotated left by 1), and returns the XOR of the two rotations with the key. |
| Feistel.Cipher.F1Decrypt | GFSPX_Cipher.cpp:58-65 | Pops the last entry, and returns the XOR of its two rotations with the key, whatever its input. |
| Feistel.Cipher.Encrypt | GFSPX_Cipher.cpp:153-188 | The ciphertext is EncryptBlock(plaintext, keys), independent of the history. The history grows by exactly the 40 entries of EncryptTrace. |
| Feistel.Cipher.Decrypt | GFSPX_Cipher.cpp:191-228 | The plaintext is DecryptBlock(ciphertext, keys), independent of the history. The history loses exactly its last 40 entries. |
| Feistel.EncryptThenDecrypt | GFSPX_Cipher.cpp:153-228 | Encrypting and then decrypting on one cipher object returns the block and leaves the history as it was. |
| Packer.Offset | GFSPX_Cipher.cpp:280 | A byte's shift amount is at most 56. |
| Packer.OffsetValue | GFSPX_Cipher.cpp:280 | The shift amount for byte k is k * 8. |
| Packer.ChunkLength | GFSPX_Cipher.cpp:276-277 | Block i takes between 1 and 8 bytes, from 8i up to std::min(8i + 8, length). |
| Packer.Placed | GFSPX_Cipher.cpp:280 | A byte converted by `static_cast<uint64_t>`, sign-extended when char is signed and the byte is 0x80 or more, then shifted to byte k. Packer.ByteOfPlaced states that a byte converting to itself lands at byte k alone, and Packer.SignedPack shows the sign-extended case. |
| Packer.PackBlock | GFSPX_Cipher.cpp:279-281 | The inner loop returns PackUpTo over the bytes start .. end-1. |
| Packer.PackStep | GFSPX_Cipher.cpp:280 | One more inner iteration ORs byte j, converted and shifted by (j - start) * 8, into the block. |
| Packer.PackNone | GFSPX_Cipher.cpp:275 | A block with no bytes packed is 0. |
| Packer.PackLast | GFSPX_Cipher.cpp:279-281 | A block of n bytes is the block of its first n - 1 bytes with the last byte ORed in. |
| Packer.StringToBlocks | GFSPX_Cipher.cpp:269-286 | Returns Blocks(text), which has exactly (length + 7) / 8 blocks. |
| Packer.BlocksStep | GFSPX_Cipher.cpp:274-283 | One more outer iteration appends the block of chunk i. |
| Packer.BlocksLength | GFSPX_Cipher.cpp:272-283 | n outer iterations give n blocks. |
| Packer.BlockAt | GFSPX_Cipher.cpp:274-283 | Block i is packed from bytes 8i .. min(8i + 8, length) - 1. |
| Packer.BlocksToString | GFSPX_Cipher.cpp:289-300 | Returns the bytes of every block, low byte first, that are not zero. |
| Packer.BlockTextStep | GFSPX_Cipher.cpp:292-296 | One more inner iteration appends byte i of the block, unless it is zero. |
| Packer.DropZeros | GFSPX_Cipher.cpp:294-296 | What survives unpacking has no zero byte and is no longer than the input. |
| Packer.DropZerosAppend | GFSPX_Cipher.cpp:291-298 | Dropping zeros from a concatenation drops them from each part. |
| Packer.DropZerosKeepsNonZero | GFSPX_Cipher.cpp:294-296 | Text without zero bytes passes through unchanged. |
| Packer.ByteOfOr | GFSPX_Cipher.cpp:280 | Each byte of a OR b is that byte of a OR that byte of b. |
| Packer.ByteOfZero | GFSPX_Cipher.cpp:275 | Every byte of the empty block is zero. |
| Packer.ByteOfPlaced | GFSPX_Cipher.cpp:280 | A byte that converts to itself, placed at byte m, is byte m of the word. All other bytes are zero. |
| Packer.ByteOfPlacedHere | GFSPX_Cipher.cpp:280 | Byte m of a byte placed at m is that byte. |
| Packer.ByteOfPlacedElsewhere | GFSPX_Cipher.cpp:280 | Byte k of a byte placed at m != k is zero. |
| Packer.ByteOfShifted | GFSPX_Cipher.cpp:293 | Reading byte m of a byte shifted to byte m gives the byte. |
| Packer.ByteOfShiftedElsewhere | GFSPX_Cipher.cpp:293 | Reading any other byte of it gives zero. |
| Packer.ByteOfPackUpTo | GFSPX_Cipher.cpp:279-281 | Byte k of a block packed from bytes that convert to themselves is text byte start + k for k < n, and zero above. |
| Packer.BlockTextOfBytes | GFSPX_Cipher.cpp:292-296 | Unpacking a block whose low bytes are a given sequence, padded with zeros, gives that sequence without its zeros. |
| Packer.BlockText | GFSPX_Cipher.cpp:289-300 | For text whose bytes convert to themselves, unpacking block i gives back its chunk of the text without the zero bytes. |
| Packer.BlockBytes | GFSPX_Cipher.cpp:274-283 | For text whose bytes convert to themselves, byte k of block i is text byte 8i + k, or zero past the end: little-endian, zero-padded. |
| Packer.RoundTripUpTo | GFSPX_Cipher.cpp:269-300 | For text whose bytes convert to themselves, unpacking the first n blocks gives back the first min(8n, length) bytes of the text without its zeros. |
| Packer.RoundTrip | GFSPX_Cipher.cpp:269-300 | Where every byte converts to itself, blocksToString(stringToBlocks(s)) is s without its zero bytes. |
| Packer.RoundTripExact | GFSPX_Cipher.cpp:269-300 | Text without zero bytes, and with every byte converting to itself, comes back whole. |
| Packer.UnsignedRoundTrip | GFSPX_Cipher.cpp:280 | With an unsigned conversion, the round trip holds for every byte string. |
| Packer.SignedCharBreaksRoundTrip | GFSPX_Cipher.cpp:280 | With signed char, the text C3 A9 packs to FFFF_FFFF_FFFF_FFC3 and unpacks to C3 followed by seven FF bytes, not to the text. |
| Packer.SignedPack | GFSPX_Cipher.cpp:279-281 | With signed char, C3 A9 packs to the single block FFFF_FFFF_FFFF_FFC3. |
| Packer.SignedUnpack | GFSPX_Cipher.cpp:291-297 | That block unpacks to C3 followed by seven FF bytes. |

## Left out

- main (lines 302-355) and the console output of TestF2AndF2Inv (lines 231-265) are left out because they are I/O. The self-test's property is SpnStage.SpnRoundTrip, proved for all inputs and keys instead of 25 samples.
- The Boost `uint128_t` type is modelled as `bv128`. Its `convert_to<uint64_t>()` followed by masking is modelled as the same masking on `bv128`. This assumes the conversion keeps the low 64 bits of a value too wide for `uint64_t` (line 140 converts `temp0 >> 10`, which can have 118 bits). Boost is not part of this model. If the conversion saturated instead, bits 10..14 of each new state would always be `0x1F ^ i`.
- The global `history` vector is one field of one `Cipher` object. Concurrent use by several threads is not modelled.
- KeySchedule.RotateLeft128: a negative `int shift` would reach a negative shift of a `uint128_t`, which throws or is not defined by the source. The model excludes it with a precondition, and takes the shift as its 32-bit pattern.
- Feistel.Cipher.Encrypt and Feistel.Cipher.Decrypt: `round_keys[i]` with fewer than 20 keys is undefined behaviour in the source. The model requires at least 20 keys.
- Feistel.Cipher.F1Decrypt and Feistel.Cipher.Decrypt: `history.back()` and `pop_back()` on an empty vector are undefined behaviour in the source. The model requires a non-empty history, and at least 40 entries for a block's decryption.
- Feistel.Concat: the source computes `(L1 << 16) | R0` in `int` and converts to `uint32_t`. For L1 of 0x8000 or more, `L1 << 16` overflows `int`, which is undefined behaviour before C++20. The model replaces that corner with the bit-precise concatenation of the two lanes, which is also what the code gives in every other case.
- Packer.StringToBlocks: `size_t` overflow of `length + 7` on strings close to 2^64 bytes long is not modelled. Lengths are unbounded naturals.
- Packer.StringToBlocks: whether `char` is signed is implementation-defined, so it is the parameter `charIsSigned`. All 256 byte values are allowed either way.
- `std::string`'s own storage and reallocation are not modelled. Strings are immutable sequences that the loops reassign.

## Findings

| source | as written | input that shows it | evidently intended | confidence | as-written member | corrected member |
|---|---|---|---|---|---|---|
| GFSPX_Cipher.cpp:280 | `static_cast<uint64_t>(text[j])` sign-extends any byte of 0x80 or more where `char` is signed, the usual choice on x86. Its one bits are ORed over all the later bytes of the block. | The two bytes C3 A9 (UTF-8 "é") with signed char: stringToBlocks gives FFFF_FFFF_FFFF_FFC3, and blocksToString gives C3 FF FF FF FF FF FF FF. | Convert each char through `unsigned char`, so that every byte is packed as itself. The text then comes back without only its zero bytes, as main's equality check expects. | not executed | Packer.SignedCharBreaksRoundTrip | Packer.UnsignedRoundTrip |
