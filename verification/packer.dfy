/** Packing text into 64-bit blocks and back: stringToBlocks and blocksToString
    (GFSPX_Cipher.cpp, lines 268-300).

    Text is a sequence of bytes, the contents of the std::string's chars. Eight bytes go
    into a block, the first in the least significant byte; the last block is padded with
    zero bytes. Unpacking keeps every byte of every block that is not zero.

    Whether char is signed is left to the C++ implementation. Where it is (the usual x86
    ABIs), static_cast<uint64_t> sign-extends a byte of 0x80 or more, and its run of
    one bits is ORed over the bytes that follow it in the block. The packing functions
    take that choice as the parameter charIsSigned. */
module Packer {

  /** A byte that converts to its own value: every byte where char is unsigned, and the
      bytes 0x00..0x7F where it is signed. */
  predicate Unextended(c: bv8, charIsSigned: bool)
  {
    !charIsSigned || c < 0x80
  }

  /** Every byte of text converts to its own value. */
  predicate AllUnextended(text: seq<bv8>, charIsSigned: bool)
  {
    forall j :: 0 <= j < |text| ==> Unextended(text[j], charIsSigned)
  }

  /** The shift amounts k * 8 for the bytes k = 0 .. 7 of a block. */
  const BYTE_SHIFTS: seq<bv8> := [0, 8, 16, 24, 32, 40, 48, 56]

  /** The shift amount that places byte k of a block: (j - start) * 8 on line 280 and i * 8
      on line 292. Taking it from a table keeps the count k an integer that never has to be
      converted to a bit-vector. */
  function Offset(k: nat): (s: bv8)
    requires k < 8
    ensures s <= 56
  {
    BYTE_SHIFTS[k]
  }

  /** The table holds k * 8 at position k. */
  lemma OffsetValue(k: nat)
    requires k < 8
    ensures Offset(k) as int == k * 8
  {
    if k == 0 {} else if k == 1 {} else if k == 2 {} else if k == 3 {}
    else if k == 4 {} else if k == 5 {} else if k == 6 {} else {}
  }

  /** Byte k of a block, counting from the least significant: (block >> 8k) & 0xFF. */
  function ByteOf(block: bv64, k: nat): bv8
    requires k < 8
  {
    ((block >> Offset(k)) & 0xFF) as bv8
  }

  // Packing

  /** Byte c converted by static_cast<uint64_t> and shifted into byte k of a block: the
      term line 280 ORs in. The conversion gives the byte itself, or, where char is signed
      and c is negative, c with all 56 bits above it set. */
  function Placed(c: bv8, k: nat, charIsSigned: bool): bv64
    requires k < 8
  {
    if charIsSigned && c >= 0x80 then (0xFFFF_FFFF_FFFF_FF00 | c as bv64) << Offset(k)
    else (c as bv64) << Offset(k)
  }

  /** The block the inner loop of stringToBlocks builds from the n bytes of text from start
      on: byte start + k of the text converted and shifted to byte k of the block, all ORed
      together. Naming text in the decreases clause too keeps a literal count alone from
      unrolling the whole definition. */
  function PackUpTo(text: seq<bv8>, start: nat, n: nat, charIsSigned: bool): bv64
    requires n <= 8 && start + n <= |text|
    decreases n, text
  {
    if n == 0 then 0
    else PackUpTo(text, start, n - 1, charIsSigned) | Placed(text[start + (n - 1)], n - 1, charIsSigned)
  }

  /** The number of blocks for a text of a given length (line 272): a block per eight bytes,
      rounded up. */
  function BlockCount(length: nat): nat
  {
    (length + 7) / 8
  }

  /** Where the bytes of block i end (line 277): eight bytes after its start, or the end of
      the text, whichever comes first. */
  function ChunkEnd(length: nat, i: nat): nat
  {
    if i * 8 + 8 < length then i * 8 + 8 else length
  }

  /** How many bytes of the text go into block i: eight, or fewer for the last block. */
  function ChunkLength(length: nat, i: nat): (n: nat)
    requires i < BlockCount(length)
    ensures 0 < n <= 8 && i * 8 + n <= length
    ensures i * 8 + n == ChunkEnd(length, i)
  {
    ChunkEnd(length, i) - i * 8
  }

  /** Block i of a text. */
  function Block(text: seq<bv8>, i: nat, charIsSigned: bool): bv64
    requires i < BlockCount(|text|)
  {
    PackUpTo(text, i * 8, ChunkLength(|text|, i), charIsSigned)
  }

  /** The first n blocks of a text. */
  function BlocksUpTo(text: seq<bv8>, n: nat, charIsSigned: bool): seq<bv64>
    requires n <= BlockCount(|text|)
    decreases n, text
  {
    if n == 0 then [] else BlocksUpTo(text, n - 1, charIsSigned) + [Block(text, n - 1, charIsSigned)]
  }

  /** What stringToBlocks returns for a text. */
  function Blocks(text: seq<bv8>, charIsSigned: bool): seq<bv64>
  {
    BlocksUpTo(text, BlockCount(|text|), charIsSigned)
  }

  /** The inner loop of stringToBlocks (lines 278-281) for the block of bytes start .. end-1. */
  method PackBlock(text: seq<bv8>, start: nat, end: nat, charIsSigned: bool) returns (block: bv64)
    requires start <= end <= |text| && end - start <= 8
    ensures block == PackUpTo(text, start, end - start, charIsSigned)
  {
    // The loop relies on PackStep, not on how a byte is converted and placed.
    hide Placed;
    block := 0;
    var j := start;
    while j < end
      invariant start <= j <= end
      invariant block == PackUpTo(text, start, j - start, charIsSigned)
    {
      PackStep(text, start, j - start, charIsSigned);
      assert start + (j - start) == j;
      block := block | Placed(text[j], j - start, charIsSigned);
      j := j + 1;
    }
  }

  /** One more iteration of the inner packing loop ORs byte start + k of the text,
      converted, into byte k of the block. */
  lemma PackStep(text: seq<bv8>, start: nat, k: nat, charIsSigned: bool)
    requires k < 8 && start + k < |text|
    ensures PackUpTo(text, start, k + 1, charIsSigned)
         == PackUpTo(text, start, k, charIsSigned) | Placed(text[start + k], k, charIsSigned)
  {
    assert (k + 1) - 1 == k;
  }

  /** No bytes pack to the empty block. */
  lemma PackNone(text: seq<bv8>, start: nat, charIsSigned: bool)
    requires start <= |text|
    ensures PackUpTo(text, start, 0, charIsSigned) == 0
  {
  }

  /** A block packed from n > 0 bytes is the block of the first n - 1 with the last one
      placed into it. */
  lemma PackLast(text: seq<bv8>, start: nat, n: nat, charIsSigned: bool)
    requires 0 < n <= 8 && start + n <= |text|
    ensures PackUpTo(text, start, n, charIsSigned)
         == PackUpTo(text, start, n - 1, charIsSigned) | Placed(text[start + (n - 1)], n - 1, charIsSigned)
  {
  }

  /** stringToBlocks (lines 269-286): one block per eight bytes of text, rounded up. */
  method StringToBlocks(text: seq<bv8>, charIsSigned: bool) returns (blocks: seq<bv64>)
    ensures blocks == Blocks(text, charIsSigned)
    ensures |blocks| == (|text| + 7) / 8
  {
    // The loop relies on the contract of PackBlock, not on how a block is computed.
    hide PackUpTo;
    blocks := [];
    var length := |text|;
    var blockCount := (length + 7) / 8;
    var i := 0;
    while i < blockCount
      invariant i <= blockCount
      invariant blocks == BlocksUpTo(text, i, charIsSigned)
    {
      var start := i * 8;
      var end := if start + 8 < length then start + 8 else length;
      var block := PackBlock(text, start, end, charIsSigned);
      BlocksStep(text, i, charIsSigned);
      blocks := blocks + [block];
      i := i + 1;
    }
    BlocksLength(text, blockCount, charIsSigned);
  }

  /** One more iteration of the outer packing loop appends block i. */
  lemma BlocksStep(text: seq<bv8>, i: nat, charIsSigned: bool)
    requires i < BlockCount(|text|)
    ensures BlocksUpTo(text, i + 1, charIsSigned) == BlocksUpTo(text, i, charIsSigned) + [Block(text, i, charIsSigned)]
  {
    assert (i + 1) - 1 == i;
  }

  /** n steps of the outer loop give n blocks. */
  lemma {:induction false} BlocksLength(text: seq<bv8>, n: nat, charIsSigned: bool)
    requires n <= BlockCount(|text|)
    ensures |BlocksUpTo(text, n, charIsSigned)| == n
  {
    if n != 0 {
      BlocksLength(text, n - 1, charIsSigned);
    }
  }

  // Unpacking

  /** The bytes the inner loop of blocksToString keeps from bytes 0 .. n-1 of a block: the
      ones that are not zero, in order. */
  function BlockTextUpTo(block: bv64, n: nat): seq<bv8>
    requires n <= 8
    decreases n, block
  {
    if n == 0 then []
    else
      var ch := ByteOf(block, n - 1);
      BlockTextUpTo(block, n - 1) + (if ch != 0 then [ch] else [])
  }

  /** The text blocksToString produces from the first n blocks. */
  function BlocksTextUpTo(blocks: seq<bv64>, n: nat): seq<bv8>
    requires n <= |blocks|
    decreases n, blocks
  {
    if n == 0 then [] else BlocksTextUpTo(blocks, n - 1) + BlockTextUpTo(blocks[n - 1], 8)
  }

  /** blocksToString (lines 289-300): the non-zero bytes of every block, low byte first. */
  method BlocksToString(blocks: seq<bv64>) returns (text: seq<bv8>)
    ensures text == BlocksTextUpTo(blocks, |blocks|)
  {
    text := [];
    var n := 0;
    while n < |blocks|
      invariant n <= |blocks|
      invariant text == BlocksTextUpTo(blocks, n)
    {
      var block := blocks[n];
      ghost var before := text;
      var i := 0;
      while i < 8
        invariant i <= 8
        invariant text == before + BlockTextUpTo(block, i)
      {
        var ch := ByteOf(block, i);
        BlockTextStep(block, i);
        if ch != 0 {
          text := text + [ch];
        }
        i := i + 1;
      }
      n := n + 1;
    }
  }

  /** One more iteration of the inner unpacking loop keeps byte i unless it is zero. */
  lemma BlockTextStep(block: bv64, i: nat)
    requires i < 8
    ensures BlockTextUpTo(block, i + 1)
         == BlockTextUpTo(block, i) + (if ByteOf(block, i) != 0 then [ByteOf(block, i)] else [])
  {
    assert (i + 1) - 1 == i;
  }

  // What packing and unpacking do to text

  /** text with its zero bytes removed, the others kept in order. */
  function DropZeros(text: seq<bv8>): (kept: seq<bv8>)
    ensures |kept| <= |text|
    ensures forall j :: 0 <= j < |kept| ==> kept[j] != 0
    decreases |text|
  {
    if |text| == 0 then []
    else DropZeros(text[..|text| - 1]) + (if text[|text| - 1] != 0 then [text[|text| - 1]] else [])
  }

  /** Removing zero bytes works piece by piece. */
  lemma {:induction false} DropZerosAppend(a: seq<bv8>, b: seq<bv8>)
    ensures DropZeros(a + b) == DropZeros(a) + DropZeros(b)
    decreases |b|
  {
    if |b| == 0 {
      assert a + b == a;
    } else {
      var b' := b[..|b| - 1];
      DropZerosAppend(a, b');
      assert (a + b)[..|a + b| - 1] == a + b';
      assert (a + b)[|a + b| - 1] == b[|b| - 1];
    }
  }

  /** A text without zero bytes is kept whole. */
  lemma {:induction false} DropZerosKeepsNonZero(text: seq<bv8>)
    requires forall j :: 0 <= j < |text| ==> text[j] != 0
    ensures DropZeros(text) == text
    decreases |text|
  {
    if |text| != 0 {
      DropZerosKeepsNonZero(text[..|text| - 1]);
      assert text[..|text| - 1] + [text[|text| - 1]] == text;
    }
  }

  /** The bits of two blocks ORed together, byte by byte. */
  lemma ByteOfOr(a: bv64, b: bv64, k: nat)
    requires k < 8
    ensures ByteOf(a | b, k) == ByteOf(a, k) | ByteOf(b, k)
  {
    hide Offset;
    var s := Offset(k);
    OrShift(a, b, s);
    OrNarrow((a >> s) & 0xFF, (b >> s) & 0xFF);
  }

  /** Shifting down distributes over OR. */
  lemma OrShift(a: bv64, b: bv64, s: bv8)
    requires s <= 56
    ensures ((a | b) >> s) & 0xFF == ((a >> s) & 0xFF) | ((b >> s) & 0xFF)
  {
  }

  /** Narrowing two byte values to bv8 distributes over OR. */
  lemma OrNarrow(x: bv64, y: bv64)
    requires x <= 0xFF && y <= 0xFF
    ensures (x | y) as bv8 == x as bv8 | y as bv8
  {
  }

  /** Byte k of the empty block is zero. */
  lemma ByteOfZero(k: nat)
    requires k < 8
    ensures ByteOf(0, k) == 0
  {
  }

  /** A byte that converts to itself, placed at byte m of a block, is byte m of that block,
      and every other byte is zero. */
  lemma ByteOfPlaced(c: bv8, m: nat, k: nat, charIsSigned: bool)
    requires m < 8 && k < 8 && Unextended(c, charIsSigned)
    ensures ByteOf(Placed(c, m, charIsSigned), k) == if m == k then c else 0
  {
    if m == k {
      ByteOfPlacedHere(c, m, charIsSigned);
    } else {
      ByteOfPlacedElsewhere(c, m, k, charIsSigned);
    }
  }

  /** ByteOfPlaced at the byte where c is placed. */
  lemma ByteOfPlacedHere(c: bv8, m: nat, charIsSigned: bool)
    requires m < 8 && Unextended(c, charIsSigned)
    ensures ByteOf(Placed(c, m, charIsSigned), m) == c
  {
    ByteOfShifted(c, m);
  }

  /** ByteOfPlaced at any other byte. */
  lemma ByteOfPlacedElsewhere(c: bv8, m: nat, k: nat, charIsSigned: bool)
    requires m < 8 && k < 8 && m != k && Unextended(c, charIsSigned)
    ensures ByteOf(Placed(c, m, charIsSigned), k) == 0
  {
    ByteOfShiftedElsewhere(c, m, k);
  }

  /** A byte shifted to byte m of a block is byte m of the block. */
  lemma ByteOfShifted(c: bv8, m: nat)
    requires m < 8
    ensures ByteOf((c as bv64) << Offset(m), m) == c
  {
    hide Offset;
    ShiftBack(c, Offset(m));
  }

  /** A byte shifted to byte m of a block leaves every other byte of it zero. */
  lemma ByteOfShiftedElsewhere(c: bv8, m: nat, k: nat)
    requires m < 8 && k < 8 && m != k
    ensures ByteOf((c as bv64) << Offset(m), k) == 0
  {
    OffsetsDiffer(m, k);
    hide Offset;
    ShiftElsewhere(c, Offset(m), Offset(k));
  }

  /** A byte shifted up within a 64-bit word and back down again is the byte. */
  lemma ShiftBack(c: bv8, a: bv8)
    requires a <= 56
    ensures ((((c as bv64) << a) >> a) & 0xFF) as bv8 == c
  {
  }

  /** A byte shifted up by one multiple of 8 leaves nothing in the byte at another. */
  lemma ShiftElsewhere(c: bv8, a: bv8, b: bv8)
    requires a <= 56 && a & 7 == 0 && b <= 56 && b & 7 == 0 && a != b
    ensures ((((c as bv64) << a) >> b) & 0xFF) as bv8 == 0
  {
  }

  /** The shift amounts of different bytes are different multiples of 8. */
  lemma OffsetsDiffer(m: nat, k: nat)
    requires m < 8 && k < 8
    ensures Offset(m) & 7 == 0 && Offset(k) & 7 == 0
    ensures m != k ==> Offset(m) != Offset(k)
  {
  }

  /** Byte k of a block packed from bytes that convert to themselves is byte start + k of
      the text, or zero past the bytes packed. */
  lemma {:induction false} ByteOfPackUpTo(text: seq<bv8>, start: nat, n: nat, k: nat, charIsSigned: bool)
    requires n <= 8 && start + n <= |text| && k < 8
    requires AllUnextended(text, charIsSigned)
    ensures ByteOf(PackUpTo(text, start, n, charIsSigned), k) == if k < n then text[start + k] else 0
    decreases n
  {
    // The lemmas below say all that is needed of these definitions.
    hide PackUpTo, Placed, ByteOf, Offset;
    if n == 0 {
      PackNone(text, start, charIsSigned);
      ByteOfZero(k);
    } else {
      PackLast(text, start, n, charIsSigned);
      ByteOfPackUpTo(text, start, n - 1, k, charIsSigned);
      ByteOfOr(PackUpTo(text, start, n - 1, charIsSigned), Placed(text[start + (n - 1)], n - 1, charIsSigned), k);
      ByteOfPlaced(text[start + (n - 1)], n - 1, k, charIsSigned);
      if k < n - 1 {
        OrZero(text[start + k]);
      } else if k == n - 1 {
        assert text[start + k] == text[start + (n - 1)];
        OrZero(text[start + k]);
      } else {
        OrZero(0);
      }
    }
  }

  /** OR with a zero byte leaves a byte as it is. */
  lemma OrZero(b: bv8)
    ensures b | 0 == b && 0 | b == b
  {
  }

  /** The bytes blocksToString keeps from bytes 0 .. m-1 of a block whose low bytes are the
      bytes given and whose others are zero. */
  lemma {:induction false} BlockTextOfBytes(block: bv64, bytes: seq<bv8>, m: nat)
    requires |bytes| <= 8 && m <= 8
    requires forall k: nat :: k < 8 ==> ByteOf(block, k) == if k < |bytes| then bytes[k] else 0
    ensures BlockTextUpTo(block, m) == DropZeros(bytes[..if m < |bytes| then m else |bytes|])
    decreases m
  {
    if m != 0 {
      BlockTextOfBytes(block, bytes, m - 1);
      BlockTextStep(block, m - 1);
      if m - 1 < |bytes| {
        assert ByteOf(block, m - 1) == bytes[m - 1];
        assert bytes[..m][..m - 1] == bytes[..m - 1];
      } else {
        assert ByteOf(block, m - 1) == 0;
      }
    }
  }

  /** Unpacking block i gives back the bytes of text it was packed from, less the zeros. */
  lemma BlockText(text: seq<bv8>, i: nat, charIsSigned: bool)
    requires i < BlockCount(|text|) && AllUnextended(text, charIsSigned)
    ensures BlockTextUpTo(Block(text, i, charIsSigned), 8) == DropZeros(text[i * 8 .. ChunkEnd(|text|, i)])
  {
    // ByteOfPackUpTo says all that is needed of how the block is packed.
    hide PackUpTo, Placed, ByteOf, Offset;
    var n := ChunkLength(|text|, i);
    var bytes := text[i * 8 .. i * 8 + n];
    var block := Block(text, i, charIsSigned);
    forall k: nat | k < 8
      ensures ByteOf(block, k) == if k < |bytes| then bytes[k] else 0
    {
      ByteOfPackUpTo(text, i * 8, n, k, charIsSigned);
    }
    BlockTextOfBytes(block, bytes, 8);
    assert bytes[..|bytes|] == bytes;
  }

  /** Byte k of block i is byte 8i + k of the text, or zero past its end: eight bytes to a
      block, the first in the least significant byte. */
  lemma BlockBytes(text: seq<bv8>, i: nat, k: nat, charIsSigned: bool)
    requires i < BlockCount(|text|) && k < 8 && AllUnextended(text, charIsSigned)
    ensures |Blocks(text, charIsSigned)| == BlockCount(|text|)
    ensures ByteOf(Blocks(text, charIsSigned)[i], k) == if i * 8 + k < |text| then text[i * 8 + k] else 0
  {
    BlockAt(text, BlockCount(|text|), i, charIsSigned);
    ByteOfPackUpTo(text, i * 8, ChunkLength(|text|, i), k, charIsSigned);
  }

  /** Block i of the first n blocks is the block packed from chunk i. */
  lemma {:induction false} BlockAt(text: seq<bv8>, n: nat, i: nat, charIsSigned: bool)
    requires i < n <= BlockCount(|text|)
    ensures |BlocksUpTo(text, n, charIsSigned)| == n
    ensures BlocksUpTo(text, n, charIsSigned)[i] == Block(text, i, charIsSigned)
    decreases n
  {
    BlocksLength(text, n, charIsSigned);
    if i < n - 1 {
      BlockAt(text, n - 1, i, charIsSigned);
    }
  }

  /** Unpacking the first n blocks gives back the text up to the end of block n - 1, less
      the zeros. */
  lemma {:induction false} RoundTripUpTo(text: seq<bv8>, n: nat, charIsSigned: bool)
    requires n <= BlockCount(|text|) && AllUnextended(text, charIsSigned)
    ensures |Blocks(text, charIsSigned)| == BlockCount(|text|)
    ensures BlocksTextUpTo(Blocks(text, charIsSigned), n) == DropZeros(text[..if n * 8 < |text| then n * 8 else |text|])
    decreases n
  {
    // The lemmas below say all that is needed of how a block is packed and unpacked.
    hide Block, BlockTextUpTo, PackUpTo, Placed, ByteOf, Offset;
    BlocksLength(text, BlockCount(|text|), charIsSigned);
    if n != 0 {
      var blocks := Blocks(text, charIsSigned);
      var i := n - 1;
      RoundTripUpTo(text, i, charIsSigned);
      BlockAt(text, BlockCount(|text|), i, charIsSigned);
      BlockText(text, i, charIsSigned);
      var end := ChunkEnd(|text|, i);
      assert text[..end] == text[..i * 8] + text[i * 8 .. end];
      DropZerosAppend(text[..i * 8], text[i * 8 .. end]);
    }
  }

  /** Where every byte converts to itself, unpacking the packed text gives back the text
      without its zero bytes. */
  lemma RoundTrip(text: seq<bv8>, charIsSigned: bool)
    requires AllUnextended(text, charIsSigned)
    ensures var blocks := Blocks(text, charIsSigned);
      BlocksTextUpTo(blocks, |blocks|) == DropZeros(text)
  {
    RoundTripUpTo(text, BlockCount(|text|), charIsSigned);
    assert text[..|text|] == text;
  }

  /** Text without zero bytes, such as plain ASCII text, comes back whole. */
  lemma RoundTripExact(text: seq<bv8>, charIsSigned: bool)
    requires AllUnextended(text, charIsSigned)
    requires forall j :: 0 <= j < |text| ==> text[j] != 0
    ensures var blocks := Blocks(text, charIsSigned);
      BlocksTextUpTo(blocks, |blocks|) == text
  {
    RoundTrip(text, charIsSigned);
    DropZerosKeepsNonZero(text);
  }

  /** Where char is unsigned every byte converts to itself, so the round trip holds for all
      text: converting each char through unsigned char first gives this behaviour whatever
      the implementation. */
  lemma UnsignedRoundTrip(text: seq<bv8>)
    ensures var blocks := Blocks(text, false);
      BlocksTextUpTo(blocks, |blocks|) == DropZeros(text)
  {
    RoundTrip(text, false);
  }

  /** Where char is signed, a byte of 0x80 or more is sign-extended and its one bits
      overwrite the bytes after it: the two bytes C3 A9 (an e with an acute accent in
      UTF-8) pack to a block whose upper seven bytes are all FF, and come back as eight
      bytes. */
  lemma SignedCharBreaksRoundTrip()
    ensures Blocks([0xC3, 0xA9], true) == [0xFFFF_FFFF_FFFF_FFC3]
    ensures BlocksTextUpTo([0xFFFF_FFFF_FFFF_FFC3], 1) == [0xC3, 0xFF, 0xFF, 0xFF, 0xFF, 0xFF, 0xFF, 0xFF]
    ensures var blocks := Blocks([0xC3, 0xA9], true);
      BlocksTextUpTo(blocks, |blocks|) != DropZeros([0xC3, 0xA9])
  {
    // The three lemmas below compute everything needed.
    hide *;
    SignedPack();
    SignedUnpack();
    DropZerosKeepsNonZero([0xC3, 0xA9]);
  }

  /** Packing C3 A9 with sign extension. */
  lemma SignedPack()
    ensures Blocks([0xC3, 0xA9], true) == [0xFFFF_FFFF_FFFF_FFC3]
  {
    var text: seq<bv8> := [0xC3, 0xA9];
    assert Placed(0xC3, 0, true) == 0xFFFF_FFFF_FFFF_FFC3;
    assert Placed(0xA9, 1, true) == 0xFFFF_FFFF_FFFF_A900;
    hide Placed;
    PackNone(text, 0, true);
    PackLast(text, 0, 1, true);
    PackLast(text, 0, 2, true);
    assert PackUpTo(text, 0, 2, true) == 0xFFFF_FFFF_FFFF_FFC3;
    assert ChunkLength(|text|, 0) == 2;
    assert Block(text, 0, true) == 0xFFFF_FFFF_FFFF_FFC3;
    BlocksStep(text, 0, true);
  }

  /** Unpacking the block FFFF_FFFF_FFFF_FFC3. */
  lemma SignedUnpack()
    ensures BlocksTextUpTo([0xFFFF_FFFF_FFFF_FFC3], 1) == [0xC3, 0xFF, 0xFF, 0xFF, 0xFF, 0xFF, 0xFF, 0xFF]
  {
    var block: bv64 := 0xFFFF_FFFF_FFFF_FFC3;
    assert BlockTextUpTo(block, 8) == [0xC3, 0xFF, 0xFF, 0xFF, 0xFF, 0xFF, 0xFF, 0xFF];
  }
}
