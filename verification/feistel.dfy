/** The four-lane generalised Feistel network GFSPX_Encrypt / GFSPX_Decrypt and the ARX
    stage F1 with its global history stack (GFSPX_Cipher.cpp, lines 38-65 and 152-228).

    A 64-bit block is four 16-bit lanes L0, L1, R0, R1, most significant first. Each of
    the 20 rounds feeds L1 and R0 through the SPN stage F2 and rotates the lanes. F1 only
    records its inputs on the history stack: its results are discarded by both loops, so
    the stack decides how many entries there are but never the output block. */
module Feistel {
  import opened SpnStage

  /** The four 16-bit lanes of a block. */
  datatype Lanes = Lanes(l0: bv16, l1: bv16, r0: bv16, r1: bv16)

  /** Cutting a block into lanes (lines 155-158 and 193-196). */
  function Split(block: bv64): (lanes: Lanes)
  {
    Lanes(((block >> 48) & 0xFFFF) as bv16, ((block >> 32) & 0xFFFF) as bv16,
          ((block >> 16) & 0xFFFF) as bv16, (block & 0xFFFF) as bv16)
  }

  /** Reassembling a block from lanes (lines 184-187 and 224-227). */
  function Join(lanes: Lanes): (block: bv64)
  {
    ((lanes.l0 as bv64) << 48) | ((lanes.l1 as bv64) << 32) | ((lanes.r0 as bv64) << 16) | (lanes.r1 as bv64)
  }

  /** Splitting a block and joining its lanes gives the block back. */
  lemma JoinSplit(block: bv64)
    ensures Join(Split(block)) == block
  {
  }

  /** Joining lanes and splitting the block gives the lanes back. */
  lemma SplitJoin(lanes: Lanes)
    ensures Split(Join(lanes)) == lanes
  {
  }

  /** The 32-bit word (hi << 16) | lo handed to F2 and F2_inv (lines 171 and 211). The
      source computes it in int; here it is the plain concatenation of the two halves. */
  function Concat(hi: bv16, lo: bv16): (w: bv32)
  {
    ((hi as bv32) << 16) | (lo as bv32)
  }

  /** The upper half of a word, as `temp >> 16` stored into a uint16_t. */
  function High(w: bv32): (h: bv16)
  {
    (w >> 16) as bv16
  }

  /** The lower half of a word, as `temp & 0xFFFF`. */
  function Low(w: bv32): (l: bv16)
  {
    (w & 0xFFFF) as bv16
  }

  /** A word is the concatenation of its halves, and the halves of a concatenation are the
      parts it was made of. */
  lemma HalvesConcat(w: bv32, hi: bv16, lo: bv16)
    ensures Concat(High(w), Low(w)) == w
    ensures High(Concat(hi, lo)) == hi && Low(Concat(hi, lo)) == lo
  {
  }

  /** The round function of the network: a word and a round key to a word. The cipher
      uses F2 (Spn) when encrypting and F2_inv (SpnInverse) when decrypting. */
  type RoundFunction = (bv32, bv32) -> bv32

  /** g undoes f under every key. */
  ghost predicate Undoes(g: RoundFunction, f: RoundFunction)
  {
    forall w: bv32, k: bv32 {:trigger f(w, k)} :: g(f(w, k), k) == w
  }

  /** One encryption round (lines 163-181): with t = f(L1 || R0, k), the lanes
      (L0, L1, R0, R1) become (lo t, R1, L0, hi t). */
  function EncryptRound(f: RoundFunction, lanes: Lanes, roundKey: bv32): (next: Lanes)
  {
    var t := f(Concat(lanes.l1, lanes.r0), roundKey);
    Lanes(Low(t), lanes.r1, lanes.l0, High(t))
  }

  /** One decryption round (lines 201-221): undo the two swaps, then with
      t = g(L1 || R0, k) set L1 to hi t and R0 to lo t. */
  function DecryptRound(g: RoundFunction, lanes: Lanes, roundKey: bv32): (previous: Lanes)
  {
    var t := g(Concat(lanes.r1, lanes.l0), roundKey);
    Lanes(lanes.r0, High(t), Low(t), lanes.l1)
  }

  /** A decryption round undoes an encryption round with the same key when its round
      function undoes the encryption's. */
  lemma DecryptRoundUndoes(f: RoundFunction, g: RoundFunction, lanes: Lanes, roundKey: bv32)
    requires Undoes(g, f)
    ensures DecryptRound(g, EncryptRound(f, lanes, roundKey), roundKey) == lanes
  {
    var w := Concat(lanes.l1, lanes.r0);
    var t := f(w, roundKey);
    HalvesConcat(t, 0, 0);
    HalvesConcat(w, lanes.l1, lanes.r0);
  }

  /** An encryption round undoes a decryption round with the same key when its round
      function undoes the decryption's: each round is a bijection on lanes. */
  lemma EncryptRoundUndoes(f: RoundFunction, g: RoundFunction, lanes: Lanes, roundKey: bv32)
    requires Undoes(f, g)
    ensures EncryptRound(f, DecryptRound(g, lanes, roundKey), roundKey) == lanes
  {
    var w := Concat(lanes.r1, lanes.l0);
    var t := g(w, roundKey);
    HalvesConcat(t, 0, 0);
    HalvesConcat(w, lanes.r1, lanes.l0);
  }

  /** The lanes after encryption rounds 0 .. n-1, with round i using roundKeys[i]. Naming
      lanes in the decreases clause too keeps the literal round count 20 alone from
      unrolling all the rounds. */
  function EncryptRounds(f: RoundFunction, lanes: Lanes, roundKeys: seq<bv32>, n: nat): Lanes
    requires n <= |roundKeys|
    decreases n, lanes
  {
    if n == 0 then lanes else EncryptRound(f, EncryptRounds(f, lanes, roundKeys, n - 1), roundKeys[n - 1])
  }

  /** The lanes after the first m of the decryption rounds n-1 down to 0, that is after
      rounds n-1 down to n-m, with round i using roundKeys[i]. */
  function DecryptRounds(g: RoundFunction, lanes: Lanes, roundKeys: seq<bv32>, n: nat, m: nat): Lanes
    requires m <= n <= |roundKeys|
    decreases m, lanes
  {
    if m == 0 then lanes else DecryptRound(g, DecryptRounds(g, lanes, roundKeys, n, m - 1), roundKeys[n - m])
  }

  /** The first m decryption rounds undo the last m of n encryption rounds. */
  lemma {:induction false} DecryptRoundsUndo(f: RoundFunction, g: RoundFunction, lanes: Lanes, roundKeys: seq<bv32>, n: nat, m: nat)
    requires Undoes(g, f) && m <= n <= |roundKeys|
    ensures DecryptRounds(g, EncryptRounds(f, lanes, roundKeys, n), roundKeys, n, m)
         == EncryptRounds(f, lanes, roundKeys, n - m)
  {
    if m != 0 {
      DecryptRoundsUndo(f, g, lanes, roundKeys, n, m - 1);
      assert n - (m - 1) == (n - m) + 1;
      DecryptRoundUndoes(f, g, EncryptRounds(f, lanes, roundKeys, n - m), roundKeys[n - m]);
    }
  }

  /** The first j encryption rounds undo the last j of n decryption rounds. */
  lemma {:induction false} EncryptRoundsUndo(f: RoundFunction, g: RoundFunction, lanes: Lanes, roundKeys: seq<bv32>, n: nat, j: nat)
    requires Undoes(f, g) && j <= n <= |roundKeys|
    ensures EncryptRounds(f, DecryptRounds(g, lanes, roundKeys, n, n), roundKeys, j)
         == DecryptRounds(g, lanes, roundKeys, n, n - j)
  {
    if j != 0 {
      EncryptRoundsUndo(f, g, lanes, roundKeys, n, j - 1);
      assert n - (j - 1) == (n - j) + 1;
      EncryptRoundUndoes(f, g, DecryptRounds(g, lanes, roundKeys, n, n - j), roundKeys[j - 1]);
    }
  }

  /** F2 and F2_inv undo each other under every key. */
  lemma SpnUndoes()
    ensures Undoes(SpnInverse, Spn) && Undoes(Spn, SpnInverse)
  {
    forall w: bv32, k: bv32 ensures SpnInverse(Spn(w, k), k) == w && Spn(SpnInverse(w, k), k) == w {
      SpnRoundTrip(w, k);
      SpnInverseRoundTrip(w, k);
    }
  }

  /** The ciphertext GFSPX_Encrypt produces: 20 rounds of F2 on the lanes of the block. */
  function EncryptBlock(plaintext: bv64, roundKeys: seq<bv32>): bv64
    requires |roundKeys| >= 20
  {
    Join(EncryptRounds(Spn, Split(plaintext), roundKeys, 20))
  }

  /** The plaintext GFSPX_Decrypt produces: rounds 19 down to 0 of F2_inv on the lanes. */
  function DecryptBlock(ciphertext: bv64, roundKeys: seq<bv32>): bv64
    requires |roundKeys| >= 20
  {
    Join(DecryptRounds(SpnInverse, Split(ciphertext), roundKeys, 20, 20))
  }

  /** Decryption inverts encryption for every block and every schedule of at least 20
      keys, whatever the history stack holds. */
  lemma BlockRoundTrip(plaintext: bv64, roundKeys: seq<bv32>)
    requires |roundKeys| >= 20
    ensures DecryptBlock(EncryptBlock(plaintext, roundKeys), roundKeys) == plaintext
  {
    var lanes := EncryptRounds(Spn, Split(plaintext), roundKeys, 20);
    SplitJoin(lanes);
    SpnUndoes();
    DecryptRoundsUndo(Spn, SpnInverse, Split(plaintext), roundKeys, 20, 20);
    JoinSplit(plaintext);
  }

  /** Encryption inverts decryption as well, so each key schedule gives a permutation of
      the 64-bit blocks. */
  lemma BlockRoundTripInverse(ciphertext: bv64, roundKeys: seq<bv32>)
    requires |roundKeys| >= 20
    ensures EncryptBlock(DecryptBlock(ciphertext, roundKeys), roundKeys) == ciphertext
  {
    var lanes := DecryptRounds(SpnInverse, Split(ciphertext), roundKeys, 20, 20);
    SplitJoin(lanes);
    SpnUndoes();
    EncryptRoundsUndo(Spn, SpnInverse, Split(ciphertext), roundKeys, 20, 20);
    JoinSplit(ciphertext);
  }

  // The ARX stage F1 and its history

  /** An entry of the history stack (lines 39-43). */
  datatype History = History(input: bv16, a: bv16, b: bv16)

  /** The value F1_encrypt returns: the input rotated left by 5, XORed with the input
      rotated left by 1 and with the key. */
  function ArxMix(input: bv16, key: bv16): bv16
  {
    input.RotateLeft(5) ^ input.RotateLeft(1) ^ key
  }

  /** The entry F1_encrypt pushes for an input. */
  function Record(input: bv16): (h: History)
  {
    History(input, input.RotateLeft(5), input.RotateLeft(1))
  }

  /** F1 cannot be inverted from its result: the inputs 0x0000 and 0xFFFF give the same
      value under every key, which is why F1_decrypt replays the stack instead. */
  lemma ArxMixNotInjective(key: bv16)
    ensures ArxMix(0x0000, key) == ArxMix(0xFFFF, key)
  {
  }

  /** The history entries the encryption of a block pushes in its first n rounds: in round
      i, first the entry for L1 and then the entry for R0 of the lanes entering round i. */
  function EncryptTrace(f: RoundFunction, lanes: Lanes, roundKeys: seq<bv32>, n: nat): (trace: seq<History>)
    requires n <= |roundKeys|
    decreases n, lanes
  {
    if n == 0 then []
    else
      var entering := EncryptRounds(f, lanes, roundKeys, n - 1);
      EncryptTrace(f, lanes, roundKeys, n - 1) + [Record(entering.l1), Record(entering.r0)]
  }

  /** n rounds push exactly 2n entries. */
  lemma {:induction false} EncryptTraceLength(f: RoundFunction, lanes: Lanes, roundKeys: seq<bv32>, n: nat)
    requires n <= |roundKeys|
    ensures |EncryptTrace(f, lanes, roundKeys, n)| == 2 * n
  {
    if n != 0 {
      EncryptTraceLength(f, lanes, roundKeys, n - 1);
    }
  }

  /** Round i + 1 of encryption, given the round function's value t on the lanes entering
      it: the lanes it leaves and the two entries it pushes. */
  lemma EncryptRoundsNext(f: RoundFunction, lanes: Lanes, roundKeys: seq<bv32>, i: nat, t: bv32)
    requires i < |roundKeys|
    requires var e := EncryptRounds(f, lanes, roundKeys, i); t == f(Concat(e.l1, e.r0), roundKeys[i])
    ensures var e := EncryptRounds(f, lanes, roundKeys, i);
      EncryptRounds(f, lanes, roundKeys, i + 1) == Lanes(Low(t), e.r1, e.l0, High(t))
    ensures var e := EncryptRounds(f, lanes, roundKeys, i);
      EncryptTrace(f, lanes, roundKeys, i + 1) == EncryptTrace(f, lanes, roundKeys, i) + [Record(e.l1), Record(e.r0)]
  {
  }

  /** Decryption round n - m - 1, given the round function's value t on the swapped
      lanes: the lanes it leaves. */
  lemma DecryptRoundsNext(g: RoundFunction, lanes: Lanes, roundKeys: seq<bv32>, n: nat, m: nat, key: bv32, t: bv32)
    requires m < n <= |roundKeys| && key == roundKeys[n - m - 1]
    requires var d := DecryptRounds(g, lanes, roundKeys, n, m); t == g(Concat(d.r1, d.l0), key)
    ensures var d := DecryptRounds(g, lanes, roundKeys, n, m);
      DecryptRounds(g, lanes, roundKeys, n, m + 1) == Lanes(d.r0, High(t), Low(t), d.l1)
  {
  }

  /** Pushing two entries one at a time appends the pair. */
  lemma PushTwo(history: seq<History>, trace: seq<History>, first: History, second: History)
    ensures history + trace + [first] + [second] == history + (trace + [first, second])
  {
  }

  /** Popping two entries off a prefix leaves a prefix two shorter. */
  lemma PopTwo(history: seq<History>, n: nat)
    requires 2 <= n <= |history|
    ensures history[..n][..n - 1][..n - 2] == history[..n - 2]
  {
  }

  /** Cutting an appended trace off again leaves the history it was appended to. */
  lemma PrefixOfAppend(history: seq<History>, trace: seq<History>)
    ensures (history + trace)[..|history|] == history
  {
  }

  /** The cipher's mutable state: the global `history` vector (line 45). */
  class Cipher {
    var history: seq<History>

    /** The program starts with an empty history. */
    constructor()
      ensures history == []
    {
      history := [];
    }

    /** F1_encrypt (lines 48-56): pushes (input, rotl5, rotl1) and returns their XOR with
        the key. */
    method F1Encrypt(input: bv16, key: bv16) returns (r: bv16)
      modifies this
      ensures history == old(history) + [Record(input)]
      ensures r == ArxMix(input, key)
    {
      var a := (input << 5) | (input >> 11);
      var b := (input << 1) | (input >> 15);
      history := history + [History(input, a, b)];
      r := a ^ b ^ key;
    }

    /** F1_decrypt (lines 58-65): ignores its input, pops the last entry and returns the
        XOR of its two rotations with the key. Popping an empty vector is undefined in the
        source, so the history must not be empty. */
    method F1Decrypt(input: bv16, key: bv16) returns (r: bv16)
      requires |history| > 0
      modifies this
      ensures history == old(history)[..|old(history)| - 1]
      ensures r == old(history)[|old(history)| - 1].a ^ old(history)[|old(history)| - 1].b ^ key
    {
      var h := history[|history| - 1];
      history := history[..|history| - 1];
      r := h.a ^ h.b ^ key;
    }

    /** GFSPX_Encrypt (lines 153-188). The round keys are read with operator[], so at
        least 20 are needed. The ciphertext is EncryptBlock, a function of the plaintext
        and keys alone, and the history grows by the 40 entries of EncryptTrace. */
    method Encrypt(plaintext: bv64, roundKeys: seq<bv32>) returns (ciphertext: bv64)
      requires |roundKeys| >= 20
      modifies this
      ensures ciphertext == EncryptBlock(plaintext, roundKeys)
      ensures history == old(history) + EncryptTrace(Spn, Split(plaintext), roundKeys, 20)
      ensures |history| == |old(history)| + 40
    {
      var l0 := ((plaintext >> 48) & 0xFFFF) as bv16;
      var l1 := ((plaintext >> 32) & 0xFFFF) as bv16;
      var r0 := ((plaintext >> 16) & 0xFFFF) as bv16;
      var r1 := (plaintext & 0xFFFF) as bv16;
      var i := 0;
      while i < 20
        invariant 0 <= i <= 20
        invariant Lanes(l0, l1, r0, r1) == EncryptRounds(Spn, Split(plaintext), roundKeys, i)
        invariant history == old(history) + EncryptTrace(Spn, Split(plaintext), roundKeys, i)
      {
        var roundKey := roundKeys[i];
        ghost var trace := EncryptTrace(Spn, Split(plaintext), roundKeys, i);
        ghost var pushed := [Record(l1), Record(r0)];
        var discarded := F1Encrypt(l1, (roundKey & 0xFFFF) as bv16);
        discarded := F1Encrypt(r0, (roundKey >> 16) as bv16);
        PushTwo(old(history), trace, Record(l1), Record(r0));
        assert history == old(history) + (trace + pushed);
        var temp := F2(Concat(l1, r0), roundKey);
        EncryptRoundsNext(Spn, Split(plaintext), roundKeys, i, temp);
        l1 := High(temp);
        r0 := Low(temp);
        l0, r0 := r0, l0;
        l1, r1 := r1, l1;
        i := i + 1;
      }
      ciphertext := ((l0 as bv64) << 48) | ((l1 as bv64) << 32) | ((r0 as bv64) << 16) | (r1 as bv64);
      EncryptTraceLength(Spn, Split(plaintext), roundKeys, 20);
    }

    /** GFSPX_Decrypt (lines 191-228). Each round pops two entries, so the history must
        hold at least 40; it loses exactly its last 40. The plaintext is DecryptBlock, which
        does not depend on what the popped entries were. */
    method Decrypt(ciphertext: bv64, roundKeys: seq<bv32>) returns (plaintext: bv64)
      requires |roundKeys| >= 20
      requires |history| >= 40
      modifies this
      ensures plaintext == DecryptBlock(ciphertext, roundKeys)
      ensures history == old(history)[..|old(history)| - 40]
    {
      // The loop relies on the contracts of F2_inv, not on how the SPN stage is computed.
      hide Spn, SpnInverse;
      var l0 := ((ciphertext >> 48) & 0xFFFF) as bv16;
      var l1 := ((ciphertext >> 32) & 0xFFFF) as bv16;
      var r0 := ((ciphertext >> 16) & 0xFFFF) as bv16;
      var r1 := (ciphertext & 0xFFFF) as bv16;
      var i := 19;
      ghost var done: nat := 0;
      ghost var original := history;
      while i >= 0
        invariant -1 <= i <= 19 && done == 19 - i
        invariant Lanes(l0, l1, r0, r1) == DecryptRounds(SpnInverse, Split(ciphertext), roundKeys, 20, done)
        invariant history == original[..|original| - 2 * done]
      {
        var roundKey := roundKeys[i];
        ghost var entering := Lanes(l0, l1, r0, r1);
        l0, r0 := r0, l0;
        l1, r1 := r1, l1;
        var temp := F2Inv(Concat(l1, r0), roundKey);
        DecryptRoundsNext(SpnInverse, Split(ciphertext), roundKeys, 20, done, roundKey, temp);
        ghost var leaving := Lanes(entering.r0, High(temp), Low(temp), entering.l1);
        var discarded := F1Decrypt(High(temp), (roundKey & 0xFFFF) as bv16);
        discarded := F1Decrypt(Low(temp), (roundKey >> 16) as bv16);
        PopTwo(original, |original| - 2 * done);
        l1 := High(temp);
        r0 := Low(temp);
        assert Lanes(l0, l1, r0, r1) == leaving;
        i, done := i - 1, done + 1;
      }
      plaintext := Join(Lanes(l0, l1, r0, r1));
    }
  }

  /** Encrypting a block and then decrypting it on the same cipher object returns the
      block and leaves the history as it was. */
  method EncryptThenDecrypt(cipher: Cipher, block: bv64, roundKeys: seq<bv32>) returns (recovered: bv64)
    requires |roundKeys| >= 20
    modifies cipher
    ensures recovered == block
    ensures cipher.history == old(cipher.history)
  {
    ghost var before := cipher.history;
    var ciphertext := cipher.Encrypt(block, roundKeys);
    ghost var middle := cipher.history;
    PrefixOfAppend(before, EncryptTrace(Spn, Split(block), roundKeys, 20));
    assert middle[..|middle| - 40] == before;
    recovered := cipher.Decrypt(ciphertext, roundKeys);
    BlockRoundTrip(block, roundKeys);
  }
}
