/** One 128-bit block through the cipher: input whitening, the sixteen
    unrolled rounds `Encrypt2(14) .. Encrypt2(0)` (or their mirror images
    for decryption), and output whitening with the final swap of halves.
    The expanded S-box and the local subkey array are parameters, so every
    statement here holds for any table contents. */
module Rounds {
  import opened Platform
  import opened Defs
  import opened KeySchedule

  /** The working words `x[0..3]` of a block. */
  datatype Block = Block(w0: bv32, w1: bv32, w2: bv32, w3: bv32)

  const Zero: Block := Block(0, 0, 0, 0)

  function Word(b: Block, n: nat): bv32
    requires n < 4
  {
    if n == 0 then b.w0 else if n == 1 then b.w1 else if n == 2 then b.w2 else b.w3
  }

  // ---------------------------------------------------------------------
  // Word-level facts the inverses rest on

  lemma XorCancel(a: bv32, b: bv32)
    ensures Xor(Xor(a, b), b) == a
    ensures Xor(a, 0) == a
  {
  }

  /** `ROR(c ^ t, 1)` is undone by `ROL(., 1) ^ t`, and the other way round. */
  lemma RorXorInverse(c: bv32, t: bv32)
    ensures Xor(Rol(Ror(Xor(c, t), 1), 1), t) == c
    ensures Ror(Xor(Xor(Rol(c, 1), t), t), 1) == c
  {
    RotationsUsed(Xor(c, t));
    XorCancel(c, t);
    XorCancel(Rol(c, 1), t);
    RotationsUsed(c);
  }

  // ---------------------------------------------------------------------
  // One round

  /** `t0 + t1 + sk[2R+8]` and `t0 + 2*t1 + sk[2R+9]`, modulo 2^32. */
  function Mix0(t0: bv32, t1: bv32, k: bv32): bv32 {
    Add(Add(t0, t1), k)
  }

  function Mix1(t0: bv32, t1: bv32, k: bv32): bv32 {
    Add(Add(t0, Twice(t1)), k)
  }

  /** `t0 = Fe32_(a, 0)` and `t1 = Fe32_(b, 3)`. */
  function T0(sBox: seq<bv32>, a: bv32): bv32
    requires |sBox| == SBOX_WORDS
  {
    Fe32(sBox, a, 0)
  }

  function T1(sBox: seq<bv32>, b: bv32): bv32
    requires |sBox| == SBOX_WORDS
  {
    Fe32(sBox, b, 3)
  }

  /** The two words an encryption round writes: `x[K^2]` mixed in and then
      rotated right, `x[K^3]` rotated left and then mixed in. */
  function EncC(sBox: seq<bv32>, a: bv32, b: bv32, c: bv32, k0: bv32): bv32
    requires |sBox| == SBOX_WORDS
  {
    Ror(Xor(c, Mix0(T0(sBox, a), T1(sBox, b), k0)), 1)
  }

  function EncD(sBox: seq<bv32>, a: bv32, b: bv32, d: bv32, k1: bv32): bv32
    requires |sBox| == SBOX_WORDS
  {
    Xor(Rol(d, 1), Mix1(T0(sBox, a), T1(sBox, b), k1))
  }

  /** The two words a decryption round writes: `x[K^2]` rotated left and
      then mixed in, `x[K^3]` mixed in and then rotated right. */
  function DecC(sBox: seq<bv32>, a: bv32, b: bv32, c: bv32, k0: bv32): bv32
    requires |sBox| == SBOX_WORDS
  {
    Xor(Rol(c, 1), Mix0(T0(sBox, a), T1(sBox, b), k0))
  }

  function DecD(sBox: seq<bv32>, a: bv32, b: bv32, d: bv32, k1: bv32): bv32
    requires |sBox| == SBOX_WORDS
  {
    Ror(Xor(d, Mix1(T0(sBox, a), T1(sBox, b), k1)), 1)
  }

  /** `EncryptRound(K, R)` with `K` 0 (`upper` false) or 2 (`upper` true):
      the words `x[K]`, `x[K^1]` feed the F function and stay put. */
  function EncryptRound(sBox: seq<bv32>, x: Block, upper: bool, k0: bv32, k1: bv32): (y: Block)
    requires |sBox| == SBOX_WORDS
    ensures !upper ==> y.w0 == x.w0 && y.w1 == x.w1
    ensures upper ==> y.w2 == x.w2 && y.w3 == x.w3
  {
    if !upper then Block(x.w0, x.w1, EncC(sBox, x.w0, x.w1, x.w2, k0), EncD(sBox, x.w0, x.w1, x.w3, k1))
    else Block(EncC(sBox, x.w2, x.w3, x.w0, k0), EncD(sBox, x.w2, x.w3, x.w1, k1), x.w2, x.w3)
  }

  /** `DecryptRound(K, R)`, with the same reading of `upper`. */
  function DecryptRound(sBox: seq<bv32>, x: Block, upper: bool, k0: bv32, k1: bv32): (y: Block)
    requires |sBox| == SBOX_WORDS
    ensures !upper ==> y.w0 == x.w0 && y.w1 == x.w1
    ensures upper ==> y.w2 == x.w2 && y.w3 == x.w3
  {
    if !upper then Block(x.w0, x.w1, DecC(sBox, x.w0, x.w1, x.w2, k0), DecD(sBox, x.w0, x.w1, x.w3, k1))
    else Block(DecC(sBox, x.w2, x.w3, x.w0, k0), DecD(sBox, x.w2, x.w3, x.w1, k1), x.w2, x.w3)
  }

  /** A decryption round with the same `K` and subkeys undoes an encryption
      round, and the other way round, whatever the S-box holds. */
  lemma RoundInverse(sBox: seq<bv32>, x: Block, upper: bool, k0: bv32, k1: bv32)
    requires |sBox| == SBOX_WORDS
    ensures DecryptRound(sBox, EncryptRound(sBox, x, upper, k0, k1), upper, k0, k1) == x
    ensures EncryptRound(sBox, DecryptRound(sBox, x, upper, k0, k1), upper, k0, k1) == x
  {
    var a, b := if upper then x.w2 else x.w0, if upper then x.w3 else x.w1;
    var c, d := if upper then x.w0 else x.w2, if upper then x.w1 else x.w3;
    RorXorInverse(c, Mix0(T0(sBox, a), T1(sBox, b), k0));
    RorXorInverse(d, Mix1(T0(sBox, a), T1(sBox, b), k1));
  }

  // ---------------------------------------------------------------------
  // Sixteen rounds

  /** The first `m` steps of an iteration, step `j` applied `j`-th. */
  function UpTo(step: (Block, nat) -> Block, x: Block, m: nat): Block {
    if m == 0 then x else step(UpTo(step, x, m - 1), m - 1)
  }

  /** Steps `j .. 15` of an iteration, step `j` applied first. */
  function From(step: (Block, nat) -> Block, x: Block, j: nat): Block
    decreases MAX_ROUNDS - j
  {
    if j >= MAX_ROUNDS then x else From(step, step(x, j), j + 1)
  }

  /** The rest of an iteration after its first `m` steps completes it. */
  lemma {:induction false} FromUpTo(step: (Block, nat) -> Block, x: Block, m: nat)
    requires m <= MAX_ROUNDS
    ensures From(step, UpTo(step, x, m), m) == UpTo(step, x, MAX_ROUNDS)
    decreases MAX_ROUNDS - m
  {
    if m < MAX_ROUNDS {
      FromUpTo(step, x, m + 1);
    }
  }

  /** If step `15 - j` of `g` undoes step `j` of `f`, the last `16 - m`
      steps of `g` undo the first `m` steps of `f`. */
  lemma {:induction false} Unwind(f: (Block, nat) -> Block, g: (Block, nat) -> Block, x: Block, m: nat)
    requires m <= MAX_ROUNDS
    requires forall y: Block, j: nat :: j < MAX_ROUNDS ==> g(f(y, j), MAX_ROUNDS - 1 - j) == y
    ensures From(g, UpTo(f, x, m), MAX_ROUNDS - m) == x
    decreases m
  {
    if m > 0 {
      var z := UpTo(f, x, m - 1);
      assert g(f(z, m - 1), MAX_ROUNDS - 1 - (m - 1)) == z;
      Unwind(f, g, x, m - 1);
    }
  }

  /** The round subkey pair of round `R`. */
  function RoundKey0(sk: seq<bv32>, r: nat): bv32
    requires |sk| == TOTAL_SUBKEYS && r < MAX_ROUNDS
  {
    sk[ROUND_SUBKEYS + 2 * r]
  }

  function RoundKey1(sk: seq<bv32>, r: nat): bv32
    requires |sk| == TOTAL_SUBKEYS && r < MAX_ROUNDS
  {
    sk[ROUND_SUBKEYS + 2 * r + 1]
  }

  /** Step `j` of the unrolled encryption: `Encrypt2(R)` runs
      `EncryptRound(0, R+1)` then `EncryptRound(2, R)` for `R = 14, 12, .., 0`,
      so step `j` is round `15 - j` with `K = 0` for even `j`. */
  function EncryptStep(sBox: seq<bv32>, sk: seq<bv32>, x: Block, j: nat): Block
    requires |sBox| == SBOX_WORDS && |sk| == TOTAL_SUBKEYS
  {
    if j < MAX_ROUNDS then
      EncryptRound(sBox, x, j % 2 == 1, RoundKey0(sk, MAX_ROUNDS - 1 - j), RoundKey1(sk, MAX_ROUNDS - 1 - j))
    else x
  }

  /** Step `j` of the unrolled decryption: `Decrypt2(R)` runs
      `DecryptRound(2, R+1)` then `DecryptRound(0, R)`, so step `j` is round
      `15 - j` with `K = 2` for even `j`. */
  function DecryptStep(sBox: seq<bv32>, sk: seq<bv32>, x: Block, j: nat): Block
    requires |sBox| == SBOX_WORDS && |sk| == TOTAL_SUBKEYS
  {
    if j < MAX_ROUNDS then
      DecryptRound(sBox, x, j % 2 == 0, RoundKey0(sk, MAX_ROUNDS - 1 - j), RoundKey1(sk, MAX_ROUNDS - 1 - j))
    else x
  }

  function EncryptRounds(sBox: seq<bv32>, sk: seq<bv32>, x: Block): Block
    requires |sBox| == SBOX_WORDS && |sk| == TOTAL_SUBKEYS
  {
    UpTo((y: Block, j: nat) => EncryptStep(sBox, sk, y, j), x, MAX_ROUNDS)
  }

  function DecryptRounds(sBox: seq<bv32>, sk: seq<bv32>, x: Block): Block
    requires |sBox| == SBOX_WORDS && |sk| == TOTAL_SUBKEYS
  {
    UpTo((y: Block, j: nat) => DecryptStep(sBox, sk, y, j), x, MAX_ROUNDS)
  }

  /** The decryption subkeys hold round `R`'s pair where the encryption
      subkeys hold round `15 - R`'s, and the same whitening words. */
  ghost predicate Mirrored(skE: seq<bv32>, skD: seq<bv32>)
    requires |skE| == TOTAL_SUBKEYS && |skD| == TOTAL_SUBKEYS
  {
    && skE[..ROUND_SUBKEYS] == skD[..ROUND_SUBKEYS]
    && forall r :: 0 <= r < MAX_ROUNDS ==>
         RoundKey0(skD, r) == RoundKey0(skE, MAX_ROUNDS - 1 - r) && RoundKey1(skD, r) == RoundKey1(skE, MAX_ROUNDS - 1 - r)
  }

  lemma MirroredSymmetric(skE: seq<bv32>, skD: seq<bv32>)
    requires |skE| == TOTAL_SUBKEYS && |skD| == TOTAL_SUBKEYS && Mirrored(skE, skD)
    ensures Mirrored(skD, skE)
  {
    forall r | 0 <= r < MAX_ROUNDS
      ensures RoundKey0(skE, r) == RoundKey0(skD, MAX_ROUNDS - 1 - r)
      ensures RoundKey1(skE, r) == RoundKey1(skD, MAX_ROUNDS - 1 - r)
    {
      var r' := MAX_ROUNDS - 1 - r;
      assert RoundKey0(skD, r') == RoundKey0(skE, MAX_ROUNDS - 1 - r');
      assert RoundKey1(skD, r') == RoundKey1(skE, MAX_ROUNDS - 1 - r');
    }
  }

  /** Reversing all sixteen round pairs gives the mirrored subkeys. */
  lemma ReversedMirrored(sk: seq<bv32>)
    requires |sk| == TOTAL_SUBKEYS
    ensures Mirrored(sk, ReverseRounds(sk, MAX_ROUNDS))
  {
    var d := ReverseRounds(sk, MAX_ROUNDS);
    ReverseRoundsPairs(sk, MAX_ROUNDS);
    assert sk[..ROUND_SUBKEYS] == d[..ROUND_SUBKEYS];
    forall r | 0 <= r < MAX_ROUNDS
      ensures RoundKey0(d, r) == RoundKey0(sk, MAX_ROUNDS - 1 - r)
      ensures RoundKey1(d, r) == RoundKey1(sk, MAX_ROUNDS - 1 - r)
    {
    }
  }

  lemma Parity(j: nat)
    requires j < MAX_ROUNDS
    ensures (MAX_ROUNDS - 1 - j) % 2 == 0 <==> j % 2 == 1
    ensures MAX_ROUNDS - 1 - (MAX_ROUNDS - 1 - j) == j
  {
  }

  /** Decryption step `15 - j` with mirrored subkeys undoes encryption
      step `j`. */
  lemma EncryptStepInverse(sBox: seq<bv32>, skE: seq<bv32>, skD: seq<bv32>, y: Block, j: nat)
    requires |sBox| == SBOX_WORDS && |skE| == TOTAL_SUBKEYS && |skD| == TOTAL_SUBKEYS
    requires Mirrored(skE, skD) && j < MAX_ROUNDS
    ensures DecryptStep(sBox, skD, EncryptStep(sBox, skE, y, j), MAX_ROUNDS - 1 - j) == y
  {
    Parity(j);
    var r := MAX_ROUNDS - 1 - j;
    assert RoundKey0(skD, j) == RoundKey0(skE, r) && RoundKey1(skD, j) == RoundKey1(skE, r);
    RoundInverse(sBox, y, j % 2 == 1, RoundKey0(skE, r), RoundKey1(skE, r));
  }

  /** Encryption step `15 - j` with mirrored subkeys undoes decryption
      step `j`. */
  lemma DecryptStepInverse(sBox: seq<bv32>, skE: seq<bv32>, skD: seq<bv32>, y: Block, j: nat)
    requires |sBox| == SBOX_WORDS && |skE| == TOTAL_SUBKEYS && |skD| == TOTAL_SUBKEYS
    requires Mirrored(skE, skD) && j < MAX_ROUNDS
    ensures EncryptStep(sBox, skE, DecryptStep(sBox, skD, y, j), MAX_ROUNDS - 1 - j) == y
  {
    Parity(j);
    var r := MAX_ROUNDS - 1 - j;
    assert RoundKey0(skD, r) == RoundKey0(skE, j) && RoundKey1(skD, r) == RoundKey1(skE, j);
    RoundInverse(sBox, y, j % 2 == 0, RoundKey0(skD, r), RoundKey1(skD, r));
  }

  /** Sixteen decryption rounds with mirrored subkeys undo sixteen
      encryption rounds. */
  lemma DecryptRoundsUndo(sBox: seq<bv32>, skE: seq<bv32>, skD: seq<bv32>, x: Block)
    requires |sBox| == SBOX_WORDS && |skE| == TOTAL_SUBKEYS && |skD| == TOTAL_SUBKEYS
    requires Mirrored(skE, skD)
    ensures DecryptRounds(sBox, skD, EncryptRounds(sBox, skE, x)) == x
  {
    var f := (y: Block, j: nat) => EncryptStep(sBox, skE, y, j);
    var g := (y: Block, j: nat) => DecryptStep(sBox, skD, y, j);
    forall y: Block, j: nat | j < MAX_ROUNDS
      ensures g(f(y, j), MAX_ROUNDS - 1 - j) == y
    {
      EncryptStepInverse(sBox, skE, skD, y, j);
    }
    Unwind(f, g, x, MAX_ROUNDS);
    FromUpTo(g, UpTo(f, x, MAX_ROUNDS), 0);
  }

  /** And sixteen encryption rounds undo sixteen decryption rounds. */
  lemma EncryptRoundsUndo(sBox: seq<bv32>, skE: seq<bv32>, skD: seq<bv32>, x: Block)
    requires |sBox| == SBOX_WORDS && |skE| == TOTAL_SUBKEYS && |skD| == TOTAL_SUBKEYS
    requires Mirrored(skE, skD)
    ensures EncryptRounds(sBox, skE, DecryptRounds(sBox, skD, x)) == x
  {
    var f := (y: Block, j: nat) => DecryptStep(sBox, skD, y, j);
    var g := (y: Block, j: nat) => EncryptStep(sBox, skE, y, j);
    forall y: Block, j: nat | j < MAX_ROUNDS
      ensures g(f(y, j), MAX_ROUNDS - 1 - j) == y
    {
      DecryptStepInverse(sBox, skE, skD, y, j);
    }
    Unwind(f, g, x, MAX_ROUNDS);
    FromUpTo(g, UpTo(f, x, MAX_ROUNDS), 0);
  }

  // ---------------------------------------------------------------------
  // Whitening

  function XorBlock(a: Block, b: Block): Block {
    Block(Xor(a.w0, b.w0), Xor(a.w1, b.w1), Xor(a.w2, b.w2), Xor(a.w3, b.w3))
  }

  lemma XorBlockCancel(a: Block, b: Block)
    ensures XorBlock(XorBlock(a, b), b) == a
    ensures XorBlock(a, Zero) == a
  {
    XorCancel(a.w0, b.w0);
    XorCancel(a.w1, b.w1);
    XorCancel(a.w2, b.w2);
    XorCancel(a.w3, b.w3);
  }

  /** The whitening words `sk[base .. base+3]` as a block. */
  function Whitening(sk: seq<bv32>, base: nat): Block
    requires |sk| == TOTAL_SUBKEYS && base + 4 <= TOTAL_SUBKEYS
  {
    Block(sk[base], sk[base + 1], sk[base + 2], sk[base + 3])
  }

  /** `x[N^2]`: the halves of the block swapped. */
  function SwapHalves(x: Block): (y: Block)
    ensures y.w0 == x.w2 && y.w1 == x.w3 && y.w2 == x.w0 && y.w3 == x.w1
  {
    Block(x.w2, x.w3, x.w0, x.w1)
  }

  /** `LoadBlockE`, the rounds and `StoreBlockE`, on the block read from
      the input (`p`) and the chaining value `iv`. */
  function EncryptBlock(sBox: seq<bv32>, sk: seq<bv32>, p: Block, iv: Block): Block
    requires |sBox| == SBOX_WORDS && |sk| == TOTAL_SUBKEYS
  {
    var x := XorBlock(XorBlock(p, Whitening(sk, INPUT_WHITEN)), iv);
    XorBlock(SwapHalves(EncryptRounds(sBox, sk, x)), Whitening(sk, OUTPUT_WHITEN))
  }

  /** `LoadBlockD`, the rounds, and the input whitening of `StoreBlockD`
      (before any chaining value is mixed in). */
  function DecryptBlock(sBox: seq<bv32>, sk: seq<bv32>, c: Block): Block
    requires |sBox| == SBOX_WORDS && |sk| == TOTAL_SUBKEYS
  {
    var x := SwapHalves(XorBlock(c, Whitening(sk, OUTPUT_WHITEN)));
    XorBlock(DecryptRounds(sBox, sk, x), Whitening(sk, INPUT_WHITEN))
  }

  lemma WhiteningOfMirrored(skE: seq<bv32>, skD: seq<bv32>)
    requires |skE| == TOTAL_SUBKEYS && |skD| == TOTAL_SUBKEYS && Mirrored(skE, skD)
    ensures Whitening(skE, INPUT_WHITEN) == Whitening(skD, INPUT_WHITEN)
    ensures Whitening(skE, OUTPUT_WHITEN) == Whitening(skD, OUTPUT_WHITEN)
  {
    assert forall k :: 0 <= k < ROUND_SUBKEYS ==> skE[k] == skE[..ROUND_SUBKEYS][k];
    assert forall k :: 0 <= k < ROUND_SUBKEYS ==> skD[k] == skD[..ROUND_SUBKEYS][k];
  }

  /** Decrypting an encrypted block with mirrored subkeys gives back the
      plaintext with the chaining value still mixed in. */
  lemma DecryptEncryptBlock(sBox: seq<bv32>, skE: seq<bv32>, skD: seq<bv32>, p: Block, iv: Block)
    requires |sBox| == SBOX_WORDS && |skE| == TOTAL_SUBKEYS && |skD| == TOTAL_SUBKEYS
    requires Mirrored(skE, skD)
    ensures DecryptBlock(sBox, skD, EncryptBlock(sBox, skE, p, iv)) == XorBlock(p, iv)
  {
    WhiteningOfMirrored(skE, skD);
    var wi, wo := Whitening(skE, INPUT_WHITEN), Whitening(skE, OUTPUT_WHITEN);
    var x := XorBlock(XorBlock(p, wi), iv);
    var y := EncryptRounds(sBox, skE, x);
    XorBlockCancel(SwapHalves(y), wo);
    DecryptRoundsUndo(sBox, skE, skD, x);
    assert DecryptRounds(sBox, skD, y) == x;
    XorBlockCancel(XorBlock(p, iv), wi);
    assert XorBlock(XorBlock(p, wi), iv) == XorBlock(XorBlock(p, iv), wi) by {
      XorSwap(p, wi, iv);
    }
  }

  /** Encrypting a decrypted block, with the chaining value mixed back in,
      gives back the ciphertext. */
  lemma EncryptDecryptBlock(sBox: seq<bv32>, skE: seq<bv32>, skD: seq<bv32>, c: Block, iv: Block)
    requires |sBox| == SBOX_WORDS && |skE| == TOTAL_SUBKEYS && |skD| == TOTAL_SUBKEYS
    requires Mirrored(skE, skD)
    ensures EncryptBlock(sBox, skE, XorBlock(DecryptBlock(sBox, skD, c), iv), iv) == c
  {
    WhiteningOfMirrored(skE, skD);
    var wi, wo := Whitening(skE, INPUT_WHITEN), Whitening(skE, OUTPUT_WHITEN);
    var x := SwapHalves(XorBlock(c, wo));
    var z := DecryptRounds(sBox, skD, x);
    var p := XorBlock(DecryptBlock(sBox, skD, c), iv);
    assert p == XorBlock(XorBlock(z, wi), iv);
    assert XorBlock(XorBlock(p, wi), iv) == z by {
      XorSwap(XorBlock(z, wi), iv, wi);
      XorBlockCancel(z, wi);
      XorBlockCancel(z, iv);
    }
    EncryptRoundsUndo(sBox, skE, skD, x);
    assert SwapHalves(x) == XorBlock(c, wo);
    XorBlockCancel(c, wo);
  }

  lemma XorSwap(a: Block, b: Block, c: Block)
    ensures XorBlock(XorBlock(a, b), c) == XorBlock(XorBlock(a, c), b)
  {
    XorSwapWord(a.w0, b.w0, c.w0);
    XorSwapWord(a.w1, b.w1, c.w1);
    XorSwapWord(a.w2, b.w2, c.w2);
    XorSwapWord(a.w3, b.w3, c.w3);
  }

  lemma XorSwapWord(a: bv32, b: bv32, c: bv32)
    ensures Xor(Xor(a, b), c) == Xor(Xor(a, c), b)
  {
    XorAssoc(a, b, c);
    XorComm(b, c);
    XorAssoc(a, c, b);
  }

  lemma XorAssoc(a: bv32, b: bv32, c: bv32)
    ensures Xor(Xor(a, b), c) == Xor(a, Xor(b, c))
  {
  }

  lemma XorComm(a: bv32, b: bv32)
    ensures Xor(a, b) == Xor(b, a)
  {
  }
}
