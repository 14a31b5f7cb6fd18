/** The block accounting of the `TwoFish` wrapper class: the padded length,
    the block size, and how `Encode` and `Decode` drive `blockEncrypt` and
    `blockDecrypt` over a buffer one block at a time and count the bytes
    processed.  The key the wrapper hands to `makeKey` is its own constant
    text, so the key instance and `makeKey`'s return code are parameters. */
module Wrapper {
  import opened Platform
  import opened Defs
  import opened Modes

  /** `hexString`: the text `cipherInit` parses the IV from on every call. */
  const HEX_STRING: seq<char> := "0123456789ABCDEFFEDCBA987654321000112233445566778899AABBCCDDEEFF"

  /** Bytes per block. */
  const BLOCK_BYTES: nat := 16

  /** `GetEncodeLength(srclen)`: the length rounded up to whole blocks. */
  function GetEncodeLength(srclen: nat): (r: nat)
    ensures r >= srclen && r % BLOCK_BYTES == 0 && r - srclen < BLOCK_BYTES
    ensures r == srclen <==> srclen % BLOCK_BYTES == 0
  {
    var padsz := srclen % BLOCK_BYTES;
    if padsz > 0 then srclen + (BLOCK_BYTES - padsz) else srclen
  }

  /** It is the least multiple of the block size not below the length. */
  lemma EncodeLengthLeast(srclen: nat, m: nat)
    requires m % BLOCK_BYTES == 0 && m >= srclen
    ensures GetEncodeLength(srclen) <= m
  {
    var r := GetEncodeLength(srclen);
    var a, b := m / BLOCK_BYTES, r / BLOCK_BYTES;
    assert m == 16 * a && r == 16 * b;
    assert 16 * b < 16 * (a + 1);
  }

  /** `GetBlockSize(isbit)`: the block size in bits or in bytes. */
  function GetBlockSize(isbit: bool): (r: nat)
    ensures isbit ==> r == 128
    ensures !isbit ==> r == 16
  {
    if isbit then BLOCK_SIZE else BLOCK_SIZE / 8
  }

  /** The bit size is eight times the byte size, and the byte size is the
      unit `GetEncodeLength` rounds to. */
  lemma BlockSizes()
    ensures GetBlockSize(true) == 8 * GetBlockSize(false)
    ensures GetEncodeLength(GetBlockSize(false)) == GetBlockSize(false)
    ensures GetEncodeLength(1) == GetBlockSize(false)
  {
  }

  /** `memset(pOutput, 0, rsz); memcpy(pOutput, pInput, inpsz)`. */
  function Padded(input: seq<bv8>): (p: seq<bv8>)
    ensures |p| == GetEncodeLength(|input|)
    ensures p[..|input|] == input
    ensures forall k :: |input| <= k < |p| ==> p[k] == 0
  {
    input + seq(GetEncodeLength(|input|) - |input|, _ => 0)
  }

  /** What a wrapper call leaves: the count it returns, the cipher and key
      instances, and the output buffer. */
  datatype Coded = Coded(count: nat, cipher: Cipher, key: Key, out: seq<bv8>)

  /** One call of the block operation on block `cnt`: `blockEncrypt` or
      `blockDecrypt` of `BLOCK_SIZE` bits from `pBin` into `pBout`. */
  function BlockCall(e: Endian, decrypt: bool, c: Cipher, key: Key, src: seq<bv8>, dst: seq<bv8>): (r: Outcome)
    requires CipherShape(c) && KeyShape(key) && BLOCK_BYTES <= |src| && BLOCK_BYTES <= |dst|
    ensures CipherShape(r.cipher) && KeyShape(r.key) && |r.out| == |dst|
    ensures r.code > 0 <==> Validate(c, key, BLOCK_SIZE) == TF_SUCCESS
    ensures r.code > 0 ==> r.code == BLOCK_SIZE
    ensures r.code <= 0 ==> r == Outcome(r.code, c, key, dst)
    ensures r.cipher.cipherSig == c.cipherSig && r.cipher.mode == c.mode
    ensures r.key.keySig == key.keySig && r.key.numRounds == key.numRounds
  {
    if decrypt then BlockDecrypt(e, c, key, src, BLOCK_SIZE, dst)
    else BlockEncrypt(e, c, key, src, BLOCK_SIZE, dst)
  }

  /** `reti/8/sizeof(uint32_t)` words, in bytes: how far a positive
      result moves `pBin` and `pBout`. */
  function PointerStep(reti: int): (n: nat)
    requires reti > 0
    ensures reti == BLOCK_SIZE ==> n == BLOCK_BYTES
  {
    4 * (reti / 8 / 4)
  }

  /** `(size_t)reti/8`: what a positive result adds to the count. */
  function CountStep(reti: int): (n: nat)
    requires reti > 0
    ensures reti == BLOCK_SIZE ==> n == BLOCK_BYTES
  {
    reti / 8
  }

  /** The block operation as the loop sees it, for buffers of any size
      (the loop only ever passes whole blocks). */
  function Call(e: Endian, decrypt: bool): (Cipher, Key, seq<bv8>, seq<bv8>) -> Outcome {
    (c: Cipher, key: Key, src: seq<bv8>, dst: seq<bv8>) =>
      if CipherShape(c) && KeyShape(key) && BLOCK_BYTES <= |src| && BLOCK_BYTES <= |dst|
      then BlockCall(e, decrypt, c, key, src, dst)
      else Outcome(BAD_PARAMS, c, key, dst)
  }

  /** What the loop relies on from one block call that left `r`: a
      positive result is the block size and comes exactly when the checks
      pass, a failure changes nothing, and the checked fields are never
      changed. */
  ghost predicate StepOk(c: Cipher, key: Key, dst: seq<bv8>, r: Outcome) {
    && CipherShape(r.cipher) && KeyShape(r.key) && |r.out| == |dst|
    && (r.code > 0 <==> Validate(c, key, BLOCK_SIZE) == TF_SUCCESS)
    && (r.code > 0 ==> r.code == BLOCK_SIZE)
    && (r.code <= 0 ==> r == Outcome(r.code, c, key, dst))
    && r.cipher.cipherSig == c.cipherSig && r.cipher.mode == c.mode
    && r.key.keySig == key.keySig && r.key.numRounds == key.numRounds
  }

  /** Every call on whole blocks behaves as `StepOk` says. */
  ghost predicate Behaves(call: (Cipher, Key, seq<bv8>, seq<bv8>) -> Outcome) {
    forall c: Cipher, key: Key, src: seq<bv8>, dst: seq<bv8> ::
      CipherShape(c) && KeyShape(key) && BLOCK_BYTES <= |src| && BLOCK_BYTES <= |dst| ==>
        StepOk(c, key, dst, call(c, key, src, dst))
  }

  lemma CallBehaves(e: Endian, decrypt: bool)
    ensures Behaves(Call(e, decrypt))
  {
    forall c: Cipher, key: Key, src: seq<bv8>, dst: seq<bv8> |
      CipherShape(c) && KeyShape(key) && BLOCK_BYTES <= |src| && BLOCK_BYTES <= |dst|
      ensures StepOk(c, key, dst, Call(e, decrypt)(c, key, src, dst))
    {
    }
  }

  /** The call on the block at byte `off`: `pBout` points into the output
      and `pBin` into the output too (`inPlace`) or the input. */
  function StepAt(call: (Cipher, Key, seq<bv8>, seq<bv8>) -> Outcome, inPlace: bool, c: Cipher, key: Key,
                  input: seq<bv8>, out: seq<bv8>, off: nat): Outcome
    requires off <= |out| && (inPlace || off <= |input|)
  {
    var src := if inPlace then out else input;
    call(c, key, src[off..], out[off..])
  }

  /** A step on a whole block keeps the shapes and the buffer length, and
      leaves the checks as they were. */
  lemma StepFacts(call: (Cipher, Key, seq<bv8>, seq<bv8>) -> Outcome, inPlace: bool, c: Cipher, key: Key,
                  input: seq<bv8>, out: seq<bv8>, off: nat)
    requires Behaves(call) && CipherShape(c) && KeyShape(key)
    requires off + 16 <= |out| && (inPlace || off + 16 <= |input|)
    ensures var r := StepAt(call, inPlace, c, key, input, out, off);
            && CipherShape(r.cipher) && KeyShape(r.key) && |r.out| == |out| - off
            && (r.code > 0 <==> Validate(c, key, BLOCK_SIZE) == TF_SUCCESS)
            && (r.code > 0 ==> r.code == BLOCK_SIZE)
            && Validate(r.cipher, r.key, BLOCK_SIZE) == Validate(c, key, BLOCK_SIZE)
  {
    var src := if inPlace then out else input;
    assert StepOk(c, key, out[off..], call(c, key, src[off..], out[off..]));
  }

  /** The loop of `Encode` (`inPlace`: `pBin` and `pBout` both walk the
      output buffer) and of `Decode` (`pBin` walks the input): iterations
      `cnt .. loops-1`, with the pointers at byte `off` and `bQ` bytes
      counted.  A positive result `reti` moves both pointers on by
      `reti/8/sizeof(uint32_t)` words and adds `reti/8` to the count; any
      other result ends the loop. */
  function BlockLoop(call: (Cipher, Key, seq<bv8>, seq<bv8>) -> Outcome, inPlace: bool, c: Cipher, key: Key,
                     input: seq<bv8>, out: seq<bv8>, loops: nat, cnt: nat, off: nat, bQ: nat): (r: Coded)
    requires Behaves(call)
    requires CipherShape(c) && KeyShape(key) && cnt <= loops
    requires off + 16 * (loops - cnt) <= |out|
    requires inPlace || off + 16 * (loops - cnt) <= |input|
    ensures CipherShape(r.cipher) && KeyShape(r.key) && |r.out| == |out|
    ensures forall k :: 0 <= k < off ==> r.out[k] == out[k]
    decreases loops - cnt
  {
    if cnt >= loops then Coded(bQ, c, key, out)
    else
      var step := StepAt(call, inPlace, c, key, input, out, off);
      StepFacts(call, inPlace, c, key, input, out, off);
      var reti := step.code;
      if reti > 0 then
        BlockLoop(call, inPlace, step.cipher, step.key, input, out[..off] + step.out,
                  loops, cnt + 1, off + PointerStep(reti), bQ + CountStep(reti))
      else Coded(bQ, step.cipher, step.key, out)
  }

  /** One turn of the loop: a positive result hands on to the next block
      with both pointers and the count 16 bytes further on, any other result
      stops with the count unchanged. */
  lemma BlockLoopStep(call: (Cipher, Key, seq<bv8>, seq<bv8>) -> Outcome, inPlace: bool,
                      c: Cipher, key: Key, input: seq<bv8>, out: seq<bv8>,
                      loops: nat, cnt: nat, off: nat, bQ: nat)
    requires Behaves(call)
    requires CipherShape(c) && KeyShape(key) && cnt < loops
    requires off + 16 * (loops - cnt) <= |out|
    requires inPlace || off + 16 * (loops - cnt) <= |input|
    ensures var step := StepAt(call, inPlace, c, key, input, out, off);
            && CipherShape(step.cipher) && KeyShape(step.key) && |step.out| == |out| - off
            && (step.code > 0 <==> Validate(c, key, BLOCK_SIZE) == TF_SUCCESS)
            && Validate(step.cipher, step.key, BLOCK_SIZE) == Validate(c, key, BLOCK_SIZE)
            && (step.code > 0 ==>
                  BlockLoop(call, inPlace, c, key, input, out, loops, cnt, off, bQ)
                  == BlockLoop(call, inPlace, step.cipher, step.key, input, out[..off] + step.out,
                               loops, cnt + 1, off + 16, bQ + 16))
            && (step.code <= 0 ==> BlockLoop(call, inPlace, c, key, input, out, loops, cnt, off, bQ).count == bQ)
  {
    StepFacts(call, inPlace, c, key, input, out, off);
  }

  /** The loop is all or nothing: every block is processed and counted when
      the checks of the block operation pass, and none otherwise.  The
      checks read only fields no block operation changes. */
  lemma {:induction false} BlockLoopCount(call: (Cipher, Key, seq<bv8>, seq<bv8>) -> Outcome, inPlace: bool,
                                          c: Cipher, key: Key, input: seq<bv8>, out: seq<bv8>,
                                          loops: nat, cnt: nat, off: nat, bQ: nat)
    requires Behaves(call)
    requires CipherShape(c) && KeyShape(key) && cnt <= loops
    requires off + 16 * (loops - cnt) <= |out|
    requires inPlace || off + 16 * (loops - cnt) <= |input|
    ensures var r := BlockLoop(call, inPlace, c, key, input, out, loops, cnt, off, bQ);
            r.count == if cnt < loops && Validate(c, key, BLOCK_SIZE) != TF_SUCCESS then bQ
                       else bQ + 16 * (loops - cnt)
    decreases loops - cnt
  {
    if cnt < loops {
      var step := StepAt(call, inPlace, c, key, input, out, off);
      BlockLoopStep(call, inPlace, c, key, input, out, loops, cnt, off, bQ);
      if step.code > 0 {
        BlockLoopCount(call, inPlace, step.cipher, step.key, input, out[..off] + step.out,
                       loops, cnt + 1, off + 16, bQ + 16);
      }
    }
  }

  /** `Encode(pInput, pOutput, inpsz)` once `makeKey` has returned
      `keyCode` and left `key`: `cipherInit` is run again on `hexString`
      (its result is not looked at); a `makeKey` failure returns 0 and
      writes nothing; otherwise the padded input is encrypted in place and
      the count of bytes encrypted is returned. */
  function Encode(e: Endian, c: Cipher, mode: bv8, key: Key, keyCode: int, input: seq<bv8>): (r: Coded)
    requires CipherShape(c) && KeyShape(key)
    ensures keyCode != TF_SUCCESS ==> r.count == 0 && r.out == []
    ensures keyCode == TF_SUCCESS ==> |r.out| == GetEncodeLength(|input|)
  {
    var ci := CipherInit(e, c, mode, Some(HEX_STRING)).cipher;
    if keyCode != TF_SUCCESS then Coded(0, ci, key, [])
    else
      var rsz := GetEncodeLength(|input|);
      var buf := Padded(input);
      CallBehaves(e, false);
      var l := BlockLoop(Call(e, false), true, ci, key, [], buf, rsz / BLOCK_BYTES, 0, 0, 0);
      Coded(if l.count > 0 then l.count else 0, l.cipher, l.key, l.out)
  }

  /** `Decode(pInput, pOutput, inpsz)`: the same with `blockDecrypt` from
      the input into a zeroed output buffer; the trailing partial block is
      not touched. */
  function Decode(e: Endian, c: Cipher, mode: bv8, key: Key, keyCode: int, input: seq<bv8>): (r: Coded)
    requires CipherShape(c) && KeyShape(key)
    ensures keyCode != TF_SUCCESS ==> r.count == 0 && r.out == []
    ensures keyCode == TF_SUCCESS ==> |r.out| == |input|
  {
    var ci := CipherInit(e, c, mode, Some(HEX_STRING)).cipher;
    if keyCode != TF_SUCCESS then Coded(0, ci, key, [])
    else
      var zeros := seq(|input|, _ => 0);
      CallBehaves(e, true);
      BlockLoop(Call(e, true), false, ci, key, input, zeros, |input| / BLOCK_BYTES, 0, 0, 0)
  }

  /** `Encode` returns the padded length when `makeKey` succeeded and the
      block checks pass, and 0 otherwise: never a partial count. */
  lemma EncodeCount(e: Endian, c: Cipher, mode: bv8, key: Key, keyCode: int, input: seq<bv8>)
    requires CipherShape(c) && KeyShape(key)
    ensures var ci := CipherInit(e, c, mode, Some(HEX_STRING)).cipher;
            Encode(e, c, mode, key, keyCode, input).count ==
              if keyCode == TF_SUCCESS && Validate(ci, key, BLOCK_SIZE) == TF_SUCCESS
              then GetEncodeLength(|input|) else 0
  {
    var ci := CipherInit(e, c, mode, Some(HEX_STRING)).cipher;
    if keyCode == TF_SUCCESS {
      var rsz := GetEncodeLength(|input|);
      CallBehaves(e, false);
      BlockLoopCount(Call(e, false), true, ci, key, [], Padded(input), rsz / BLOCK_BYTES, 0, 0, 0);
    }
  }

  /** `Decode` returns the whole-block part of the input length when
      `makeKey` succeeded and the block checks pass, and 0 otherwise. */
  lemma DecodeCount(e: Endian, c: Cipher, mode: bv8, key: Key, keyCode: int, input: seq<bv8>)
    requires CipherShape(c) && KeyShape(key)
    ensures var ci := CipherInit(e, c, mode, Some(HEX_STRING)).cipher;
            Decode(e, c, mode, key, keyCode, input).count ==
              if keyCode == TF_SUCCESS && Validate(ci, key, BLOCK_SIZE) == TF_SUCCESS && BLOCK_BYTES <= |input|
              then |input| - |input| % BLOCK_BYTES else 0
  {
    var ci := CipherInit(e, c, mode, Some(HEX_STRING)).cipher;
    if keyCode == TF_SUCCESS {
      var zeros: seq<bv8> := seq(|input|, _ => 0);
      CallBehaves(e, true);
      BlockLoopCount(Call(e, true), false, ci, key, input, zeros, |input| / BLOCK_BYTES, 0, 0, 0);
    }
  }
}
