/** Constants, return codes, subkey layout and the two instance records of
    the cipher's public header. */
module Defs {

  /** A pointer argument that may be NULL. */
  datatype Option<T> = None | Some(value: T)

  // Key directions and cipher modes.
  const DIR_ENCRYPT: bv8 := 0
  const DIR_DECRYPT: bv8 := 1
  const MODE_ECB: bv8 := 1
  const MODE_CBC: bv8 := 2
  const MODE_CFB1: bv8 := 3

  // Return codes.
  const TF_SUCCESS: int := 1
  const TF_FAILURE: int := 0
  const BAD_KEY_DIR: int := -1
  const BAD_KEY_MAT: int := -2
  const BAD_KEY_INSTANCE: int := -3
  const BAD_CIPHER_MODE: int := -4
  const BAD_CIPHER_STATE: int := -5
  const BAD_INPUT_LEN: int := -6
  const BAD_PARAMS: int := -7
  const BAD_IV_MAT: int := -8
  const BAD_ENDIAN: int := -9
  const BAD_ALIGN32: int := -10

  const ErrorCodes: seq<int> := [BAD_KEY_DIR, BAD_KEY_MAT, BAD_KEY_INSTANCE, BAD_CIPHER_MODE,
                                 BAD_CIPHER_STATE, BAD_INPUT_LEN, BAD_PARAMS, BAD_IV_MAT,
                                 BAD_ENDIAN, BAD_ALIGN32]

  // Sizes.
  const MAX_KEY_SIZE: nat := 64     // ASCII characters of a key
  const MAX_IV_SIZE: nat := 16      // bytes of an IV
  const BLOCK_SIZE: nat := 128      // bits per block
  const MAX_ROUNDS: nat := 16
  const ROUNDS_128: nat := 16
  const ROUNDS_192: nat := 16
  const ROUNDS_256: nat := 16
  const MAX_KEY_BITS: nat := 256
  const MIN_KEY_BITS: nat := 128
  const VALID_SIG: bv32 := 0x48534946

  // Subkey array layout.
  const INPUT_WHITEN: nat := 0
  const OUTPUT_WHITEN: nat := INPUT_WHITEN + BLOCK_SIZE / 32
  const ROUND_SUBKEYS: nat := OUTPUT_WHITEN + BLOCK_SIZE / 32
  const TOTAL_SUBKEYS: nat := ROUND_SUBKEYS + 2 * MAX_ROUNDS

  /** Round counts indexed by `(keyLen - 1) / 64`; 64-bit keys get none. */
  const NumRoundsTable: seq<nat> := [0, ROUNDS_128, ROUNDS_192, ROUNDS_256]

  /** The key and fully expanded S-box words (`fullSbox` is 4 x 256 dwords). */
  const SBOX_WORDS: nat := 4 * 256

  /** Every error code is negative and they are pairwise distinct, so a
      non-negative result of a block operation is a bit count. */
  lemma ErrorCodesDistinct()
    ensures TF_SUCCESS == 1
    ensures forall i :: 0 <= i < |ErrorCodes| ==> ErrorCodes[i] == -(i + 1)
    ensures forall i, j :: 0 <= i < j < |ErrorCodes| ==> ErrorCodes[i] != ErrorCodes[j]
  {
  }

  /** Input whitening, output whitening and the round subkeys occupy disjoint
      consecutive ranges that fill the subkey array exactly, and every key
      size's round count fits that array. */
  lemma SubkeyLayout()
    ensures INPUT_WHITEN == 0 && OUTPUT_WHITEN == 4 && ROUND_SUBKEYS == 8
    ensures TOTAL_SUBKEYS == 40
    ensures forall i :: 1 <= i < |NumRoundsTable| ==> NumRoundsTable[i] == MAX_ROUNDS
    ensures forall i :: 0 <= i < |NumRoundsTable| ==> ROUND_SUBKEYS + 2 * NumRoundsTable[i] <= TOTAL_SUBKEYS
  {
  }

  /** `keyInstance` (the optional alignment padding carries no data). */
  datatype Key = Key(
    direction: bv8,
    keyLen: nat,
    keyMaterial: seq<char>,   // MAX_KEY_SIZE + 4 characters
    keySig: bv32,
    numRounds: nat,
    key32: seq<bv32>,         // MAX_KEY_BITS / 32 words
    sboxKeys: seq<bv32>,      // MAX_KEY_BITS / 64 words
    subKeys: seq<bv32>,       // TOTAL_SUBKEYS words
    sBox: seq<bv32>)          // the fully expanded S-box, SBOX_WORDS words

  predicate KeyShape(k: Key) {
    && |k.keyMaterial| == MAX_KEY_SIZE + 4
    && |k.key32| == MAX_KEY_BITS / 32
    && |k.sboxKeys| == MAX_KEY_BITS / 64
    && |k.subKeys| == TOTAL_SUBKEYS
    && |k.sBox| == SBOX_WORDS
  }

  /** `cipherInstance`. */
  datatype Cipher = Cipher(
    mode: bv8,
    iv: seq<bv8>,             // MAX_IV_SIZE bytes, the CFB1 register
    cipherSig: bv32,
    iv32: seq<bv32>)          // BLOCK_SIZE / 32 words, the CBC chaining value

  predicate CipherShape(c: Cipher) {
    |c.iv| == MAX_IV_SIZE && |c.iv32| == BLOCK_SIZE / 32
  }

  /** `BlockCopy(d,s)`: copies exactly the four dwords of one block. */
  function BlockCopy(d: seq<bv32>, s: seq<bv32>): (r: seq<bv32>)
    requires |d| == 4 && |s| >= 4
    ensures r == s[..4]
  {
    d[0 := s[0]][1 := s[1]][2 := s[2]][3 := s[3]]
  }

  /** A C string as read through a `const char*`: past its end lies the
      terminating NUL. */
  function CharAt(s: seq<char>, i: nat): char {
    if i < |s| then s[i] else '\0'
  }
}
