/** `cipherInit`, `blockEncrypt` and `blockDecrypt`: the ECB and CBC block
    drivers and the bit-by-bit CFB1 loop.  Buffers are byte sequences;
    every dword is read and written through `Bswap`, so the words the
    cipher sees are the little-endian values of the buffer bytes on either
    endianness. */
module Modes {
  import opened Platform
  import opened Defs
  import opened HexParse
  import opened KeySchedule
  import opened Keying
  import opened Rounds

  // ---------------------------------------------------------------------
  // Buffers and blocks

  /** `Bswap(((uint32_t *)m)[N])` for the dword at byte offset `off`. */
  function LoadWord(e: Endian, m: seq<bv8>, off: nat): (w: bv32)
    requires off + 4 <= |m|
    ensures w == LeWord(m[off], m[off + 1], m[off + 2], m[off + 3])
  {
    NormalisedLoad(e, m[off..off + 4]);
    Bswap(e, NativeLoad(e, m[off..off + 4]))
  }

  /** The bytes `((uint32_t *)m)[N] = Bswap(w)` leaves in memory.  The
      little-endian `StoreBlockE` stores without `Bswap`, which is the same
      there because `Bswap` is then the identity. */
  function StoreWord(e: Endian, w: bv32): (m: seq<bv8>)
    ensures m == [ByteOf(w, 0), ByteOf(w, 1), ByteOf(w, 2), ByteOf(w, 3)]
  {
    NormalisedStore(e, w);
    NativeBytes(e, Bswap(e, w))
  }

  /** The four dwords of the block at byte offset `off`. */
  function LoadBlock(e: Endian, m: seq<bv8>, off: nat): Block
    requires off + 16 <= |m|
  {
    Block(LoadWord(e, m, off), LoadWord(e, m, off + 4), LoadWord(e, m, off + 8), LoadWord(e, m, off + 12))
  }

  function StoreBlock(e: Endian, b: Block): (m: seq<bv8>)
    ensures |m| == 16
  {
    StoreWord(e, b.w0) + StoreWord(e, b.w1) + StoreWord(e, b.w2) + StoreWord(e, b.w3)
  }

  /** Reading back a stored block gives the block. */
  lemma LoadStoreBlock(e: Endian, b: Block, rest: seq<bv8>)
    ensures LoadBlock(e, StoreBlock(e, b) + rest, 0) == b
  {
    var m := StoreBlock(e, b) + rest;
    assert m[..4] == StoreWord(e, b.w0);
    LeWordOfBytes(b.w0);
    LeWordOfBytes(b.w1);
    LeWordOfBytes(b.w2);
    LeWordOfBytes(b.w3);
  }

  /** Storing a loaded block gives back the sixteen bytes. */
  lemma StoreLoadBlock(e: Endian, m: seq<bv8>, off: nat)
    requires off + 16 <= |m|
    ensures StoreBlock(e, LoadBlock(e, m, off)) == m[off..off + 16]
  {
  }

  lemma StoreLoadWhole(e: Endian, m: seq<bv8>)
    requires |m| == 16
    ensures StoreBlock(e, LoadBlock(e, m, 0)) == m
  {
    StoreLoadBlock(e, m, 0);
    assert m[0..16] == m;
  }

  /** A block as the four-word array `iv32` and back. */
  function BlockWords(b: Block): (s: seq<bv32>)
    ensures |s| == 4
  {
    [b.w0, b.w1, b.w2, b.w3]
  }

  function WordsBlock(s: seq<bv32>): Block
    requires |s| >= 4
  {
    Block(s[0], s[1], s[2], s[3])
  }

  lemma WordsBlockWords(b: Block)
    ensures WordsBlock(BlockWords(b)) == b
  {
  }

  /** The `int` a block operation returns for its `size_t` bit count: the
      count modulo 2^32, read as a two's complement value. */
  function CInt(n: nat): (v: int)
    ensures -0x8000_0000 <= v < 0x8000_0000
    ensures (v - n) % 0x1_0000_0000 == 0
    ensures n < 0x8000_0000 ==> v == n
  {
    var m := n % 0x1_0000_0000;
    if m < 0x8000_0000 then m else m - 0x1_0000_0000
  }

  // ---------------------------------------------------------------------
  // cipherInit

  predicate KnownMode(mode: bv8) {
    mode == MODE_ECB || mode == MODE_CBC || mode == MODE_CFB1
  }

  datatype Init = Init(code: int, cipher: Cipher)

  /** The byte-oriented copy of the IV: each word stored as `Bswap(iv32[cnt])`. */
  function IvBytes(e: Endian, words: seq<bv32>): (m: seq<bv8>)
    requires |words| >= 4
    ensures |m| == MAX_IV_SIZE
    ensures LoadBlock(e, m, 0) == WordsBlock(words)
  {
    LoadStoreBlock(e, WordsBlock(words), []);
    assert StoreBlock(e, WordsBlock(words)) + [] == StoreBlock(e, WordsBlock(words));
    StoreBlock(e, WordsBlock(words))
  }

  /** `cipherInit(cipher, mode, IV)`, the IV text as a C string that may be
      NULL.  The signature is set before the IV is parsed, so a malformed
      IV leaves a cipher marked valid with its old mode and IV bytes, and
      the IV words as far as the parser filled them. */
  function CipherInit(e: Endian, c: Cipher, mode: bv8, iv: Option<seq<char>>): (r: Init)
    requires CipherShape(c)
    ensures CipherShape(r.cipher)
    ensures !KnownMode(mode) ==> r == Init(BAD_CIPHER_MODE, c)
    ensures KnownMode(mode) ==> r.cipher.cipherSig == VALID_SIG
    ensures KnownMode(mode) && (mode == MODE_ECB || iv.None?) ==>
              r == Init(TF_SUCCESS, c.(cipherSig := VALID_SIG, mode := mode))
    ensures KnownMode(mode) && mode != MODE_ECB && iv.Some? ==>
              && (r.code == TF_SUCCESS <==> AllHex(BLOCK_SIZE, iv.value))
              && (r.code != TF_SUCCESS ==> r.code == BAD_IV_MAT && r.cipher.mode == c.mode && r.cipher.iv == c.iv)
              && (r.code != TF_SUCCESS ==>
                    r.cipher == c.(cipherSig := VALID_SIG, iv32 := ParseHexDword(BLOCK_SIZE, iv.value, c.iv32).words))
              && (r.code == TF_SUCCESS ==> r.cipher.mode == mode && LoadBlock(e, r.cipher.iv, 0) == WordsBlock(r.cipher.iv32))
  {
    if !KnownMode(mode) then Init(BAD_CIPHER_MODE, c)
    else
      var signed := c.(cipherSig := VALID_SIG);
      if mode != MODE_ECB && iv.Some? then
        var p := ParseHexDword(BLOCK_SIZE, iv.value, signed.iv32);
        if p.code != 0 then Init(BAD_IV_MAT, signed.(iv32 := p.words))
        else Init(TF_SUCCESS, signed.(iv32 := p.words, iv := IvBytes(e, p.words), mode := mode))
      else Init(TF_SUCCESS, signed.(mode := mode))
  }

  /** Byte `4j + i` of a stored block is byte `i` of word `j`. */
  lemma StoreBlockByte(e: Endian, b: Block, j: nat, i: nat)
    requires j < 4 && i < 4
    ensures StoreBlock(e, b)[4 * j + i] == ByteOf(Word(b, j), i)
  {
    var w0, w1, w2, w3 := StoreWord(e, b.w0), StoreWord(e, b.w1), StoreWord(e, b.w2), StoreWord(e, b.w3);
    var m01 := w0 + w1;
    var m012 := m01 + w2;
    assert StoreBlock(e, b) == m012 + w3;
    if j == 3 {
      assert (m012 + w3)[12 + i] == w3[i];
      StoreWordAt(e, b.w3, i);
    } else {
      assert (m012 + w3)[4 * j + i] == m012[4 * j + i];
      if j == 2 {
        assert m012[8 + i] == w2[i];
        StoreWordAt(e, b.w2, i);
      } else {
        assert m012[4 * j + i] == m01[4 * j + i];
        if j == 1 {
          assert m01[4 + i] == w1[i];
          StoreWordAt(e, b.w1, i);
        } else {
          assert m01[i] == w0[i];
          StoreWordAt(e, b.w0, i);
        }
      }
    }
  }

  lemma StoreWordAt(e: Endian, w: bv32, i: nat)
    requires i < 4
    ensures StoreWord(e, w)[i] == ByteOf(w, i)
  {
  }

  lemma WordOfWordsBlock(s: seq<bv32>, j: nat)
    requires |s| >= 4 && j < 4
    ensures Word(WordsBlock(s), j) == s[j]
  {
  }

  /** The sixteen bytes an IV text spells, two hex digits each. */
  function TextBytes(iv: seq<char>): (t: seq<bv8>)
    requires AllHex(BLOCK_SIZE, iv)
    ensures |t| == MAX_IV_SIZE
  {
    seq(MAX_IV_SIZE, k requires 0 <= k < MAX_IV_SIZE => HexByte(iv, k))
  }

  lemma TextBytesAt(iv: seq<char>, k: nat)
    requires AllHex(BLOCK_SIZE, iv) && k < MAX_IV_SIZE
    ensures TextBytes(iv)[k] == HexByte(iv, k)
  {
  }

  /** Word `j` is the little-endian value of text bytes `4j .. 4j+3`. */
  function TextWord(iv: seq<char>, j: nat): bv32
    requires AllHex(BLOCK_SIZE, iv) && j < 4
  {
    LeWord(HexByte(iv, 4 * j), HexByte(iv, 4 * j + 1), HexByte(iv, 4 * j + 2), HexByte(iv, 4 * j + 3))
  }

  /** Words packed little-endian from the text, stored as the byte
      register, lay the text bytes out in order. */
  lemma IvBytesOfText(e: Endian, iv: seq<char>, words: seq<bv32>)
    requires AllHex(BLOCK_SIZE, iv) && |words| >= 4
    requires forall j :: 0 <= j < 4 ==> words[j] == TextWord(iv, j)
    ensures IvBytes(e, words) == TextBytes(iv)
  {
    forall k | 0 <= k < MAX_IV_SIZE
      ensures IvBytes(e, words)[k] == TextBytes(iv)[k]
    {
      IvByteOfTextAt(e, iv, words, k);
    }
  }

  lemma IvByteOfTextAt(e: Endian, iv: seq<char>, words: seq<bv32>, k: nat)
    requires AllHex(BLOCK_SIZE, iv) && |words| >= 4 && k < MAX_IV_SIZE
    requires forall j :: 0 <= j < 4 ==> words[j] == TextWord(iv, j)
    ensures IvBytes(e, words)[k] == TextBytes(iv)[k]
  {
    var j, i := k / 4, k % 4;
    assert k == 4 * j + i;
    IvByteOfText(e, iv, words, j, i);
  }

  /** One byte of `IvBytesOfText`, at offset `i` of word `j`. */
  lemma IvByteOfText(e: Endian, iv: seq<char>, words: seq<bv32>, j: nat, i: nat)
    requires AllHex(BLOCK_SIZE, iv) && |words| >= 4 && j < 4 && i < 4
    requires words[j] == TextWord(iv, j)
    ensures IvBytes(e, words)[4 * j + i] == TextBytes(iv)[4 * j + i]
  {
    IvBytesByte(e, words, j, i);
    TextWordByte(iv, j, i);
  }

  /** Byte `4j + i` of the byte register is byte `i` of word `j`. */
  lemma IvBytesByte(e: Endian, words: seq<bv32>, j: nat, i: nat)
    requires |words| >= 4 && j < 4 && i < 4
    ensures IvBytes(e, words)[4 * j + i] == ByteOf(words[j], i)
  {
    StoreBlockByte(e, WordsBlock(words), j, i);
    WordOfWordsBlock(words, j);
  }

  /** Byte `i` of text word `j` is text byte `4j + i`. */
  lemma TextWordByte(iv: seq<char>, j: nat, i: nat)
    requires AllHex(BLOCK_SIZE, iv) && j < 4 && i < 4
    ensures ByteOf(TextWord(iv, j), i) == TextBytes(iv)[4 * j + i]
  {
    var t := TextBytes(iv);
    TextBytesAt(iv, 4 * j);
    TextBytesAt(iv, 4 * j + 1);
    TextBytesAt(iv, 4 * j + 2);
    TextBytesAt(iv, 4 * j + 3);
    assert TextWord(iv, j) == LeWord(t[4 * j], t[4 * j + 1], t[4 * j + 2], t[4 * j + 3]);
    PackedByte(t, j, i);
  }

  /** Byte `i` of the little-endian word packed from bytes `4j .. 4j+3` of
      a byte run is byte `4j + i` of the run. */
  lemma PackedByte(t: seq<bv8>, j: nat, i: nat)
    requires |t| >= 16 && j < 4 && i < 4
    ensures ByteOf(LeWord(t[4 * j], t[4 * j + 1], t[4 * j + 2], t[4 * j + 3]), i) == t[4 * j + i]
  {
    var w := LeWord(t[4 * j], t[4 * j + 1], t[4 * j + 2], t[4 * j + 3]);
    if i == 0 {
      assert ByteOf(w, 0) == t[4 * j];
    } else if i == 1 {
      assert ByteOf(w, 1) == t[4 * j + 1];
    } else if i == 2 {
      assert ByteOf(w, 2) == t[4 * j + 2];
    } else {
      assert ByteOf(w, 3) == t[4 * j + 3];
    }
  }

  /** A well-formed IV text: word `j` of `iv32` is the little-endian value of
      text bytes `4j .. 4j+3`, and the byte register holds the text bytes in
      order. */
  lemma CipherInitIv(e: Endian, c: Cipher, mode: bv8, iv: seq<char>)
    requires CipherShape(c) && (mode == MODE_CBC || mode == MODE_CFB1) && AllHex(BLOCK_SIZE, iv)
    ensures var r := CipherInit(e, c, mode, Some(iv));
            && r.code == TF_SUCCESS && r.cipher.mode == mode
            && (forall j :: 0 <= j < 4 ==> r.cipher.iv32[j] == TextWord(iv, j))
            && r.cipher.iv == TextBytes(iv)
  {
    var r := CipherInit(e, c, mode, Some(iv));
    var words := ParseHexDword(BLOCK_SIZE, iv, c.iv32).words;
    assert r.cipher.iv32 == words && r.cipher.iv == IvBytes(e, words);
    forall j | 0 <= j < 4
      ensures words[j] == TextWord(iv, j)
    {
      ParseHexWords(BLOCK_SIZE, iv, c.iv32, j);
    }
    IvBytesOfText(e, iv, words);
  }

  // ---------------------------------------------------------------------
  // Parameter checks and the key direction

  /** The checks both block operations make, in order. */
  function Validate(c: Cipher, key: Key, inputLen: nat): (code: int)
    ensures code == TF_SUCCESS || code == BAD_CIPHER_STATE || code == BAD_KEY_INSTANCE || code == BAD_INPUT_LEN
    ensures c.cipherSig != VALID_SIG <==> code == BAD_CIPHER_STATE
    ensures code == TF_SUCCESS <==>
              && c.cipherSig == VALID_SIG && key.keySig == VALID_SIG
              && 2 <= key.numRounds <= MAX_ROUNDS && key.numRounds % 2 == 0
              && (c.mode != MODE_CFB1 ==> inputLen % BLOCK_SIZE == 0)
    ensures code == BAD_INPUT_LEN ==> c.mode != MODE_CFB1 && inputLen % BLOCK_SIZE != 0
  {
    if c.cipherSig != VALID_SIG then BAD_CIPHER_STATE
    else if key.keySig != VALID_SIG then BAD_KEY_INSTANCE
    else if key.numRounds < 2 || key.numRounds > MAX_ROUNDS || key.numRounds % 2 == 1 then BAD_KEY_INSTANCE
    else if c.mode != MODE_CFB1 && inputLen % BLOCK_SIZE != 0 then BAD_INPUT_LEN
    else TF_SUCCESS
  }

  /** `if (key->direction != dir) ReverseRoundSubkeys(key, dir)`. */
  function ForDirection(key: Key, dir: bv8): (k: Key)
    requires KeyShape(key) && key.numRounds <= MAX_ROUNDS
    ensures KeyShape(k) && k.direction == dir
    ensures k.numRounds == key.numRounds && k.sBox == key.sBox && k.keySig == key.keySig
    ensures key.direction == dir ==> k == key
  {
    if key.direction != dir then ReverseRoundSubkeys(key, dir) else key
  }

  /** Making a key ready for one direction twice is making it ready once. */
  lemma ForDirectionIdempotent(key: Key, dir: bv8)
    requires KeyShape(key) && key.numRounds <= MAX_ROUNDS
    ensures ForDirection(ForDirection(key, dir), dir) == ForDirection(key, dir)
  {
  }

  /** The local `sk`: the whitening and the key's round subkeys copied,
      the rest of the array zero. */
  function LocalSubkeys(subKeys: seq<bv32>, rounds: nat): (sk: seq<bv32>)
    requires |subKeys| == TOTAL_SUBKEYS
    ensures |sk| == TOTAL_SUBKEYS
    ensures rounds == MAX_ROUNDS ==> sk == subKeys
  {
    seq(TOTAL_SUBKEYS, k requires 0 <= k < TOTAL_SUBKEYS => if k < ROUND_SUBKEYS + 2 * rounds then subKeys[k] else 0)
  }

  // ---------------------------------------------------------------------
  // ECB and CBC

  /** The output bytes of a run of blocks and the chaining value after it. */
  datatype Run = Run(out: seq<bv8>, iv: Block)

  /** The block transform of `blockEncrypt`: input block and chaining
      value to ciphertext block. */
  function Encryptor(sBox: seq<bv32>, sk: seq<bv32>): (Block, Block) -> Block
    requires |sBox| == SBOX_WORDS && |sk| == TOTAL_SUBKEYS
  {
    (p: Block, iv: Block) => EncryptBlock(sBox, sk, p, iv)
  }

  /** The block transform of `blockDecrypt`, before any chaining value is
      mixed in. */
  function Decryptor(sBox: seq<bv32>, sk: seq<bv32>): Block -> Block
    requires |sBox| == SBOX_WORDS && |sk| == TOTAL_SUBKEYS
  {
    (c: Block) => DecryptBlock(sBox, sk, c)
  }

  /** The block loop of `blockEncrypt`: each block with the IV through
      `enc`; in CBC (`chain`) the ciphertext just stored is read back as
      the next IV. */
  function EncryptBlocks(e: Endian, enc: (Block, Block) -> Block, chain: bool, iv: Block, input: seq<bv8>): (r: Run)
    requires |input| % 16 == 0
    ensures |r.out| == |input|
    ensures !chain ==> r.iv == iv
    decreases |input|
  {
    if |input| == 0 then Run([], iv)
    else
      var out := StoreBlock(e, enc(LoadBlock(e, input, 0), iv));
      var rest := EncryptBlocks(e, enc, chain, if chain then LoadBlock(e, out, 0) else iv, input[16..]);
      Run(out + rest.out, rest.iv)
  }

  /** The block loop of `blockDecrypt`: in ECB the block from `dec` is
      stored; otherwise the IV is mixed in and the ciphertext block becomes
      the next IV. */
  function DecryptBlocks(e: Endian, dec: Block -> Block, chain: bool, iv: Block, input: seq<bv8>): (r: Run)
    requires |input| % 16 == 0
    ensures |r.out| == |input|
    ensures !chain ==> r.iv == iv
    decreases |input|
  {
    if |input| == 0 then Run([], iv)
    else
      var c := LoadBlock(e, input, 0);
      var out := StoreBlock(e, Recovered(dec, chain, c, iv));
      var rest := DecryptBlocks(e, dec, chain, if chain then c else iv, input[16..]);
      Run(out + rest.out, rest.iv)
  }

  /** The outcome of a block operation: the return value and the cipher,
      key and output buffer as left. */
  datatype Outcome = Outcome(code: int, cipher: Cipher, key: Key, out: seq<bv8>)

  /** The ECB/CBC part of `blockEncrypt`, after the checks. */
  function EncryptEcbCbc(e: Endian, c: Cipher, key: Key, input: seq<bv8>, inputLen: nat, outBuffer: seq<bv8>): (r: Outcome)
    requires CipherShape(c) && KeyShape(key) && key.numRounds <= MAX_ROUNDS
    requires inputLen % BLOCK_SIZE == 0 && inputLen / 8 <= |input| && inputLen / 8 <= |outBuffer|
    ensures r.code == CInt(inputLen) && r.key == ForDirection(key, DIR_ENCRYPT)
    ensures CipherShape(r.cipher) && |r.out| == |outBuffer|
    ensures r.cipher == c.(iv32 := r.cipher.iv32)
    ensures c.mode != MODE_CBC ==> r.cipher == c
    ensures r.out[inputLen / 8..] == outBuffer[inputLen / 8..]
  {
    WholeBlocks(inputLen);
    var k := ForDirection(key, DIR_ENCRYPT);
    var n := inputLen / 8;
    var iv := if c.mode == MODE_CBC then WordsBlock(c.iv32) else Zero;
    var run := EncryptBlocks(e, Encryptor(k.sBox, LocalSubkeys(k.subKeys, k.numRounds)), c.mode == MODE_CBC, iv, input[..n]);
    var cipher := if c.mode == MODE_CBC then c.(iv32 := BlockCopy(c.iv32, BlockWords(run.iv))) else c;
    Outcome(CInt(inputLen), cipher, k, run.out + outBuffer[n..])
  }

  /** The ECB/CBC part of `blockDecrypt`, after the checks.  Chaining is on
      for every mode but ECB; the IV starts from `iv32` only in CBC. */
  function DecryptEcbCbc(e: Endian, c: Cipher, key: Key, input: seq<bv8>, inputLen: nat, outBuffer: seq<bv8>): (r: Outcome)
    requires CipherShape(c) && KeyShape(key) && key.numRounds <= MAX_ROUNDS
    requires inputLen % BLOCK_SIZE == 0 && inputLen / 8 <= |input| && inputLen / 8 <= |outBuffer|
    ensures r.code == CInt(inputLen) && r.key == ForDirection(key, DIR_DECRYPT)
    ensures CipherShape(r.cipher) && |r.out| == |outBuffer|
    ensures r.cipher == c.(iv32 := r.cipher.iv32)
    ensures c.mode != MODE_CBC ==> r.cipher == c
    ensures r.out[inputLen / 8..] == outBuffer[inputLen / 8..]
  {
    WholeBlocks(inputLen);
    var k := ForDirection(key, DIR_DECRYPT);
    var n := inputLen / 8;
    var iv := if c.mode == MODE_CBC then WordsBlock(c.iv32) else Zero;
    var run := DecryptBlocks(e, Decryptor(k.sBox, LocalSubkeys(k.subKeys, k.numRounds)), c.mode != MODE_ECB, iv, input[..n]);
    var cipher := if c.mode == MODE_CBC then c.(iv32 := BlockCopy(c.iv32, BlockWords(run.iv))) else c;
    Outcome(CInt(inputLen), cipher, k, run.out + outBuffer[n..])
  }

  /** A non-empty run of whole blocks starts with a block and continues
      with whole blocks. */
  lemma DropBlock(n: nat)
    requires n % 16 == 0 && n > 0
    ensures n >= 16 && (n - 16) % 16 == 0
  {
  }

  /** A whole number of 128-bit blocks is a whole number of 16-byte blocks. */
  lemma WholeBlocks(inputLen: nat)
    requires inputLen % BLOCK_SIZE == 0
    ensures (inputLen / 8) % 16 == 0 && BytesFor(inputLen) == inputLen / 8
  {
    var q := inputLen / BLOCK_SIZE;
    assert inputLen == 128 * q;
    assert inputLen / 8 == 16 * q;
    assert (inputLen + 7) / 8 == 16 * q;
  }

  /** The blocks of a run of whole blocks, in order. */
  function Blocks(e: Endian, m: seq<bv8>): (bs: seq<Block>)
    requires |m| % 16 == 0
    ensures 16 * |bs| == |m|
    decreases |m|
  {
    if |m| == 0 then [] else [LoadBlock(e, m, 0)] + Blocks(e, m[16..])
  }

  /** The bytes of a sequence of blocks, each stored in turn. */
  function Bytes(e: Endian, bs: seq<Block>): (m: seq<bv8>)
    ensures |m| == 16 * |bs| && |m| % 16 == 0
  {
    if |bs| == 0 then [] else StoreBlock(e, bs[0]) + Bytes(e, bs[1..])
  }

  lemma {:induction false} BlocksOfBytes(e: Endian, bs: seq<Block>)
    ensures Blocks(e, Bytes(e, bs)) == bs
  {
    if |bs| > 0 {
      var rest := Bytes(e, bs[1..]);
      var m := StoreBlock(e, bs[0]) + rest;
      assert Bytes(e, bs) == m && |m| % 16 == 0;
      LoadStoreBlock(e, bs[0], rest);
      assert m[16..] == rest;
      BlocksOfBytes(e, bs[1..]);
      assert Blocks(e, m) == [bs[0]] + bs[1..];
      assert bs == [bs[0]] + bs[1..];
    }
  }

  lemma {:induction false} BytesOfBlocks(e: Endian, m: seq<bv8>)
    requires |m| % 16 == 0
    ensures Bytes(e, Blocks(e, m)) == m
    decreases |m|
  {
    if |m| > 0 {
      DropBlock(|m|);
      var bs := Blocks(e, m);
      assert bs[0] == LoadBlock(e, m, 0) && bs[1..] == Blocks(e, m[16..]);
      StoreLoadBlock(e, m, 0);
      BytesOfBlocks(e, m[16..]);
      assert m == m[0..16] + m[16..];
    }
  }

  /** The output blocks of a chained run and the chaining value after it. */
  datatype Chained = Chained(out: seq<Block>, iv: Block)

  /** Encryption over blocks: `C[i] = enc(P[i], V[i])` with `V[0] = iv`
      and, when chaining, `V[i+1] = C[i]`. */
  function ChainEncrypt(enc: (Block, Block) -> Block, chain: bool, iv: Block, ps: seq<Block>): (r: Chained)
    ensures |r.out| == |ps|
    decreases |ps|
  {
    if |ps| == 0 then Chained([], iv)
    else
      var ct := enc(ps[0], iv);
      var rest := ChainEncrypt(enc, chain, if chain then ct else iv, ps[1..]);
      Chained([ct] + rest.out, rest.iv)
  }

  /** Decryption over blocks: `P[i] = dec(C[i]) ^ V[i]` when chaining, with
      `V[i+1] = C[i]`, and `dec(C[i])` otherwise. */
  function ChainDecrypt(dec: Block -> Block, chain: bool, iv: Block, cs: seq<Block>): (r: Chained)
    ensures |r.out| == |cs|
    decreases |cs|
  {
    if |cs| == 0 then Chained([], iv)
    else
      var rest := ChainDecrypt(dec, chain, if chain then cs[0] else iv, cs[1..]);
      Chained([Recovered(dec, chain, cs[0], iv)] + rest.out, rest.iv)
  }

  /** The plaintext block decryption gives for ciphertext block `c` chained
      with `v`. */
  function Recovered(dec: Block -> Block, chain: bool, c: Block, v: Block): Block {
    if chain then XorBlock(dec(c), v) else dec(c)
  }

  /** `V[i]`, the value block `i` is chained with: with chaining, the
      ciphertext block before it (the IV for the first); without, the IV.
      `V[|cs|]` is what is left for the next call. */
  function ChainValue(chain: bool, iv: Block, cs: seq<Block>, i: nat): Block
    requires i <= |cs|
  {
    if chain && i > 0 then cs[i - 1] else iv
  }

  /** The chaining of section 6.2 of NIST SP 800-38A: block `i` goes
      through `enc` with `V[i]` over the ciphertext blocks, and the value
      left for the next call is `V` past the last block. */
  lemma {:induction false} ChainEncryptAt(enc: (Block, Block) -> Block, chain: bool, iv: Block, ps: seq<Block>)
    ensures var r := ChainEncrypt(enc, chain, iv, ps);
            && (forall i :: 0 <= i < |ps| ==> r.out[i] == enc(ps[i], ChainValue(chain, iv, r.out, i)))
            && r.iv == ChainValue(chain, iv, r.out, |ps|)
    decreases |ps|
  {
    if |ps| > 0 {
      var r := ChainEncrypt(enc, chain, iv, ps);
      var ct := enc(ps[0], iv);
      var v := if chain then ct else iv;
      var rest := ChainEncrypt(enc, chain, v, ps[1..]);
      ChainEncryptAt(enc, chain, v, ps[1..]);
      assert r.out == [ct] + rest.out;
      forall i | 0 <= i <= |ps|
        ensures i > 0 ==> ChainValue(chain, v, rest.out, i - 1) == ChainValue(chain, iv, r.out, i)
      {
      }
      forall i | 0 <= i < |ps|
        ensures r.out[i] == enc(ps[i], ChainValue(chain, iv, r.out, i))
      {
        if i > 0 {
          assert r.out[i] == rest.out[i - 1] && ps[i] == ps[1..][i - 1];
        }
      }
    }
  }

  /** Decryption undoes that chaining block by block: with chaining, block
      `i` is `dec` of ciphertext block `i` mixed with `V[i]` over the
      ciphertext, and the value left for the next call is `V` past the last
      block. */
  lemma {:induction false} ChainDecryptAt(dec: Block -> Block, chain: bool, iv: Block, cs: seq<Block>)
    ensures var r := ChainDecrypt(dec, chain, iv, cs);
            && (forall i :: 0 <= i < |cs| ==> r.out[i] == Recovered(dec, chain, cs[i], ChainValue(chain, iv, cs, i)))
            && r.iv == ChainValue(chain, iv, cs, |cs|)
    decreases |cs|
  {
    if |cs| > 0 {
      var r := ChainDecrypt(dec, chain, iv, cs);
      var v := if chain then cs[0] else iv;
      var rest := ChainDecrypt(dec, chain, v, cs[1..]);
      ChainDecryptAt(dec, chain, v, cs[1..]);
      assert r.out == [Recovered(dec, chain, cs[0], iv)] + rest.out;
      forall i | 0 <= i <= |cs|
        ensures i > 0 ==> ChainValue(chain, v, cs[1..], i - 1) == ChainValue(chain, iv, cs, i)
      {
      }
      forall i | 0 <= i < |cs|
        ensures r.out[i] == Recovered(dec, chain, cs[i], ChainValue(chain, iv, cs, i))
      {
        if i > 0 {
          assert r.out[i] == rest.out[i - 1] && cs[i] == cs[1..][i - 1];
        }
      }
    }
  }

  /** The byte loop of `blockEncrypt` is the block chain on the loaded
      blocks, stored. */
  lemma {:induction false} EncryptBlocksChained(e: Endian, enc: (Block, Block) -> Block, chain: bool, iv: Block, input: seq<bv8>)
    requires |input| % 16 == 0
    ensures var r := ChainEncrypt(enc, chain, iv, Blocks(e, input));
            EncryptBlocks(e, enc, chain, iv, input) == Run(Bytes(e, r.out), r.iv)
    decreases |input|
  {
    if |input| > 0 {
      DropBlock(|input|);
      var ps := Blocks(e, input);
      assert ps[0] == LoadBlock(e, input, 0) && ps[1..] == Blocks(e, input[16..]);
      var ct := enc(ps[0], iv);
      var o := StoreBlock(e, ct);
      var next := if chain then ct else iv;
      var restB := EncryptBlocks(e, enc, chain, next, input[16..]);
      assert EncryptBlocks(e, enc, chain, iv, input) == Run(o + restB.out, restB.iv) by {
        LoadStoreBlock(e, ct, []);
        assert o + [] == o;
      }
      EncryptBlocksChained(e, enc, chain, next, input[16..]);
      var rest := ChainEncrypt(enc, chain, next, ps[1..]);
      assert ChainEncrypt(enc, chain, iv, ps) == Chained([ct] + rest.out, rest.iv);
      assert Bytes(e, [ct] + rest.out) == o + Bytes(e, rest.out) by {
        var cs := [ct] + rest.out;
        assert cs[0] == ct && cs[1..] == rest.out;
      }
    }
  }

  /** The byte loop of `blockDecrypt` is the block chain on the loaded
      blocks, stored. */
  lemma {:induction false} DecryptBlocksChained(e: Endian, dec: Block -> Block, chain: bool, iv: Block, input: seq<bv8>)
    requires |input| % 16 == 0
    ensures var r := ChainDecrypt(dec, chain, iv, Blocks(e, input));
            DecryptBlocks(e, dec, chain, iv, input) == Run(Bytes(e, r.out), r.iv)
    decreases |input|
  {
    if |input| > 0 {
      DropBlock(|input|);
      var cs := Blocks(e, input);
      assert cs[0] == LoadBlock(e, input, 0) && cs[1..] == Blocks(e, input[16..]);
      var pt := Recovered(dec, chain, cs[0], iv);
      var next := if chain then cs[0] else iv;
      DecryptBlocksChained(e, dec, chain, next, input[16..]);
      var rest := ChainDecrypt(dec, chain, next, cs[1..]);
      var ps := [pt] + rest.out;
      assert ps[0] == pt && ps[1..] == rest.out;
    }
  }

  /** `dec` undoes `enc` up to the chaining value mixed in. */
  ghost predicate Undoes(enc: (Block, Block) -> Block, dec: Block -> Block) {
    forall p: Block, v: Block :: dec(enc(p, v)) == XorBlock(p, v)
  }

  /** `enc` undoes `dec` once the chaining value is mixed in. */
  ghost predicate Redoes(enc: (Block, Block) -> Block, dec: Block -> Block) {
    forall c: Block, v: Block :: enc(XorBlock(dec(c), v), v) == c
  }

  /** Decryption under mirrored subkeys undoes encryption, and the other
      way round. */
  lemma MirroredTransforms(sBox: seq<bv32>, skE: seq<bv32>, skD: seq<bv32>)
    requires |sBox| == SBOX_WORDS && |skE| == TOTAL_SUBKEYS && |skD| == TOTAL_SUBKEYS && Mirrored(skE, skD)
    ensures Undoes(Encryptor(sBox, skE), Decryptor(sBox, skD))
    ensures Redoes(Encryptor(sBox, skE), Decryptor(sBox, skD))
  {
    var enc, dec := Encryptor(sBox, skE), Decryptor(sBox, skD);
    forall p: Block, v: Block
      ensures dec(enc(p, v)) == XorBlock(p, v)
    {
      DecryptEncryptBlock(sBox, skE, skD, p, v);
    }
    forall c: Block, v: Block
      ensures enc(XorBlock(dec(c), v), v) == c
    {
      EncryptDecryptBlock(sBox, skE, skD, c, v);
    }
  }

  /** Decrypting a chain of blocks encrypted by a transform the decryption
      undoes, from the same starting IV, gives back the plaintext and ends
      on the same IV.  Without chaining the IV must be zero, as it is in
      ECB. */
  lemma {:induction false} ChainRoundTrip(enc: (Block, Block) -> Block, dec: Block -> Block, chain: bool, iv: Block, ps: seq<Block>)
    requires Undoes(enc, dec) && (chain || iv == Zero)
    ensures var rE := ChainEncrypt(enc, chain, iv, ps);
            ChainDecrypt(dec, chain, iv, rE.out) == Chained(ps, rE.iv)
    decreases |ps|
  {
    if |ps| > 0 {
      var ct := enc(ps[0], iv);
      var next := if chain then ct else iv;
      var rest := ChainEncrypt(enc, chain, next, ps[1..]);
      var cs := [ct] + rest.out;
      assert cs[0] == ct && cs[1..] == rest.out;
      assert dec(ct) == XorBlock(ps[0], iv);
      XorBlockCancel(ps[0], iv);
      ChainRoundTrip(enc, dec, chain, next, ps[1..]);
      assert ps == [ps[0]] + ps[1..];
    }
  }

  /** And encrypting the decryption of a chain of blocks gives back the
      ciphertext. */
  lemma {:induction false} ChainRoundTripInverse(enc: (Block, Block) -> Block, dec: Block -> Block, chain: bool, iv: Block, cs: seq<Block>)
    requires Redoes(enc, dec) && (chain || iv == Zero)
    ensures var rD := ChainDecrypt(dec, chain, iv, cs);
            ChainEncrypt(enc, chain, iv, rD.out) == Chained(cs, rD.iv)
    decreases |cs|
  {
    if |cs| > 0 {
      var x := dec(cs[0]);
      var pt := Recovered(dec, chain, cs[0], iv);
      var next := if chain then cs[0] else iv;
      var rest := ChainDecrypt(dec, chain, next, cs[1..]);
      var ps := [pt] + rest.out;
      assert ps[0] == pt && ps[1..] == rest.out;
      assert enc(XorBlock(x, iv), iv) == cs[0];
      XorBlockCancel(x, iv);
      ChainRoundTripInverse(enc, dec, chain, next, cs[1..]);
      assert cs == [cs[0]] + cs[1..];
    }
  }

  /** The byte loops round-trip: `BlocksRoundTrip` over the blocks. */
  lemma BlocksRoundTrip(e: Endian, enc: (Block, Block) -> Block, dec: Block -> Block,
                        chain: bool, iv: Block, p: seq<bv8>)
    requires Undoes(enc, dec)
    requires |p| % 16 == 0 && (chain || iv == Zero)
    ensures var rE := EncryptBlocks(e, enc, chain, iv, p);
            DecryptBlocks(e, dec, chain, iv, rE.out) == Run(p, rE.iv)
  {
    var rE := ChainEncrypt(enc, chain, iv, Blocks(e, p));
    EncryptBlocksChained(e, enc, chain, iv, p);
    var ct := Bytes(e, rE.out);
    DecryptBlocksChained(e, dec, chain, iv, ct);
    BlocksOfBytes(e, rE.out);
    ChainRoundTrip(enc, dec, chain, iv, Blocks(e, p));
    BytesOfBlocks(e, p);
  }

  /** And the other way round. */
  lemma BlocksRoundTripInverse(e: Endian, enc: (Block, Block) -> Block, dec: Block -> Block,
                               chain: bool, iv: Block, ct: seq<bv8>)
    requires Redoes(enc, dec)
    requires |ct| % 16 == 0 && (chain || iv == Zero)
    ensures var rD := DecryptBlocks(e, dec, chain, iv, ct);
            EncryptBlocks(e, enc, chain, iv, rD.out) == Run(ct, rD.iv)
  {
    var rD := ChainDecrypt(dec, chain, iv, Blocks(e, ct));
    DecryptBlocksChained(e, dec, chain, iv, ct);
    var pt := Bytes(e, rD.out);
    EncryptBlocksChained(e, enc, chain, iv, pt);
    BlocksOfBytes(e, rD.out);
    ChainRoundTripInverse(enc, dec, chain, iv, Blocks(e, ct));
    BytesOfBlocks(e, ct);
  }

  /** Two keys of the same cipher key: the same S-box, sixteen rounds, and
      the same subkeys once made ready for encryption; the decryption key
      records one of the two directions. */
  predicate KeyPair(kE: Key, kD: Key) {
    && KeyShape(kE) && KeyShape(kD)
    && kE.numRounds == MAX_ROUNDS && kD.numRounds == MAX_ROUNDS
    && kE.keySig == VALID_SIG && kD.keySig == VALID_SIG
    && kE.sBox == kD.sBox
    && (kD.direction == DIR_ENCRYPT || kD.direction == DIR_DECRYPT)
    && ForDirection(kE, DIR_ENCRYPT).subKeys == ForDirection(kD, DIR_ENCRYPT).subKeys
  }

  /** The subkeys `blockEncrypt` uses with one key and those `blockDecrypt`
      uses with the other are mirror images. */
  lemma PairedSubkeys(kE: Key, kD: Key)
    requires KeyPair(kE, kD)
    ensures Mirrored(LocalSubkeys(ForDirection(kE, DIR_ENCRYPT).subKeys, MAX_ROUNDS),
                     LocalSubkeys(ForDirection(kD, DIR_DECRYPT).subKeys, MAX_ROUNDS))
  {
    var sk := ForDirection(kE, DIR_ENCRYPT).subKeys;
    if kD.direction == DIR_DECRYPT {
      ReverseRoundsInvolution(kD.subKeys, MAX_ROUNDS);
      assert ForDirection(kD, DIR_DECRYPT).subKeys == ReverseRounds(sk, MAX_ROUNDS);
    } else {
      assert ForDirection(kD, DIR_DECRYPT).subKeys == ReverseRounds(sk, MAX_ROUNDS);
    }
    ReversedMirrored(sk);
  }

  /** The key as `blockEncrypt` leaves it decrypts what it encrypted, and
      so does a key used unchanged for both directions. */
  lemma KeyPairs(k: Key)
    requires KeyShape(k) && k.numRounds == MAX_ROUNDS && k.keySig == VALID_SIG
    ensures KeyPair(k, ForDirection(k, DIR_ENCRYPT))
    ensures k.direction == DIR_ENCRYPT || k.direction == DIR_DECRYPT ==> KeyPair(k, k)
  {
    ForDirectionIdempotent(k, DIR_ENCRYPT);
  }

  /** ECB and CBC: decrypting the ciphertext with a paired key and the
      cipher as it was before encryption gives back the plaintext, reports
      the same count and leaves the same chaining value. */
  lemma EcbCbcRoundTrip(e: Endian, c: Cipher, kE: Key, kD: Key, input: seq<bv8>, inputLen: nat,
                        ob1: seq<bv8>, ob2: seq<bv8>)
    requires CipherShape(c) && (c.mode == MODE_ECB || c.mode == MODE_CBC) && c.cipherSig == VALID_SIG
    requires KeyPair(kE, kD) && inputLen % BLOCK_SIZE == 0
    requires BytesFor(inputLen) <= |input| && BytesFor(inputLen) <= |ob1| && BytesFor(inputLen) <= |ob2|
    ensures var r1 := BlockEncrypt(e, c, kE, input, inputLen, ob1);
            var r2 := BlockDecrypt(e, c, kD, r1.out, inputLen, ob2);
            && r1.code == CInt(inputLen) && r2.code == r1.code
            && r2.cipher == r1.cipher
            && r2.out[..inputLen / 8] == input[..inputLen / 8]
  {
    var n := inputLen / 8;
    WholeBlocks(inputLen);
    var k1, k2 := ForDirection(kE, DIR_ENCRYPT), ForDirection(kD, DIR_DECRYPT);
    var skE, skD := LocalSubkeys(k1.subKeys, k1.numRounds), LocalSubkeys(k2.subKeys, k2.numRounds);
    PairedSubkeys(kE, kD);
    var iv := if c.mode == MODE_CBC then WordsBlock(c.iv32) else Zero;
    var enc, dec := Encryptor(k1.sBox, skE), Decryptor(k2.sBox, skD);
    MirroredTransforms(k1.sBox, skE, skD);
    var runE := EncryptBlocks(e, enc, c.mode == MODE_CBC, iv, input[..n]);
    var r1 := BlockEncrypt(e, c, kE, input, inputLen, ob1);
    assert r1 == EncryptEcbCbc(e, c, kE, input, inputLen, ob1);
    assert r1.out == runE.out + ob1[n..];
    assert r1.out[..n] == runE.out;
    BlocksRoundTrip(e, enc, dec, c.mode == MODE_CBC, iv, input[..n]);
    var runD := DecryptBlocks(e, dec, c.mode != MODE_ECB, iv, runE.out);
    var r2 := BlockDecrypt(e, c, kD, r1.out, inputLen, ob2);
    assert r2 == DecryptEcbCbc(e, c, kD, r1.out, inputLen, ob2);
    assert r2.out == runD.out + ob2[n..];
  }

  /** And encrypting a decryption with a paired key gives back the
      ciphertext. */
  lemma EcbCbcRoundTripInverse(e: Endian, c: Cipher, kE: Key, kD: Key, input: seq<bv8>, inputLen: nat,
                               ob1: seq<bv8>, ob2: seq<bv8>)
    requires CipherShape(c) && (c.mode == MODE_ECB || c.mode == MODE_CBC) && c.cipherSig == VALID_SIG
    requires KeyPair(kE, kD) && inputLen % BLOCK_SIZE == 0
    requires BytesFor(inputLen) <= |input| && BytesFor(inputLen) <= |ob1| && BytesFor(inputLen) <= |ob2|
    ensures var r1 := BlockDecrypt(e, c, kD, input, inputLen, ob1);
            var r2 := BlockEncrypt(e, c, kE, r1.out, inputLen, ob2);
            && r1.code == CInt(inputLen) && r2.code == r1.code
            && r2.cipher == r1.cipher
            && r2.out[..inputLen / 8] == input[..inputLen / 8]
  {
    var n := inputLen / 8;
    WholeBlocks(inputLen);
    var k1, k2 := ForDirection(kE, DIR_ENCRYPT), ForDirection(kD, DIR_DECRYPT);
    var skE, skD := LocalSubkeys(k1.subKeys, k1.numRounds), LocalSubkeys(k2.subKeys, k2.numRounds);
    PairedSubkeys(kE, kD);
    var iv := if c.mode == MODE_CBC then WordsBlock(c.iv32) else Zero;
    var enc, dec := Encryptor(k1.sBox, skE), Decryptor(k2.sBox, skD);
    MirroredTransforms(k1.sBox, skE, skD);
    var runD := DecryptBlocks(e, dec, c.mode != MODE_ECB, iv, input[..n]);
    var r1 := BlockDecrypt(e, c, kD, input, inputLen, ob1);
    assert r1 == DecryptEcbCbc(e, c, kD, input, inputLen, ob1);
    assert r1.out == runD.out + ob1[n..];
    assert r1.out[..n] == runD.out;
    BlocksRoundTripInverse(e, enc, dec, c.mode == MODE_CBC, iv, input[..n]);
    var runE := EncryptBlocks(e, enc, c.mode == MODE_CBC, iv, runD.out);
    var r2 := BlockEncrypt(e, c, kE, r1.out, inputLen, ob2);
    assert r2 == EncryptEcbCbc(e, c, kE, r1.out, inputLen, ob2);
    assert r2.out == runE.out + ob2[n..];
  }

  // ---------------------------------------------------------------------
  // CFB1

  /** Bit `j` of a byte, most significant bit first, as 0 or 1. */
  function BitOf(b: bv8, j: nat): (v: bv8)
    requires j < 8
    ensures v == 0 || v == 1
  {
    match j
    case 0 => (b >> 7) & 1
    case 1 => (b >> 6) & 1
    case 2 => (b >> 5) & 1
    case 3 => (b >> 4) & 1
    case 4 => (b >> 3) & 1
    case 5 => (b >> 2) & 1
    case 6 => (b >> 1) & 1
    case _ => b & 1
  }

  /** Bit `i` of a buffer read as a bit string, most significant bit of
      each byte first. */
  function Bit(s: seq<bv8>, i: nat): bv8
    requires i / 8 < |s|
  {
    BitOf(s[i / 8], i % 8)
  }

  /** The shift of the CFB1 register: `cnt` runs from 15 down to 0, each
      byte moves left by one bit taking the top bit of the byte after it,
      and the feedback bit enters the last byte. */
  function ShiftIn(reg: seq<bv8>, carry: bv8): (r: seq<bv8>)
    ensures |r| == |reg|
    decreases |reg|
  {
    if |reg| == 0 then []
    else
      var last := reg[|reg| - 1];
      ShiftIn(reg[..|reg| - 1], last >> 7) + [ShiftByte(last, carry)]
  }

  /** One byte of the shift: `(IV[cnt] << 1) ^ carry`. */
  function ShiftByte(b: bv8, carry: bv8): bv8 {
    (b << 1) ^ carry
  }

  /** The bit that enters byte `k` from the right: the top bit of the byte
      after it, or the carry for the last byte. */
  function Incoming(reg: seq<bv8>, carry: bv8, k: nat): bv8
    requires k < |reg|
  {
    if k + 1 < |reg| then reg[k + 1] >> 7 else carry
  }

  /** Shifting a byte left by one and putting `c` in the low bit moves
      every bit one place towards the front. */
  lemma ShiftByteBits(b: bv8, c: bv8)
    requires c == 0 || c == 1
    ensures BitOf(b, 0) == b >> 7
    ensures var t := ShiftByte(b, c);
            && BitOf(t, 0) == BitOf(b, 1) && BitOf(t, 1) == BitOf(b, 2) && BitOf(t, 2) == BitOf(b, 3)
            && BitOf(t, 3) == BitOf(b, 4) && BitOf(t, 4) == BitOf(b, 5) && BitOf(t, 5) == BitOf(b, 6)
            && BitOf(t, 6) == BitOf(b, 7) && BitOf(t, 7) == c
  {
  }

  /** The bit after bit `i`, in bytes and bits. */
  lemma NextBitIndex(i: nat)
    ensures i % 8 < 7 ==> (i + 1) / 8 == i / 8 && (i + 1) % 8 == i % 8 + 1
    ensures i % 8 == 7 ==> (i + 1) / 8 == i / 8 + 1 && (i + 1) % 8 == 0
  {
  }

  /** Byte `k` of the shifted register is byte `k` shifted, taking in the
      bit from its right. */
  lemma {:induction false} ShiftInAt(reg: seq<bv8>, carry: bv8)
    ensures forall k :: 0 <= k < |reg| ==> ShiftIn(reg, carry)[k] == ShiftByte(reg[k], Incoming(reg, carry, k))
    decreases |reg|
  {
    if |reg| > 0 {
      var m := |reg|;
      var p, last := reg[..m - 1], reg[m - 1];
      ShiftInAt(p, last >> 7);
      forall k | 0 <= k < m
        ensures ShiftIn(reg, carry)[k] == ShiftByte(reg[k], Incoming(reg, carry, k))
      {
        ShiftInPrefix(reg, carry, k);
      }
    }
  }

  /** Byte `k` of the register shifted as a whole is the last byte shifted
      in with `carry`, or byte `k` of the front shifted in with the top bit
      of the last byte. */
  lemma ShiftInPrefix(reg: seq<bv8>, carry: bv8, k: nat)
    requires k < |reg|
    ensures var m := |reg|;
            var p, last := reg[..m - 1], reg[m - 1];
            && (k == m - 1 ==> ShiftIn(reg, carry)[k] == ShiftByte(reg[k], Incoming(reg, carry, k)))
            && (k < m - 1 ==> ShiftIn(reg, carry)[k] == ShiftIn(p, last >> 7)[k]
                              && reg[k] == p[k] && Incoming(reg, carry, k) == Incoming(p, last >> 7, k))
  {
  }

  /** The top bit a byte hands on is 0 or 1. */
  lemma TopBit(b: bv8)
    ensures b >> 7 == 0 || b >> 7 == 1
  {
  }

  /** `ShiftIn` read as a bit string: every bit moves one place towards the
      front and the carry becomes the last bit, the register update of CFB
      with s = 1 in section 6.3 of NIST SP 800-38A. */
  lemma ShiftInBits(reg: seq<bv8>, carry: bv8)
    requires carry == 0 || carry == 1
    ensures var r := ShiftIn(reg, carry);
            && (forall i: nat :: i + 1 < 8 * |reg| ==> Bit(r, i) == Bit(reg, i + 1))
            && (|reg| > 0 ==> Bit(r, 8 * |reg| - 1) == carry)
  {
    forall i: nat | i + 1 < 8 * |reg|
      ensures Bit(ShiftIn(reg, carry), i) == Bit(reg, i + 1)
    {
      ShiftInBitAt(reg, carry, i);
    }
    if |reg| > 0 {
      ShiftInLastBit(reg, carry);
    }
  }

  lemma ShiftInBitAt(reg: seq<bv8>, carry: bv8, i: nat)
    requires carry == 0 || carry == 1
    requires i + 1 < 8 * |reg|
    ensures Bit(ShiftIn(reg, carry), i) == Bit(reg, i + 1)
  {
    NextBitIndex(i);
    var q := i / 8;
    var c := Incoming(reg, carry, q);
    ShiftInByte(reg, carry, q);
    if q + 1 < |reg| {
      TopBit(reg[q + 1]);
      ShiftByteBits(reg[q + 1], 0);
    }
    ShiftByteBits(reg[q], c);
  }

  lemma ShiftInByte(reg: seq<bv8>, carry: bv8, k: nat)
    requires k < |reg|
    ensures ShiftIn(reg, carry)[k] == ShiftByte(reg[k], Incoming(reg, carry, k))
  {
    ShiftInAt(reg, carry);
  }

  lemma ShiftInLastBit(reg: seq<bv8>, carry: bv8)
    requires carry == 0 || carry == 1
    requires |reg| > 0
    ensures Bit(ShiftIn(reg, carry), 8 * |reg| - 1) == carry
  {
    var m := |reg|;
    ShiftInByte(reg, carry, m - 1);
    assert (8 * m - 1) / 8 == m - 1 && (8 * m - 1) % 8 == 7;
    ShiftByteBits(reg[m - 1], carry);
  }

  /** The working state of the CFB1 loop: the register `cipher->IV`, the
      key (its direction may change on the first inner call) and the
      output buffer. */
  datatype Cfb = Cfb(reg: seq<bv8>, key: Key, out: seq<bv8>)

  predicate CfbReady(s: Cfb) {
    |s.reg| == MAX_IV_SIZE && KeyShape(s.key) && s.key.numRounds <= MAX_ROUNDS
  }

  /** The local `x` the inner call writes; it is overwritten completely. */
  const Scratch: seq<bv8> := [0, 0, 0, 0, 0, 0, 0, 0, 0, 0, 0, 0, 0, 0, 0, 0]

  /** The inner call `blockEncrypt(cipher, key, cipher->IV, BLOCK_SIZE, x)`
      with the cipher switched to ECB, once its checks have passed. */
  function InnerCall(e: Endian, c: Cipher, reg: seq<bv8>, key: Key): (r: Outcome)
    requires CipherShape(c) && |reg| == MAX_IV_SIZE && KeyShape(key) && key.numRounds <= MAX_ROUNDS
    ensures |r.out| == 16 && r.key == ForDirection(key, DIR_ENCRYPT)
  {
    EncryptEcbCbc(e, c.(mode := MODE_ECB, iv := reg), key, reg, BLOCK_SIZE, Scratch)
  }

  /** `x[0]` after the inner call, as a function of the register and the
      key: the keystream byte whose top bit each CFB1 step uses. */
  function InnerByte(e: Endian, c: Cipher): (seq<bv8>, Key) -> bv8 {
    (reg: seq<bv8>, key: Key) =>
      if CipherShape(c) && |reg| == MAX_IV_SIZE && KeyShape(key) && key.numRounds <= MAX_ROUNDS
      then InnerCall(e, c, reg, key).out[0]
      else 0
  }

  /** `bit0 = 0x80 >> (n & 7)`: the mask of bit `j` of a byte, most
      significant first. */
  function BitMask(j: nat): (m: bv8)
    requires j < 8
  {
    match j
    case 0 => 0x80
    case 1 => 0x40
    case 2 => 0x20
    case 3 => 0x10
    case 4 => 0x08
    case 5 => 0x04
    case 6 => 0x02
    case _ => 0x01
  }

  /** `(x[0] & 0x80) >> (n & 7)`: the top bit of the keystream byte moved
      to the position of bit `j`. */
  function KeystreamAt(x0: bv8, j: nat): bv8
    requires j < 8
  {
    match j
    case 0 => x0 & 0x80
    case 1 => (x0 & 0x80) >> 1
    case 2 => (x0 & 0x80) >> 2
    case 3 => (x0 & 0x80) >> 3
    case 4 => (x0 & 0x80) >> 4
    case 5 => (x0 & 0x80) >> 5
    case 6 => (x0 & 0x80) >> 6
    case _ => (x0 & 0x80) >> 7
  }

  /** `carry = ctBit >> (7 - (n & 7))`: the masked bit moved to the bottom. */
  function CarryOf(ctBit: bv8, j: nat): bv8
    requires j < 8
  {
    match j
    case 0 => ctBit >> 7
    case 1 => ctBit >> 6
    case 2 => ctBit >> 5
    case 3 => ctBit >> 4
    case 4 => ctBit >> 3
    case 5 => ctBit >> 2
    case 6 => ctBit >> 1
    case _ => ctBit
  }

  /** `(out & ~bit0) | v`: the output byte with bit `j` replaced. */
  function PutBit(out: bv8, j: nat, v: bv8): bv8
    requires j < 8
  {
    (out & !BitMask(j)) | v
  }

  /** The value a CFB1 step writes at bit `j` of the output byte: the input
      bit mixed with the keystream bit, in place. */
  function CfbOutBit(b: bv8, x0: bv8, j: nat): bv8
    requires j < 8
  {
    (b & BitMask(j)) ^ KeystreamAt(x0, j)
  }

  /** One iteration `n` of the CFB1 loop of `blockEncrypt` (`decrypt` false)
      or `blockDecrypt` (`decrypt` true), `ks` giving the keystream byte of
      the inner ECB call: bit `n` of the output becomes bit `n` of the input
      mixed with the keystream bit; the ciphertext bit (the output bit when
      encrypting, the input bit when decrypting) is shifted into the
      register; and the key is left as the inner call leaves it. */
  function Cfb1Step(ks: (seq<bv8>, Key) -> bv8, decrypt: bool, s: Cfb, input: seq<bv8>, n: nat): (r: Cfb)
    requires CfbReady(s) && n / 8 < |input| && n / 8 < |s.out|
    ensures CfbReady(r) && |r.out| == |s.out|
  {
    var j := n % 8;
    var outBit := CfbOutBit(input[n / 8], ks(s.reg, s.key), j);
    var ctBit := if decrypt then input[n / 8] & BitMask(j) else outBit;
    Cfb(ShiftIn(s.reg, CarryOf(ctBit, j)), ForDirection(s.key, DIR_ENCRYPT), s.out[n / 8 := PutBit(s.out[n / 8], j, outBit)])
  }

  /** Iterations `n .. len-1` of the CFB1 loop. */
  function Cfb1Loop(ks: (seq<bv8>, Key) -> bv8, decrypt: bool, s: Cfb, input: seq<bv8>, n: nat, len: nat): (r: Cfb)
    requires CfbReady(s) && BytesFor(len) <= |input| && BytesFor(len) <= |s.out|
    ensures CfbReady(r) && |r.out| == |s.out|
    ensures r.key.sBox == s.key.sBox && r.key.numRounds == s.key.numRounds && r.key.keySig == s.key.keySig
    decreases len - n
  {
    if n >= len then s
    else Cfb1Loop(ks, decrypt, Cfb1Step(ks, decrypt, s, input, n), input, n + 1, len)
  }

  /** Iterations `n .. len-1` are iteration `n` and then the rest. */
  lemma Cfb1LoopNext(ks: (seq<bv8>, Key) -> bv8, decrypt: bool, s: Cfb, input: seq<bv8>, n: nat, len: nat)
    requires CfbReady(s) && BytesFor(len) <= |input| && BytesFor(len) <= |s.out| && n < len
    ensures Cfb1Loop(ks, decrypt, s, input, n, len) == Cfb1Loop(ks, decrypt, Cfb1Step(ks, decrypt, s, input, n), input, n + 1, len)
  {
  }

  // CFB1 bit lemmas

  /** Writing the step's value sets bit `j` to the input bit mixed with the
      keystream bit. */
  lemma CfbOutBitAt(b: bv8, o: bv8, x0: bv8, j: nat)
    requires j < 8
    ensures BitOf(PutBit(o, j, CfbOutBit(b, x0, j)), j) == XorByte(BitOf(b, j), BitOf(x0, 0))
  {
    if j == 0 {
    } else if j == 1 {
    } else if j == 2 {
    } else if j == 3 {
    } else if j == 4 {
    } else if j == 5 {
    } else if j == 6 {
    } else {
    }
  }

  /** And leaves the other bits of the byte alone. */
  lemma CfbOutBitElsewhere(b: bv8, o: bv8, x0: bv8, j: nat, k: nat)
    requires j < 8 && k < 8 && k != j
    ensures BitOf(PutBit(o, j, CfbOutBit(b, x0, j)), k) == BitOf(o, k)
  {
    if j == 0 {
    } else if j == 1 {
    } else if j == 2 {
    } else if j == 3 {
    } else if j == 4 {
    } else if j == 5 {
    } else if j == 6 {
    } else {
    }
  }

  lemma XorByteCancel(a: bv8, b: bv8)
    ensures XorByte(XorByte(a, b), b) == a
  {
  }

  /** The carry a step shifts into the register is the ciphertext bit. */
  lemma CfbCarry(b: bv8, o: bv8, x0: bv8, j: nat)
    requires j < 8
    ensures CarryOf(b & BitMask(j), j) == BitOf(b, j)
    ensures CarryOf(CfbOutBit(b, x0, j), j) == BitOf(PutBit(o, j, CfbOutBit(b, x0, j)), j)
  {
    if j == 0 {
    } else if j == 1 {
    } else if j == 2 {
    } else if j == 3 {
    } else if j == 4 {
    } else if j == 5 {
    } else if j == 6 {
    } else {
    }
  }

  /** Bit `i` of a buffer with byte `q` replaced. */
  lemma BitOfUpdate(s: seq<bv8>, q: nat, v: bv8, i: nat)
    requires q < |s| && i / 8 < |s|
    ensures Bit(s[q := v], i) == if i / 8 == q then BitOf(v, i % 8) else Bit(s, i)
  {
  }

  /** What one CFB1 step does to the bits: bit `n` of the output is bit `n`
      of the input mixed with the keystream bit, every other bit of the
      output stays, and the register takes in the ciphertext bit. */
  lemma Cfb1StepBits(ks: (seq<bv8>, Key) -> bv8, decrypt: bool, s: Cfb, input: seq<bv8>, n: nat)
    requires CfbReady(s) && n / 8 < |input| && n / 8 < |s.out|
    ensures var r := Cfb1Step(ks, decrypt, s, input, n);
            && Bit(r.out, n) == XorByte(Bit(input, n), BitOf(ks(s.reg, s.key), 0))
            && (forall i: nat :: i / 8 < |s.out| && i != n ==> Bit(r.out, i) == Bit(s.out, i))
            && r.reg == ShiftIn(s.reg, if decrypt then Bit(input, n) else Bit(r.out, n))
            && r.key == ForDirection(s.key, DIR_ENCRYPT)
  {
    var r := Cfb1Step(ks, decrypt, s, input, n);
    var x0 := ks(s.reg, s.key);
    var q, j := n / 8, n % 8;
    var b, o := input[q], s.out[q];
    var v := PutBit(o, j, CfbOutBit(b, x0, j));
    assert r.out == s.out[q := v];
    BitOfUpdate(s.out, q, v, n);
    CfbOutBitAt(b, o, x0, j);
    CfbCarry(b, o, x0, j);
    forall i: nat | i / 8 < |s.out| && i != n
      ensures Bit(r.out, i) == Bit(s.out, i)
    {
      BitOfUpdate(s.out, q, v, i);
      if i / 8 == q {
        CfbOutBitElsewhere(b, o, x0, j, i % 8);
      }
    }
  }

  /** The CFB1 loop from `n` to `len` touches only bits `n .. len-1` and no
      byte from `BytesFor(len)` on, and leaves the key as the inner call
      does. */
  lemma {:induction false} Cfb1Frame(ks: (seq<bv8>, Key) -> bv8, decrypt: bool, s: Cfb, input: seq<bv8>, n: nat, len: nat)
    requires CfbReady(s) && BytesFor(len) <= |input| && BytesFor(len) <= |s.out|
    ensures var r := Cfb1Loop(ks, decrypt, s, input, n, len);
            && (forall i: nat :: i / 8 < |s.out| && (i < n || len <= i) ==> Bit(r.out, i) == Bit(s.out, i))
            && (forall k :: BytesFor(len) <= k < |s.out| ==> r.out[k] == s.out[k])
            && r.key == (if n < len then ForDirection(s.key, DIR_ENCRYPT) else s.key)
    decreases len - n
  {
    if n < len {
      var t := Cfb1Step(ks, decrypt, s, input, n);
      Cfb1StepBits(ks, decrypt, s, input, n);
      Cfb1Frame(ks, decrypt, t, input, n + 1, len);
      ForDirectionIdempotent(s.key, DIR_ENCRYPT);
    }
  }

  /** The iterations after `n` leave the bit iteration `n` wrote. */
  lemma Cfb1LaterKeep(ks: (seq<bv8>, Key) -> bv8, decrypt: bool, s: Cfb, input: seq<bv8>, n: nat, len: nat)
    requires CfbReady(s) && BytesFor(len) <= |input| && BytesFor(len) <= |s.out| && n < len
    ensures var t := Cfb1Step(ks, decrypt, s, input, n);
            Bit(Cfb1Loop(ks, decrypt, t, input, n + 1, len).out, n) == Bit(t.out, n)
  {
    Cfb1Frame(ks, decrypt, Cfb1Step(ks, decrypt, s, input, n), input, n + 1, len);
  }

  /** `ks` gives the same keystream byte for the two keys, whatever the
      register. */
  ghost predicate Agree(ks: (seq<bv8>, Key) -> bv8, k1: Key, k2: Key) {
    forall reg: seq<bv8> :: ks(reg, k1) == ks(reg, k2)
  }

  /** One step of the second pass undoes one step of the first: given the
      first step's output bit, the opposite direction recovers the input
      bit and shifts the same bit into the register. */
  lemma Cfb1InverseStep(ks: (seq<bv8>, Key) -> bv8, d: bool, s1: Cfb, s2: Cfb,
                        input: seq<bv8>, mid: seq<bv8>, n: nat)
    requires CfbReady(s1) && CfbReady(s2) && s1.reg == s2.reg
    requires ks(s1.reg, s1.key) == ks(s2.reg, s2.key)
    requires n / 8 < |input| && n / 8 < |mid| && n / 8 < |s1.out| && n / 8 < |s2.out|
    requires Bit(mid, n) == Bit(Cfb1Step(ks, d, s1, input, n).out, n)
    ensures var t1 := Cfb1Step(ks, d, s1, input, n);
            var t2 := Cfb1Step(ks, !d, s2, mid, n);
            t2.reg == t1.reg && Bit(t2.out, n) == Bit(input, n)
  {
    var k := BitOf(ks(s1.reg, s1.key), 0);
    Cfb1StepBits(ks, d, s1, input, n);
    Cfb1StepBits(ks, !d, s2, mid, n);
    XorByteCancel(Bit(input, n), k);
  }

  /** What the two passes agree on from iteration `n` on. */
  ghost predicate InversePassesFrom(ks: (seq<bv8>, Key) -> bv8, d: bool, s1: Cfb, s2: Cfb,
                                    input: seq<bv8>, mid: seq<bv8>, n: nat, len: nat)
  {
    && CfbReady(s1) && CfbReady(s2) && s1.reg == s2.reg
    && Agree(ks, s1.key, s2.key)
    && Agree(ks, ForDirection(s1.key, DIR_ENCRYPT), ForDirection(s2.key, DIR_ENCRYPT))
    && BytesFor(len) <= |input| && BytesFor(len) <= |s1.out| && BytesFor(len) <= |s2.out|
    && mid == Cfb1Loop(ks, d, s1, input, n, len).out
  }

  /** The passes still line up after iteration `n`, and that iteration
      recovered input bit `n`. */
  lemma Cfb1InverseNext(ks: (seq<bv8>, Key) -> bv8, d: bool, s1: Cfb, s2: Cfb,
                        input: seq<bv8>, mid: seq<bv8>, n: nat, len: nat)
    requires InversePassesFrom(ks, d, s1, s2, input, mid, n, len) && n < len
    ensures var t1 := Cfb1Step(ks, d, s1, input, n);
            var t2 := Cfb1Step(ks, !d, s2, mid, n);
            && InversePassesFrom(ks, d, t1, t2, input, mid, n + 1, len)
            && Bit(t2.out, n) == Bit(input, n)
  {
    var t1 := Cfb1Step(ks, d, s1, input, n);
    var t2 := Cfb1Step(ks, !d, s2, mid, n);
    Cfb1LoopNext(ks, d, s1, input, n, len);
    assert t2.reg == t1.reg && Bit(t2.out, n) == Bit(input, n) by {
      Cfb1LaterKeep(ks, d, s1, input, n, len);
      Cfb1InverseStep(ks, d, s1, s2, input, mid, n);
    }
    assert t1.key == ForDirection(s1.key, DIR_ENCRYPT) && t2.key == ForDirection(s2.key, DIR_ENCRYPT) by {
      Cfb1StepBits(ks, d, s1, input, n);
      Cfb1StepBits(ks, !d, s2, mid, n);
    }
    ForDirectionIdempotent(s1.key, DIR_ENCRYPT);
    ForDirectionIdempotent(s2.key, DIR_ENCRYPT);
  }

  /** What the second pass gives back from iteration `n` on. */
  ghost predicate InverseFrom(ks: (seq<bv8>, Key) -> bv8, d: bool, s1: Cfb, s2: Cfb,
                              input: seq<bv8>, mid: seq<bv8>, n: nat, len: nat)
    requires CfbReady(s1) && CfbReady(s2)
    requires BytesFor(len) <= |input| && BytesFor(len) <= |s1.out| && BytesFor(len) <= |s2.out| && BytesFor(len) <= |mid|
  {
    var r1 := Cfb1Loop(ks, d, s1, input, n, len);
    var r2 := Cfb1Loop(ks, !d, s2, mid, n, len);
    && r2.reg == r1.reg
    && (forall i: nat :: n <= i < len ==> Bit(r2.out, i) == Bit(input, i))
  }

  /** Iteration `n` of the second pass followed by the rest. */
  lemma Cfb1InverseJoin(ks: (seq<bv8>, Key) -> bv8, d: bool, s1: Cfb, s2: Cfb,
                        input: seq<bv8>, mid: seq<bv8>, n: nat, len: nat)
    requires CfbReady(s1) && CfbReady(s2) && n < len
    requires BytesFor(len) <= |input| && BytesFor(len) <= |s1.out| && BytesFor(len) <= |s2.out| && BytesFor(len) <= |mid|
    requires var t2 := Cfb1Step(ks, !d, s2, mid, n);
             && InverseFrom(ks, d, Cfb1Step(ks, d, s1, input, n), t2, input, mid, n + 1, len)
             && Bit(t2.out, n) == Bit(input, n)
    ensures InverseFrom(ks, d, s1, s2, input, mid, n, len)
  {
    var t1 := Cfb1Step(ks, d, s1, input, n);
    var t2 := Cfb1Step(ks, !d, s2, mid, n);
    var r1 := Cfb1Loop(ks, d, t1, input, n + 1, len);
    var r2 := Cfb1Loop(ks, !d, t2, mid, n + 1, len);
    assert Cfb1Loop(ks, d, s1, input, n, len) == r1 by {
      Cfb1LoopNext(ks, d, s1, input, n, len);
    }
    assert Cfb1Loop(ks, !d, s2, mid, n, len) == r2 by {
      Cfb1LoopNext(ks, !d, s2, mid, n, len);
    }
    assert Bit(r2.out, n) == Bit(input, n) by {
      Cfb1LaterKeep(ks, !d, s2, mid, n, len);
    }
    assert r2.reg == r1.reg && forall i: nat :: n + 1 <= i < len ==> Bit(r2.out, i) == Bit(input, i);
    forall i: nat | n <= i < len
      ensures Bit(r2.out, i) == Bit(input, i)
    {
    }
  }

  /** The second pass of CFB1 undoes the first: run from the same register
      with a key giving the same keystream, over the first pass's output,
      the opposite direction gives back the input bits and ends on the same
      register.  `d` says whether the first pass decrypts. */
  lemma {:induction false} Cfb1Inverse(ks: (seq<bv8>, Key) -> bv8, d: bool, s1: Cfb, s2: Cfb,
                                       input: seq<bv8>, mid: seq<bv8>, n: nat, len: nat)
    requires InversePassesFrom(ks, d, s1, s2, input, mid, n, len)
    ensures BytesFor(len) <= |mid| && InverseFrom(ks, d, s1, s2, input, mid, n, len)
    decreases len - n
  {
    if n < len {
      Cfb1InverseNext(ks, d, s1, s2, input, mid, n, len);
      Cfb1Inverse(ks, d, Cfb1Step(ks, d, s1, input, n), Cfb1Step(ks, !d, s2, mid, n), input, mid, n + 1, len);
      Cfb1InverseJoin(ks, d, s1, s2, input, mid, n, len);
    }
  }

  // ---------------------------------------------------------------------
  // blockEncrypt and blockDecrypt

  /** The bytes a bit count covers, rounded up. */
  function BytesFor(bits: nat): nat {
    (bits + 7) / 8
  }

  /** `blockEncrypt(cipher, key, input, inputLen, outBuffer)`; `inputLen` is
      in bits. */
  function BlockEncrypt(e: Endian, c: Cipher, key: Key, input: seq<bv8>, inputLen: nat, outBuffer: seq<bv8>): (r: Outcome)
    requires CipherShape(c) && KeyShape(key)
    requires BytesFor(inputLen) <= |input| && BytesFor(inputLen) <= |outBuffer|
    ensures Validate(c, key, inputLen) != TF_SUCCESS ==> r == Outcome(Validate(c, key, inputLen), c, key, outBuffer)
    ensures Validate(c, key, inputLen) == TF_SUCCESS ==> r.code == CInt(inputLen)
    ensures CipherShape(r.cipher) && KeyShape(r.key) && |r.out| == |outBuffer|
    ensures r.cipher.mode == c.mode && r.cipher.cipherSig == c.cipherSig
    ensures r.key.numRounds == key.numRounds && r.key.keySig == key.keySig && r.key.sBox == key.sBox
  {
    var code := Validate(c, key, inputLen);
    if code != TF_SUCCESS then Outcome(code, c, key, outBuffer)
    else if c.mode == MODE_CFB1 then
      var s := Cfb1Loop(InnerByte(e, c), false, Cfb(c.iv, key, outBuffer), input, 0, inputLen);
      Outcome(CInt(inputLen), c.(iv := s.reg), s.key, s.out)
    else EncryptEcbCbc(e, c, key, input, inputLen, outBuffer)
  }

  /** `blockDecrypt(cipher, key, input, inputLen, outBuffer)`. */
  function BlockDecrypt(e: Endian, c: Cipher, key: Key, input: seq<bv8>, inputLen: nat, outBuffer: seq<bv8>): (r: Outcome)
    requires CipherShape(c) && KeyShape(key)
    requires BytesFor(inputLen) <= |input| && BytesFor(inputLen) <= |outBuffer|
    ensures Validate(c, key, inputLen) != TF_SUCCESS ==> r == Outcome(Validate(c, key, inputLen), c, key, outBuffer)
    ensures Validate(c, key, inputLen) == TF_SUCCESS ==> r.code == CInt(inputLen)
    ensures CipherShape(r.cipher) && KeyShape(r.key) && |r.out| == |outBuffer|
    ensures r.cipher.mode == c.mode && r.cipher.cipherSig == c.cipherSig
    ensures r.key.numRounds == key.numRounds && r.key.keySig == key.keySig && r.key.sBox == key.sBox
  {
    var code := Validate(c, key, inputLen);
    if code != TF_SUCCESS then Outcome(code, c, key, outBuffer)
    else if c.mode == MODE_CFB1 then
      var s := Cfb1Loop(InnerByte(e, c), true, Cfb(c.iv, key, outBuffer), input, 0, inputLen);
      Outcome(CInt(inputLen), c.(iv := s.reg), s.key, s.out)
    else DecryptEcbCbc(e, c, key, input, inputLen, outBuffer)
  }

  // ---------------------------------------------------------------------
  // CFB1 through blockEncrypt and blockDecrypt

  /** The inner call of the CFB1 loop is an ordinary `blockEncrypt` of the
      register in ECB mode, whose checks the outer call has already passed. */
  lemma Cfb1InnerCall(e: Endian, c: Cipher, reg: seq<bv8>, key: Key)
    requires CipherShape(c) && |reg| == MAX_IV_SIZE && KeyShape(key)
    requires Validate(c, key, 0) == TF_SUCCESS
    ensures var inner := c.(mode := MODE_ECB, iv := reg);
            InnerCall(e, c, reg, key) == BlockEncrypt(e, inner, key, reg, BLOCK_SIZE, Scratch)
            && InnerByte(e, c)(reg, key) == BlockEncrypt(e, inner, key, reg, BLOCK_SIZE, Scratch).out[0]
  {
    var inner := c.(mode := MODE_ECB, iv := reg);
    assert Validate(inner, key, BLOCK_SIZE) == TF_SUCCESS;
  }

  /** ECB/CBC encryption reads a key only through its S-box, its round
      count and its subkeys as made ready for encryption. */
  lemma SameEncryption(e: Endian, c: Cipher, k1: Key, k2: Key, input: seq<bv8>, inputLen: nat, outBuffer: seq<bv8>)
    requires CipherShape(c) && KeyShape(k1) && KeyShape(k2) && k1.numRounds <= MAX_ROUNDS
    requires inputLen % BLOCK_SIZE == 0 && inputLen / 8 <= |input| && inputLen / 8 <= |outBuffer|
    requires k1.sBox == k2.sBox && k1.numRounds == k2.numRounds
    requires ForDirection(k1, DIR_ENCRYPT).subKeys == ForDirection(k2, DIR_ENCRYPT).subKeys
    ensures EncryptEcbCbc(e, c, k1, input, inputLen, outBuffer).out == EncryptEcbCbc(e, c, k2, input, inputLen, outBuffer).out
    ensures EncryptEcbCbc(e, c, k1, input, inputLen, outBuffer).cipher == EncryptEcbCbc(e, c, k2, input, inputLen, outBuffer).cipher
  {
    var a, b := ForDirection(k1, DIR_ENCRYPT), ForDirection(k2, DIR_ENCRYPT);
    assert Encryptor(a.sBox, LocalSubkeys(a.subKeys, a.numRounds)) == Encryptor(b.sBox, LocalSubkeys(b.subKeys, b.numRounds));
  }

  /** Two keys that give the same keystream: both valid for `blockEncrypt`,
      with the same S-box, the same round count and the same subkeys once
      made ready for encryption.  CFB1 only ever encrypts, so the
      direction either key records does not matter. */
  predicate KeystreamPair(k1: Key, k2: Key) {
    && KeyShape(k1) && KeyShape(k2)
    && k1.keySig == VALID_SIG && k2.keySig == VALID_SIG
    && 2 <= k1.numRounds <= MAX_ROUNDS && k1.numRounds % 2 == 0
    && k1.numRounds == k2.numRounds && k1.sBox == k2.sBox
    && ForDirection(k1, DIR_ENCRYPT).subKeys == ForDirection(k2, DIR_ENCRYPT).subKeys
  }

  /** Such keys give the same keystream byte from every register, before
      and after the first inner call has made them ready for encryption. */
  lemma KeystreamAgree(e: Endian, c: Cipher, k1: Key, k2: Key)
    requires KeystreamPair(k1, k2)
    ensures Agree(InnerByte(e, c), k1, k2)
    ensures Agree(InnerByte(e, c), ForDirection(k1, DIR_ENCRYPT), ForDirection(k2, DIR_ENCRYPT))
  {
    var a, b := ForDirection(k1, DIR_ENCRYPT), ForDirection(k2, DIR_ENCRYPT);
    ForDirectionIdempotent(k1, DIR_ENCRYPT);
    ForDirectionIdempotent(k2, DIR_ENCRYPT);
    forall reg: seq<bv8>
      ensures InnerByte(e, c)(reg, k1) == InnerByte(e, c)(reg, k2)
      ensures InnerByte(e, c)(reg, a) == InnerByte(e, c)(reg, b)
    {
      if CipherShape(c) && |reg| == MAX_IV_SIZE {
        var inner := c.(mode := MODE_ECB, iv := reg);
        SameEncryption(e, inner, k1, k2, reg, BLOCK_SIZE, Scratch);
        SameEncryption(e, inner, a, b, reg, BLOCK_SIZE, Scratch);
      }
    }
  }

  /** What a CFB1 call leaves alone: the mode, the signature and `iv32` of
      the cipher (only the register moves), the bits of the output buffer
      from `inputLen` on, and the key unless some bit was processed. */
  lemma Cfb1Outcome(e: Endian, c: Cipher, key: Key, input: seq<bv8>, inputLen: nat, outBuffer: seq<bv8>)
    requires CipherShape(c) && KeyShape(key) && c.mode == MODE_CFB1
    requires BytesFor(inputLen) <= |input| && BytesFor(inputLen) <= |outBuffer|
    requires Validate(c, key, inputLen) == TF_SUCCESS
    ensures var r := BlockEncrypt(e, c, key, input, inputLen, outBuffer);
            && r.cipher == c.(iv := r.cipher.iv)
            && r.key == (if 0 < inputLen then ForDirection(key, DIR_ENCRYPT) else key)
            && (forall i: nat :: inputLen <= i && i / 8 < |outBuffer| ==> Bit(r.out, i) == Bit(outBuffer, i))
            && (forall k :: BytesFor(inputLen) <= k < |outBuffer| ==> r.out[k] == outBuffer[k])
    ensures var r := BlockDecrypt(e, c, key, input, inputLen, outBuffer);
            && r.cipher == c.(iv := r.cipher.iv)
            && r.key == (if 0 < inputLen then ForDirection(key, DIR_ENCRYPT) else key)
            && (forall i: nat :: inputLen <= i && i / 8 < |outBuffer| ==> Bit(r.out, i) == Bit(outBuffer, i))
            && (forall k :: BytesFor(inputLen) <= k < |outBuffer| ==> r.out[k] == outBuffer[k])
  {
    Cfb1Frame(InnerByte(e, c), false, Cfb(c.iv, key, outBuffer), input, 0, inputLen);
    Cfb1Frame(InnerByte(e, c), true, Cfb(c.iv, key, outBuffer), input, 0, inputLen);
  }

  /** CFB1: decrypting what was encrypted, with a key giving the same
      keystream and the cipher as it was before encryption, gives back
      every input bit, reports the same count and leaves the same
      register. */
  lemma Cfb1RoundTrip(e: Endian, c: Cipher, kE: Key, kD: Key, input: seq<bv8>, inputLen: nat,
                      ob1: seq<bv8>, ob2: seq<bv8>)
    requires CipherShape(c) && c.mode == MODE_CFB1 && c.cipherSig == VALID_SIG
    requires KeystreamPair(kE, kD)
    requires BytesFor(inputLen) <= |input| && BytesFor(inputLen) <= |ob1| && BytesFor(inputLen) <= |ob2|
    ensures var r1 := BlockEncrypt(e, c, kE, input, inputLen, ob1);
            var r2 := BlockDecrypt(e, c, kD, r1.out, inputLen, ob2);
            && r1.code == CInt(inputLen) && r2.code == r1.code
            && r2.cipher == r1.cipher
            && (forall i: nat :: i < inputLen ==> Bit(r2.out, i) == Bit(input, i))
  {
    var ks := InnerByte(e, c);
    KeystreamAgree(e, c, kE, kD);
    var s1 := Cfb(c.iv, kE, ob1);
    var mid := Cfb1Loop(ks, false, s1, input, 0, inputLen).out;
    Cfb1Inverse(ks, false, s1, Cfb(c.iv, kD, ob2), input, mid, 0, inputLen);
  }

  /** And encrypting what was decrypted gives back every ciphertext bit. */
  lemma Cfb1RoundTripInverse(e: Endian, c: Cipher, kE: Key, kD: Key, input: seq<bv8>, inputLen: nat,
                             ob1: seq<bv8>, ob2: seq<bv8>)
    requires CipherShape(c) && c.mode == MODE_CFB1 && c.cipherSig == VALID_SIG
    requires KeystreamPair(kE, kD)
    requires BytesFor(inputLen) <= |input| && BytesFor(inputLen) <= |ob1| && BytesFor(inputLen) <= |ob2|
    ensures var r1 := BlockDecrypt(e, c, kD, input, inputLen, ob1);
            var r2 := BlockEncrypt(e, c, kE, r1.out, inputLen, ob2);
            && r1.code == CInt(inputLen) && r2.code == r1.code
            && r2.cipher == r1.cipher
            && (forall i: nat :: i < inputLen ==> Bit(r2.out, i) == Bit(input, i))
  {
    var ks := InnerByte(e, c);
    KeystreamAgree(e, c, kD, kE);
    var s1 := Cfb(c.iv, kD, ob1);
    var mid := Cfb1Loop(ks, true, s1, input, 0, inputLen).out;
    Cfb1Inverse(ks, true, s1, Cfb(c.iv, kE, ob2), input, mid, 0, inputLen);
  }
}
