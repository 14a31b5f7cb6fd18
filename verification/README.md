# Twofish core in Dafny

A model of the C++ Twofish library's core: the reference key schedule and
block cipher in the `FULL_KEY` / `BIG_TAB` configuration (`src/tfish.cpp`,
`src/tfish.h`, `src/tfplatform.h`), and the block loops of the `TwoFish`
wrapper class (`src/libtwofish.cpp`). Every operation is a pure function over
immutable records. Where the C code mutates a `keyInstance`, a
`cipherInstance` or the global MDS tables in place, the model returns the
updated record.

Modules follow the source files:

- `Platform` (`platform.dfy`): the endianness switch, `ROL`/`ROR`, `Bswap`
  and `_b`. It proves that a native load followed by `Bswap` gives the
  little-endian word on either byte order. For that reason the rest of the
  model works on byte buffers in the normalised little-endian view.
- `Defs` (`defs.dfy`): the constants, error codes and the `keyInstance` and
  `cipherInstance` records of `tfish.h`.
- `Tables` (`tables.dfy`): the fixed permutations `q0`/`q1`, the `P_ij`
  selectors, the Reed–Solomon remainder step and the GF(2^8) multipliers.
  These are an abstract `Tables` parameter, because `tftables.h` is not part
  of this model. This module also covers `BuildMDS` and the one-shot
  `needToBuildMDS` global. The table holds the intended MDS entries on every
  build; the code as written loses them on big-endian 64-bit builds (see
  "## Findings").
- `KeySchedule` (`keyschedule.dfy`): `F32`, `RS_MDS_Encode`, the S-box key
  words, the pseudo-Hadamard subkey generation, `Xor256`, the per-key-length
  S-box expansion, and the pairwise reversal of round subkeys.
- `HexParse` (`hexparse.dfy`): `ParseHexDword`, nibble by nibble, with its
  error exit.
- `Keying` (`keying.dfy`): `reKey` and `makeKey`.
- `Rounds` (`rounds.dfy`): the encryption and decryption rounds, whitening,
  and the 16-round block transform.
- `Modes` (`modes.dfy`): `cipherInit`, `blockEncrypt` and `blockDecrypt`
  for ECB, CBC and CFB-1, including parameter validation.
- `Wrapper` (`wrapper.dfy`): `GetEncodeLength`, `GetBlockSize`, and the
  `Encode`/`Decode` loops.

The main results:

- the ECB and CBC round trip in both directions, at the byte-buffer level of
  `blockEncrypt`/`blockDecrypt`;
- the CFB-1 bit-level round trip in both directions, for any bit length;
- the table-driven S-box and the subkeys that `reKey` builds agree with the
  reference `f32` (the check `CHECK_TABLE` performs at run time);
- reversing round subkeys twice is the identity;
- the hex parser accepts exactly all-hex input and packs it little-endian;
- the wrapper loops return exactly the byte count they process.

Behaviour of the code that the model keeps as written:

- `cipherInit` sets `cipherSig` before it parses the IV. After
  `BAD_IV_MAT` the instance is therefore marked valid with its old mode and
  IV bytes. The IV words are clobbered: the parser zeroes them and fills in
  the digits it read before the bad character.
- Likewise, `makeKey` stamps the key as initialised before parsing. After
  `BAD_KEY_MAT` from bad hex text the key keeps its new signature,
  direction and length. Its key words hold the digits parsed before the bad
  character, and its text buffer holds the characters read.
- With a mode that is none of ECB/CBC/CFB-1, `blockEncrypt` behaves as ECB
  (it whitens with no IV and stores plainly). `blockDecrypt` instead takes
  the CBC store path with the zero IV words it loads for non-CBC modes.
  `cipherInit` never produces such a mode.
- A 64-bit key passes `makeKey`'s length check and gets zero rounds from
  `numRounds[0]`. `reKey` then rejects it with `BAD_KEY_INSTANCE`.
- The CFB-1 path sets the cipher's own mode to ECB, calls `blockEncrypt`
  on it once per bit, and restores `MODE_CFB1` at the end. An ECB
  `blockEncrypt` writes nothing back to the cipher, so this is the same as
  calling it on the cipher with its mode set to ECB. The model states that
  call through a keystream function, and
  `Modes.Cfb1InnerCall` proves the function equals that inner call.

## Model

| member | source | states |
|---|---|---|
| Platform.EndianOf | src/tfplatform.h:59-74 | The build is big-endian exactly when none of the Windows/Linux cases apply and the Apple target reports big-endian. |
| Platform.RotationsUsed | src/tfplatform.h:31-32 | `ROL`/`ROR` by 1, 8 and 9 are 32-bit rotations and undo each other. |
| Platform.MemByte | src/tfplatform.h:97-105 | `_b(x, n)` on the native byte layout reads byte `n` of the word's value, on either endianness. |
| Platform.EndianProbePasses | src/tfish.cpp:231-233 | The endianness probe in `ParseHexDword` always succeeds with the configured byte order, so `BAD_ENDIAN` is never returned. |
| Platform.Bswap | src/tfplatform.h:86-95 | `Bswap` is the identity on little-endian and reverses the four bytes on big-endian. |
| Platform.BswapInvolution | src/tfplatform.h:92 | Swapping twice restores the word. |
| Platform.NormalisedLoad | src/tfish.cpp:842 | `Bswap` of a native 4-byte load is the little-endian word of those bytes, whatever the platform. |
| Platform.NormalisedStore | src/tfish.cpp:966-972 | Storing `Bswap(w)` natively writes `w`'s bytes low byte first, whatever the platform. |
| Defs.ErrorCodesDistinct | src/tfish.h:35-51 | `TF_SUCCESS` is 1 and the error codes are -1 … -10 with no two equal, so each failure is distinguishable from success and from the others. |
| Defs.SubkeyLayout | src/tfish.h:65-68 | Whitening subkeys sit at 0 and 4, round subkeys start at 8, 40 words in total; every round-count table entry fits. |
| Defs.BlockCopy | src/tfish.h:140-142 | `BlockCopy` yields the first four words of the source. |
| Tables.MdsTableEntry | src/tfish.cpp:391-425 | Each `MDStab` entry is the column of the MDS matrix times `q` of the index, byte by byte in GF(2^8). |
| Tables.MdsEntry | src/tfish.cpp:413-420 | Byte `i` of the entry for column `n` is `M_in` times the permuted index: the entry `SetMDS` means to store. |
| Tables.SetMds | src/tfish.cpp:413-420 | The word stored through a `size_t` is the packed bytes on a little-endian or 32-bit build, and 0 on a big-endian build with an 8-byte `size_t`. |
| Tables.MdsEntryAsWritten | src/tfish.cpp:413-420 | The entry the code stores equals the intended one on little-endian or 32-bit builds and is 0 on big-endian 64-bit builds. |
| Tables.WideBigEndianLosesMds | src/tfish.cpp:413-420 | On a big-endian 64-bit build, every column-0 entry whose permuted byte is non-zero is stored wrongly (as 0). |
| Tables.BigTableEntry | src/tfish.cpp:434-451 | `bigTab[n][j][v]` is the two-stage permutation `P_n1(P_n2(v) ^ j)`. |
| Tables.BuildMDS | src/tfish.cpp:385-456 | From a consistent global state the tables come out built and the flag cleared; once built, calling again changes nothing. |
| Tables.BuildMDSIdempotent | src/tfish.cpp:387-389 | Building the tables twice gives the same state as building them once. |
| KeySchedule.SlotBijection | src/tfish.cpp:132-135 | The `sbSet` layout maps (lane, byte) to slots of the 1024-word S-box one to one, and back. |
| KeySchedule.Fe32Rotated | src/tfish.cpp:132-133 | `Fe32_(x, 3)` equals `Fe32_(ROL(x, 8), 0)`: the odd-half lookup is the even one on the rotated word. |
| KeySchedule.F32MatchesReference | src/tfish.cpp:294-329 | The staged key-dependent S-box function used by the key schedule equals the reference `f32`, for 128, 192 and 256-bit keys. |
| KeySchedule.ColumnsAreMatrix | src/tfish.cpp:325-328 | The final `MDStab` combination is the MDS matrix applied to the four permuted bytes. |
| KeySchedule.F32UsesKeyWords | src/tfish.cpp:582-600 | `F32` depends only on the first 64·k key words it is given; later words are ignored. |
| KeySchedule.Replicate | src/tfish.cpp:523 | The replicated byte appears in all four lanes of the mask word. |
| KeySchedule.Xor256 | src/tfish.cpp:520-526 | Each of the 256 output bytes is the input byte XOR the key byte, on either endianness. |
| KeySchedule.RsMdsEncode | src/tfish.cpp:353-366 | The shift-and-remainder loop returns the Reed–Solomon code word of the two key words. |
| KeySchedule.SboxKeys | src/tfish.cpp:607-613 | Word `c-1-i` is the RS code of key words `2i`,`2i+1` for each of the `c` 64-bit key chunks; the other slots are untouched. |
| KeySchedule.EvenWords | src/tfish.cpp:609 | The even-key vector holds key words 0, 2, 4, 6. |
| KeySchedule.OddWords | src/tfish.cpp:610 | The odd-key vector holds key words 1, 3, 5, 7. |
| KeySchedule.PhtInverse | src/tfish.cpp:619-622 | The subkey pair determines A and B: subtracting recovers both inputs of the pseudo-Hadamard step. |
| KeySchedule.PhtScheduleAt | src/tfish.cpp:615-623 | Subkey `2i` is `A+B` and subkey `2i+1` is `ROL(A+2B, 9)` for each pair the loop writes. |
| KeySchedule.PhtScheduleRecovers | src/tfish.cpp:615-623 | From each written subkey pair one recovers the pair's A and B. |
| KeySchedule.SubkeysRecoverF32 | src/tfish.cpp:615-623 | Each subkey pair decodes back to `F32` of the even counter and `ROL(F32, 8)` of the odd counter. |
| KeySchedule.SubkeysAt | src/tfish.cpp:615-623 | Each generated subkey pair is the pseudo-Hadamard combination of the two `F32` outputs. |
| KeySchedule.Permute | src/tfish.cpp:672-673 | Every entry of the permuted table is the row looked up at the old entry. |
| KeySchedule.SboxBytesAreKeyLane | src/tfish.cpp:626-691 | For every key length, entry `y` of the lane's staged table is that lane's key-dependent permutation of `y`. |
| KeySchedule.SboxBytes128 | src/tfish.cpp:628-647 | The 128-bit branch yields the two-key-word lane permutation. |
| KeySchedule.SboxBytes192 | src/tfish.cpp:649-666 | The 192-bit branch yields the three-key-word lane permutation. |
| KeySchedule.SboxBytes256 | src/tfish.cpp:667-689 | The 256-bit branch yields the four-key-word lane permutation. |
| KeySchedule.L0Byte192 | src/tfish.cpp:652-655 | The first staged table for 192-bit keys is `P_i3(y) ^ k2`. |
| KeySchedule.L0Byte256 | src/tfish.cpp:671-674 | The first staged table for 256-bit keys is `P_i3(P_i4(y) ^ k3) ^ k2`. |
| KeySchedule.LastStagesArePermutations | src/tfish.cpp:669 | The two shared final stages are `P_i1(P_i2(v) ^ k1) ^ k0`. |
| KeySchedule.SboxColumnEntry | src/tfish.cpp:135 | Each lane column of the expanded S-box holds the MDS column applied to the keyed permutation. |
| KeySchedule.InterleaveAt | src/tfish.cpp:135 | Interleaving places column entry `b` of lane `n` at the `sbSet` slot for (n, b). |
| KeySchedule.SboxLookup | src/tfish.cpp:132-135 | The `Fe32_` lookup of a byte in the expanded S-box returns the MDS column of the keyed permutation. |
| KeySchedule.ExpandedSboxIsF32 | src/tfish.cpp:704-706 | Looking up any word in the fully expanded S-box gives exactly `F32` with the S-box keys. |
| KeySchedule.ExpandSbox | src/tfish.cpp:626-691 | An unsupported key length leaves the S-box as it was; the result always has 1024 words. |
| KeySchedule.ReverseRoundsPairs | src/tfish.cpp:476-497 | Reversal swaps round pair `p` with pair `n-1-p`, keeps each pair's order, and leaves the whitening and unused words alone. |
| KeySchedule.ReverseRoundsInvolution | src/tfish.cpp:476-497 | Reversing the round subkeys twice restores them. |
| KeySchedule.ReverseRoundSubkeysLoop | src/tfish.cpp:484-494 | The two-pointer swap loop computes the pairwise reversal. |
| KeySchedule.SwapStep | src/tfish.cpp:484-494 | One swap of the outermost unswapped pairs extends the reversed region by one pair at each end. |
| KeySchedule.SwapDone | src/tfish.cpp:484-494 | When the two pointers meet or cross, the subkeys are fully reversed. |
| HexParse.HexDigit | src/tfish.cpp:247-254 | Exactly the characters 0-9, a-f and A-F are digits, with their hexadecimal values. |
| HexParse.NibbleShift | src/tfish.cpp:257 | The nibble at position `cnt` is shifted by `4·((cnt mod 8) ^ 1)` in its word, so two hex digits form one byte. |
| HexParse.ParseFrom | src/tfish.cpp:239-258 | The loop succeeds exactly when every remaining character is a digit; on failure it stops right after the first non-digit, and words past the key length are untouched. |
| HexParse.ParseFromIsWordsFrom | src/tfish.cpp:235-258 | On success the parsed words are the OR-accumulation of every nibble's shifted contribution. |
| HexParse.ParseHexDword | src/tfish.cpp:220-261 | Returns success exactly when the first `bits/4` characters are all hex, else `BAD_KEY_MAT`; words beyond the length are unchanged. |
| HexParse.ParseHexWords | src/tfish.cpp:235-258 | After a successful parse, word `j` is the little-endian packing of the bytes written by characters `8j`…`8j+7`. |
| HexParse.PackedWord | src/tfish.cpp:257 | The OR of eight nibble contributions is the little-endian word of the four hex bytes. |
| Keying.ReverseRoundSubkeys | src/tfish.cpp:476-497 | Sets the new direction, swaps round pairs end for end, and keeps every other field and subkey. |
| Keying.ReverseRoundSubkeysInvolution | src/tfish.cpp:476-497 | Reversing twice gives back the key with only the direction changed. |
| Keying.ReKey | src/tfish.cpp:545-716 | For key lengths up to 256 bits, rejects exactly the lengths that are not 128/192/256-bit multiples of 64 with `BAD_KEY_INSTANCE`, leaving key and tables unchanged; otherwise builds the tables and stores the RS code words as S-box keys in reverse chunk order. |
| Keying.AcceptedLengths | src/tfish.cpp:564-572 | The lengths `reKey` accepts are exactly 128, 192 and 256 bits, two to four 64-bit chunks. |
| Keying.GenerationOrder | src/tfish.cpp:712-713 | An encryption key's subkeys are the generated ones reversed; a decryption key keeps generation order. |
| Keying.ReKeyGenerationOrder | src/tfish.cpp:603-623 | In generation order, `reKey`'s subkeys are the pseudo-Hadamard schedule over the even and odd key words. |
| Keying.ReKeySubkeysMatchReference | src/tfish.cpp:696-702 | Every subkey pair equals `A+B` and `ROL(A+2B, 9)` with A and B from the reference `f32`, as the table check asserts. |
| Keying.ReKeySboxMatchesReference | src/tfish.cpp:704-706 | The expanded S-box lookup of any word equals the reference `f32` with the new S-box keys, as the table check asserts. |
| Keying.RoundUp64 | src/tfish.cpp:759 | The key length is rounded up to the least multiple of 64 not below it. |
| Keying.CopyText | src/tfish.cpp:244-245 | The parsed characters are copied into the key text and the rest is left as it was. |
| Keying.Initialised | src/tfish.cpp:753-764 | After the checks the key is marked valid with the given direction and length; the round count comes from the table; key words are zero; the text is terminated; nothing else changes. |
| Keying.ParsedKey | src/tfish.cpp:769 | The parsed key keeps the settings `makeKey` put in place. |
| Keying.MakeKey | src/tfish.cpp:736-773 | Gives a bad direction `BAD_KEY_DIR` and a bad length `BAD_KEY_MAT`, both with the key untouched. Missing or empty material succeeds with zero key words, and non-hex material fails with `BAD_KEY_MAT`, leaving the key words and text as the parse left them. Otherwise the parsed words are kept and the call succeeds iff the length is at least 128. |
| Keying.MakeKeyLoadsKeyWords | src/tfish.cpp:762-770 | Key word `j` is the little-endian word of hex bytes `4j…4j+3`, or zero past the key length. |
| Keying.MakeKeyKeepsText | src/tfish.cpp:769 | The key text holds the hex characters read. |
| Keying.MakeKeySboxMatchesReference | src/tfish.cpp:769-772 | For a valid key of at least 128 bits `makeKey` succeeds, and its S-box computes the reference `f32`. |
| Rounds.RorXorInverse | src/tfish.cpp:843-850 | The rotate-then-XOR steps of a round and of its mirror undo each other. |
| Rounds.EncryptRound | src/tfish.cpp:843-850 | An encryption round changes only the half that is not fed to `F32`. |
| Rounds.DecryptRound | src/tfish.cpp:1019-1026 | A decryption round changes only the half that is not fed to `F32`. |
| Rounds.RoundInverse | src/tfish.cpp:1019-1026 | With the same S-box and subkeys, the decryption round undoes the encryption round and vice versa. |
| Rounds.ReversedMirrored | src/tfish.cpp:1089-1090 | Pairwise reversal of all 16 rounds gives the mirrored subkey order decryption needs. |
| Rounds.EncryptStepInverse | src/tfish.cpp:1027 | Decryption step `15-j` with mirrored subkeys undoes encryption step `j`. |
| Rounds.DecryptStepInverse | src/tfish.cpp:851 | Encryption step `15-j` with mirrored subkeys undoes decryption step `j`. |
| Rounds.DecryptRoundsUndo | src/tfish.cpp:1130-1137 | The 16 decryption rounds undo the 16 encryption rounds under mirrored subkeys. |
| Rounds.EncryptRoundsUndo | src/tfish.cpp:956-963 | The 16 encryption rounds undo the 16 decryption rounds under mirrored subkeys. |
| Rounds.SwapHalves | src/tfish.cpp:966-968 | The output swaps the two 64-bit halves of the state. |
| Rounds.WhiteningOfMirrored | src/tfish.cpp:1018 | Mirrored subkey arrays share the input and output whitening words. |
| Rounds.DecryptEncryptBlock | src/tfish.cpp:1106-1148 | Decrypting an encrypted block gives the plaintext XOR the chaining value. |
| Rounds.EncryptDecryptBlock | src/tfish.cpp:929-972 | Encrypting a decrypted block, re-chained with the same value, gives the ciphertext back. |
| Modes.LoadWord | src/tfish.cpp:842 | A loaded word is the little-endian word of four input bytes. |
| Modes.StoreWord | src/tfish.cpp:966-972 | A stored word writes its bytes low byte first. |
| Modes.LoadStoreBlock | src/tfish.cpp:974-980 | Loading a stored block gives the block back. |
| Modes.CInt | src/tfish.cpp:993 | The returned bit count is `inputLen` as a 32-bit `int`: equal when it fits, wrapped modulo 2^32 otherwise. |
| Modes.IvBytes | src/tfish.cpp:811-812 | The byte copy of the IV loads back to the IV words. |
| Modes.CipherInit | src/tfish.cpp:790-818 | An unknown mode gives `BAD_CIPHER_MODE` with nothing changed. Otherwise the instance is marked valid; with a non-hex IV the call gives `BAD_IV_MAT`, keeps the old mode and IV bytes, and leaves the IV words as the failed parse wrote them; on success the mode is set and the IV bytes match the IV words. |
| Modes.CipherInitIv | src/tfish.cpp:805-813 | A hex IV for CBC or CFB-1 is parsed into four words and into the 16 bytes the text spells. |
| Modes.Validate | src/tfish.cpp:869-880 | Success exactly when cipher and key are initialised, the rounds are even and in range, and for block modes the length is a whole number of blocks. Otherwise the first failing check's code is returned. |
| Modes.ForDirection | src/tfish.cpp:910-911 | A key with the wrong direction is reversed to the requested one; one already in that direction is left alone. |
| Modes.ForDirectionIdempotent | src/tfish.cpp:1089-1090 | Asking for the same direction twice changes nothing the second time. |
| Modes.LocalSubkeys | src/tfish.cpp:914 | The local subkey copy equals the key's subkeys for 16 rounds. |
| Modes.EncryptEcbCbc | src/tfish.cpp:909-993 | Returns the bit count, reverses the key to encryption order, changes only the IV words of the cipher (and only in CBC), and leaves the output beyond the input untouched. |
| Modes.DecryptEcbCbc | src/tfish.cpp:1088-1168 | Returns the bit count, reverses the key to decryption order, changes only the IV words of the cipher (and only in CBC), and leaves the output beyond the input untouched. |
| Modes.ChainEncryptAt | src/tfish.cpp:916-991 | Each ciphertext block is the encryption of its plaintext chained with the previous ciphertext (or IV); the final IV is the last ciphertext. |
| Modes.ChainDecryptAt | src/tfish.cpp:1095-1166 | Each plaintext block is the decryption of its ciphertext XOR the previous ciphertext (or IV); the final IV is the last ciphertext. |
| Modes.EncryptBlocksChained | src/tfish.cpp:921-988 | The byte loop over the buffer equals block chaining over the decoded blocks, re-encoded to bytes. |
| Modes.DecryptBlocksChained | src/tfish.cpp:1100-1162 | The byte loop over the buffer equals block chaining over the decoded blocks, re-encoded to bytes. |
| Modes.MirroredTransforms | src/tfish.cpp:1130-1157 | With mirrored subkeys the block decryptor undoes the chained block encryptor, and conversely. |
| Modes.ChainRoundTrip | src/tfish.cpp:1153-1161 | Decrypting a chained encryption with the same IV gives back the plaintext blocks and the same final IV. |
| Modes.ChainRoundTripInverse | src/tfish.cpp:974-980 | Encrypting a chained decryption with the same IV gives back the ciphertext blocks and the same final IV. |
| Modes.BlocksRoundTrip | src/tfish.cpp:1100-1162 | At the byte level, decryption of the encrypted buffer restores the plaintext and ends on the same IV. |
| Modes.BlocksRoundTripInverse | src/tfish.cpp:921-988 | At the byte level, encryption of the decrypted buffer restores the ciphertext and ends on the same IV. |
| Modes.PairedSubkeys | src/tfish.cpp:1088-1093 | An encryption key and a decryption key from the same schedule give mirrored subkey arrays once put in their directions. |
| Modes.KeyPairs | src/tfish.cpp:712-713 | A valid 16-round key pairs with itself and with its encryption-ordered form. |
| Modes.EcbCbcRoundTrip | src/tfish.cpp:1028-1169 | `blockDecrypt` of `blockEncrypt`'s output, with paired keys and the same cipher state, restores the input bytes and returns the same bit count and cipher state. |
| Modes.EcbCbcRoundTripInverse | src/tfish.cpp:852-994 | `blockEncrypt` of `blockDecrypt`'s output restores the input bytes, with the same count and cipher state. |
| Modes.ShiftInAt | src/tfish.cpp:897-902 | Each register byte shifts left by one and takes the next byte's top bit; the last byte takes the carry. |
| Modes.ShiftInBits | src/tfish.cpp:894-902 | As a bit string the register moves up by one bit and the carry enters as the last bit. |
| Modes.InnerCall | src/tfish.cpp:890 | The keystream call yields a 16-byte block and leaves the key in encryption order. |
| Modes.Cfb1Loop | src/tfish.cpp:888-903 | The bit loop keeps the buffer size and the key's S-box, rounds and signature. |
| Modes.Cfb1StepBits | src/tfish.cpp:889-902 | One step writes bit `n` as the input bit XOR the keystream's top bit, keeps every other bit, and shifts in the ciphertext bit. |
| Modes.CfbOutBitAt | src/tfish.cpp:891-893 | The masked update sets bit `j` of the output byte to the input bit XOR the keystream bit. |
| Modes.CfbOutBitElsewhere | src/tfish.cpp:893 | The masked update leaves the other bits of the output byte unchanged. |
| Modes.CfbCarry | src/tfish.cpp:1070 | The carry fed back on decryption is the ciphertext bit, and on encryption the written output bit. |
| Modes.Cfb1Frame | src/tfish.cpp:888-903 | The bit loop touches only the bits it processes and no byte past the input length. |
| Modes.Cfb1InverseStep | src/tfish.cpp:1063-1079 | With the same register and keystream, the opposite direction's step recovers the input bit and ends on the same register. |
| Modes.Cfb1Inverse | src/tfish.cpp:1063-1080 | Run from a matching state, the opposite direction's loop restores every input bit. |
| Modes.BlockEncrypt | src/tfish.cpp:852-994 | Returns the validation error with nothing changed, or the bit count; mode, signature, rounds and S-box are kept. |
| Modes.BlockDecrypt | src/tfish.cpp:1028-1169 | Returns the validation error with nothing changed, or the bit count; mode, signature, rounds and S-box are kept. |
| Modes.Cfb1InnerCall | src/tfish.cpp:886-890 | The keystream function is `blockEncrypt` of the register on the cipher with its mode set to ECB, which writes nothing back to the cipher. |
| Modes.SameEncryption | src/tfish.cpp:909-914 | Keys with the same S-box, rounds and encryption-ordered subkeys encrypt identically. |
| Modes.KeystreamAgree | src/tfish.cpp:890 | Paired keys produce the same CFB-1 keystream, also after reordering to encryption. |
| Modes.Cfb1Outcome | src/tfish.cpp:884-907 | CFB-1 changes only the IV bytes of the cipher and leaves bits past the input length untouched; the key ends in encryption order when any bit is processed. |
| Modes.Cfb1RoundTrip | src/tfish.cpp:1059-1086 | CFB-1 decryption of the encryption restores every input bit, for any bit length, with the same count and cipher state. |
| Modes.Cfb1RoundTripInverse | src/tfish.cpp:884-907 | CFB-1 encryption of the decryption restores every input bit, for any bit length. |
| Wrapper.GetEncodeLength | src/libtwofish.cpp:221-231 | The length is the input rounded up to whole 16-byte blocks, and equals the input iff it is already aligned. |
| Wrapper.EncodeLengthLeast | src/libtwofish.cpp:221-231 | No smaller block multiple holds the input. |
| Wrapper.GetBlockSize | src/libtwofish.cpp:233-239 | 128 when counting bits, 16 when counting bytes. |
| Wrapper.BlockSizes | src/libtwofish.cpp:233-239 | The bit size is eight times the byte size, and one block or one byte encodes to one block. |
| Wrapper.Padded | src/libtwofish.cpp:276-278 | The output buffer starts with the input and is zero-filled up to the encoded length. |
| Wrapper.BlockCall | src/libtwofish.cpp:287-291 | A one-block call succeeds with 128 exactly when the cipher and key validate, and otherwise changes nothing. |
| Wrapper.CallBehaves | src/libtwofish.cpp:287-299 | Both directions' block call satisfy the single-step contract the loop relies on. |
| Wrapper.StepFacts | src/libtwofish.cpp:287-297 | Each loop step at an offset returns 128 or fails exactly as validation says, and leaves validation's verdict unchanged for the next step. |
| Wrapper.PointerStep | src/libtwofish.cpp:294-295 | A 128-bit return advances the pointers by 16 bytes. |
| Wrapper.CountStep | src/libtwofish.cpp:296 | A 128-bit return adds 16 bytes to the count. |
| Wrapper.BlockLoop | src/libtwofish.cpp:285-300 | The loop keeps the buffer size and never rewrites bytes already behind the pointer. |
| Wrapper.BlockLoopStep | src/libtwofish.cpp:285-300 | One turn of the loop: a successful block call moves both pointers and the count on by 16 bytes and leaves validation as it was; any other result stops with the count unchanged. |
| Wrapper.BlockLoopCount | src/libtwofish.cpp:285-300 | The loop counts 16 bytes per remaining block, or stops at once when validation fails. |
| Wrapper.Encode | src/libtwofish.cpp:241-306 | A failed `makeKey` yields 0 and no output; otherwise the output is the padded length. |
| Wrapper.Decode | src/libtwofish.cpp:308-365 | A failed `makeKey` yields 0 and no output; otherwise the output has the input's length. |
| Wrapper.EncodeCount | src/libtwofish.cpp:266-305 | `Encode` returns the padded length when the cipher and key validate, and 0 otherwise. |
| Wrapper.DecodeCount | src/libtwofish.cpp:341-364 | `Decode` returns the input length rounded down to whole blocks when it validates and holds at least one block, and 0 otherwise. |

## Left out

- NULL pointer checks (`BAD_PARAMS`, the wrapper's `NULL` returns): values in the model are never null.
- `BAD_ENDIAN` from `ParseHexDword`: unreachable on a correctly configured build, see `Platform.EndianProbePasses`.
- The contents of `tftables.h` (`P8x8`, the `P_ij` selectors, `RS_rem`, `Mul_X`/`Mul_Y`, `Mij`): not part of this model. They are the abstract `Tables` parameter, so every property holds for any tables.
- The `MIN_KEY`, `PART_KEY`, `ZERO_KEY` and `BIG_TAB = 0` configurations: outside the configuration modelled here.
- The `CHECK_TABLE` self-test, debug dumps (`tfdebug.cpp`), `TableOp`, `TwofishCodeSize` and `printf` diagnostics: the self-test's assertions are stated as lemmas instead of run.
- The `TwoFish` class constructor, destructor and context, `key2hex`, `iv2hex`, `SetKey` and the `new` allocation of the output buffer: the prepared key instance and `makeKey`'s return code are parameters of `Encode`/`Decode`.
- Memory aliasing between `input` and `outBuffer`: the core functions take separate sequences. The wrapper's in-place `Encode` is modelled by reading each block from the output buffer.
- Tables.MdsTableEntry: states the entry the table is meant to hold; on a big-endian build with an 8-byte `size_t` the code stores 0 instead, as "## Findings" shows with Tables.MdsEntryAsWritten.
- Keying.ReKey: key lengths above 256 bits are excluded by the requires. `reKey` itself does not check the upper bound: it accepts 320 or 384 and then overruns `key32` and `sboxKeys`. `makeKey` rejects such lengths before calling it.
- Wrapper.GetEncodeLength: `size_t` wrap-around for inputs within 15 bytes of `SIZE_MAX` is not modelled, because lengths are unbounded naturals.
- Modes.EcbCbcRoundTrip: proved only for 16-round keys (and likewise `Modes.EcbCbcRoundTripInverse`), because the unrolled block loop always runs 16 rounds and `makeKey` produces no other count. For an even count below 16, which `Validate` accepts, both directions still run all 16 unrolled rounds over subkeys that are zero past `8 + 2·rounds`, and only the first `rounds` pairs are reversed. The subkeys are then not mirrored, and ECB/CBC decryption need not undo encryption. The CFB-1 round trip holds for any valid round count.

## Findings

| source | as written | input that shows it | evidently intended | confidence | as-written member | corrected member |
|---|---|---|---|---|---|---|
| src/tfish.cpp:413-420 | `SetMDS` packs the four MDS bytes into a `size_t d` through `b0(d)`..`b3(d)` and stores `MDStab[N][cnt] = d` into a `uint32_t` | a big-endian build (`__APPLE__` with `__BIG_ENDIAN__`, src/tfplatform.h:64-66) with an 8-byte `size_t`: `_b` writes the first four bytes of `d`, the high half, so every entry is stored as 0; e.g. column 0 at any `cnt` with `q(cnt) != 0` | `d` a `uint32_t`, so each entry holds the packed MDS column on every build | not executed; high for 64-bit big-endian targets | Tables.MdsEntryAsWritten, Tables.WideBigEndianLosesMds | Tables.MdsEntry, Tables.MdsTableEntry |
