/** Key instances: `makeKey` parses the key text and `reKey` derives the S-box
    keys, the round subkeys and the fully expanded S-box from it (the
    `FULL_KEY` build with the big `q0[q1[k] ^ j]` table).  The process-wide
    MDS tables travel alongside the key as an `MdsGlobal` value. */
module Keying {
  import opened Platform
  import opened Defs
  import opened Tables
  import opened HexParse
  import opened KeySchedule

  /** The return code of a key operation, the key instance as left, and the
      global tables as left. */
  datatype Keyed = Keyed(code: int, key: Key, mds: MdsGlobal)

  /** The fields `reKey` reads but never writes. */
  predicate SameSettings(a: Key, b: Key) {
    && a.direction == b.direction && a.keyLen == b.keyLen && a.keyMaterial == b.keyMaterial
    && a.keySig == b.keySig && a.numRounds == b.numRounds && a.key32 == b.key32
  }

  /** Key lengths `reKey` refuses: not a multiple of 64 bits, or shorter
      than 128 bits. */
  predicate BadKeyLength(keyLen: nat) {
    keyLen % 64 != 0 || keyLen < MIN_KEY_BITS
  }

  // ---------------------------------------------------------------------
  // ReverseRoundSubkeys

  /** `ReverseRoundSubkeys(key, newDir)`: the round subkey pairs of the key's
      rounds in reverse order, and the new direction recorded. */
  function ReverseRoundSubkeys(key: Key, newDir: bv8): (r: Key)
    requires KeyShape(key) && key.numRounds <= MAX_ROUNDS
    ensures KeyShape(r) && r.direction == newDir
    ensures r == key.(direction := newDir, subKeys := r.subKeys)
    ensures var n := key.numRounds;
            forall p :: 0 <= p < n ==>
              && r.subKeys[ROUND_SUBKEYS + 2 * p] == key.subKeys[ROUND_SUBKEYS + 2 * (n - 1 - p)]
              && r.subKeys[ROUND_SUBKEYS + 2 * p + 1] == key.subKeys[ROUND_SUBKEYS + 2 * (n - 1 - p) + 1]
    ensures forall k :: 0 <= k < ROUND_SUBKEYS ==> r.subKeys[k] == key.subKeys[k]
    ensures forall k :: ROUND_SUBKEYS + 2 * key.numRounds <= k < TOTAL_SUBKEYS ==> r.subKeys[k] == key.subKeys[k]
  {
    ReverseRoundsPairs(key.subKeys, key.numRounds);
    key.(direction := newDir, subKeys := ReverseRounds(key.subKeys, key.numRounds))
  }

  /** Reversing twice restores the subkeys; only the direction remembers. */
  lemma ReverseRoundSubkeysInvolution(key: Key, d1: bv8, d2: bv8)
    requires KeyShape(key) && key.numRounds <= MAX_ROUNDS
    ensures ReverseRoundSubkeys(ReverseRoundSubkeys(key, d1), d2) == key.(direction := d2)
  {
    ReverseRoundsInvolution(key.subKeys, key.numRounds);
  }

  // ---------------------------------------------------------------------
  // reKey

  /** The S-box keys in the local `sKey` (zero-initialised) and in the key. */
  function LocalSboxKeys(t: Tables, key: Key): (s: seq<bv32>)
    requires KeyShape(key) && key.keyLen <= MAX_KEY_BITS
    ensures |s| == 4
  {
    SboxKeys(t, key.key32, KeyWords64(key.keyLen), [0, 0, 0, 0])
  }

  /** `reKey`: refuses a bad length; otherwise builds the MDS tables if
      needed, computes the S-box keys in reverse order, the subkeys of
      `8 + 2 * numRounds` words and the expanded S-box, and finally reverses
      the round subkeys of an encryption key. */
  function ReKey(e: Endian, t: Tables, g: MdsGlobal, key: Key): (r: Keyed)
    requires KeyShape(key) && key.keyLen <= MAX_KEY_BITS && key.numRounds <= MAX_ROUNDS
    ensures KeyShape(r.key) && SameSettings(key, r.key)
    ensures r.code == BAD_KEY_INSTANCE <==> BadKeyLength(key.keyLen)
    ensures r.code != BAD_KEY_INSTANCE ==> r.code == TF_SUCCESS
    ensures r.code == BAD_KEY_INSTANCE ==> r.key == key && r.mds == g
    ensures r.code == TF_SUCCESS ==> !r.mds.needToBuild && (Consistent(t, g) ==> Built(t, r.mds))
    ensures r.code == TF_SUCCESS ==>
              var c := KeyWords64(key.keyLen);
              && (forall i :: 0 <= i < c ==>
                    r.key.sboxKeys[c - 1 - i] == RsCodeWord(t, key.key32[2 * i], key.key32[2 * i + 1]))
              && (forall j :: c <= j < 4 ==> r.key.sboxKeys[j] == key.sboxKeys[j])
  {
    if BadKeyLength(key.keyLen) then Keyed(BAD_KEY_INSTANCE, key, g)
    else
      var c := KeyWords64(key.keyLen);
      var generated := key.(
        sboxKeys := SboxKeys(t, key.key32, c, key.sboxKeys),
        subKeys := Subkeys(t, EvenWords(key.key32, c), OddWords(key.key32, c), c, key.numRounds, key.subKeys),
        sBox := ExpandSbox(e, t, LocalSboxKeys(t, key), key.keyLen, key.sBox));
      Keyed(TF_SUCCESS,
            if key.direction == DIR_ENCRYPT then ReverseRoundSubkeys(generated, DIR_ENCRYPT) else generated,
            BuildMDS(t, g))
  }

  /** The accepted lengths are exactly the three key sizes. */
  lemma AcceptedLengths(keyLen: nat)
    requires keyLen <= MAX_KEY_BITS
    ensures !BadKeyLength(keyLen) <==> IsKeyLength(keyLen)
    ensures !BadKeyLength(keyLen) ==> 2 <= KeyWords64(keyLen) <= 4 && KeyWords64(keyLen) * 64 == keyLen
  {
  }

  /** The subkeys in the order they were generated: an encryption key holds
      its round subkeys reversed. */
  function GenerationOrder(key: Key): (sk: seq<bv32>)
    requires KeyShape(key) && key.numRounds <= MAX_ROUNDS
    ensures |sk| == TOTAL_SUBKEYS
    ensures key.direction != DIR_ENCRYPT ==> sk == key.subKeys
    ensures key.direction == DIR_ENCRYPT ==> ReverseRoundSubkeys(key, DIR_ENCRYPT).subKeys == sk
  {
    if key.direction == DIR_ENCRYPT then
      ReverseRoundsInvolution(key.subKeys, key.numRounds);
      ReverseRounds(key.subKeys, key.numRounds)
    else key.subKeys
  }

  /** The subkeys of an accepted key, put back in generation order, are
      the schedule of its even and odd key words. */
  lemma ReKeyGenerationOrder(e: Endian, t: Tables, g: MdsGlobal, key: Key)
    requires KeyShape(key) && key.keyLen <= MAX_KEY_BITS && key.numRounds <= MAX_ROUNDS
    requires !BadKeyLength(key.keyLen)
    ensures 2 <= KeyWords64(key.keyLen) <= 4
    ensures var c := KeyWords64(key.keyLen);
            GenerationOrder(ReKey(e, t, g, key).key)
              == Subkeys(t, EvenWords(key.key32, c), OddWords(key.key32, c), c, key.numRounds, key.subKeys)
  {
    AcceptedLengths(key.keyLen);
    var c := KeyWords64(key.keyLen);
    var sk := Subkeys(t, EvenWords(key.key32, c), OddWords(key.key32, c), c, key.numRounds, key.subKeys);
    if key.direction == DIR_ENCRYPT {
      ReverseRoundsInvolution(sk, key.numRounds);
    }
  }

  /** The table check of `reKey`: subkey pair `i`, in generation order, is
      the PHT of `A = f32(i * SK_STEP, k32e)` and `B = ROL(f32(i * SK_STEP +
      SK_BUMP, k32o), 8)`, with `f32` the pedagogical keyed function. */
  lemma ReKeySubkeysMatchReference(e: Endian, t: Tables, g: MdsGlobal, key: Key, i: nat)
    requires KeyShape(key) && key.keyLen <= MAX_KEY_BITS && key.numRounds <= MAX_ROUNDS
    requires !BadKeyLength(key.keyLen) && i < ROUND_SUBKEYS / 2 + key.numRounds
    ensures var r := ReKey(e, t, g, key);
            var c := KeyWords64(key.keyLen);
            var a := F32Reference(t, Step(i), EvenWords(key.key32, c), key.keyLen);
            var b := Rol(F32Reference(t, Add(Step(i), SK_BUMP), OddWords(key.key32, c), key.keyLen), 8);
            && GenerationOrder(r.key)[2 * i] == Add(a, b)
            && GenerationOrder(r.key)[2 * i + 1] == Rol(Add(a, Twice(b)), SK_ROTL)
  {
    ReKeyGenerationOrder(e, t, g, key);
    var c := KeyWords64(key.keyLen);
    var ke, ko := EvenWords(key.key32, c), OddWords(key.key32, c);
    SubkeysAt(t, ke, ko, c, key.numRounds, key.subKeys, i);
    F32MatchesReference(t, Step(i), ke, key.keyLen);
    F32MatchesReference(t, Add(Step(i), SK_BUMP), ko, key.keyLen);
  }

  /** The second table check of `reKey`: the expanded S-box computes the
      pedagogical keyed function under the key's own S-box keys. */
  lemma ReKeySboxMatchesReference(e: Endian, t: Tables, g: MdsGlobal, key: Key, x: bv32)
    requires KeyShape(key) && key.keyLen <= MAX_KEY_BITS && key.numRounds <= MAX_ROUNDS
    requires !BadKeyLength(key.keyLen)
    ensures var r := ReKey(e, t, g, key);
            Fe32(r.key.sBox, x, 0) == F32Reference(t, x, r.key.sboxKeys, key.keyLen)
  {
    AcceptedLengths(key.keyLen);
    var c := KeyWords64(key.keyLen);
    var sKey := LocalSboxKeys(t, key);
    var sboxKeys := SboxKeys(t, key.key32, c, key.sboxKeys);
    ReKeyGenerated(e, t, g, key);
    ExpandedSboxIsF32(e, t, sKey, key.keyLen, key.sBox, x);
    SboxKeysAgree(t, key.key32, c, [0, 0, 0, 0], key.sboxKeys);
    F32UsesKeyWords(t, x, sKey, sboxKeys, c);
    F32MatchesReference(t, x, sboxKeys, key.keyLen);
  }

  /** What a successful `reKey` stores for the S-box keys and the S-box. */
  lemma ReKeyGenerated(e: Endian, t: Tables, g: MdsGlobal, key: Key)
    requires KeyShape(key) && key.keyLen <= MAX_KEY_BITS && key.numRounds <= MAX_ROUNDS
    requires !BadKeyLength(key.keyLen)
    ensures var r := ReKey(e, t, g, key);
            && r.key.sboxKeys == SboxKeys(t, key.key32, KeyWords64(key.keyLen), key.sboxKeys)
            && r.key.sBox == ExpandSbox(e, t, LocalSboxKeys(t, key), key.keyLen, key.sBox)
  {
  }

  /** The S-box keys that were computed do not depend on what the slots
      held before. */
  lemma SboxKeysAgree(t: Tables, key32: seq<bv32>, c: nat, p1: seq<bv32>, p2: seq<bv32>)
    requires |key32| == 8 && c <= 4 && |p1| == 4 && |p2| == 4
    ensures forall j :: 0 <= j < c ==> SboxKeys(t, key32, c, p1)[j] == SboxKeys(t, key32, c, p2)[j]
  {
    forall j | 0 <= j < c
      ensures SboxKeys(t, key32, c, p1)[j] == SboxKeys(t, key32, c, p2)[j]
    {
      var i := c - 1 - j;
      assert SboxKeys(t, key32, c, p1)[c - 1 - i] == RsCodeWord(t, key32[2 * i], key32[2 * i + 1]);
      assert SboxKeys(t, key32, c, p2)[c - 1 - i] == RsCodeWord(t, key32[2 * i], key32[2 * i + 1]);
    }
  }

  // ---------------------------------------------------------------------
  // makeKey

  /** Lengths `makeKey` takes: a multiple of 64 bits from 8 to 256. */
  predicate KeyLengthAccepted(keyLen: nat) {
    8 <= keyLen <= MAX_KEY_BITS && keyLen % 64 == 0
  }

  /** `(keyLen + 63) & ~63`. */
  function RoundUp64(keyLen: nat): (r: nat)
    ensures r % 64 == 0 && keyLen <= r < keyLen + 64
  {
    (keyLen + 63) / 64 * 64
  }

  /** Copies the characters the parser read into the key's text buffer. */
  function CopyText(dst: seq<char>, src: seq<char>, read: nat): (r: seq<char>)
    requires read <= |dst|
    ensures |r| == |dst|
    ensures forall i :: 0 <= i < read ==> r[i] == CharAt(src, i)
    ensures forall i :: read <= i < |dst| ==> r[i] == dst[i]
  {
    seq(|dst|, i requires 0 <= i < |dst| => if i < read then CharAt(src, i) else dst[i])
  }

  /** The key as `makeKey` leaves it before parsing: signature, direction,
      rounded length, round count from the table, zeroed key words and a
      terminated text buffer. */
  function Initialised(key: Key, direction: bv8, keyLen: nat): (k: Key)
    requires KeyShape(key) && KeyLengthAccepted(keyLen)
    ensures KeyShape(k) && k.keySig == VALID_SIG && k.direction == direction && k.keyLen == keyLen
    ensures k.numRounds == (if keyLen < MIN_KEY_BITS then 0 else MAX_ROUNDS)
    ensures forall j :: 0 <= j < |k.key32| ==> k.key32[j] == 0
    ensures k.keyMaterial[MAX_KEY_SIZE] == '\0'
    ensures forall i :: 0 <= i < |k.keyMaterial| && i != MAX_KEY_SIZE ==> k.keyMaterial[i] == key.keyMaterial[i]
    ensures k.sboxKeys == key.sboxKeys && k.subKeys == key.subKeys && k.sBox == key.sBox
  {
    key.(keySig := VALID_SIG, direction := direction, keyLen := RoundUp64(keyLen),
         numRounds := NumRoundsTable[(keyLen - 1) / 64],
         key32 := seq(MAX_KEY_BITS / 32, _ => 0),
         keyMaterial := key.keyMaterial[MAX_KEY_SIZE := '\0'])
  }

  /** The initialised key after `ParseHexDword` has filled its key words
      and copied the characters it read into the text buffer. */
  function ParsedKey(key: Key, direction: bv8, keyLen: nat, text: seq<char>): (k: Key)
    requires KeyShape(key) && KeyLengthAccepted(keyLen)
    ensures KeyShape(k) && k.numRounds <= MAX_ROUNDS && k.keyLen == keyLen
    ensures k.keySig == VALID_SIG && k.direction == direction
    ensures k.numRounds == (if keyLen < MIN_KEY_BITS then 0 else MAX_ROUNDS)
    ensures k.keyMaterial[MAX_KEY_SIZE] == '\0'
  {
    var k := Initialised(key, direction, keyLen);
    var p := ParseHexDword(keyLen, text, k.key32);
    k.(key32 := p.words, keyMaterial := CopyText(k.keyMaterial, text, p.read))
  }

  /** `makeKey(key, direction, keyLen, keyMaterial)`, the text as a C string
      that may be NULL. */
  function MakeKey(e: Endian, t: Tables, g: MdsGlobal, key: Key, direction: bv8, keyLen: nat,
                   material: Option<seq<char>>): (r: Keyed)
    requires KeyShape(key)
    ensures KeyShape(r.key)
    ensures direction != DIR_ENCRYPT && direction != DIR_DECRYPT ==>
              r.code == BAD_KEY_DIR && r.key == key && r.mds == g
    ensures (direction == DIR_ENCRYPT || direction == DIR_DECRYPT) && !KeyLengthAccepted(keyLen) ==>
              r.code == BAD_KEY_MAT && r.key == key && r.mds == g
    ensures (direction == DIR_ENCRYPT || direction == DIR_DECRYPT) && KeyLengthAccepted(keyLen) ==>
              && r.key.keySig == VALID_SIG && r.key.direction == direction && r.key.keyLen == keyLen
              && r.key.numRounds == (if keyLen < MIN_KEY_BITS then 0 else MAX_ROUNDS)
              && r.key.keyMaterial[MAX_KEY_SIZE] == '\0'
              && (material.None? || CharAt(material.value, 0) == '\0' ==>
                    r.code == TF_SUCCESS && r.mds == g && forall j :: 0 <= j < |r.key.key32| ==> r.key.key32[j] == 0)
              && (material.Some? && CharAt(material.value, 0) != '\0' ==>
                    && (!AllHex(keyLen, material.value) ==>
                          r.code == BAD_KEY_MAT && r.mds == g && r.key == ParsedKey(key, direction, keyLen, material.value))
                    && (AllHex(keyLen, material.value) ==>
                          && r.key.key32 == ParsedKey(key, direction, keyLen, material.value).key32
                          && r.key.keyMaterial == ParsedKey(key, direction, keyLen, material.value).keyMaterial
                          && (r.code == TF_SUCCESS <==> keyLen >= MIN_KEY_BITS)
                          && (r.code != TF_SUCCESS ==> r.code == BAD_KEY_INSTANCE)))
  {
    if direction != DIR_ENCRYPT && direction != DIR_DECRYPT then Keyed(BAD_KEY_DIR, key, g)
    else if !KeyLengthAccepted(keyLen) then Keyed(BAD_KEY_MAT, key, g)
    else if material.None? || CharAt(material.value, 0) == '\0' then
      Keyed(TF_SUCCESS, Initialised(key, direction, keyLen), g)
    else if ParseHexDword(keyLen, material.value, Initialised(key, direction, keyLen).key32).code != 0 then
      Keyed(BAD_KEY_MAT, ParsedKey(key, direction, keyLen, material.value), g)
    else ReKey(e, t, g, ParsedKey(key, direction, keyLen, material.value))
  }

  /** With well-formed text, key word `j` is the little-endian value of text
      bytes `4j .. 4j+3` for the words the length covers, and zero past
      them. */
  lemma MakeKeyLoadsKeyWords(e: Endian, t: Tables, g: MdsGlobal, key: Key, direction: bv8, keyLen: nat,
                             material: seq<char>, j: nat)
    requires KeyShape(key) && (direction == DIR_ENCRYPT || direction == DIR_DECRYPT)
    requires KeyLengthAccepted(keyLen) && CharAt(material, 0) != '\0' && AllHex(keyLen, material)
    requires j < MAX_KEY_BITS / 32
    ensures var r := MakeKey(e, t, g, key, direction, keyLen, Some(material));
            && (j < keyLen / 32 ==>
                  r.key.key32[j] == LeWord(HexByte(material, 4 * j), HexByte(material, 4 * j + 1),
                                           HexByte(material, 4 * j + 2), HexByte(material, 4 * j + 3)))
            && (keyLen / 32 <= j ==> r.key.key32[j] == 0)
  {
    ParsedKeyWords(key, direction, keyLen, material, j);
  }

  lemma ParsedKeyWords(key: Key, direction: bv8, keyLen: nat, material: seq<char>, j: nat)
    requires KeyShape(key) && KeyLengthAccepted(keyLen) && AllHex(keyLen, material)
    requires j < MAX_KEY_BITS / 32
    ensures var k := ParsedKey(key, direction, keyLen, material);
            && (j < keyLen / 32 ==>
                  k.key32[j] == LeWord(HexByte(material, 4 * j), HexByte(material, 4 * j + 1),
                                       HexByte(material, 4 * j + 2), HexByte(material, 4 * j + 3)))
            && (keyLen / 32 <= j ==> k.key32[j] == 0)
  {
    var k := Initialised(key, direction, keyLen);
    assert ParsedKey(key, direction, keyLen, material).key32 == ParseHexDword(keyLen, material, k.key32).words;
    if j < keyLen / 32 {
      ParseHexWords(keyLen, material, k.key32, j);
    }
  }

  /** With well-formed text the parser read every character the length
      covers, and the key's text buffer holds them. */
  lemma MakeKeyKeepsText(e: Endian, t: Tables, g: MdsGlobal, key: Key, direction: bv8, keyLen: nat,
                         material: seq<char>, i: nat)
    requires KeyShape(key) && (direction == DIR_ENCRYPT || direction == DIR_DECRYPT)
    requires KeyLengthAccepted(keyLen) && CharAt(material, 0) != '\0' && AllHex(keyLen, material)
    requires i < keyLen / 4
    ensures MakeKey(e, t, g, key, direction, keyLen, Some(material)).key.keyMaterial[i] == CharAt(material, i)
  {
    var k := Initialised(key, direction, keyLen);
    var p := ParseHexDword(keyLen, material, k.key32);
    assert ParsedKey(key, direction, keyLen, material).keyMaterial == CopyText(k.keyMaterial, material, p.read);
  }

  /** A key made from well-formed text of 128 bits or more computes, through
      its expanded S-box, the pedagogical keyed function of its S-box keys. */
  lemma MakeKeySboxMatchesReference(e: Endian, t: Tables, g: MdsGlobal, key: Key, direction: bv8, keyLen: nat,
                                    material: seq<char>, x: bv32)
    requires KeyShape(key) && (direction == DIR_ENCRYPT || direction == DIR_DECRYPT)
    requires KeyLengthAccepted(keyLen) && CharAt(material, 0) != '\0' && AllHex(keyLen, material)
    requires keyLen >= MIN_KEY_BITS
    ensures var r := MakeKey(e, t, g, key, direction, keyLen, Some(material));
            && r.code == TF_SUCCESS
            && Fe32(r.key.sBox, x, 0) == F32Reference(t, x, r.key.sboxKeys, keyLen)
  {
    var k := ParsedKey(key, direction, keyLen, material);
    assert MakeKey(e, t, g, key, direction, keyLen, Some(material)) == ReKey(e, t, g, k);
    ReKeySboxMatchesReference(e, t, g, k, x);
  }
}
