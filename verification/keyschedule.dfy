/** The key schedule of the full-keying configuration: the S-box keys from
    the Reed-Solomon code, the forty PHT-combined subkeys, the key-dependent
    S-box expansion into four 256-entry MDS columns, and the in-place reversal
    of the round subkeys that switches a key's direction. */
module KeySchedule {
  import opened Platform
  import opened Defs
  import opened Tables

  // ---------------------------------------------------------------------
  // Layout of the expanded S-box

  /** Flat index of lane `lane`'s entry for input byte `b`,
      `_sBox_[N&2][2*b+(N&1)]`: lanes 0 and 1 interleave in the first 512
      words, lanes 2 and 3 in the next 512. */
  function Slot(lane: nat, b: nat): (s: nat)
    requires lane < 4 && b < 256
    ensures s < SBOX_WORDS
  {
    if lane < 2 then 2 * b + lane else 512 + 2 * b + (lane - 2)
  }

  function SlotLane(s: nat): nat {
    if s < 512 then s % 2 else 2 + s % 2
  }

  function SlotByte(s: nat): nat {
    if s < 512 then s / 2 else (s - 512) / 2
  }

  /** Every lane/byte pair owns its own word and every word belongs to one
      pair, so the expansion writes each of the 1024 words exactly once. */
  lemma SlotBijection(lane: nat, b: nat, s: nat)
    requires lane < 4 && b < 256 && s < SBOX_WORDS
    ensures SlotLane(Slot(lane, b)) == lane && SlotByte(Slot(lane, b)) == b
    ensures SlotLane(s) < 4 && SlotByte(s) < 256 && Slot(SlotLane(s), SlotByte(s)) == s
  {
  }

  /** The exclusive or of four words. */
  function Xor4(a: bv32, b: bv32, c: bv32, d: bv32): bv32 {
    a ^ b ^ c ^ d
  }

  /** `Fe32_(x,R)`: one lookup per lane, lane `N` indexed by byte `R + N`. */
  function Fe32(sBox: seq<bv32>, x: bv32, r: nat): bv32
    requires |sBox| == SBOX_WORDS
  {
    Xor4(sBox[Slot(0, Index(ByteOf(x, r)))], sBox[Slot(1, Index(ByteOf(x, r + 1)))],
         sBox[Slot(2, Index(ByteOf(x, r + 2)))], sBox[Slot(3, Index(ByteOf(x, r + 3)))])
  }

  /** The second F input of a round, `Fe32_(x,3)`, is the first form applied
      to `x` rotated left by 8. */
  lemma Fe32Rotated(sBox: seq<bv32>, x: bv32)
    requires |sBox| == SBOX_WORDS
    ensures Fe32(sBox, x, 3) == Fe32(sBox, Rol(x, 8), 0)
  {
    ByteOfRotated(x, 0);
    ByteOfRotated(x, 1);
    ByteOfRotated(x, 2);
    ByteOfRotated(x, 3);
    Fe32SameBytes(sBox, x, 3, Rol(x, 8), 0);
  }

  /** `Fe32_` depends on its input only through the four bytes it reads. */
  lemma Fe32SameBytes(sBox: seq<bv32>, x: bv32, r: nat, y: bv32, r': nat)
    requires |sBox| == SBOX_WORDS
    requires ByteOf(x, r) == ByteOf(y, r') && ByteOf(x, r + 1) == ByteOf(y, r' + 1)
    requires ByteOf(x, r + 2) == ByteOf(y, r' + 2) && ByteOf(x, r + 3) == ByteOf(y, r' + 3)
    ensures Fe32(sBox, x, r) == Fe32(sBox, y, r')
  {
  }

  // ---------------------------------------------------------------------
  // The keyed function

  /** Number of 64-bit key words for a key length in bits. */
  function KeyWords64(keyLen: nat): nat {
    (keyLen + 63) / 64
  }

  /** One byte through the keyed permutations of lane `lane` for `c` 64-bit
      key words, given the lane's bytes `k0 .. k3` of the four key words:
      stages 4 and 3 only for the longer keys, then stages 2 and 1, each
      followed by the matching key byte.  The last stage, `p8(N0)`, is folded
      into the MDS column. */
  function Lane(t: Tables, lane: nat, y: bv8, k0: bv8, k1: bv8, k2: bv8, k3: bv8, c: nat): bv8 {
    var y4 := if c == 4 then XorByte(P8(t, lane, 4, y), k3) else y;
    var y3 := if c >= 3 then XorByte(P8(t, lane, 3, y4), k2) else y4;
    XorByte(P8(t, lane, 1, XorByte(P8(t, lane, 2, y3), k1)), k0)
  }

  /** `Lane` with the key bytes taken from byte `lane` of each key word. */
  function KeyLane(t: Tables, lane: nat, y: bv8, k: seq<bv32>, c: nat): bv8
    requires |k| == 4
  {
    Lane(t, lane, y, ByteOf(k[0], lane), ByteOf(k[1], lane), ByteOf(k[2], lane), ByteOf(k[3], lane), c)
  }

  /** The sum of the four built MDS columns for the lane outputs `l0 .. l3`. */
  function Columns(t: Tables, l0: bv8, l1: bv8, l2: bv8, l3: bv8): bv32 {
    Xor4(MdsEntry(t, 0, l0), MdsEntry(t, 1, l1), MdsEntry(t, 2, l2), MdsEntry(t, 3, l3))
  }

  /** The `F32` macro of the key schedule: a lane byte per input byte, then one
      built MDS column lookup per lane.  Key lengths of 128, 192 and 256 bits
      give 2, 3 or 4 64-bit words, the three cases of its fall-through switch. */
  function F32(t: Tables, x: bv32, k: seq<bv32>, c: nat): bv32
    requires |k| == 4 && 2 <= c <= 4
  {
    Columns(t, KeyLane(t, 0, ByteOf(x, 0), k, c), KeyLane(t, 1, ByteOf(x, 1), k, c),
               KeyLane(t, 2, ByteOf(x, 2), k, c), KeyLane(t, 3, ByteOf(x, 3), k, c))
  }

  /** Row `i` of the MDS matrix times the column of lane outputs `b0 .. b3`. */
  function MdsRow(t: Tables, i: nat, b0: bv8, b1: bv8, b2: bv8, b3: bv8): bv8 {
    XorByte(XorByte(XorByte(Mul(t, t.mij(i, 0), b0), Mul(t, t.mij(i, 1), b1)), Mul(t, t.mij(i, 2), b2)),
            Mul(t, t.mij(i, 3), b3))
  }

  /** The pedagogical `f32`: run each byte through all its permutations,
      including the last one, then multiply by the MDS matrix entry by entry. */
  function F32Reference(t: Tables, x: bv32, k: seq<bv32>, keyLen: nat): bv32
    requires |k| == 4 && 2 <= KeyWords64(keyLen) <= 4
  {
    var c := KeyWords64(keyLen);
    var b0 := P8(t, 0, 0, KeyLane(t, 0, ByteOf(x, 0), k, c));
    var b1 := P8(t, 1, 0, KeyLane(t, 1, ByteOf(x, 1), k, c));
    var b2 := P8(t, 2, 0, KeyLane(t, 2, ByteOf(x, 2), k, c));
    var b3 := P8(t, 3, 0, KeyLane(t, 3, ByteOf(x, 3), k, c));
    LeWord(MdsRow(t, 0, b0, b1, b2, b3), MdsRow(t, 1, b0, b1, b2, b3),
           MdsRow(t, 2, b0, b1, b2, b3), MdsRow(t, 3, b0, b1, b2, b3))
  }

  /** Byte `i` of an exclusive or of four words. */
  lemma ByteOfXor4(a: bv32, b: bv32, c: bv32, d: bv32, i: nat)
    ensures ByteOf(Xor4(a, b, c, d), i) == XorByte(XorByte(XorByte(ByteOf(a, i), ByteOf(b, i)), ByteOf(c, i)), ByteOf(d, i))
  {
    match i % 4
    case 0 =>
    case 1 =>
    case 2 =>
    case _ =>
  }

  /** The table-driven `F32` computes the keyed function of the pedagogical
      `f32`: the precomputed MDS columns are the matrix product. */
  lemma F32MatchesReference(t: Tables, x: bv32, k: seq<bv32>, keyLen: nat)
    requires |k| == 4 && 2 <= KeyWords64(keyLen) <= 4
    ensures F32(t, x, k, KeyWords64(keyLen)) == F32Reference(t, x, k, keyLen)
  {
    var c := KeyWords64(keyLen);
    var l0, l1 := KeyLane(t, 0, ByteOf(x, 0), k, c), KeyLane(t, 1, ByteOf(x, 1), k, c);
    var l2, l3 := KeyLane(t, 2, ByteOf(x, 2), k, c), KeyLane(t, 3, ByteOf(x, 3), k, c);
    ColumnsAreMatrix(t, l0, l1, l2, l3);
  }

  /** The four precomputed columns add up to the MDS matrix product of the
      permuted lane outputs. */
  lemma ColumnsAreMatrix(t: Tables, l0: bv8, l1: bv8, l2: bv8, l3: bv8)
    ensures Columns(t, l0, l1, l2, l3)
         == var b0, b1, b2, b3 := P8(t, 0, 0, l0), P8(t, 1, 0, l1), P8(t, 2, 0, l2), P8(t, 3, 0, l3);
            LeWord(MdsRow(t, 0, b0, b1, b2, b3), MdsRow(t, 1, b0, b1, b2, b3),
                   MdsRow(t, 2, b0, b1, b2, b3), MdsRow(t, 3, b0, b1, b2, b3))
  {
    var f := Columns(t, l0, l1, l2, l3);
    var b0, b1, b2, b3 := P8(t, 0, 0, l0), P8(t, 1, 0, l1), P8(t, 2, 0, l2), P8(t, 3, 0, l3);
    var r := LeWord(MdsRow(t, 0, b0, b1, b2, b3), MdsRow(t, 1, b0, b1, b2, b3),
                    MdsRow(t, 2, b0, b1, b2, b3), MdsRow(t, 3, b0, b1, b2, b3));
    ColumnByte(t, l0, l1, l2, l3, 0);
    ColumnByte(t, l0, l1, l2, l3, 1);
    ColumnByte(t, l0, l1, l2, l3, 2);
    ColumnByte(t, l0, l1, l2, l3, 3);
    BytesDetermineWord(f, r);
  }

  /** Byte `i` of the column sum is row `i` of the matrix product. */
  lemma ColumnByte(t: Tables, l0: bv8, l1: bv8, l2: bv8, l3: bv8, i: nat)
    requires i < 4
    ensures ByteOf(Columns(t, l0, l1, l2, l3), i)
         == MdsRow(t, i, P8(t, 0, 0, l0), P8(t, 1, 0, l1), P8(t, 2, 0, l2), P8(t, 3, 0, l3))
  {
    ByteOfXor4(MdsEntry(t, 0, l0), MdsEntry(t, 1, l1), MdsEntry(t, 2, l2), MdsEntry(t, 3, l3), i);
  }

  /** `F32` reads only the first `c` key words, so the zeroed words past them
      in `k32e`, `k32o` and `sKey` make no difference. */
  lemma F32UsesKeyWords(t: Tables, x: bv32, k: seq<bv32>, k': seq<bv32>, c: nat)
    requires |k| == 4 && |k'| == 4 && 2 <= c <= 4
    requires forall i :: 0 <= i < c ==> k[i] == k'[i]
    ensures F32(t, x, k, c) == F32(t, x, k', c)
  {
    assert k[0] == k'[0] && k[1] == k'[1] && (c >= 3 ==> k[2] == k'[2]) && (c == 4 ==> k[3] == k'[3]);
  }

  // ---------------------------------------------------------------------
  // Copying a permutation table with a key byte folded in

  /** `0x01010101u * b`: the byte `b` in all four lanes of a dword. */
  function Replicate(b: bv8): (w: bv32)
    ensures ByteOf(w, 0) == b && ByteOf(w, 1) == b && ByteOf(w, 2) == b && ByteOf(w, 3) == b
  {
    0x01010101 * (b as bv32)
  }

  /** The dword of a byte table that holds byte `i`. */
  function Dword(src: seq<bv8>, i: nat): (m: seq<bv8>)
    requires i < |src| && |src| % 4 == 0
    ensures |m| == 4 && m[i % 4] == src[i]
  {
    src[4 * (i / 4) .. 4 * (i / 4) + 4]
  }

  /** `Xor32`, seen from byte `i`: the dword holding it is loaded natively,
      xored with `tmpX` and stored back, so byte `i` is the byte of
      significance `LaneOf(e, i % 4)` of the result. */
  function Xor32At(e: Endian, src: seq<bv8>, tmpX: bv32, i: nat): bv8
    requires |src| == 256 && i < 256
  {
    ByteOf(Xor(NativeLoad(e, Dword(src, i)), tmpX), LaneOf(e, i % 4))
  }

  /** A dword holding `b` in every lane adds `b` to the byte of every
      significance. */
  lemma XorLane(w: bv32, b: bv8, tmpX: bv32, n: nat)
    requires n < 4
    requires ByteOf(tmpX, 0) == b && ByteOf(tmpX, 1) == b && ByteOf(tmpX, 2) == b && ByteOf(tmpX, 3) == b
    ensures ByteOf(Xor(w, tmpX), n) == XorByte(ByteOf(w, n), b)
  {
    ByteOfXor(w, tmpX, n);
  }

  /** On either endianness the dword-wide exclusive or with the replicated
      byte adds the key byte to each table byte. */
  lemma Xor32AtAddsKey(e: Endian, src: seq<bv8>, b: bv8, tmpX: bv32, i: nat)
    requires |src| == 256 && i < 256
    requires ByteOf(tmpX, 0) == b && ByteOf(tmpX, 1) == b && ByteOf(tmpX, 2) == b && ByteOf(tmpX, 3) == b
    ensures Xor32At(e, src, tmpX, i) == XorByte(src[i], b)
  {
    var m := Dword(src, i);
    LoadLane(e, m, i % 4);
    XorLane(NativeLoad(e, m), b, tmpX, LaneOf(e, i % 4));
  }

  /** `Xor256(dst,src,b)`: the 256-byte table `src` with `b` added to every
      byte, computed sixty-four dwords at a time with `tmpX = 0x01010101u * b`. */
  function Xor256(e: Endian, src: seq<bv8>, b: bv8): (dst: seq<bv8>)
    requires |src| == 256
    ensures |dst| == 256
    ensures forall i :: 0 <= i < 256 ==> dst[i] == XorByte(src[i], b)
  {
    Xor32All(e, src, b, Replicate(b))
  }

  /** The sixty-four `Xor32` steps with a given `tmpX`. */
  function Xor32All(e: Endian, src: seq<bv8>, b: bv8, tmpX: bv32): (dst: seq<bv8>)
    requires |src| == 256
    requires ByteOf(tmpX, 0) == b && ByteOf(tmpX, 1) == b && ByteOf(tmpX, 2) == b && ByteOf(tmpX, 3) == b
    ensures |dst| == 256
    ensures forall i :: 0 <= i < 256 ==> dst[i] == XorByte(src[i], b)
  {
    seq(256, i requires 0 <= i < 256 => XorByteAt(e, src, b, tmpX, i))
  }

  function XorByteAt(e: Endian, src: seq<bv8>, b: bv8, tmpX: bv32, i: nat): (v: bv8)
    requires |src| == 256 && i < 256
    requires ByteOf(tmpX, 0) == b && ByteOf(tmpX, 1) == b && ByteOf(tmpX, 2) == b && ByteOf(tmpX, 3) == b
    ensures v == XorByte(src[i], b)
  {
    Xor32AtAddsKey(e, src, b, tmpX, i);
    Xor32At(e, src, tmpX, i)
  }

  // ---------------------------------------------------------------------
  // S-box keys

  /** Remainder steps per 32 key bits: one per byte. */
  const RS_SHIFTS: nat := 4

  /** `RS_rem` applied `n` times. */
  function RsSteps(t: Tables, x: bv32, n: nat): bv32 {
    if n == 0 then x else t.rsRem(RsSteps(t, x, n - 1))
  }

  /** The Reed-Solomon code word of the 64-bit key word `(k0, k1)`: `k1`
      shifted through four remainder steps, then `k0` merged in and shifted
      through four more. */
  function RsCodeWord(t: Tables, k0: bv32, k1: bv32): bv32 {
    RsSteps(t, Xor(RsSteps(t, k1, RS_SHIFTS), k0), RS_SHIFTS)
  }

  /** `RS_MDS_Encode(k0,k1)`: two passes, each merging in 32 key bits and
      shifting one byte at a time. */
  method RsMdsEncode(t: Tables, k0: bv32, k1: bv32) returns (ret: bv32)
    ensures ret == RsCodeWord(t, k0, k1)
  {
    ret := 0;
    var cnt := 0;
    while cnt < 2
      invariant 0 <= cnt <= 2
      invariant cnt == 0 ==> ret == 0
      invariant cnt == 1 ==> ret == RsSteps(t, k1, RS_SHIFTS)
      invariant cnt == 2 ==> ret == RsCodeWord(t, k0, k1)
    {
      var start := Xor(ret, if cnt != 0 then k0 else k1);
      ret := start;
      var shft := 0;
      while shft < 4
        invariant 0 <= shft <= 4
        invariant ret == RsSteps(t, start, shft)
      {
        ret := t.rsRem(ret);
        shft := shft + 1;
      }
      if cnt == 0 {
        assert start == k1;
      }
      cnt := cnt + 1;
    }
  }

  /** The S-box key words in reverse order: `sKey[c-1-i]` encodes the 64-bit
      key word `i`; words past the first `c` keep `prior`. */
  function SboxKeys(t: Tables, key32: seq<bv32>, c: nat, prior: seq<bv32>): (s: seq<bv32>)
    requires |key32| == 8 && c <= 4 && |prior| == 4
    ensures |s| == 4
    ensures forall i :: 0 <= i < c ==> s[c - 1 - i] == RsCodeWord(t, key32[2 * i], key32[2 * i + 1])
    ensures forall j :: c <= j < 4 ==> s[j] == prior[j]
  {
    var s := seq(4, j requires 0 <= j < 4 => SboxKeyAt(t, key32, c, prior, j));
    assert forall i :: 0 <= i < c ==> s[c - 1 - i] == RsCodeWord(t, key32[2 * i], key32[2 * i + 1]) by {
      forall i | 0 <= i < c
        ensures s[c - 1 - i] == RsCodeWord(t, key32[2 * i], key32[2 * i + 1])
      {
        assert c - 1 - (c - 1 - i) == i;
      }
    }
    s
  }

  /** Slot `j` of `SboxKeys`: 64-bit key word `c-1-j` encoded, or `prior`. */
  function SboxKeyAt(t: Tables, key32: seq<bv32>, c: nat, prior: seq<bv32>, j: nat): bv32
    requires |key32| == 8 && c <= 4 && |prior| == 4 && j < 4
  {
    if j < c then RsCodeWord(t, key32[2 * (c - 1 - j)], key32[2 * (c - 1 - j) + 1]) else prior[j]
  }

  /** `k32e`, `k32o`: the even and odd dwords of the first `c` 64-bit key
      words, zero past them. */
  function EvenWords(key32: seq<bv32>, c: nat): (k: seq<bv32>)
    requires |key32| == 8 && c <= 4
    ensures |k| == 4 && forall i :: 0 <= i < c ==> k[i] == key32[2 * i]
  {
    seq(4, i requires 0 <= i < 4 => if i < c then key32[2 * i] else 0)
  }

  function OddWords(key32: seq<bv32>, c: nat): (k: seq<bv32>)
    requires |key32| == 8 && c <= 4
    ensures |k| == 4 && forall i :: 0 <= i < c ==> k[i] == key32[2 * i + 1]
  {
    seq(4, i requires 0 <= i < 4 => if i < c then key32[2 * i + 1] else 0)
  }

  // ---------------------------------------------------------------------
  // Round subkeys

  /** `q` of subkey pair `i`: `i` steps of `2*rho`, as the `uint32_t`
      accumulator `q += SK_STEP` holds it. */
  function Step(i: nat): bv32 {
    ((i % 0x1_0000_0000) as bv32) * SK_STEP
  }

  /** The pseudo-Hadamard transform of the key schedule: the first word is
      `A + B`, the second `ROL(A + 2B, 9)`, in 32-bit arithmetic. */
  function Pht0(a: bv32, b: bv32): bv32 {
    Add(a, b)
  }

  function Pht1(a: bv32, b: bv32): bv32 {
    Rol(Add(a, Twice(b)), SK_ROTL)
  }

  /** The PHT loses nothing: `B = ROR(s1, 9) - s0` and `A = s0 - B`. */
  lemma PhtInverse(a: bv32, b: bv32)
    ensures Sub(Ror(Pht1(a, b), SK_ROTL), Pht0(a, b)) == b
    ensures Sub(Pht0(a, b), Sub(Ror(Pht1(a, b), SK_ROTL), Pht0(a, b))) == a
  {
    RotationsUsed(Add(a, Twice(b)));
    PhtArith(a, b);
  }

  lemma PhtArith(a: bv32, b: bv32)
    ensures Sub(Add(a, Twice(b)), Add(a, b)) == b && Sub(Add(a, b), b) == a
  {
  }

  /** `A` of subkey pair `i`: the keyed function of `q` on the even key words. */
  function PairA(t: Tables, ke: seq<bv32>, c: nat, i: nat): bv32
    requires |ke| == 4 && 2 <= c <= 4
  {
    F32(t, Step(i), ke, c)
  }

  /** `B` of subkey pair `i`: the keyed function of `q + rho` on the odd key
      words, rotated left by 8. */
  function PairB(t: Tables, ko: seq<bv32>, c: nat, i: nat): bv32
    requires |ko| == 4 && 2 <= c <= 4
  {
    Rol(F32(t, Add(Step(i), SK_BUMP), ko, c), 8)
  }

  /** The subkey loop over the pair functions `a` and `b`: words `2i` and
      `2i+1` are the PHT of pair `i` for the `4 + n` pairs of the whitening
      and `n` rounds; words past them keep `prior`. */
  function PhtSchedule(a: nat -> bv32, b: nat -> bv32, n: nat, prior: seq<bv32>): (sk: seq<bv32>)
    requires n <= MAX_ROUNDS && |prior| == TOTAL_SUBKEYS
    ensures |sk| == TOTAL_SUBKEYS
    ensures forall k :: ROUND_SUBKEYS + 2 * n <= k < TOTAL_SUBKEYS ==> sk[k] == prior[k]
  {
    seq(TOTAL_SUBKEYS, k requires 0 <= k < TOTAL_SUBKEYS =>
      if k < ROUND_SUBKEYS + 2 * n then PhtWord(k, a(k / 2), b(k / 2)) else prior[k])
  }

  function PhtWord(k: nat, a: bv32, b: bv32): bv32 {
    if k % 2 == 0 then Pht0(a, b) else Pht1(a, b)
  }

  /** The subkeys of the key words `ke` (even) and `ko` (odd). */
  function Subkeys(t: Tables, ke: seq<bv32>, ko: seq<bv32>, c: nat, n: nat, prior: seq<bv32>): (sk: seq<bv32>)
    requires |ke| == 4 && |ko| == 4 && 2 <= c <= 4 && n <= MAX_ROUNDS && |prior| == TOTAL_SUBKEYS
    ensures |sk| == TOTAL_SUBKEYS
  {
    PhtSchedule((i: nat) => PairA(t, ke, c, i), (i: nat) => PairB(t, ko, c, i), n, prior)
  }

  /** Words `2i` and `2i+1` of the schedule are the PHT of pair `i`. */
  lemma PhtScheduleAt(a: nat -> bv32, b: nat -> bv32, n: nat, prior: seq<bv32>, i: nat)
    requires n <= MAX_ROUNDS && |prior| == TOTAL_SUBKEYS
    requires i < ROUND_SUBKEYS / 2 + n
    ensures PhtSchedule(a, b, n, prior)[2 * i] == Pht0(a(i), b(i))
    ensures PhtSchedule(a, b, n, prior)[2 * i + 1] == Pht1(a(i), b(i))
  {
    Halves(i);
  }

  lemma Halves(i: nat)
    ensures (2 * i) % 2 == 0 && (2 * i) / 2 == i && (2 * i + 1) % 2 == 1 && (2 * i + 1) / 2 == i
  {
  }

  /** Each subkey pair gives back both values it was built from:
      `B = ROR(s1, 9) - s0` and `A = s0 - B`. */
  lemma PhtScheduleRecovers(a: nat -> bv32, b: nat -> bv32, n: nat, prior: seq<bv32>, i: nat)
    requires n <= MAX_ROUNDS && |prior| == TOTAL_SUBKEYS
    requires i < ROUND_SUBKEYS / 2 + n
    ensures var sk := PhtSchedule(a, b, n, prior);
            && Sub(Ror(sk[2 * i + 1], SK_ROTL), sk[2 * i]) == b(i)
            && Sub(sk[2 * i], Sub(Ror(sk[2 * i + 1], SK_ROTL), sk[2 * i])) == a(i)
  {
    PhtScheduleAt(a, b, n, prior, i);
    PhtInverse(a(i), b(i));
  }

  /** The subkeys give back the keyed-function outputs of every pair: `B` is
      `F32(q + rho)` on the odd key words rotated by 8, `A` is `F32(q)` on
      the even ones. */
  lemma SubkeysRecoverF32(t: Tables, ke: seq<bv32>, ko: seq<bv32>, c: nat, n: nat, prior: seq<bv32>, i: nat)
    requires |ke| == 4 && |ko| == 4 && 2 <= c <= 4 && n <= MAX_ROUNDS && |prior| == TOTAL_SUBKEYS
    requires i < ROUND_SUBKEYS / 2 + n
    ensures var sk := Subkeys(t, ke, ko, c, n, prior);
            && Sub(Ror(sk[2 * i + 1], SK_ROTL), sk[2 * i]) == Rol(F32(t, Add(Step(i), SK_BUMP), ko, c), 8)
            && Sub(sk[2 * i], Sub(Ror(sk[2 * i + 1], SK_ROTL), sk[2 * i])) == F32(t, Step(i), ke, c)
  {
    PhtScheduleRecovers((i: nat) => PairA(t, ke, c, i), (i: nat) => PairB(t, ko, c, i), n, prior, i);
  }

  /** Subkey pair `i` is the PHT of `A = F32(i * SK_STEP, ke)` and
      `B = ROL(F32(i * SK_STEP + SK_BUMP, ko), 8)`. */
  lemma SubkeysAt(t: Tables, ke: seq<bv32>, ko: seq<bv32>, c: nat, n: nat, prior: seq<bv32>, i: nat)
    requires |ke| == 4 && |ko| == 4 && 2 <= c <= 4 && n <= MAX_ROUNDS && |prior| == TOTAL_SUBKEYS
    requires i < ROUND_SUBKEYS / 2 + n
    ensures var sk := Subkeys(t, ke, ko, c, n, prior);
            && sk[2 * i] == Pht0(PairA(t, ke, c, i), PairB(t, ko, c, i))
            && sk[2 * i + 1] == Pht1(PairA(t, ke, c, i), PairB(t, ko, c, i))
  {
    PhtScheduleAt((i: nat) => PairA(t, ke, c, i), (i: nat) => PairB(t, ko, c, i), n, prior, i);
  }

  // ---------------------------------------------------------------------
  // S-box expansion

  /** `row[v]` for a byte-valued index into a 256-byte table. */
  function Lookup(row: seq<bv8>, v: bv8): bv8
    requires |row| == 256
  {
    row[Index(v)]
  }

  /** The `L0[i] = p8(N3)[L1[i]]` loop: every byte of `l` through `row`. */
  function Permute(row: seq<bv8>, l: seq<bv8>): (r: seq<bv8>)
    requires |row| == 256 && |l| == 256
    ensures |r| == 256 && forall i :: 0 <= i < 256 ==> r[i] == Lookup(row, l[i])
  {
    seq(256, i requires 0 <= i < 256 => Lookup(row, l[i]))
  }

  /** `p8(N1)[p8(N2)[v]^k1]^k0`, the last two keyed stages by table lookup. */
  function LastStages(t: Tables, lane: nat, v: bv8, k0: bv8, k1: bv8): bv8 {
    XorByte(Lookup(P8Row(t, lane, 1), XorByte(Lookup(P8Row(t, lane, 2), v), k1)), k0)
  }

  /** The lane byte the S-box holds at input `i`, for lane `lane`: the
      table `L0` of the switch on the key length, run through the last two
      stages unless the 128-bit case already folded them into `bigTab`. */
  function SboxBytes(e: Endian, t: Tables, sKey: seq<bv32>, keyLen: nat, lane: nat): (l: seq<bv8>)
    requires lane < 4 && |sKey| == 4 && IsKeyLength(keyLen)
    ensures |l| == 256
  {
    var k0, k1 := ByteOf(sKey[0], lane), ByteOf(sKey[1], lane);
    var k2, k3 := ByteOf(sKey[2], lane), ByteOf(sKey[3], lane);
    if keyLen == 128 then Xor256(e, BigTable(t)[lane][Index(k1)], k0)
    else LongerBytes(e, t, sKey, keyLen, lane)
  }

  /** The lane bytes of the longer keys: `L0` through the last two stages. */
  function LongerBytes(e: Endian, t: Tables, sKey: seq<bv32>, keyLen: nat, lane: nat): (l: seq<bv8>)
    requires lane < 4 && |sKey| == 4
    ensures |l| == 256
  {
    var k0, k1 := ByteOf(sKey[0], lane), ByteOf(sKey[1], lane);
    var l0 := L0Table(e, t, sKey, keyLen, lane);
    seq(256, i requires 0 <= i < 256 => LastStages(t, lane, l0[i], k0, k1))
  }

  /** The table `L0` of the longer keys: `p8(N3)` keyed by `k2` for 192
      bits, after `p8(N4)` keyed by `k3` for 256. */
  function L0Table(e: Endian, t: Tables, sKey: seq<bv32>, keyLen: nat, lane: nat): (l: seq<bv8>)
    requires lane < 4 && |sKey| == 4
    ensures |l| == 256
  {
    var k2, k3 := ByteOf(sKey[2], lane), ByteOf(sKey[3], lane);
    if keyLen == 192 then Xor256(e, P8Row(t, lane, 3), k2)
    else Xor256(e, Permute(P8Row(t, lane, 3), Xor256(e, P8Row(t, lane, 4), k3)), k2)
  }

  /** The S-box bytes are the keyed permutations of the lane, for every
      input byte and each of the three key lengths. */
  lemma SboxBytesAreKeyLane(e: Endian, t: Tables, sKey: seq<bv32>, keyLen: nat, lane: nat, y: bv8)
    requires lane < 4 && |sKey| == 4 && IsKeyLength(keyLen)
    ensures SboxBytes(e, t, sKey, keyLen, lane)[Index(y)] == KeyLane(t, lane, y, sKey, KeyWords64(keyLen))
  {
    if keyLen == 128 {
      SboxBytes128(e, t, sKey, lane, y);
    } else if keyLen == 192 {
      SboxBytes192(e, t, sKey, lane, y);
    } else {
      SboxBytes256(e, t, sKey, lane, y);
    }
  }

  lemma SboxBytes128(e: Endian, t: Tables, sKey: seq<bv32>, lane: nat, y: bv8)
    requires lane < 4 && |sKey| == 4
    ensures SboxBytes(e, t, sKey, 128, lane)[Index(y)] == KeyLane(t, lane, y, sKey, 2)
  {
    BigTableEntry(t, lane, ByteOf(sKey[1], lane), y);
  }

  lemma SboxBytes192(e: Endian, t: Tables, sKey: seq<bv32>, lane: nat, y: bv8)
    requires lane < 4 && |sKey| == 4
    ensures SboxBytes(e, t, sKey, 192, lane)[Index(y)] == KeyLane(t, lane, y, sKey, 3)
  {
    var k0, k1 := ByteOf(sKey[0], lane), ByteOf(sKey[1], lane);
    var l0 := L0Table(e, t, sKey, 192, lane);
    assert SboxBytes(e, t, sKey, 192, lane)[Index(y)] == LastStages(t, lane, l0[Index(y)], k0, k1);
    L0Byte192(e, t, sKey, lane, y);
    LastStagesArePermutations(t, lane, l0[Index(y)], k0, k1);
  }

  lemma SboxBytes256(e: Endian, t: Tables, sKey: seq<bv32>, lane: nat, y: bv8)
    requires lane < 4 && |sKey| == 4
    ensures SboxBytes(e, t, sKey, 256, lane)[Index(y)] == KeyLane(t, lane, y, sKey, 4)
  {
    var k0, k1 := ByteOf(sKey[0], lane), ByteOf(sKey[1], lane);
    var l0 := L0Table(e, t, sKey, 256, lane);
    assert SboxBytes(e, t, sKey, 256, lane)[Index(y)] == LastStages(t, lane, l0[Index(y)], k0, k1);
    L0Byte256(e, t, sKey, lane, y);
    LastStagesArePermutations(t, lane, l0[Index(y)], k0, k1);
  }

  /** Byte `y` of `L0` for 192-bit keys: the third keyed stage. */
  lemma L0Byte192(e: Endian, t: Tables, sKey: seq<bv32>, lane: nat, y: bv8)
    requires lane < 4 && |sKey| == 4
    ensures L0Table(e, t, sKey, 192, lane)[Index(y)] == XorByte(P8(t, lane, 3, y), ByteOf(sKey[2], lane))
  {
    P8RowEntry(t, lane, 3, y);
  }

  /** Byte `y` of `L0` for 256-bit keys: the fourth and third keyed stages. */
  lemma L0Byte256(e: Endian, t: Tables, sKey: seq<bv32>, lane: nat, y: bv8)
    requires lane < 4 && |sKey| == 4
    ensures L0Table(e, t, sKey, 256, lane)[Index(y)]
         == XorByte(P8(t, lane, 3, XorByte(P8(t, lane, 4, y), ByteOf(sKey[3], lane))), ByteOf(sKey[2], lane))
  {
    var k3 := ByteOf(sKey[3], lane);
    P8RowEntry(t, lane, 4, y);
    P8RowEntry(t, lane, 3, XorByte(P8(t, lane, 4, y), k3));
  }

  lemma LastStagesArePermutations(t: Tables, lane: nat, v: bv8, k0: bv8, k1: bv8)
    ensures LastStages(t, lane, v, k0, k1) == XorByte(P8(t, lane, 1, XorByte(P8(t, lane, 2, v), k1)), k0)
  {
    P8RowEntry(t, lane, 2, v);
    P8RowEntry(t, lane, 1, XorByte(P8(t, lane, 2, v), k1));
  }

  /** The 256 words of lane `lane`: `sbSet` stores `MDStab[N][v]` for the
      lane byte `v` of every input. */
  function SboxColumn(e: Endian, t: Tables, sKey: seq<bv32>, keyLen: nat, lane: nat): (col: seq<bv32>)
    requires lane < 4 && |sKey| == 4 && IsKeyLength(keyLen)
    ensures |col| == 256
  {
    var l := SboxBytes(e, t, sKey, keyLen, lane);
    seq(256, i requires 0 <= i < 256 => MdsTable(t)[lane][Index(l[i])])
  }

  function IsKeyLength(keyLen: nat): bool {
    keyLen == 128 || keyLen == 192 || keyLen == 256
  }

  /** The switch on the key length: the four lanes written into their
      interleaved slots for the three key lengths, and `prior` untouched for
      any other length, which the switch has no case for. */
  function ExpandSbox(e: Endian, t: Tables, sKey: seq<bv32>, keyLen: nat, prior: seq<bv32>): (sBox: seq<bv32>)
    requires |sKey| == 4 && |prior| == SBOX_WORDS
    ensures |sBox| == SBOX_WORDS
    ensures !IsKeyLength(keyLen) ==> sBox == prior
  {
    if IsKeyLength(keyLen) then Interleave(LaneColumns(e, t, sKey, keyLen)) else prior
  }

  /** The columns of the four lanes. */
  function LaneColumns(e: Endian, t: Tables, sKey: seq<bv32>, keyLen: nat): (cols: seq<seq<bv32>>)
    requires |sKey| == 4 && IsKeyLength(keyLen)
    ensures |cols| == 4
    ensures forall lane :: 0 <= lane < 4 ==> cols[lane] == SboxColumn(e, t, sKey, keyLen, lane)
    ensures forall lane :: 0 <= lane < 4 ==> |cols[lane]| == 256
  {
    seq(4, lane requires 0 <= lane < 4 => SboxColumn(e, t, sKey, keyLen, lane))
  }

  /** Four 256-word columns laid out in the interleaved slots. */
  function Interleave(cols: seq<seq<bv32>>): (sBox: seq<bv32>)
    requires |cols| == 4 && forall lane :: 0 <= lane < 4 ==> |cols[lane]| == 256
    ensures |sBox| == SBOX_WORDS
  {
    seq(SBOX_WORDS, s requires 0 <= s < SBOX_WORDS =>
      SlotInRange(s);
      cols[SlotLane(s)][SlotByte(s)])
  }

  lemma InterleaveAt(cols: seq<seq<bv32>>, lane: nat, b: nat)
    requires |cols| == 4 && forall lane :: 0 <= lane < 4 ==> |cols[lane]| == 256
    requires lane < 4 && b < 256
    ensures Interleave(cols)[Slot(lane, b)] == cols[lane][b]
  {
    SlotBijection(lane, b, 0);
  }

  lemma SlotInRange(s: nat)
    requires s < SBOX_WORDS
    ensures SlotLane(s) < 4 && SlotByte(s) < 256
  {
  }

  /** Word `b` of a lane's column is the MDS column entry of the keyed lane
      byte. */
  lemma SboxColumnEntry(e: Endian, t: Tables, sKey: seq<bv32>, keyLen: nat, lane: nat, b: bv8)
    requires lane < 4 && |sKey| == 4 && IsKeyLength(keyLen)
    ensures SboxColumn(e, t, sKey, keyLen, lane)[Index(b)] == MdsEntry(t, lane, KeyLane(t, lane, b, sKey, KeyWords64(keyLen)))
  {
    var l := SboxBytes(e, t, sKey, keyLen, lane);
    SboxBytesAreKeyLane(e, t, sKey, keyLen, lane, b);
    MdsTableEntry(t, lane, l[Index(b)]);
  }

  /** The expanded S-box word that `Fe32_` reads for lane `lane` and byte `b`. */
  lemma SboxLookup(e: Endian, t: Tables, sKey: seq<bv32>, keyLen: nat, prior: seq<bv32>, lane: nat, b: bv8)
    requires lane < 4 && |sKey| == 4 && |prior| == SBOX_WORDS && IsKeyLength(keyLen)
    ensures ExpandSbox(e, t, sKey, keyLen, prior)[Slot(lane, Index(b))]
         == MdsEntry(t, lane, KeyLane(t, lane, b, sKey, KeyWords64(keyLen)))
  {
    var cols := LaneColumns(e, t, sKey, keyLen);
    assert ExpandSbox(e, t, sKey, keyLen, prior) == Interleave(cols);
    InterleaveAt(cols, lane, Index(b));
    SboxColumnEntry(e, t, sKey, keyLen, lane, b);
  }

  /** The expanded S-box computes the keyed function: `Fe32_(x,0)` equals
      `F32(x)` on the S-box keys, for every input word. */
  lemma ExpandedSboxIsF32(e: Endian, t: Tables, sKey: seq<bv32>, keyLen: nat, prior: seq<bv32>, x: bv32)
    requires |sKey| == 4 && |prior| == SBOX_WORDS && IsKeyLength(keyLen)
    ensures Fe32(ExpandSbox(e, t, sKey, keyLen, prior), x, 0) == F32(t, x, sKey, KeyWords64(keyLen))
  {
    SboxLookup(e, t, sKey, keyLen, prior, 0, ByteOf(x, 0));
    SboxLookup(e, t, sKey, keyLen, prior, 1, ByteOf(x, 1));
    SboxLookup(e, t, sKey, keyLen, prior, 2, ByteOf(x, 2));
    SboxLookup(e, t, sKey, keyLen, prior, 3, ByteOf(x, 3));
  }

  // ---------------------------------------------------------------------
  // Reversing the round subkeys

  /** The word that round-subkey word `k` trades places with: pair `p` and
      pair `n - 1 - p` swap, each keeping its own word order. */
  function Mirror(n: nat, k: nat): nat
    requires ROUND_SUBKEYS <= k < ROUND_SUBKEYS + 2 * n
  {
    2 * ROUND_SUBKEYS + 2 * n - 2 - k + 2 * (k % 2)
  }

  /** The round subkeys of `n` rounds in reverse pair order; the whitening
      words and the words past the last round stay where they are. */
  function ReverseRounds(sk: seq<bv32>, n: nat): (r: seq<bv32>)
    requires |sk| == TOTAL_SUBKEYS && n <= MAX_ROUNDS
    ensures |r| == TOTAL_SUBKEYS
  {
    seq(TOTAL_SUBKEYS, k requires 0 <= k < TOTAL_SUBKEYS =>
      if ROUND_SUBKEYS <= k < ROUND_SUBKEYS + 2 * n then sk[Mirror(n, k)] else sk[k])
  }

  /** What the reversal means pair by pair: round pair `p` takes the words
      of pair `n - 1 - p` in their original order, and nothing outside the
      round subkeys moves. */
  lemma ReverseRoundsPairs(sk: seq<bv32>, n: nat)
    requires |sk| == TOTAL_SUBKEYS && n <= MAX_ROUNDS
    ensures forall p :: 0 <= p < n ==>
              && ReverseRounds(sk, n)[ROUND_SUBKEYS + 2 * p] == sk[ROUND_SUBKEYS + 2 * (n - 1 - p)]
              && ReverseRounds(sk, n)[ROUND_SUBKEYS + 2 * p + 1] == sk[ROUND_SUBKEYS + 2 * (n - 1 - p) + 1]
    ensures forall k :: 0 <= k < ROUND_SUBKEYS ==> ReverseRounds(sk, n)[k] == sk[k]
    ensures forall k :: ROUND_SUBKEYS + 2 * n <= k < TOTAL_SUBKEYS ==> ReverseRounds(sk, n)[k] == sk[k]
  {
    forall p | 0 <= p < n
      ensures ReverseRounds(sk, n)[ROUND_SUBKEYS + 2 * p] == sk[ROUND_SUBKEYS + 2 * (n - 1 - p)]
      ensures ReverseRounds(sk, n)[ROUND_SUBKEYS + 2 * p + 1] == sk[ROUND_SUBKEYS + 2 * (n - 1 - p) + 1]
    {
      MirrorEnds(n, ROUND_SUBKEYS + 2 * p, ROUND_SUBKEYS + 2 * (n - 1 - p));
    }
  }

  /** The two pairs at `r0` and `r1`, equally far from either end, are each
      other's mirror images. */
  lemma MirrorEnds(n: nat, r0: int, r1: int)
    requires r0 + r1 == 2 * ROUND_SUBKEYS + 2 * n - 2 && r0 % 2 == 0
    requires ROUND_SUBKEYS <= r0 && ROUND_SUBKEYS <= r1
    ensures r0 + 1 < ROUND_SUBKEYS + 2 * n && r1 + 1 < ROUND_SUBKEYS + 2 * n
    ensures Mirror(n, r0) == r1 && Mirror(n, r0 + 1) == r1 + 1
    ensures Mirror(n, r1) == r0 && Mirror(n, r1 + 1) == r0 + 1
  {
  }

  /** Reversing twice restores the subkeys. */
  lemma ReverseRoundsInvolution(sk: seq<bv32>, n: nat)
    requires |sk| == TOTAL_SUBKEYS && n <= MAX_ROUNDS
    ensures ReverseRounds(ReverseRounds(sk, n), n) == sk
  {
    var r := ReverseRounds(sk, n);
    var rr := ReverseRounds(r, n);
    forall k | 0 <= k < TOTAL_SUBKEYS
      ensures rr[k] == sk[k]
    {
      if ROUND_SUBKEYS <= k < ROUND_SUBKEYS + 2 * n {
        MirrorInvolution(n, k);
      }
    }
  }

  lemma MirrorInvolution(n: nat, k: nat)
    requires ROUND_SUBKEYS <= k < ROUND_SUBKEYS + 2 * n
    ensures ROUND_SUBKEYS <= Mirror(n, k) < ROUND_SUBKEYS + 2 * n
    ensures Mirror(n, Mirror(n, k)) == k
  {
  }

  /** Where word `k` comes from once the pairs before `r0` and their mirror
      images have been swapped. */
  function Source(n: nat, r0: int, k: nat): (s: nat)
    requires n <= MAX_ROUNDS && ROUND_SUBKEYS <= r0 <= ROUND_SUBKEYS + 2 * n && k < TOTAL_SUBKEYS
    ensures s < TOTAL_SUBKEYS
  {
    if ROUND_SUBKEYS <= k < r0 || 2 * ROUND_SUBKEYS + 2 * n - r0 <= k < ROUND_SUBKEYS + 2 * n then Mirror(n, k)
    else k
  }

  /** The loop's invariant: every word holds the word `Source` names. */
  ghost predicate SwappedUpTo(sk: seq<bv32>, n: nat, r: seq<bv32>, r0: int)
    requires |sk| == TOTAL_SUBKEYS && |r| == TOTAL_SUBKEYS && n <= MAX_ROUNDS
    requires ROUND_SUBKEYS <= r0 <= ROUND_SUBKEYS + 2 * n
  {
    forall k :: 0 <= k < TOTAL_SUBKEYS ==> r[k] == sk[Source(n, r0, k)]
  }

  /** One step of the loop: the pairs at `a` and `b` trade places through
      the temporaries `t0`, `t1`, each keeping its word order. */
  function SwapPairs(r: seq<bv32>, a: nat, b: nat): (r': seq<bv32>)
    requires a + 1 < b < |r| - 1
    ensures |r'| == |r|
  {
    seq(|r|, k requires 0 <= k < |r| =>
      if k == a then r[b] else if k == a + 1 then r[b + 1]
      else if k == b then r[a] else if k == b + 1 then r[a + 1]
      else r[k])
  }

  /** `ReverseRoundSubkeys`' loop: two pointers walk in from both ends of
      the round subkeys and swap whole pairs until they meet. */
  method ReverseRoundSubkeysLoop(sk: seq<bv32>, n: nat) returns (r: seq<bv32>)
    requires |sk| == TOTAL_SUBKEYS && n <= MAX_ROUNDS
    ensures r == ReverseRounds(sk, n)
  {
    r := sk;
    var r0: int := ROUND_SUBKEYS;
    var r1: int := ROUND_SUBKEYS + 2 * n - 2;
    while r0 < r1
      invariant |r| == TOTAL_SUBKEYS
      invariant r0 + r1 == 2 * ROUND_SUBKEYS + 2 * n - 2 && r0 % 2 == 0
      invariant ROUND_SUBKEYS <= r0 <= r1 + 2
      invariant SwappedUpTo(sk, n, r, r0)
      decreases r1 - r0
    {
      SwapStep(sk, n, r, r0, r1);
      r := SwapPairs(r, r0, r1);
      r0, r1 := r0 + 2, r1 - 2;
    }
    SwapDone(sk, n, r, r0, r1);
  }

  /** Swapping the pairs at the two pointers extends the reversed ends by
      one pair each. */
  lemma SwapStep(sk: seq<bv32>, n: nat, r: seq<bv32>, r0: int, r1: int)
    requires |sk| == TOTAL_SUBKEYS && |r| == TOTAL_SUBKEYS && n <= MAX_ROUNDS
    requires r0 + r1 == 2 * ROUND_SUBKEYS + 2 * n - 2 && r0 % 2 == 0
    requires ROUND_SUBKEYS <= r0 < r1
    requires SwappedUpTo(sk, n, r, r0)
    ensures SwappedUpTo(sk, n, SwapPairs(r, r0, r1), r0 + 2)
  {
    MirrorEnds(n, r0, r1);
    var r' := SwapPairs(r, r0, r1);
    forall k | 0 <= k < TOTAL_SUBKEYS
      ensures r'[k] == sk[Source(n, r0 + 2, k)]
    {
      if k == r0 {
        assert r'[k] == r[r1] && Source(n, r0, r1) == r1;
      } else if k == r0 + 1 {
        assert r'[k] == r[r1 + 1] && Source(n, r0, r1 + 1) == r1 + 1;
      } else if k == r1 {
        assert r'[k] == r[r0] && Source(n, r0, r0) == r0;
      } else if k == r1 + 1 {
        assert r'[k] == r[r0 + 1] && Source(n, r0, r0 + 1) == r0 + 1;
      } else {
        assert r'[k] == r[k] && Source(n, r0 + 2, k) == Source(n, r0, k);
      }
    }
  }

  /** Once the pointers meet, every round pair has been mirrored. */
  lemma SwapDone(sk: seq<bv32>, n: nat, r: seq<bv32>, r0: int, r1: int)
    requires |sk| == TOTAL_SUBKEYS && |r| == TOTAL_SUBKEYS && n <= MAX_ROUNDS
    requires r0 + r1 == 2 * ROUND_SUBKEYS + 2 * n - 2 && r0 % 2 == 0
    requires ROUND_SUBKEYS <= r0 && r1 <= r0 <= r1 + 2
    requires SwappedUpTo(sk, n, r, r0)
    ensures r == ReverseRounds(sk, n)
  {
    if r0 == r1 {
      MirrorEnds(n, r0, r1);
    }
    forall k | 0 <= k < TOTAL_SUBKEYS
      ensures r[k] == ReverseRounds(sk, n)[k]
    {
      assert r[k] == sk[Source(n, r0, k)];
    }
  }
}
