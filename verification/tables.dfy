/** The fixed tables of the cipher and the one-time MDS table build.

    The table header itself is not part of this model, so its contents are
    parameters: the two 8x8 permutations `P8x8` (q0 and q1), the selectors
    `P_ij` saying which of them lane `i` uses at stage `j`, the Reed-Solomon
    remainder step `RS_rem`, the GF(256) multipliers `Mul_X`/`Mul_Y` and the
    MDS coefficient pattern `Mij`.  The subkey step constants are those of
    section 4.3 of the Twofish paper. */
module Tables {
  import opened Platform

  datatype QBox = Q0 | Q1

  /** Which multiplier an MDS coefficient uses: 1, X (0x5B) or Y (0xEF). */
  datatype Mult = One | ByX | ByY

  datatype Tables = Tables(
    p8x8: (QBox, bv8) -> bv8,      // P8x8[q][b]
    sel: (nat, nat) -> QBox,       // P_ij for lane i, stage j
    rsRem: bv32 -> bv32,           // one RS_rem step
    mulX: bv8 -> bv8,              // (uint8_t) Mul_X
    mulY: bv8 -> bv8,              // (uint8_t) Mul_Y
    mij: (nat, nat) -> Mult)       // Mij: row i (output byte), column j (lane)

  /** Subkey generation constants: `2*rho`, `rho` and the rotation 9. */
  const SK_STEP: bv32 := 0x02020202
  const SK_BUMP: bv32 := 0x01010101
  const SK_ROTL: bv32 := 9

  /** `p8(ij)`: the permutation lane `i` uses at stage `j`. */
  function P8(t: Tables, lane: nat, stage: nat, b: bv8): bv8 {
    t.p8x8(t.sel(lane, stage), b)
  }

  function Mul(t: Tables, m: Mult, v: bv8): bv8 {
    match m
    case One => v
    case ByX => t.mulX(v)
    case ByY => t.mulY(v)
  }

  /** `MDStab[n][cnt]`: byte `i` is `Min` applied to `P8x8[P_n0][cnt]`, so the
      entry is column `n` of the MDS matrix times the outer permutation. */
  function MdsEntry(t: Tables, n: nat, cnt: bv8): (w: bv32)
    ensures forall i :: 0 <= i < 4 ==> ByteOf(w, i) == Mul(t, t.mij(i, n), P8(t, n, 0, cnt))
  {
    var v := P8(t, n, 0, cnt);
    LeWord(Mul(t, t.mij(0, n), v), Mul(t, t.mij(1, n), v), Mul(t, t.mij(2, n), v), Mul(t, t.mij(3, n), v))
  }

  /** `sizeof(size_t)` on the target: 4 bytes, or 8 on a 64-bit build. */
  datatype SizeT = Narrow | Wide

  function Width(s: SizeT): nat {
    if s == Narrow then 4 else 8
  }

  /** The low 32 bits of the integer whose bytes lie in memory as `d`. */
  function LowWord(e: Endian, d: seq<bv8>): bv32
    requires |d| >= 4
  {
    var k := |d|;
    if e == Little then LeWord(d[0], d[1], d[2], d[3])
    else LeWord(d[k - 1], d[k - 2], d[k - 3], d[k - 4])
  }

  /** `SetMDS` as written: the bytes go into a zeroed `size_t d` through
      `b0(d)` .. `b3(d)`, which address the first four bytes of `d` in
      memory, and `MDStab[N][cnt] = d` keeps the low 32 bits of its value.
      On a big-endian build with an 8-byte `size_t` those first four bytes
      are the high half, so the stored entry is 0. */
  function SetMds(e: Endian, s: SizeT, b0: bv8, b1: bv8, b2: bv8, b3: bv8): (w: bv32)
    ensures e == Little || s == Narrow ==> w == LeWord(b0, b1, b2, b3)
    ensures e == Big && s == Wide ==> w == 0
  {
    var a := AddrXor(e);
    var d := seq(Width(s), _ => 0 as bv8)[(0 ^ a) as int := b0][(1 ^ a) as int := b1]
                                        [(2 ^ a) as int := b2][(3 ^ a) as int := b3];
    if e == Big && s == Wide then
      assert d[4..] == [0, 0, 0, 0];
      BytesDetermineWord(LowWord(e, d), 0);
      LowWord(e, d)
    else
      LowWord(e, d)
  }

  /** `MDStab[n][cnt]` as the source computes it on a build with byte order
      `e` and `size_t` width `s`; `MdsEntry` is the entry it means to store. */
  function MdsEntryAsWritten(e: Endian, s: SizeT, t: Tables, n: nat, cnt: bv8): (w: bv32)
    ensures e == Little || s == Narrow ==> w == MdsEntry(t, n, cnt)
    ensures e == Big && s == Wide ==> w == 0
  {
    var v := P8(t, n, 0, cnt);
    SetMds(e, s, Mul(t, t.mij(0, n), v), Mul(t, t.mij(1, n), v), Mul(t, t.mij(2, n), v), Mul(t, t.mij(3, n), v))
  }

  /** With row 0 of the MDS matrix multiplying lane 0 by 1 (as in Twofish),
      a big-endian build with an 8-byte `size_t` stores 0 in place of every
      column-0 entry whose permuted byte is non-zero. */
  lemma WideBigEndianLosesMds(t: Tables, cnt: bv8)
    requires t.mij(0, 0) == One && P8(t, 0, 0, cnt) != 0
    ensures MdsEntry(t, 0, cnt) != 0
    ensures MdsEntryAsWritten(Big, Wide, t, 0, cnt) != MdsEntry(t, 0, cnt)
  {
    assert ByteOf(MdsEntry(t, 0, cnt), 0) == P8(t, 0, 0, cnt);
  }

  function MdsTable(t: Tables): (m: seq<seq<bv32>>)
    ensures |m| == 4 && forall n :: 0 <= n < 4 ==> |m[n]| == 256
  {
    seq(4, n requires 0 <= n < 4 => seq(256, c requires 0 <= c < 256 => MdsEntry(t, n, c as bv8)))
  }

  /** `bigTab[n][j][k] = q0[q1[k] ^ j]` with `q0 = p8(n1)`, `q1 = p8(n2)`. */
  function BigTable(t: Tables): (b: seq<seq<seq<bv8>>>)
    ensures |b| == 4
    ensures forall n :: 0 <= n < 4 ==> |b[n]| == 256 && forall j :: 0 <= j < 256 ==> |b[n][j]| == 256
  {
    seq(4, n requires 0 <= n < 4 => seq(256, j requires 0 <= j < 256 =>
      seq(256, k requires 0 <= k < 256 => P8(t, n, 1, XorByte(P8(t, n, 2, k as bv8), j as bv8)))))
  }

  /** A byte survives the round trip through a table index. */
  lemma ByteRoundTrip(v: bv8)
    ensures (v as int) as bv8 == v
  {
  }

  lemma MdsTableEntry(t: Tables, n: nat, v: bv8)
    requires n < 4
    ensures MdsTable(t)[n][Index(v)] == MdsEntry(t, n, v)
  {
    ByteRoundTrip(v);
  }

  lemma BigTableEntry(t: Tables, n: nat, j: bv8, v: bv8)
    requires n < 4
    ensures BigTable(t)[n][Index(j)][Index(v)] == P8(t, n, 1, XorByte(P8(t, n, 2, v), j))
  {
    ByteRoundTrip(v);
    ByteRoundTrip(j);
    var b := BigTable(t);
    assert b[n][j as int][v as int] == P8(t, n, 1, XorByte(P8(t, n, 2, (v as int) as bv8), (j as int) as bv8));
  }

  /** `p8(ij)` as the 256-byte array the key schedule indexes. */
  function P8Row(t: Tables, lane: nat, stage: nat): (row: seq<bv8>)
    ensures |row| == 256
  {
    seq(256, k requires 0 <= k < 256 => P8(t, lane, stage, k as bv8))
  }

  lemma P8RowEntry(t: Tables, lane: nat, stage: nat, v: bv8)
    ensures P8Row(t, lane, stage)[Index(v)] == P8(t, lane, stage, v)
  {
    ByteRoundTrip(v);
  }

  /** The process-wide tables and their build flag. */
  datatype MdsGlobal = MdsGlobal(needToBuild: bool, mdsTab: seq<seq<bv32>>, bigTab: seq<seq<seq<bv8>>>)

  /** Once the flag is down the tables hold their built contents. */
  ghost predicate Consistent(t: Tables, g: MdsGlobal) {
    !g.needToBuild ==> g.mdsTab == MdsTable(t) && g.bigTab == BigTable(t)
  }

  ghost predicate Built(t: Tables, g: MdsGlobal) {
    !g.needToBuild && g.mdsTab == MdsTable(t) && g.bigTab == BigTable(t)
  }

  /** `BuildMDS`: fills both tables the first time and is a no-op after. */
  function BuildMDS(t: Tables, g: MdsGlobal): (r: MdsGlobal)
    ensures Consistent(t, g) ==> Built(t, r)
    ensures !g.needToBuild ==> r == g
  {
    if !g.needToBuild then g
    else MdsGlobal(false, MdsTable(t), BigTable(t))
  }

  /** A second build changes nothing. */
  lemma BuildMDSIdempotent(t: Tables, g: MdsGlobal)
    ensures BuildMDS(t, BuildMDS(t, g)) == BuildMDS(t, g)
  {
  }
}
