/** Word and byte primitives of the platform header: 32-bit rotations, the
    byte swap used to normalise loads and stores, and the endianness-aware
    byte extraction `_b`.  Words are `bv32`, bytes are `bv8`. */
module Platform {

  /** The preprocessor symbols that decide `LittleEndian`. */
  datatype Defines = Defines(win32: bool, linux: bool, apple: bool, bigEndian: bool)

  datatype Endian = Little | Big

  /** `LittleEndian` as the `#if` chain computes it: Windows, Linux, any other
      target and Apple without `__BIG_ENDIAN__` are little-endian. */
  function EndianOf(d: Defines): (e: Endian)
    ensures e == Big <==> !d.win32 && !d.linux && d.apple && d.bigEndian
  {
    if d.win32 then Little
    else if d.linux then Little
    else if d.apple then (if d.bigEndian then Big else Little)
    else Little
  }

  /** `ROL(x,n)`: the shift amount is masked to five bits; a masked amount of
      zero would shift by 32, which C leaves undefined, so it is excluded. */
  function Rol(x: bv32, n: bv32): bv32
    requires n & 0x1F != 0
  {
    (x << (n & 0x1F)) | (x >> (32 - (n & 0x1F)))
  }

  /** `ROR(x,n)`, with the same masking as `Rol`. */
  function Ror(x: bv32, n: bv32): bv32
    requires n & 0x1F != 0
  {
    (x >> (n & 0x1F)) | (x << (32 - (n & 0x1F)))
  }

  /** The rotations by the amounts the cipher uses (1 in the rounds, 8 in the
      F function and the byte swap, 9 in the key schedule) are the 32-bit
      rotations, and `Ror` undoes `Rol`. */
  lemma RotationsUsed(x: bv32)
    ensures Rol(x, 1) == x.RotateLeft(1) && Ror(x, 1) == x.RotateRight(1)
    ensures Rol(x, 8) == x.RotateLeft(8) && Ror(x, 8) == x.RotateRight(8)
    ensures Rol(x, 9) == x.RotateLeft(9) && Ror(x, 9) == x.RotateRight(9)
    ensures Ror(Rol(x, 1), 1) == x && Rol(Ror(x, 1), 1) == x
    ensures Ror(Rol(x, 8), 8) == x && Rol(Ror(x, 8), 8) == x
    ensures Ror(Rol(x, 9), 9) == x && Rol(Ror(x, 9), 9) == x
  {
  }

  /** The byte of significance `n % 4` of `x` (0 is the least significant). */
  function ByteOf(x: bv32, n: nat): bv8 {
    match n % 4
    case 0 => (x & 0xFF) as bv8
    case 1 => ((x >> 8) & 0xFF) as bv8
    case 2 => ((x >> 16) & 0xFF) as bv8
    case _ => ((x >> 24) & 0xFF) as bv8
  }

  /** `ADDR_XOR`: the byte address correction inside a dword. */
  function AddrXor(e: Endian): bv2 {
    if e == Little then 0 else 3
  }

  /** The four bytes of a dword as they lie in memory, lowest address first. */
  function NativeBytes(e: Endian, x: bv32): (m: seq<bv8>)
    ensures |m| == 4
  {
    if e == Little then [ByteOf(x, 0), ByteOf(x, 1), ByteOf(x, 2), ByteOf(x, 3)]
    else [ByteOf(x, 3), ByteOf(x, 2), ByteOf(x, 1), ByteOf(x, 0)]
  }

  /** The significance of memory byte `k` of a dword: the same on a
      little-endian target, reversed on a big-endian one. */
  function LaneOf(e: Endian, k: nat): (n: nat)
    requires k < 4
    ensures n < 4
  {
    if e == Little then k else 3 - k
  }

  lemma NativeBytesLane(e: Endian, x: bv32, k: nat)
    requires k < 4
    ensures NativeBytes(e, x)[k] == ByteOf(x, LaneOf(e, k))
  {
    if k == 0 {
    } else if k == 1 {
    } else if k == 2 {
    } else {
    }
  }

  /** Loading a dword puts memory byte `k` at significance `LaneOf(e, k)`. */
  lemma LoadLane(e: Endian, m: seq<bv8>, k: nat)
    requires |m| >= 4 && k < 4
    ensures ByteOf(NativeLoad(e, m), LaneOf(e, k)) == m[k]
  {
    if k == 0 {
    } else if k == 1 {
    } else if k == 2 {
    } else {
    }
  }

  /** `_b(x,N)`: reads memory byte `(N & 3) ^ ADDR_XOR` of the dword `x`. */
  function MemByte(e: Endian, x: bv32, n: nat): (b: bv8)
    ensures b == ByteOf(x, n)
  {
    NativeBytes(e, x)[((n % 4) as bv2 ^ AddrXor(e)) as int]
  }

  /** The union probe in the hex parser: the dword 1 has its 1 at memory
      byte `0 ^ ADDR_XOR` exactly when `ADDR_XOR` matches the memory layout. */
  lemma EndianProbePasses(e: Endian)
    ensures NativeBytes(e, 1)[(0 ^ AddrXor(e)) as int] == 1
  {
  }

  /** The dword whose bytes, least significant first, are `b0 .. b3`. */
  function LeWord(b0: bv8, b1: bv8, b2: bv8, b3: bv8): (w: bv32)
    ensures ByteOf(w, 0) == b0 && ByteOf(w, 1) == b1
    ensures ByteOf(w, 2) == b2 && ByteOf(w, 3) == b3
  {
    (b0 as bv32) | ((b1 as bv32) << 8) | ((b2 as bv32) << 16) | ((b3 as bv32) << 24)
  }

  lemma LeWordOfBytes(w: bv32)
    ensures LeWord(ByteOf(w, 0), ByteOf(w, 1), ByteOf(w, 2), ByteOf(w, 3)) == w
  {
  }

  /** Two dwords with the same four bytes are equal. */
  lemma BytesDetermineWord(a: bv32, b: bv32)
    requires ByteOf(a, 0) == ByteOf(b, 0) && ByteOf(a, 1) == ByteOf(b, 1)
    requires ByteOf(a, 2) == ByteOf(b, 2) && ByteOf(a, 3) == ByteOf(b, 3)
    ensures a == b
  {
    LeWordOfBytes(a);
    LeWordOfBytes(b);
  }

  /** Reads the dword stored at `m[0..4]` the way the processor does. */
  function NativeLoad(e: Endian, m: seq<bv8>): bv32
    requires |m| >= 4
  {
    if e == Little then LeWord(m[0], m[1], m[2], m[3])
    else LeWord(m[3], m[2], m[1], m[0])
  }

  /** `Bswap`: the identity on little-endian targets, a byte reversal otherwise. */
  function Bswap(e: Endian, x: bv32): (r: bv32)
    ensures e == Little ==> r == x
    ensures e == Big ==> ByteOf(r, 0) == ByteOf(x, 3) && ByteOf(r, 1) == ByteOf(x, 2)
    ensures e == Big ==> ByteOf(r, 2) == ByteOf(x, 1) && ByteOf(r, 3) == ByteOf(x, 0)
  {
    if e == Little then x
    else (Ror(x, 8) & 0xFF00FF00) | (Rol(x, 8) & 0x00FF00FF)
  }

  lemma BswapInvolution(e: Endian, x: bv32)
    ensures Bswap(e, Bswap(e, x)) == x
  {
  }

  /** `Bswap(((uint32_t *)input)[N])` reads the little-endian value of the
      four bytes on either endianness. */
  lemma NormalisedLoad(e: Endian, m: seq<bv8>)
    requires |m| >= 4
    ensures Bswap(e, NativeLoad(e, m)) == LeWord(m[0], m[1], m[2], m[3])
  {
    if e == Big {
      var w := NativeLoad(e, m);
      var v := LeWord(m[0], m[1], m[2], m[3]);
      assert ByteOf(w, 0) == m[3] && ByteOf(w, 1) == m[2] && ByteOf(w, 2) == m[1] && ByteOf(w, 3) == m[0];
      BytesDetermineWord(Bswap(e, w), v);
    }
  }

  /** Storing `Bswap(w)` natively lays the bytes of `w` out least significant
      first on either endianness. */
  lemma NormalisedStore(e: Endian, w: bv32)
    ensures NativeBytes(e, Bswap(e, w)) == [ByteOf(w, 0), ByteOf(w, 1), ByteOf(w, 2), ByteOf(w, 3)]
  {
  }

  // Named 32-bit and 8-bit operations.  Proofs that only need to match
  // equal terms stay cheap when the operators sit behind these names.

  function Xor(a: bv32, b: bv32): bv32 {
    a ^ b
  }

  function XorByte(a: bv8, b: bv8): bv8 {
    a ^ b
  }

  /** `+` on `uint32_t`: wraps modulo 2^32. */
  function Add(a: bv32, b: bv32): bv32 {
    a + b
  }

  function Sub(a: bv32, b: bv32): bv32 {
    a - b
  }

  /** `2*x` on `uint32_t`. */
  function Twice(a: bv32): bv32 {
    2 * a
  }

  /** A byte used as an array index. */
  function Index(b: bv8): (n: nat)
    ensures n < 256
  {
    b as nat
  }

  /** Byte extraction distributes over exclusive or. */
  lemma ByteOfXor(a: bv32, b: bv32, n: nat)
    ensures ByteOf(Xor(a, b), n) == XorByte(ByteOf(a, n), ByteOf(b, n))
  {
    match n % 4
    case 0 =>
    case 1 =>
    case 2 =>
    case _ =>
  }

  /** `Fe32_(x,3)` reads byte `(3 + N) & 3` of `x` for lane `N`; those are the
      bytes of `x` rotated left by 8. */
  lemma ByteOfRotated(x: bv32, n: nat)
    ensures ByteOf(x, n + 3) == ByteOf(Rol(x, 8), n)
  {
    var y := Rol(x, 8);
    assert y == (x << 8) | (x >> 24);
    match n % 4
    case 0 => assert (n + 3) % 4 == 3;
    case 1 => assert (n + 3) % 4 == 0;
    case 2 => assert (n + 3) % 4 == 1;
    case _ => assert (n + 3) % 4 == 2;
  }
}
