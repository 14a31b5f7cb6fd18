/** `ParseHexDword`: ASCII hex text to 32-bit words.  The text is read as a
    little-endian byte stream: characters `2k` and `2k+1` are the high and low
    nibbles of byte `k`, and byte `k` is byte `k % 4` (least significant
    first) of word `k / 4`. */
module HexParse {
  import opened Defs
  import opened Platform

  /** The value of a hexadecimal digit, or `None` for any other character
      (the terminating NUL included). */
  function HexDigit(c: char): (r: Option<bv8>)
    ensures r.Some? <==> ('0' <= c <= '9' || 'a' <= c <= 'f' || 'A' <= c <= 'F')
    ensures r.Some? ==> r.value < 16
    ensures '0' <= c <= '9' ==> r.value as int == c as int - '0' as int
    ensures 'a' <= c <= 'f' ==> r.value as int == c as int - 'a' as int + 10
    ensures 'A' <= c <= 'F' ==> r.value as int == c as int - 'A' as int + 10
  {
    if '0' <= c <= '9' then Some(Nibble(c as int - '0' as int))
    else if 'a' <= c <= 'f' then Some(Nibble(c as int - 'a' as int + 10))
    else if 'A' <= c <= 'F' then Some(Nibble(c as int - 'A' as int + 10))
    else None
  }

  /** A digit value as a byte. */
  function Nibble(n: int): (v: bv8)
    requires 0 <= n < 16
    ensures v as int == n && v < 16
  {
    n as bv8
  }

  predicate IsHex(c: char) {
    HexDigit(c).Some?
  }

  /** Characters read for `bits` bits: those with `cnt * 4 < bits`. */
  function Nibbles(bits: nat): nat {
    (bits + 3) / 4
  }

  /** Words zeroed first: those with `cnt * 32 < bits`. */
  function Words(bits: nat): nat {
    (bits + 31) / 32
  }

  /** Nibble `cnt` lands in word `cnt / 8` at bit `4 * ((cnt ^ 1) & 7)`: the
      even nibble of a byte is its high half. */
  function NibbleAt(v: bv8, cnt: nat): bv32 {
    match cnt % 8
    case 0 => (v as bv32) << 4
    case 1 => v as bv32
    case 2 => (v as bv32) << 12
    case 3 => (v as bv32) << 8
    case 4 => (v as bv32) << 20
    case 5 => (v as bv32) << 16
    case 6 => (v as bv32) << 28
    case _ => (v as bv32) << 24
  }

  /** The table above is the shift `4 * ((cnt ^ 1) & 7)` of the source. */
  lemma NibbleShift(v: bv8, cnt: nat)
    ensures NibbleAt(v, cnt) == (v as bv32) << (4 * (((cnt % 8) as bv32) ^ 1))
  {
    var m := cnt % 8;
    if m == 0 { assert (m as bv32) ^ 1 == 1; }
    else if m == 1 { assert (m as bv32) ^ 1 == 0; }
    else if m == 2 { assert (m as bv32) ^ 1 == 3; }
    else if m == 3 { assert (m as bv32) ^ 1 == 2; }
    else if m == 4 { assert (m as bv32) ^ 1 == 5; }
    else if m == 5 { assert (m as bv32) ^ 1 == 4; }
    else if m == 6 { assert (m as bv32) ^ 1 == 7; }
    else { assert m == 7; assert (m as bv32) ^ 1 == 6; }
  }

  /** The contribution of character `k` of `src` to word `k / 8`. */
  function Contribution(src: seq<char>, k: nat): bv32 {
    match HexDigit(CharAt(src, k))
    case Some(v) => NibbleAt(v, k)
    case None => 0
  }

  /** The contributions of all characters of `src`. */
  function Contributions(src: seq<char>): nat -> bv32 {
    (k: nat) => Contribution(src, k)
  }

  /** The `|=` of the loop as a function value. */
  function Or(a: bv32, b: bv32): bv32 {
    a | b
  }

  /** The accumulation below is stated for any associative operation with a
      unit, which keeps its proofs free of bit-vector reasoning. */
  ghost predicate Associative<T(!new)>(op: (T, T) -> T) {
    forall a: T, b: T, c: T {:trigger op(op(a, b), c)} :: op(op(a, b), c) == op(a, op(b, c))
  }

  ghost predicate Unit<T(!new)>(op: (T, T) -> T, zero: T) {
    forall a: T :: op(zero, a) == a && op(a, zero) == a
  }

  lemma OrAssociative()
    ensures Associative(Or)
  {
    forall a: bv32, b: bv32, c: bv32
      ensures Or(Or(a, b), c) == Or(a, Or(b, c))
    {
    }
  }

  lemma OrUnit()
    ensures Unit(Or, 0)
  {
    forall a: bv32
      ensures Or(0, a) == a && Or(a, 0) == a
    {
    }
  }

  /** What positions `lo .. hi-1` contribute to word `j` (the word of
      position `k` is `k / 8`). */
  function Spread<T>(op: (T, T) -> T, zero: T, c: nat -> T, j: nat, lo: nat, hi: nat): T
    decreases hi - lo
  {
    if lo >= hi then zero
    else op(if lo / 8 == j then c(lo) else zero, Spread(op, zero, c, j, lo + 1, hi))
  }

  /** The byte that characters `2k` (high nibble) and `2k+1` (low nibble) spell. */
  function HexByte(src: seq<char>, k: nat): bv8
    requires IsHex(CharAt(src, 2 * k)) && IsHex(CharAt(src, 2 * k + 1))
  {
    (HexDigit(CharAt(src, 2 * k)).value << 4) | HexDigit(CharAt(src, 2 * k + 1)).value
  }

  /** All the characters the parser reads are hex digits. */
  predicate AllHex(bits: nat, src: seq<char>) {
    forall k :: 0 <= k < Nibbles(bits) ==> IsHex(CharAt(src, k))
  }

  /** The outcome: 0 or `BAD_KEY_MAT`, the destination words as left, and how
      many characters were read (and copied to the optional text buffer,
      the offending one included). */
  datatype ParseResult = ParseResult(code: int, words: seq<bv32>, read: nat)

  lemma WordIndexInRange(bits: nat, cnt: nat)
    requires cnt < Nibbles(bits)
    ensures cnt / 8 < Words(bits)
  {
  }

  /** The nibble loop from character `cnt` on. */
  function ParseFrom(bits: nat, src: seq<char>, d: seq<bv32>, cnt: nat): (r: ParseResult)
    requires Words(bits) <= |d| && cnt <= Nibbles(bits)
    ensures |r.words| == |d|
    ensures r.code == 0 || r.code == BAD_KEY_MAT
    ensures r.code == 0 <==> forall k :: cnt <= k < Nibbles(bits) ==> IsHex(CharAt(src, k))
    ensures forall j :: Words(bits) <= j < |d| ==> r.words[j] == d[j]
    ensures r.code == 0 ==> r.read == Nibbles(bits)
    ensures r.code != 0 ==> cnt < r.read <= Nibbles(bits) && !IsHex(CharAt(src, r.read - 1))
    ensures r.code != 0 ==> forall k :: cnt <= k < r.read - 1 ==> IsHex(CharAt(src, k))
    decreases Nibbles(bits) - cnt
  {
    if cnt >= Nibbles(bits) then ParseResult(0, d, cnt)
    else
      match HexDigit(CharAt(src, cnt))
      case None => ParseResult(BAD_KEY_MAT, d, cnt + 1)
      case Some(b) =>
        WordIndexInRange(bits, cnt);
        ParseFrom(bits, src, d[cnt / 8 := d[cnt / 8] | NibbleAt(b, cnt)], cnt + 1)
  }

  lemma ContributionOf(src: seq<char>, k: nat)
    requires IsHex(CharAt(src, k))
    ensures Contributions(src)(k) == NibbleAt(HexDigit(CharAt(src, k)).value, k)
  {
  }

  /** The words the loop leaves when every character it reads is a digit:
      position `cnt` is combined into word `cnt / 8`. */
  function WordsFrom<T>(bits: nat, op: (T, T) -> T, c: nat -> T, d: seq<T>, cnt: nat): (w: seq<T>)
    requires Words(bits) <= |d|
    ensures |w| == |d|
    decreases Nibbles(bits) - cnt
  {
    if cnt >= Nibbles(bits) then d
    else
      WordIndexInRange(bits, cnt);
      WordsFrom(bits, op, c, d[cnt / 8 := op(d[cnt / 8], c(cnt))], cnt + 1)
  }

  /** A successful parse is that accumulation with `|` over the characters'
      contributions. */
  lemma {:induction false} ParseFromIsWordsFrom(bits: nat, src: seq<char>, d: seq<bv32>, cnt: nat)
    requires Words(bits) <= |d| && cnt <= Nibbles(bits)
    requires ParseFrom(bits, src, d, cnt).code == 0
    ensures ParseFrom(bits, src, d, cnt).words == WordsFrom(bits, Or, Contributions(src), d, cnt)
    decreases Nibbles(bits) - cnt
  {
    if cnt < Nibbles(bits) {
      ContributionOf(src, cnt);
      WordIndexInRange(bits, cnt);
      ParseFromIsWordsFrom(bits, src, d[cnt / 8 := Or(d[cnt / 8], Contributions(src)(cnt))], cnt + 1);
    }
  }

  /** Each word ends up combined with exactly the contributions of the
      positions that belong to it. */
  lemma {:induction false} WordsFromSpread<T(!new)>(bits: nat, op: (T, T) -> T, zero: T, c: nat -> T, d: seq<T>, cnt: nat, j: nat)
    requires Associative(op) && Unit(op, zero)
    requires Words(bits) <= |d| && j < |d|
    ensures WordsFrom(bits, op, c, d, cnt)[j] == op(d[j], Spread(op, zero, c, j, cnt, Nibbles(bits)))
    decreases Nibbles(bits) - cnt
  {
    var n := Nibbles(bits);
    if cnt < n {
      WordIndexInRange(bits, cnt);
      var d' := d[cnt / 8 := op(d[cnt / 8], c(cnt))];
      var rest := Spread(op, zero, c, j, cnt + 1, n);
      assert WordsFrom(bits, op, c, d, cnt) == WordsFrom(bits, op, c, d', cnt + 1);
      WordsFromSpread(bits, op, zero, c, d', cnt + 1, j);
      if cnt / 8 == j {
        assert d'[j] == op(d[j], c(cnt));
        assert Spread(op, zero, c, j, cnt, n) == op(c(cnt), rest);
        assert op(op(d[j], c(cnt)), rest) == op(d[j], op(c(cnt), rest));
      } else {
        assert d'[j] == d[j];
        assert Spread(op, zero, c, j, cnt, n) == op(zero, rest);
      }
    } else {
      assert Spread(op, zero, c, j, cnt, n) == zero;
    }
  }

  /** The accumulation with `|`. */
  lemma WordsFromOr(bits: nat, c: nat -> bv32, d: seq<bv32>, j: nat)
    requires Words(bits) <= |d| && j < |d|
    ensures WordsFrom(bits, Or, c, d, 0)[j] == d[j] | Spread(Or, 0, c, j, 0, Nibbles(bits))
  {
    OrAssociative();
    OrUnit();
    WordsFromSpread(bits, Or, 0, c, d, 0, j);
  }

  /** `ParseHexDword(bits, srcTxt, d, dstTxt)`: zero the words the bits
      cover, then OR in one nibble per character, failing at the first
      character that is not a hex digit. */
  function ParseHexDword(bits: nat, src: seq<char>, d: seq<bv32>): (r: ParseResult)
    requires Words(bits) <= |d|
    ensures |r.words| == |d|
    ensures r.code == 0 <==> AllHex(bits, src)
    ensures r.code != 0 ==> r.code == BAD_KEY_MAT
    ensures forall j :: Words(bits) <= j < |d| ==> r.words[j] == d[j]
    ensures r.code == 0 ==> r.read == Nibbles(bits)
    ensures r.code != 0 ==> 0 < r.read <= Nibbles(bits) && !IsHex(CharAt(src, r.read - 1))
    ensures r.code != 0 ==> forall k :: 0 <= k < r.read - 1 ==> IsHex(CharAt(src, k))
  {
    var zeroed := seq(|d|, j requires 0 <= j < |d| => if j < Words(bits) then 0 else d[j]);
    ParseFrom(bits, src, zeroed, 0)
  }

  /** Positions past word `j`'s eight contribute nothing to it. */
  lemma {:induction false} SpreadPast<T(!new)>(op: (T, T) -> T, zero: T, c: nat -> T, j: nat, lo: nat, hi: nat)
    requires Unit(op, zero)
    requires 8 * j + 8 <= lo
    ensures Spread(op, zero, c, j, lo, hi) == zero
    decreases hi - lo
  {
    if lo < hi {
      SpreadPast(op, zero, c, j, lo + 1, hi);
    }
  }

  /** Positions before word `j`'s eight contribute nothing to it either. */
  lemma {:induction false} SpreadBefore<T(!new)>(op: (T, T) -> T, zero: T, c: nat -> T, j: nat, lo: nat, hi: nat)
    requires Unit(op, zero)
    requires lo <= 8 * j <= hi
    ensures Spread(op, zero, c, j, lo, hi) == Spread(op, zero, c, j, 8 * j, hi)
    decreases 8 * j - lo
  {
    if lo < 8 * j {
      assert lo / 8 < j;
      SpreadBefore(op, zero, c, j, lo + 1, hi);
    }
  }

  /** Word `j` gathers exactly positions `8j .. 8j+7`, in order. */
  lemma SpreadEight<T(!new)>(op: (T, T) -> T, zero: T, c: nat -> T, j: nat, n: nat)
    requires Unit(op, zero)
    requires 8 * j + 8 <= n
    ensures Spread(op, zero, c, j, 8 * j, n)
         == op(c(8 * j), op(c(8 * j + 1), op(c(8 * j + 2), op(c(8 * j + 3),
            op(c(8 * j + 4), op(c(8 * j + 5), op(c(8 * j + 6), c(8 * j + 7))))))))
  {
    var b := 8 * j;
    SpreadPast(op, zero, c, j, b + 8, n);
    assert (b + 7) / 8 == j && (b + 6) / 8 == j && (b + 5) / 8 == j && (b + 4) / 8 == j;
    assert (b + 3) / 8 == j && (b + 2) / 8 == j && (b + 1) / 8 == j && b / 8 == j;
    assert Spread(op, zero, c, j, b + 7, n) == op(c(b + 7), Spread(op, zero, c, j, b + 8, n));
    assert Spread(op, zero, c, j, b + 7, n) == c(b + 7);
    assert Spread(op, zero, c, j, b + 6, n) == op(c(b + 6), c(b + 7));
    assert Spread(op, zero, c, j, b + 5, n) == op(c(b + 5), Spread(op, zero, c, j, b + 6, n));
    assert Spread(op, zero, c, j, b + 4, n) == op(c(b + 4), Spread(op, zero, c, j, b + 5, n));
    assert Spread(op, zero, c, j, b + 3, n) == op(c(b + 3), Spread(op, zero, c, j, b + 4, n));
    assert Spread(op, zero, c, j, b + 2, n) == op(c(b + 2), Spread(op, zero, c, j, b + 3, n));
    assert Spread(op, zero, c, j, b + 1, n) == op(c(b + 1), Spread(op, zero, c, j, b + 2, n));
  }

  /** Word `j` of the `|`-accumulation from position 0. */
  lemma SpreadWordOr(c: nat -> bv32, j: nat, b: nat, n: nat)
    requires b == 8 * j && b + 8 <= n
    ensures Spread(Or, 0, c, j, 0, n)
         == c(b) | (c(b + 1) | (c(b + 2) | (c(b + 3) | (c(b + 4) | (c(b + 5) | (c(b + 6) | c(b + 7)))))))
  {
    OrUnit();
    SpreadBefore(Or, 0, c, j, 0, n);
    SpreadEight(Or, 0, c, j, n);
  }

  /** The digit value of character `k` (0 for a non-digit). */
  function Digit(src: seq<char>, k: nat): (v: bv8)
    ensures v < 16
    ensures IsHex(CharAt(src, k)) ==> Some(v) == HexDigit(CharAt(src, k))
  {
    match HexDigit(CharAt(src, k))
    case Some(x) => x
    case None => 0
  }

  /** What a digit contributes depends only on its position in the word. */
  lemma DigitShift(src: seq<char>, k: nat, i: nat)
    requires k % 8 == i % 8 && IsHex(CharAt(src, k))
    ensures Contributions(src)(k) == NibbleAt(Digit(src, k), i)
  {
    var v := Digit(src, k);
    assert HexDigit(CharAt(src, k)) == Some(v);
    assert Contribution(src, k) == NibbleAt(v, k);
  }

  lemma DigitBytes(src: seq<char>, j: nat, b: nat)
    requires b == 8 * j && forall k :: b <= k < b + 8 ==> IsHex(CharAt(src, k))
    ensures
      && HexByte(src, 4 * j) == (Digit(src, b) << 4) | Digit(src, b + 1)
      && HexByte(src, 4 * j + 1) == (Digit(src, b + 2) << 4) | Digit(src, b + 3)
      && HexByte(src, 4 * j + 2) == (Digit(src, b + 4) << 4) | Digit(src, b + 5)
      && HexByte(src, 4 * j + 3) == (Digit(src, b + 6) << 4) | Digit(src, b + 7)
  {
    assert 2 * (4 * j) == b && 2 * (4 * j + 1) == b + 2 && 2 * (4 * j + 2) == b + 4 && 2 * (4 * j + 3) == b + 6;
  }

  lemma OffsetsInWord(b: nat)
    requires b % 8 == 0
    ensures (b + 1) % 8 == 1 && (b + 2) % 8 == 2 && (b + 3) % 8 == 3 && (b + 4) % 8 == 4
    ensures (b + 5) % 8 == 5 && (b + 6) % 8 == 6 && (b + 7) % 8 == 7
  {
  }

  /** The contributions of the eight digits at `b .. b+7` combined. */
  lemma WordOfDigits(src: seq<char>, b: nat)
    requires b % 8 == 0 && forall k :: b <= k < b + 8 ==> IsHex(CharAt(src, k))
    ensures var c := Contributions(src);
      c(b) | (c(b + 1) | (c(b + 2) | (c(b + 3) | (c(b + 4) | (c(b + 5) | (c(b + 6) | c(b + 7)))))))
      == LeWord((Digit(src, b) << 4) | Digit(src, b + 1), (Digit(src, b + 2) << 4) | Digit(src, b + 3),
                (Digit(src, b + 4) << 4) | Digit(src, b + 5), (Digit(src, b + 6) << 4) | Digit(src, b + 7))
  {
    var c := Contributions(src);
    OffsetsInWord(b);
    DigitShift(src, b, 0);
    DigitShift(src, b + 1, 1);
    DigitShift(src, b + 2, 2);
    DigitShift(src, b + 3, 3);
    DigitShift(src, b + 4, 4);
    DigitShift(src, b + 5, 5);
    DigitShift(src, b + 6, 6);
    DigitShift(src, b + 7, 7);
    HexBytesPack(c(b), c(b + 1), c(b + 2), c(b + 3), c(b + 4), c(b + 5), c(b + 6), c(b + 7),
                 Digit(src, b), Digit(src, b + 1), Digit(src, b + 2), Digit(src, b + 3),
                 Digit(src, b + 4), Digit(src, b + 5), Digit(src, b + 6), Digit(src, b + 7));
  }

  /** The eight nibbles of word `j`, high nibble of each byte first, form the
      little-endian word of the four bytes they spell. */
  lemma PackedWord(bits: nat, src: seq<char>, j: nat)
    requires AllHex(bits, src) && 8 * j + 8 <= Nibbles(bits)
    ensures Spread(Or, 0, Contributions(src), j, 0, Nibbles(bits))
         == LeWord(HexByte(src, 4 * j), HexByte(src, 4 * j + 1), HexByte(src, 4 * j + 2), HexByte(src, 4 * j + 3))
  {
    var b := 8 * j;
    var c := Contributions(src);
    var w := c(b) | (c(b + 1) | (c(b + 2) | (c(b + 3) | (c(b + 4) | (c(b + 5) | (c(b + 6) | c(b + 7)))))));
    var d0, d1, d2, d3 := Digit(src, b), Digit(src, b + 1), Digit(src, b + 2), Digit(src, b + 3);
    var d4, d5, d6, d7 := Digit(src, b + 4), Digit(src, b + 5), Digit(src, b + 6), Digit(src, b + 7);
    assert Spread(Or, 0, c, j, 0, Nibbles(bits)) == w by {
      SpreadWordOr(c, j, b, Nibbles(bits));
    }
    WordOfDigits(src, b);
    DigitBytes(src, j, b);
  }

  /** Eight nibbles placed by `NibbleAt` and combined make the word of the
      four bytes they spell. */
  lemma HexBytesPack(c0: bv32, c1: bv32, c2: bv32, c3: bv32, c4: bv32, c5: bv32, c6: bv32, c7: bv32,
                     v0: bv8, v1: bv8, v2: bv8, v3: bv8, v4: bv8, v5: bv8, v6: bv8, v7: bv8)
    requires v0 < 16 && v1 < 16 && v2 < 16 && v3 < 16 && v4 < 16 && v5 < 16 && v6 < 16 && v7 < 16
    requires c0 == NibbleAt(v0, 0) && c1 == NibbleAt(v1, 1) && c2 == NibbleAt(v2, 2) && c3 == NibbleAt(v3, 3)
    requires c4 == NibbleAt(v4, 4) && c5 == NibbleAt(v5, 5) && c6 == NibbleAt(v6, 6) && c7 == NibbleAt(v7, 7)
    ensures c0 | (c1 | (c2 | (c3 | (c4 | (c5 | (c6 | c7))))))
         == LeWord((v0 << 4) | v1, (v2 << 4) | v3, (v4 << 4) | v5, (v6 << 4) | v7)
  {
  }

  /** With well-formed text every word the text covers completely holds the
      little-endian value of its four bytes, whatever `d` held before. */
  lemma ParseHexWords(bits: nat, src: seq<char>, d: seq<bv32>, j: nat)
    requires Words(bits) <= |d| && AllHex(bits, src) && 8 * j + 8 <= Nibbles(bits)
    ensures ParseHexDword(bits, src, d).words[j]
         == LeWord(HexByte(src, 4 * j), HexByte(src, 4 * j + 1), HexByte(src, 4 * j + 2), HexByte(src, 4 * j + 3))
  {
    PackedWord(bits, src, j);
    WordIndexInRange(bits, 8 * j);
    var zeroed := seq(|d|, j requires 0 <= j < |d| => if j < Words(bits) then 0 else d[j]);
    ParseFromIsWordsFrom(bits, src, zeroed, 0);
    WordsFromOr(bits, Contributions(src), zeroed, j);
  }
}
