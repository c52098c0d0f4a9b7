/** Sorted-set scores: 64-bit floating point patterns, the numbers they stand
    for, and the eight-byte code whose byte order is the order of the numbers. */
module Scores {
  import opened ByteStrings

  const INFINITY_BITS: int := 0x7FF0_0000_0000_0000
  const MINUS_ZERO: u64 := 0x8000_0000_0000_0000

  function Magnitude(bits: u64): (m: int)
    ensures 0 <= m < SIGN_BIT
  {
    bits % SIGN_BIT
  }

  predicate Negative(bits: u64) { bits >= SIGN_BIT }

  predicate IsNaN(bits: u64) { Magnitude(bits) > INFINITY_BITS }

  predicate IsFinite(bits: u64) { Magnitude(bits) < INFINITY_BITS }

  type Score = bits: u64 | !IsNaN(bits)

  /** Position of a score on the number line; the two zeros share one position. */
  function Position(bits: u64): int {
    if Negative(bits) then -Magnitude(bits) else Magnitude(bits)
  }

  /** f64's < and == on numbers. */
  predicate NumLess(a: Score, b: Score) { Position(a) < Position(b) }

  predicate NumEqual(a: Score, b: Score) { Position(a) == Position(b) }

  predicate NumAtMost(a: Score, b: Score) { Position(a) <= Position(b) }

  // ---------- the numbers behind the patterns ----------

  function Pow2(n: nat): (p: int)
    ensures p > 0
  {
    if n == 0 then 1 else 2 * Pow2(n - 1)
  }

  const MANTISSA: int := 0x10_0000_0000_0000

  /** The value of a finite magnitude in units of the least subnormal number. */
  function Units(mag: nat): (u: int)
    ensures u >= 0
  {
    var exponent, fraction := mag / MANTISSA, mag % MANTISSA;
    if exponent == 0 then fraction else UnitsOf(exponent, fraction)
  }

  function UnitsOf(exponent: nat, fraction: nat): (u: int)
    requires exponent > 0
    ensures u > 0
  {
    MulPositive(MANTISSA + fraction, Pow2(exponent - 1));
    (MANTISSA + fraction) * Pow2(exponent - 1)
  }

  lemma MulPositive(a: int, b: int)
    requires a > 0 && b > 0
    ensures a * b > 0
  {
  }

  lemma MulMonotone(a: int, b: int, c: int)
    requires a < b && c > 0
    ensures a * c < b * c
  {
  }

  function Value(bits: u64): int
    requires IsFinite(bits)
  {
    if Negative(bits) then -Units(Magnitude(bits)) else Units(Magnitude(bits))
  }

  lemma {:induction false} Pow2Monotone(m: nat, n: nat)
    requires m <= n
    ensures Pow2(m) <= Pow2(n)
  {
    if m < n { Pow2Monotone(m, n - 1); }
  }

  lemma UnitsMonotone(a: nat, b: nat)
    requires a < b
    ensures Units(a) < Units(b)
  {
    hide Pow2;
    var ea, fa := a / MANTISSA, a % MANTISSA;
    var eb, fb := b / MANTISSA, b % MANTISSA;
    if ea == eb {
      if ea > 0 { MulMonotone(MANTISSA + fa, MANTISSA + fb, Pow2(ea - 1)); }
    } else {
      UnitsBelow(ea, fa);
      UnitsAbove(eb, fb, ea);
    }
  }

  lemma UnitsBelow(e: nat, f: nat)
    requires f < MANTISSA
    ensures (if e == 0 then f else UnitsOf(e, f)) < MANTISSA * Pow2(e)
  {
    if e > 0 {
      MulMonotone(MANTISSA + f, 2 * MANTISSA, Pow2(e - 1));
      assert Pow2(e) == 2 * Pow2(e - 1);
    } else {
      assert Pow2(0) == 1;
    }
  }

  lemma UnitsAbove(e: nat, f: nat, below: nat)
    requires below < e
    ensures UnitsOf(e, f) >= MANTISSA * Pow2(below)
  {
    hide Pow2;
    Pow2Monotone(below, e - 1);
    var p := Pow2(e - 1);
    assert (MANTISSA + f) * p >= MANTISSA * p by {
      if f > 0 { MulMonotone(MANTISSA, MANTISSA + f, p); }
    }
    assert MANTISSA * p >= MANTISSA * Pow2(below);
  }

  lemma FinitePositions(a: u64, b: u64)
    requires IsFinite(a) && IsFinite(b)
    ensures Position(a) < Position(b) <==> Value(a) < Value(b)
    ensures Position(a) == Position(b) <==> Value(a) == Value(b)
  {
    hide Units;
    var m, n := Magnitude(a), Magnitude(b);
    assert Units(0) == 0 by { UnitsZero(); }
    if m < n { UnitsMonotone(m, n); }
    if n < m { UnitsMonotone(n, m); }
    if m > 0 { UnitsMonotone(0, m); }
    if n > 0 { UnitsMonotone(0, n); }
  }

  /** The number a score stands for. */
  datatype Number = MinusInfinity | Finite(units: int) | PlusInfinity

  function NumberOf(s: Score): Number {
    if IsFinite(s) then Finite(Value(s)) else if Negative(s) then MinusInfinity else PlusInfinity
  }

  predicate NumberLess(x: Number, y: Number) {
    match (x, y)
    case (Finite(a), Finite(b)) => a < b
    case (_, _) => x != y && (x.MinusInfinity? || y.PlusInfinity?)
  }

  lemma NotNaN(s: Score)
    ensures Magnitude(s) <= INFINITY_BITS
  {
    assert !IsNaN(s);
  }

  /** Which patterns stand for numbers, by the exponent and fraction fields of the format: a
      full exponent is an infinity without a fraction and no number with one. */
  lemma PatternKinds(bits: u64)
    ensures var exponent, fraction := bits / MANTISSA % 2048, bits % MANTISSA;
            && (IsFinite(bits) <==> exponent != 2047)
            && (IsNaN(bits) <==> exponent == 2047 && fraction != 0)
            && (Negative(bits) <==> bits / MANTISSA / 2048 == 1)
    ensures NumberOf(0x7FF0_0000_0000_0000) == PlusInfinity && NumberOf(0xFFF0_0000_0000_0000) == MinusInfinity
    ensures NumberOf(0) == NumberOf(MINUS_ZERO) == Finite(0)
  {
    UnitsZero();
    var m := Magnitude(bits);
    assert bits / MANTISSA % 2048 == m / MANTISSA && bits % MANTISSA == m % MANTISSA;
  }

  /** The position order of scores is the order of the numbers they stand for, infinities
      included; the two zeros stand for one number. */
  lemma PositionIsValueOrder(a: Score, b: Score)
    ensures NumLess(a, b) <==> NumberLess(NumberOf(a), NumberOf(b))
    ensures NumEqual(a, b) <==> NumberOf(a) == NumberOf(b)
  {
    hide Value, Magnitude;
    NotNaN(a);
    NotNaN(b);
    if IsFinite(a) && IsFinite(b) { FinitePositions(a, b); }
  }

  lemma UnitsZero()
    ensures Units(0) == 0
  {
  }

  // ---------- the byte code ----------

  /** The order code: sign bit flipped for non-negative patterns, all bits for negative ones. */
  function OrderCode(bits: u64): (c: u64) {
    if Negative(bits) then U64_LIMIT - 1 - bits else bits + SIGN_BIT
  }

  function ScoreCode(bits: u64): (b: Bytes)
    ensures |b| == 8
  {
    EncodeU64(OrderCode(bits))
  }

  function ScoreOfCode(b: Bytes): (bits: u64)
    requires |b| == 8
  {
    var c := DecodeU64(b);
    if c >= SIGN_BIT then c - SIGN_BIT else U64_LIMIT - 1 - c
  }

  /** encode_score and decode_score are mutually inverse on all 64-bit patterns. */
  lemma ScoreRoundTrip(bits: u64)
    ensures ScoreOfCode(ScoreCode(bits)) == bits
  {
    U64RoundTrip(OrderCode(bits));
  }

  lemma ScoreCodeRoundTrip(b: Bytes)
    requires |b| == 8
    ensures ScoreCode(ScoreOfCode(b)) == b
  {
    U64BytesRoundTrip(b);
  }

  /** totalOrder on numbers: numeric order, and minus zero before plus zero
      (section 5.10 of IEEE 754-2008). */
  predicate TotalLess(a: Score, b: Score) {
    NumLess(a, b) || (NumEqual(a, b) && Negative(a) && !Negative(b))
  }

  /** Byte order of score codes is totalOrder. */
  lemma ScoreCodeOrder(a: Score, b: Score)
    ensures Less(ScoreCode(a), ScoreCode(b)) <==> TotalLess(a, b)
    ensures ScoreCode(a) == ScoreCode(b) <==> a == b
  {
    hide Less, EncodeU64;
    U64Order(OrderCode(a), OrderCode(b));
  }

  /** So score|member keys sort by score, then by member. */
  lemma ScoreMemberOrder(a: Score, m: Bytes, b: Score, n: Bytes)
    ensures Less(ScoreCode(a) + m, ScoreCode(b) + n) <==> TotalLess(a, b) || (a == b && Less(m, n))
  {
    hide Less, ScoreCode, TotalLess;
    LessFixedWidth(ScoreCode(a), m, ScoreCode(b), n);
    ScoreCodeOrder(a, b);
  }

  /** No number reaches eight 0xFF bytes: that code belongs to a NaN. */
  lemma ScoreCodeBelowCeiling(a: Score, m: Bytes)
    ensures Less(ScoreCode(a) + m, [255, 255, 255, 255, 255, 255, 255, 255])
  {
    hide Less, EncodeU64;
    var top: Bytes := [255, 255, 255, 255, 255, 255, 255, 255];
    TopCode();
    assert !IsNaN(a);
    assert OrderCode(a) < U64_LIMIT - 1;
    U64Order(OrderCode(a), U64_LIMIT - 1);
    LessFixedWidth(ScoreCode(a), m, top, []);
    assert top + [] == top;
  }

  lemma TopCode()
    ensures EncodeU64(U64_LIMIT - 1) == [255, 255, 255, 255, 255, 255, 255, 255]
  {
    assert BigEndian(0xFF, 1) == BigEndian(0, 0) + [255];
    assert BigEndian(0xFFFF, 2) == BigEndian(0xFF, 1) + [255];
    assert BigEndian(0xFF_FFFF, 3) == BigEndian(0xFFFF, 2) + [255];
    assert BigEndian(0xFFFF_FFFF, 4) == BigEndian(0xFF_FFFF, 3) + [255];
    assert BigEndian(0xFF_FFFF_FFFF, 5) == BigEndian(0xFFFF_FFFF, 4) + [255];
    assert BigEndian(0xFFFF_FFFF_FFFF, 6) == BigEndian(0xFF_FFFF_FFFF, 5) + [255];
    assert BigEndian(0xFF_FFFF_FFFF_FFFF, 7) == BigEndian(0xFFFF_FFFF_FFFF, 6) + [255];
    assert BigEndian(0xFFFF_FFFF_FFFF_FFFF, 8) == BigEndian(0xFF_FFFF_FFFF_FFFF, 7) + [255];
  }

  // ---------- the byte flips that compute the code ----------

  function Complement(b: Bytes): (r: Bytes)
    ensures |r| == |b|
    ensures forall i :: 0 <= i < |b| ==> r[i] == 255 - b[i]
  {
    seq(|b|, i requires 0 <= i < |b| => 255 - b[i])
  }

  lemma {:induction false} ComplementBigEndian(n: nat, width: nat)
    requires n < Pow256(width)
    ensures BigEndian(Pow256(width) - 1 - n, width) == Complement(BigEndian(n, width))
  {
    if width > 0 {
      ComplementBigEndian(n / 256, width - 1);
      assert Pow256(width) == 256 * Pow256(width - 1);
      var c := Pow256(width) - 1 - n;
      assert c / 256 == Pow256(width - 1) - 1 - n / 256 && c % 256 == 255 - n % 256;
    }
  }

  lemma {:induction false} RaiseTopBit(n: nat, width: nat)
    requires width > 0 && n < 128 * Pow256(width - 1)
    ensures BigEndian(n, width)[0] < 128
    ensures BigEndian(n + 128 * Pow256(width - 1), width)
            == BigEndian(n, width)[0 := BigEndian(n, width)[0] + 128]
  {
    if width == 1 {
      assert BigEndian(n, 1) == BigEndian(n / 256, 0) + [n % 256] == [n];
      assert BigEndian(n + 128, 1) == BigEndian((n + 128) / 256, 0) + [(n + 128) % 256] == [n + 128];
    } else {
      var high := 128 * Pow256(width - 2);
      assert Pow256(width - 1) == 256 * Pow256(width - 2);
      RaiseTopBit(n / 256, width - 1);
      assert (n + 256 * high) / 256 == n / 256 + high && (n + 256 * high) % 256 == n % 256;
    }
  }

  /** Exclusive or with 0x80. */
  function FlipTopBit(b: byte): byte { if b < 128 then b + 128 else b - 128 }

  /** The code of a non-negative pattern is the pattern with its first bit flipped. */
  lemma CodeOfNonNegative(bits: u64)
    requires bits < SIGN_BIT
    ensures ScoreCode(bits) == EncodeU64(bits)[0 := FlipTopBit(EncodeU64(bits)[0])]
  {
    hide BigEndian;
    SignUnit();
    RaiseTopBit(bits, 8);
  }

  /** The code of a negative pattern is the pattern with every bit flipped. */
  lemma CodeOfNegative(bits: u64)
    requires bits >= SIGN_BIT
    ensures ScoreCode(bits) == Complement(EncodeU64(bits))
  {
    hide BigEndian;
    Pow256Values();
    ComplementBigEndian(bits, 8);
  }

  lemma SignUnit()
    ensures 128 * Pow256(7) == SIGN_BIT
  {
    Pow256Values();
    assert Pow256(8) == 256 * Pow256(7);
  }

  method FlipAll(bytes: array<byte>)
    modifies bytes
    ensures bytes[..] == Complement(old(bytes[..]))
  {
    for i := 0 to bytes.Length
      invariant forall j :: 0 <= j < i ==> bytes[j] == 255 - old(bytes[j])
      invariant forall j :: i <= j < bytes.Length ==> bytes[j] == old(bytes[j])
    {
      bytes[i] := 255 - bytes[i];
    }
  }

  /** encode_score: flip the sign bit of a non-negative score, every bit of a negative one. */
  method EncodeScore(bits: u64) returns (code: Bytes)
    ensures code == ScoreCode(bits)
  {
    hide EncodeU64, ScoreCode, Complement;
    var raw := EncodeU64(bits);
    var bytes := new byte[8](i requires 0 <= i < 8 => raw[i]);
    assert bytes[..] == raw;
    if bits < SIGN_BIT {
      CodeOfNonNegative(bits);
      bytes[0] := FlipTopBit(bytes[0]);
      assert bytes[..] == raw[0 := FlipTopBit(raw[0])];
    } else {
      CodeOfNegative(bits);
      FlipAll(bytes);
    }
    code := bytes[..];
  }

  /** decode_score undoes the flip, telling the cases apart by the first bit. */
  method DecodeScore(code: Bytes) returns (bits: u64)
    requires |code| == 8
    ensures bits == ScoreOfCode(code)
  {
    hide EncodeU64, DecodeU64, ScoreCode, ScoreOfCode, Complement;
    var bytes := new byte[8](i requires 0 <= i < 8 => code[i]);
    assert bytes[..] == code;
    ghost var raw := EncodeU64(ScoreOfCode(code));
    U64RoundTrip(ScoreOfCode(code));
    CodeFlipsBack(code);
    if bytes[0] >= 128 {
      bytes[0] := FlipTopBit(bytes[0]);
      assert bytes[..] == code[0 := FlipTopBit(code[0])];
    } else {
      FlipAll(bytes);
    }
    assert bytes[..] == raw;
    bits := DecodeU64(bytes[..]);
  }

  lemma CodeFlipsBack(code: Bytes)
    requires |code| == 8
    ensures EncodeU64(ScoreOfCode(code)) == if code[0] >= 128 then code[0 := FlipTopBit(code[0])] else Complement(code)
  {
    hide EncodeU64, DecodeU64, ScoreCode;
    var bits := ScoreOfCode(code);
    ScoreCodeRoundTrip(code);
    var raw := EncodeU64(bits);
    TopBitIsSign(bits);
    if bits < SIGN_BIT {
      CodeOfNonNegative(bits);
      assert raw == code[0 := FlipTopBit(code[0])];
    } else {
      CodeOfNegative(bits);
      assert code[0] == 255 - raw[0];
      assert Complement(code) == raw;
    }
  }

  lemma TopBitIsSign(c: u64)
    ensures EncodeU64(c)[0] >= 128 <==> c >= SIGN_BIT
  {
    hide BigEndian;
    SignUnit();
    RaiseTopBit(if c >= SIGN_BIT then c - SIGN_BIT else c, 8);
  }
}
