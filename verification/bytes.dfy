/** Byte strings, the byte-wise (memcmp) key order of the store, and the
    fixed-width big-endian integers that keys and values are built from. */
module ByteStrings {

  type byte = x: int | 0 <= x < 256
  type Bytes = seq<byte>

  const U64_LIMIT: int := 0x1_0000_0000_0000_0000
  const SIGN_BIT: int := 0x8000_0000_0000_0000
  const U32_LIMIT: int := 0x1_0000_0000

  type u64 = x: int | 0 <= x < 0x1_0000_0000_0000_0000
  type i64 = x: int | -0x8000_0000_0000_0000 <= x < 0x8000_0000_0000_0000

  datatype Option<+T> = None | Some(value: T)

  /** Strict byte-wise order: the order RocksDB iterates keys in. */
  predicate Less(a: Bytes, b: Bytes)
  {
    if b == [] then false
    else if a == [] then true
    else a[0] < b[0] || (a[0] == b[0] && Less(a[1..], b[1..]))
  }

  predicate AtMost(a: Bytes, b: Bytes)
  {
    a == b || Less(a, b)
  }

  lemma {:induction false} LessIrreflexive(a: Bytes)
    ensures !Less(a, a)
  {
    if a != [] { LessIrreflexive(a[1..]); }
  }

  lemma {:induction false} LessTransitive(a: Bytes, b: Bytes, c: Bytes)
    requires Less(a, b) && Less(b, c)
    ensures Less(a, c)
  {
    if a != [] && a[0] == b[0] && b[0] == c[0] {
      LessTransitive(a[1..], b[1..], c[1..]);
    }
  }

  lemma {:induction false} LessTotal(a: Bytes, b: Bytes)
    ensures Less(a, b) || a == b || Less(b, a)
  {
    if a != [] && b != [] && a[0] == b[0] {
      LessTotal(a[1..], b[1..]);
      assert a == [a[0]] + a[1..] && b == [b[0]] + b[1..];
    }
  }

  lemma LessAsymmetric(a: Bytes, b: Bytes)
    ensures !(Less(a, b) && Less(b, a))
  {
    if Less(a, b) && Less(b, a) {
      LessTransitive(a, b, a);
      LessIrreflexive(a);
    }
  }

  /** A common prefix does not take part in the comparison. */
  lemma {:induction false} LessUnderPrefix(p: Bytes, a: Bytes, b: Bytes)
    ensures Less(p + a, p + b) <==> Less(a, b)
  {
    if p == [] {
      assert p + a == a && p + b == b;
    } else {
      assert (p + a)[1..] == p[1..] + a && (p + b)[1..] == p[1..] + b;
      LessUnderPrefix(p[1..], a, b);
    }
  }

  /** A key is never below one of its prefixes. */
  lemma {:induction false} PrefixAtMost(p: Bytes, k: Bytes)
    requires p <= k
    ensures AtMost(p, k) && !Less(k, p)
  {
    if p != [] {
      PrefixAtMost(p[1..], k[1..]);
      assert p == [p[0]] + p[1..] && k == [k[0]] + k[1..];
    }
  }

  /** The keys that carry a prefix form an interval of the key order. */
  lemma {:induction false} PrefixConvex(p: Bytes, a: Bytes, x: Bytes, b: Bytes)
    requires p <= b && AtMost(a, x) && AtMost(x, b) && AtMost(p, a)
    ensures p <= x
  {
    if p == [] || x == a == p {
    } else {
      if Less(p, a) && Less(a, x) { LessTransitive(p, a, x); }
      assert AtMost(p, x);
      PrefixBetween(p, x, b);
    }
  }

  lemma {:induction false} PrefixBetween(p: Bytes, x: Bytes, b: Bytes)
    requires p <= b && AtMost(p, x) && AtMost(x, b)
    ensures p <= x
  {
    if p != [] && x != p && x != b {
      assert x[0] == p[0] == b[0];
      assert p[1..] <= b[1..];
      PrefixBetween(p[1..], x[1..], b[1..]);
      assert p == [p[0]] + p[1..] && x == [x[0]] + x[1..];
    }
  }

  /** For strings of one length the last byte decides only between equal heads. */
  lemma {:induction false} LessSnoc(a: Bytes, x: byte, b: Bytes, y: byte)
    requires |a| == |b|
    ensures Less(a + [x], b + [y]) <==> Less(a, b) || (a == b && x < y)
  {
    if a == [] {
      assert a + [x] == [x] && b + [y] == [y];
    } else {
      assert (a + [x])[1..] == a[1..] + [x] && (b + [y])[1..] == b[1..] + [y];
      LessSnoc(a[1..], x, b[1..], y);
      assert a == [a[0]] + a[1..] && b == [b[0]] + b[1..];
    }
  }

  /** Fixed-width heads are compared before what follows them. */
  lemma {:induction false} LessFixedWidth(a: Bytes, x: Bytes, b: Bytes, y: Bytes)
    requires |a| == |b|
    ensures Less(a + x, b + y) <==> Less(a, b) || (a == b && Less(x, y))
  {
    if a == [] {
      assert a + x == x && b + y == y;
    } else {
      assert (a + x)[1..] == a[1..] + x && (b + y)[1..] == b[1..] + y;
      LessFixedWidth(a[1..], x, b[1..], y);
      assert a == [a[0]] + a[1..] && b == [b[0]] + b[1..];
    }
  }

  // ---------- fixed-width big-endian integers ----------

  function Pow256(width: nat): (p: int)
    ensures p > 0
  {
    if width == 0 then 1 else 256 * Pow256(width - 1)
  }

  function BigEndian(n: nat, width: nat): (b: Bytes)
    ensures |b| == width
  {
    if width == 0 then [] else BigEndian(n / 256, width - 1) + [n % 256]
  }

  function FromBigEndian(b: Bytes): (n: nat)
    ensures n < Pow256(|b|)
  {
    if b == [] then 0 else 256 * FromBigEndian(b[..|b| - 1]) + b[|b| - 1]
  }

  lemma {:induction false} BigEndianRoundTrip(n: nat, width: nat)
    requires n < Pow256(width)
    ensures FromBigEndian(BigEndian(n, width)) == n
  {
    if width > 0 {
      BigEndianRoundTrip(n / 256, width - 1);
      var b := BigEndian(n, width);
      assert b[..|b| - 1] == BigEndian(n / 256, width - 1);
    }
  }

  lemma {:induction false} FromBigEndianRoundTrip(b: Bytes)
    ensures BigEndian(FromBigEndian(b), |b|) == b
  {
    if b != [] {
      FromBigEndianRoundTrip(b[..|b| - 1]);
      assert b == b[..|b| - 1] + [b[|b| - 1]];
      assert FromBigEndian(b) / 256 == FromBigEndian(b[..|b| - 1]);
      assert FromBigEndian(b) % 256 == b[|b| - 1];
    }
  }

  /** Byte order of equal-width big-endian integers is numeric order. */
  lemma {:induction false} BigEndianOrder(m: nat, n: nat, width: nat)
    requires m < Pow256(width) && n < Pow256(width)
    ensures Less(BigEndian(m, width), BigEndian(n, width)) <==> m < n
    ensures BigEndian(m, width) == BigEndian(n, width) <==> m == n
  {
    BigEndianRoundTrip(m, width);
    BigEndianRoundTrip(n, width);
    if width > 0 {
      BigEndianOrder(m / 256, n / 256, width - 1);
      LessSnoc(BigEndian(m / 256, width - 1), m % 256, BigEndian(n / 256, width - 1), n % 256);
    }
  }

  lemma Pow256Values()
    ensures Pow256(1) == 256 && Pow256(4) == U32_LIMIT && Pow256(8) == U64_LIMIT
  {
    assert Pow256(2) == 256 * Pow256(1);
    assert Pow256(3) == 256 * Pow256(2);
    assert Pow256(5) == 256 * Pow256(4);
    assert Pow256(6) == 256 * Pow256(5);
    assert Pow256(7) == 256 * Pow256(6);
  }

  /** u64::to_be_bytes and u64::from_be_bytes. */
  function EncodeU64(n: u64): (b: Bytes)
    ensures |b| == 8
  {
    BigEndian(n, 8)
  }

  function DecodeU64(b: Bytes): (n: u64)
    requires |b| == 8
  {
    Pow256Values();
    FromBigEndian(b)
  }

  lemma U64RoundTrip(n: u64)
    ensures DecodeU64(EncodeU64(n)) == n
  {
    Pow256Values();
    BigEndianRoundTrip(n, 8);
  }

  lemma U64BytesRoundTrip(b: Bytes)
    requires |b| == 8
    ensures EncodeU64(DecodeU64(b)) == b
  {
    FromBigEndianRoundTrip(b);
  }

  lemma U64Order(m: u64, n: u64)
    ensures Less(EncodeU64(m), EncodeU64(n)) <==> m < n
    ensures EncodeU64(m) == EncodeU64(n) <==> m == n
  {
    Pow256Values();
    BigEndianOrder(m, n, 8);
  }

  /** i64::to_be_bytes and i64::from_be_bytes: two's complement. */
  function EncodeI64(n: i64): (b: Bytes)
    ensures |b| == 8
  {
    EncodeU64(if n < 0 then n + U64_LIMIT else n)
  }

  function DecodeI64(b: Bytes): (n: i64)
    requires |b| == 8
  {
    var raw := DecodeU64(b);
    if raw >= SIGN_BIT then raw - U64_LIMIT else raw
  }

  lemma I64RoundTrip(n: i64)
    ensures DecodeI64(EncodeI64(n)) == n
  {
    U64RoundTrip(if n < 0 then n + U64_LIMIT else n);
  }
}
