/** Bits of bytes, and byte strings read as bit arrays that go on with zeros. */
module Bits {
  import opened ByteStrings

  function BitsOf(b: nat, width: nat): (r: seq<bool>)
    ensures |r| == width
  {
    if width == 0 then [] else [b % 2 == 1] + BitsOf(b / 2, width - 1)
  }

  function Power2(n: nat): nat { if n == 0 then 1 else 2 * Power2(n - 1) }

  function NumberOf(bits: seq<bool>): (n: nat)
    ensures n < Power2(|bits|)
  {
    if bits == [] then 0 else (if bits[0] then 1 else 0) + 2 * NumberOf(bits[1..])
  }

  lemma {:induction false} NumberRoundTrip(bits: seq<bool>)
    ensures BitsOf(NumberOf(bits), |bits|) == bits
  {
    if bits != [] {
      NumberRoundTrip(bits[1..]);
      assert NumberOf(bits) / 2 == NumberOf(bits[1..]);
      assert bits == [bits[0]] + bits[1..];
    }
  }

  lemma Power2Of8()
    ensures Power2(8) == 256
  {
    assert Power2(4) == 16;
    assert Power2(5) == 32 && Power2(6) == 64 && Power2(7) == 128;
  }

  /** The byte with these eight bits, lowest first. */
  function ByteOf(bits: seq<bool>): byte
    requires |bits| == 8
  {
    Power2Of8();
    NumberOf(bits)
  }

  /** (b >> i) & 1. */
  function Bit(b: byte, i: nat): bool
    requires i < 8
  {
    BitsOf(b, 8)[i]
  }

  lemma BitOfByte(bits: seq<bool>, i: nat)
    requires |bits| == 8 && i < 8
    ensures Bit(ByteOf(bits), i) == bits[i]
  {
    hide BitsOf, NumberOf;
    NumberRoundTrip(bits);
  }

  /** b with bit i set or cleared. */
  function WithBit(b: byte, i: nat, on: bool): byte
    requires i < 8
  {
    ByteOf(BitsOf(b, 8)[i := on])
  }

  lemma WithBitBits(b: byte, i: nat, on: bool, j: nat)
    requires i < 8 && j < 8
    ensures Bit(WithBit(b, i, on), j) == if j == i then on else Bit(b, j)
  {
    hide BitsOf, ByteOf;
    BitOfByte(BitsOf(b, 8)[i := on], j);
  }

  // ---------- operations on bytes ----------

  datatype BitOp = And | Or | Xor | Not

  function BitFn(op: BitOp, x: bool, y: bool): bool {
    match op
    case And => x && y
    case Or => x || y
    case Xor => x != y
    case Not => !x
  }

  function MapBits(op: BitOp, a: seq<bool>, b: seq<bool>): (r: seq<bool>)
    requires |a| == |b|
    ensures |r| == |a| && forall i :: 0 <= i < |a| ==> r[i] == BitFn(op, a[i], b[i])
  {
    seq(|a|, i requires 0 <= i < |a| => BitFn(op, a[i], b[i]))
  }

  /** The operation on each bit; NOT looks at its first argument only. */
  function ByteFn(op: BitOp, a: byte, b: byte): byte { ByteOf(MapBits(op, BitsOf(a, 8), BitsOf(b, 8))) }

  lemma ByteFnBits(op: BitOp, a: byte, b: byte, i: nat)
    requires i < 8
    ensures Bit(ByteFn(op, a, b), i) == BitFn(op, Bit(a, i), Bit(b, i))
  {
    hide BitsOf, ByteOf;
    BitOfByte(MapBits(op, BitsOf(a, 8), BitsOf(b, 8)), i);
  }

  /** Bit i of a byte has the weight 2^i. */
  lemma OneBit(i: nat)
    requires i < 8
    ensures WithBit(0, i, true) == Power2(i)
  {
    hide NumberOf, BitsOf;
    ZeroBitsOf(8);
    OnlyOne(BitsOf(0, 8)[i := true], i);
  }

  lemma {:induction false} ZeroBitsOf(width: nat)
    ensures forall i :: 0 <= i < width ==> !BitsOf(0, width)[i]
  {
    if width > 0 { ZeroBitsOf(width - 1); }
  }

  lemma {:induction false} OnlyOne(bits: seq<bool>, i: nat)
    requires i < |bits| && forall j :: 0 <= j < |bits| ==> (bits[j] <==> j == i)
    ensures NumberOf(bits) == Power2(i)
  {
    if i == 0 { NoneSet(bits[1..]); } else { OnlyOne(bits[1..], i - 1); }
  }

  lemma {:induction false} NoneSet(bits: seq<bool>)
    requires forall j :: 0 <= j < |bits| ==> !bits[j]
    ensures NumberOf(bits) == 0
  {
    if bits != [] { NoneSet(bits[1..]); }
  }

  function CountTrue(bits: seq<bool>): nat {
    if bits == [] then 0 else (if bits[0] then 1 else 0) + CountTrue(bits[1..])
  }

  /** count_ones. */
  function Ones(b: byte): nat { CountTrue(BitsOf(b, 8)) }

  // ---------- byte strings with zeros behind ----------

  function At(a: Bytes, n: nat): byte { if n < |a| then a[n] else 0 }

  /** A bit array: bit o is bit o % 8 of byte o / 8. */
  function BitAt(a: Bytes, o: nat): bool { Bit(At(a, o / 8), o % 8) }

  /** At least n bytes, the new ones 0. */
  function Extended(a: Bytes, n: nat): (r: Bytes)
    ensures |r| == if |a| < n then n else |a|
    ensures forall i :: At(r, i) == At(a, i)
  {
    if |a| < n then a + seq(n - |a|, i => 0) else a
  }

  function Flipped(a: Bytes, o: nat, on: bool): (r: Bytes)
    ensures |r| == if |a| < o / 8 + 1 then o / 8 + 1 else |a|
  {
    var e := Extended(a, o / 8 + 1);
    e[o / 8 := WithBit(e[o / 8], o % 8, on)]
  }

  lemma FlippedAt(a: Bytes, o: nat, on: bool, n: nat)
    ensures At(Flipped(a, o, on), n) == if n == o / 8 then WithBit(At(a, o / 8), o % 8, on) else At(a, n)
  {
    hide WithBit;
    var e := Extended(a, o / 8 + 1);
    assert At(e, n) == At(a, n) && At(e, o / 8) == At(a, o / 8);
  }

  /** Writing one bit changes that bit and no other. */
  lemma FlippedBits(a: Bytes, o: nat, on: bool, p: nat)
    ensures BitAt(Flipped(a, o, on), p) == if p == o then on else BitAt(a, p)
  {
    hide WithBit, Bit, Flipped;
    FlippedAt(a, o, on, p / 8);
    WithBitBits(At(a, o / 8), o % 8, on, p % 8);
    if p / 8 == o / 8 && p % 8 == o % 8 { assert p == o; }
  }

  /** Setting bit o of an empty array gives byte o / 8 the value 2^(o % 8). */
  lemma FlippedWeight(o: nat)
    ensures At(Flipped([], o, true), o / 8) == Power2(o % 8)
  {
    hide WithBit, Flipped;
    FlippedAt([], o, true, o / 8);
    OneBit(o % 8);
  }

  /** The number of set bits in bytes lo up to hi. */
  function OnesIn(a: Bytes, lo: nat, hi: nat): nat
    requires lo <= hi
    decreases hi - lo
  {
    if lo == hi then 0 else OnesIn(a, lo, hi - 1) + Ones(At(a, hi - 1))
  }

  lemma {:induction false} OnesInSplit(a: Bytes, lo: nat, mid: nat, hi: nat)
    requires lo <= mid <= hi
    ensures OnesIn(a, lo, hi) == OnesIn(a, lo, mid) + OnesIn(a, mid, hi)
    decreases hi
  {
    if mid < hi { OnesInSplit(a, lo, mid, hi - 1); }
  }

  // ---------- what is counted ----------

  lemma {:induction false} CountTrueSnoc(bits: seq<bool>, b: bool)
    ensures CountTrue(bits + [b]) == CountTrue(bits) + if b then 1 else 0
  {
    if bits == [] {
      assert [b][1..] == [];
    } else {
      CountTrueSnoc(bits[1..], b);
      assert (bits + [b])[1..] == bits[1..] + [b];
    }
  }

  /** The offsets of the set bits in bytes lo up to hi. */
  ghost function SetBits(a: Bytes, lo: nat, hi: nat): set<nat> { set o | 8 * lo <= o < 8 * hi && BitAt(a, o) }

  /** The number counted is the number of set bits that lie in those bytes. */
  lemma {:induction false} OnesInIs(a: Bytes, lo: nat, hi: nat)
    requires lo <= hi
    ensures OnesIn(a, lo, hi) == |SetBits(a, lo, hi)|
    decreases hi - lo
  {
    hide Ones, Bit;
    if lo == hi {
      assert SetBits(a, lo, hi) == {};
    } else {
      OnesInIs(a, lo, hi - 1);
      OneByteSet(a, hi - 1);
      assert SetBits(a, lo, hi) == SetBits(a, lo, hi - 1) + SetBits(a, hi - 1, hi);
    }
  }

  /** The offsets of the set bits among the first w bits of byte n. */
  ghost function SetInByte(a: Bytes, n: nat, w: nat): set<nat> { set o | 8 * n <= o < 8 * n + w && BitAt(a, o) }

  lemma {:induction false} FirstBitsSet(a: Bytes, n: nat, w: nat)
    requires w <= 8
    ensures CountTrue(BitsOf(At(a, n), 8)[..w]) == |SetInByte(a, n, w)|
  {
    hide BitsOf, At, CountTrue;
    var bits := BitsOf(At(a, n), 8);
    if w == 0 {
      assert bits[..0] == [] && SetInByte(a, n, 0) == {};
      NoneCounted();
    } else {
      var v := w - 1;
      FirstBitsSet(a, n, v);
      assert bits[..w] == bits[..v] + [bits[v]];
      CountTrueSnoc(bits[..v], bits[v]);
      var o := 8 * n + v;
      assert o / 8 == n && o % 8 == v;
      assert BitAt(a, o) == bits[v];
      hide BitAt;
      assert SetInByte(a, n, w) == SetInByte(a, n, v) + if bits[v] then {o} else {};
    }
  }

  lemma NoneCounted()
    ensures CountTrue([]) == 0
  {
  }

  lemma OneByteSet(a: Bytes, n: nat)
    ensures Ones(At(a, n)) == |SetBits(a, n, n + 1)|
  {
    hide BitsOf, CountTrue, At, BitAt;
    FirstBitsSet(a, n, 8);
    assert BitsOf(At(a, n), 8)[..8] == BitsOf(At(a, n), 8);
    assert SetInByte(a, n, 8) == SetBits(a, n, n + 1);
  }

  lemma NoOnes()
    ensures Ones(0) == 0
  {
    assert CountTrue(BitsOf(0, 4)) == 0;
    assert CountTrue(BitsOf(0, 5)) == 0 by { assert BitsOf(0, 5)[1..] == BitsOf(0, 4); }
    assert CountTrue(BitsOf(0, 6)) == 0 by { assert BitsOf(0, 6)[1..] == BitsOf(0, 5); }
    assert CountTrue(BitsOf(0, 7)) == 0 by { assert BitsOf(0, 7)[1..] == BitsOf(0, 6); }
    assert BitsOf(0, 8)[1..] == BitsOf(0, 7);
  }
}
