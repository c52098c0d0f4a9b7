/** Bitmaps: a byte string cut into fragments of 1024 bytes, missing or short where it is zero. */
module Bitmaps {
  import opened ByteStrings
  import opened OrderedStore
  import opened Storage
  import opened Encoding
  import opened Contexts
  import opened Bits

  const FRAGMENT_BYTES: nat := 1024
  const FRAGMENT_BITS: nat := 8192

  /** The bytes that offsets below 2^64 can reach. */
  const MAX_BYTES: nat := 0x2000_0000_0000_0000

  // ---------- fragments ----------

  type Frags = map<Bytes, Bytes>

  /** The fragment with an index; a missing one is empty. */
  function Frag(v: Frags, i: u64): Bytes { if EncodeU64(i) in v then v[EncodeU64(i)] else [] }

  /** The fragments spell the byte string a, and no fragment holds a byte at or beyond its end. */
  ghost predicate Spells(v: Frags, a: Bytes) {
    && |a| <= MAX_BYTES
    && (forall i: u64 :: |Frag(v, i)| <= FRAGMENT_BYTES && (Frag(v, i) != [] ==> 1024 * i + |Frag(v, i)| <= |a|))
    && (forall n: u64 :: At(Frag(v, n / 1024), n % 1024) == At(a, n))
  }

  lemma FragPut(v: Frags, i: u64, f: Bytes, j: u64)
    ensures Frag(v[EncodeU64(i) := f], j) == if j == i then f else Frag(v, j)
  {
    hide EncodeU64;
    U64Order(i, j);
  }

  /** A fragment with one byte replaced, grown with zeros to reach it. */
  function Patched(f: Bytes, at: nat, b: byte): (r: Bytes)
    ensures |r| == if |f| <= at then at + 1 else |f|
  {
    Extended(f, at + 1)[at := b]
  }

  lemma PatchedAt(f: Bytes, at: nat, b: byte, n: nat)
    ensures At(Patched(f, at, b), n) == if n == at then b else At(f, n)
  {
    var e := Extended(f, at + 1);
    assert At(e, n) == At(f, n);
  }

  lemma Places(o: u64)
    ensures o / 8192 == o / 8 / 1024 && o % 8192 / 8 == o / 8 % 1024
  {
  }

  /** Patching one byte of its fragment patches the byte string. */
  lemma PatchSpells(v: Frags, a: Bytes, n: u64, b: byte, a': Bytes)
    requires Spells(v, a) && |a'| <= MAX_BYTES && |a'| == (if |a| <= n then n + 1 else |a|)
    requires forall m: u64 :: At(a', m) == if m == n then b else At(a, m)
    ensures Spells(v[EncodeU64(n / 1024) := Patched(Frag(v, n / 1024), n % 1024, b)], a')
  {
    hide EncodeU64, Frag, Patched, At;
    var i, f := n / 1024, Frag(v, n / 1024);
    var w := v[EncodeU64(i) := Patched(f, n % 1024, b)];
    forall j: u64 ensures |Frag(w, j)| <= FRAGMENT_BYTES && (Frag(w, j) != [] ==> 1024 * j + |Frag(w, j)| <= |a'|) {
      FragPut(v, i, Patched(f, n % 1024, b), j);
      assert 1024 * i + n % 1024 == n;
    }
    forall m: u64 ensures At(Frag(w, m / 1024), m % 1024) == At(a', m) {
      FragPut(v, i, Patched(f, n % 1024, b), m / 1024);
      PatchedAt(f, n % 1024, b, m % 1024);
      if m / 1024 == i && m % 1024 == n % 1024 { assert m == n; }
    }
  }

  // ---------- records ----------

  predicate IsBitmap(m: Metadata) { m.Type() == Some(TBitmap) && m.head == 0 && m.tail == -1 }

  function BitmapMeta(d: Disk, ns: Bytes, k: Bytes, now: i64): (r: Result<Option<Metadata>>)
    ensures r.Ok? && r.value.Some? ==> IsBitmap(r.value.value)
  {
    match GetMeta(d, ns, k)
    case None => Ok(None)
    case Some(v) =>
      if v == [] then Err(BadEncoding)
      else if TypeOfFlags(v[0]) == Some(TString) then Err(WrongType)
      else
        match DecodeMetadata(v)
        case None => Err(BadEncoding)
        case Some(m) =>
          if m.Type() != Some(TBitmap) then Err(WrongType)
          else if m.Expired(now) then Ok(None)
          else Ok(Some(m))
  }

  ghost predicate Shape(d: Disk, ns: Bytes, k: Bytes, m: Metadata, a: Bytes) {
    m.size == |a| && Spells(View(d.subkey, Stem(ns, k, m.version)), a)
  }

  ghost predicate Sees(d: Disk, ns: Bytes, k: Bytes, now: i64, a: Bytes) {
    match BitmapMeta(d, ns, k, now)
    case Err(_) => true
    case Ok(None) => a == []
    case Ok(Some(m)) => Shape(d, ns, k, m, a)
  }

  ghost predicate Stored(d: Disk, ns: Bytes, k: Bytes, m: Metadata, a: Bytes) {
    GetMeta(d, ns, k) == Some(EncodeMetadata(m)) && IsBitmap(m) && Shape(d, ns, k, m, a)
  }

  lemma StoredIsSeen(d: Disk, ns: Bytes, k: Bytes, now: i64, m: Metadata, a: Bytes)
    requires Stored(d, ns, k, m, a)
    ensures BitmapMeta(d, ns, k, now) == Ok(if m.Expired(now) then None else Some(m))
    ensures !m.Expired(now) ==> Sees(d, ns, k, now, a)
  {
    hide EncodeMetadata, DecodeMetadata, GetMeta, Shape;
    MetadataRoundTrip(m);
    EncodedFlags(m);
  }

  /** A record of another type is refused, an expired bitmap is absent. */
  lemma BitmapMetaCases(d: Disk, ns: Bytes, k: Bytes, now: i64, m: Metadata)
    requires m.Type().Some? && GetMeta(d, ns, k) == Some(EncodeMetadata(m))
    ensures BitmapMeta(d, ns, k, now) == if m.Type() != Some(TBitmap) then Err(WrongType)
                                         else if m.Expired(now) then Ok(None)
                                         else Ok(Some(m.(head := 0, tail := -1)))
  {
    hide EncodeMetadata, DecodeMetadata, GetMeta;
    MetadataRoundTrip(m);
    EncodedFlags(m);
  }

  function StartBitmap(meta: Option<Metadata>, newVersion: u64): Metadata {
    match meta
    case Some(m) => m
    case None => NewMetadata(TBitmap, newVersion)
  }

  lemma NothingSpelled(v: Frags)
    requires v == map[]
    ensures Spells(v, [])
  {
  }

  lemma StartShape(d: Disk, ns: Bytes, k: Bytes, now: i64, a: Bytes, newVersion: u64)
    requires Sees(d, ns, k, now, a) && Vacant(d, Stem(ns, k, newVersion))
    ensures var meta := BitmapMeta(d, ns, k, now);
            meta.Ok? ==> var m := StartBitmap(meta.value, newVersion);
                         Shape(d, ns, k, m, a) && IsBitmap(m)
  {
    hide Stem, View, BitmapMeta, Spells;
    NothingSpelled(View(d.subkey, Stem(ns, k, newVersion)));
  }

  /** read_fragment. */
  method ReadFragment(db: StorageEngine, ns: Bytes, k: Bytes, version: u64, i: u64) returns (f: Bytes)
    ensures f == Frag(View(db.disk.subkey, Stem(ns, k, version)), i)
  {
    hide Stem, SubKey, EncodeU64, View;
    SubKeyIsStem(ns, k, version, EncodeU64(i));
    var r := db.Get(CfSubkey, SubKey(k, version, EncodeU64(i), ns));
    f := if r.Some? then r.value else [];
  }

  // ---------- SETBIT and GETBIT ----------

  ghost predicate Wrote(d: Disk, e: Disk, ns: Bytes, k: Bytes, m: Metadata, a: Bytes) {
    Stored(e, ns, k, m, a) && Touches(d, e, MetadataKey(k, ns), Stem(ns, k, m.version))
  }

  lemma CommitPatch(d: Disk, ns: Bytes, k: Bytes, m: Metadata, i: u64, f: Bytes, a: Bytes)
    requires IsBitmap(m) && m.size == |a|
    requires Spells(View(d.subkey, Stem(ns, k, m.version))[EncodeU64(i) := f], a)
    ensures Wrote(d, Apply(d, [MetaPut(ns, k, m)] + [Put(CfSubkey, Stem(ns, k, m.version) + EncodeU64(i), f)]),
                  ns, k, m, a)
  {
    hide Stem, MetadataKey, View, Apply, EncodeMetadata, EncodeU64, Spells, GetMeta, Touches, Staged;
    var p, mk := Stem(ns, k, m.version), MetadataKey(k, ns);
    var d1, put := ApplyOp(d, MetaPut(ns, k, m)), Put(CfSubkey, p + EncodeU64(i), f);
    StagedNothing(d1, mk, p);
    StagedPut(d1, [], mk, p, View(d.subkey, p), EncodeU64(i), f);
    assert [] + [put] == [put];
    RecordThenStaged(d, [put], ns, k, p, EncodeMetadata(m), View(d.subkey, p)[EncodeU64(i) := f]);
  }

  /** SETBIT key offset bit: that bit of the array becomes the bit given, every other bit
      stays, and the reply is the bit as it was. */
  method Setbit(db: StorageEngine, ns: Bytes, k: Bytes, now: i64, newVersion: u64, offset: Option<u64>,
                bit: Option<bool>, ghost a: Bytes)
    returns (r: Result<bool>, ghost m: Metadata)
    requires Sees(db.disk, ns, k, now, a) && Vacant(db.disk, Stem(ns, k, newVersion))
    modifies db
    ensures r.Err? ==> db.disk == old(db.disk)
    ensures var meta := BitmapMeta(old(db.disk), ns, k, now);
            if offset.None? || bit.None? then r == Err(OutOfRange)
            else if meta.Err? then r == Err(meta.error)
            else
              var start := StartBitmap(meta.value, newVersion);
              var a' := Flipped(a, offset.value, bit.value);
              && r == Ok(BitAt(a, offset.value))
              && |a'| <= MAX_BYTES && m == start.(size := |a'|)
              && Wrote(old(db.disk), db.disk, ns, k, m, a')
  {
    hide Stem, MetadataKey, BitmapMeta, Sees, Vacant, Apply, MetaPut, Stored, Touches, SubKey, EncodeU64;
    hide View, Spells, Bit, WithBit, Frag, Flipped, At, StartBitmap, Patched;
    m := NewMetadata(TBitmap, newVersion);
    if offset.None? || bit.None? { return Err(OutOfRange), m; }
    var o := offset.value;
    var loaded := BitmapMeta(db.disk, ns, k, now);
    if loaded.Err? { return Err(loaded.error), m; }
    var meta := StartBitmap(loaded.value, newVersion);
    StartShape(db.disk, ns, k, now, a, newVersion);
    ghost var v := View(db.disk.subkey, Stem(ns, k, meta.version));
    var index, fragOff, bitOff := o / FRAGMENT_BITS, o % FRAGMENT_BITS / 8, o % 8;
    Places(o);
    var frag := ReadFragment(db, ns, k, meta.version, index);
    FragByte(v, a, o / 8);
    var byteNow := At(frag, fragOff);
    var oldBit := Bit(byteNow, bitOff);
    frag := Patched(frag, fragOff, WithBit(byteNow, bitOff, bit.value));
    SetbitSpells(v, a, o, bit.value);
    var bytePos := o / 8 + 1;
    if bytePos > meta.size { meta := meta.(size := bytePos); }
    SubKeyIsStem(ns, k, meta.version, EncodeU64(index));
    CommitPatch(db.disk, ns, k, meta, index, frag, Flipped(a, o, bit.value));
    var batch := [MetaPut(ns, k, meta)];
    batch := batch + [Put(CfSubkey, SubKey(k, meta.version, EncodeU64(index), ns), frag)];
    db.Write(batch);
    m := meta;
    r := Ok(oldBit);
  }

  lemma FragByte(v: Frags, a: Bytes, n: u64)
    requires Spells(v, a)
    ensures At(Frag(v, n / 1024), n % 1024) == At(a, n)
  {
  }

  lemma SetbitSpells(v: Frags, a: Bytes, o: u64, on: bool)
    requires Spells(v, a)
    ensures var n := o / 8;
            var b := WithBit(At(a, n), o % 8, on);
            && |Flipped(a, o, on)| <= MAX_BYTES
            && Spells(v[EncodeU64(n / 1024) := Patched(Frag(v, n / 1024), n % 1024, b)], Flipped(a, o, on))
  {
    hide EncodeU64, Frag, Patched, At, WithBit, Flipped;
    var n, b := o / 8, WithBit(At(a, o / 8), o % 8, on);
    forall m: u64 ensures At(Flipped(a, o, on), m) == if m == n then b else At(a, m) {
      FlippedAt(a, o, on, m);
    }
    PatchSpells(v, a, n, b, Flipped(a, o, on));
  }

  /** GETBIT key offset: the bit of the array, 0 beyond its end. */
  method Getbit(db: StorageEngine, ns: Bytes, k: Bytes, now: i64, offset: Option<u64>, ghost a: Bytes)
    returns (r: Result<bool>)
    requires Sees(db.disk, ns, k, now, a)
    ensures var meta := BitmapMeta(db.disk, ns, k, now);
            if offset.None? then r == Err(OutOfRange)
            else if meta.Err? then r == Err(meta.error)
            else r == Ok(BitAt(a, offset.value))
  {
    hide Stem, BitmapMeta, EncodeU64, View, Spells, Frag;
    if offset.None? { return Err(OutOfRange); }
    var o := offset.value;
    var loaded := BitmapMeta(db.disk, ns, k, now);
    if loaded.Err? { return Err(loaded.error); }
    ZeroBits(o % 8);
    if loaded.value.None? { return Ok(false); }
    var meta := loaded.value.value;
    var index, fragOff, bitOff := o / FRAGMENT_BITS, o % FRAGMENT_BITS / 8, o % 8;
    Places(o);
    var frag := ReadFragment(db, ns, k, meta.version, index);
    FragByte(View(db.disk.subkey, Stem(ns, k, meta.version)), a, o / 8);
    if fragOff >= |frag| { return Ok(false); }
    r := Ok(Bit(frag[fragOff], bitOff));
  }

  lemma {:induction false} ZeroFrom(width: nat, i: nat)
    requires i < width
    ensures !BitsOf(0, width)[i]
  {
    if i > 0 { ZeroFrom(width - 1, i - 1); }
  }

  lemma ZeroBits(i: nat)
    requires i < 8
    ensures !Bit(0, i)
  {
    hide BitsOf;
    ZeroFrom(8, i);
  }

  // ---------- BITCOUNT ----------

  /** A byte index counted from the end when negative, then forced into the array. */
  function Clamped(idx: int, size: nat): (r: nat)
    requires size > 0
    ensures r < size
  {
    var i := if idx < 0 then size + idx else idx;
    if i < 0 then 0 else if i >= size then size - 1 else i
  }

  function CountRange(a: Bytes, start: int, end: int): nat {
    if a == [] then 0
    else
      var s, e := Clamped(start, |a|), Clamped(end, |a|);
      if s > e then 0 else OnesIn(a, s, e + 1)
  }

  /** Index a position counted from the end when negative. */
  function FromEnd(idx: int, size: nat): int { if idx < 0 then size + idx else idx }

  /** The bytes of the array between two positions: none when they do not meet it. */
  function OnesBetween(a: Bytes, s: int, e: int): nat {
    var lo, hi := if s < 0 then 0 else s, if e >= |a| then |a| - 1 else e;
    if lo > hi then 0 else OnesIn(a, lo, hi + 1)
  }

  lemma OneByte(a: Bytes, n: nat)
    ensures OnesIn(a, n, n + 1) == Ones(At(a, n))
  {
    assert OnesIn(a, n, n) == 0;
  }

  /** BITCOUNT counts the set bits of the bytes between its bounds, except that a range
      lying wholly past one end of the array counts the byte at that end. */
  lemma CountRangeExact(a: Bytes, start: int, end: int)
    requires a != []
    ensures var s, e := FromEnd(start, |a|), FromEnd(end, |a|);
            CountRange(a, start, end) == OnesBetween(a, s, e)
            <==> && (s >= |a| && (e >= |a| - 1 || |a| == 1) ==> Ones(a[|a| - 1]) == 0)
                 && (e < 0 && (s <= 0 || |a| == 1) ==> Ones(a[0]) == 0)
  {
    hide Ones, OnesIn;
    OneByte(a, |a| - 1);
    OneByte(a, 0);
  }

  /** BITCOUNT key 5 9 of the one byte 1 counts that byte, although no byte lies there. */
  lemma CountRangePastEnd()
    ensures CountRange([1], 5, 9) == 1 && OnesBetween([1], 5, 9) == 0
  {
    OneByte([1], 0);
  }

  /** The count between two positions is the number of set bits in the bytes that lie there. */
  lemma OnesBetweenIs(a: Bytes, s: int, e: int)
    ensures OnesBetween(a, s, e) == |set o | 0 <= o < 8 * |a| && s <= o / 8 <= e && BitAt(a, o)|
  {
    hide OnesIn, BitAt;
    var lo, hi := if s < 0 then 0 else s, if e >= |a| then |a| - 1 else e;
    var here := set o | 0 <= o < 8 * |a| && s <= o / 8 <= e && BitAt(a, o);
    if lo > hi {
      assert here == {};
    } else {
      OnesInIs(a, lo, hi + 1);
      assert here == SetBits(a, lo, hi + 1);
    }
  }

  /** Byte i goes by two numbers, i and i - size; a range inside the array counts the set bits
      of its bytes under either, and 0 to -1 counts them all. */
  lemma CountRangeInside(a: Bytes, i: nat, j: nat)
    requires i <= j < |a|
    ensures CountRange(a, i, j) == CountRange(a, i - |a|, j - |a|) == |SetBits(a, i, j + 1)|
    ensures CountRange(a, 0, -1) == |SetBits(a, 0, |a|)|
  {
    hide OnesIn, SetBits;
    OnesInIs(a, i, j + 1);
    OnesInIs(a, 0, |a|);
  }

  method CountSlice(f: Bytes, s: nat, e: nat) returns (count: nat)
    requires s <= e <= |f|
    ensures count == OnesIn(f, s, e)
  {
    hide Ones;
    count := 0;
    for i := s to e
      invariant count == OnesIn(f, s, i)
    {
      count := count + Ones(f[i]);
    }
  }

  /** Beyond the end of a byte string there is nothing to count. */
  lemma {:induction false} OnesBeyond(f: Bytes, lo: nat, hi: nat)
    requires |f| <= lo <= hi
    ensures OnesIn(f, lo, hi) == 0
    decreases hi
  {
    hide Ones;
    NoOnes();
    if lo < hi { OnesBeyond(f, lo, hi - 1); }
  }

  /** A stretch of the array inside one fragment. */
  lemma {:induction false} OnesShift(a: Bytes, f: Bytes, base: nat, lo: nat, hi: nat)
    requires lo <= hi && forall n :: lo <= n < hi ==> At(a, base + n) == At(f, n)
    ensures OnesIn(a, base + lo, base + hi) == OnesIn(f, lo, hi)
    decreases hi
  {
    hide Ones, At;
    if lo < hi { OnesShift(a, f, base, lo, hi - 1); }
  }

  lemma FragmentOnes(v: Frags, a: Bytes, i: u64, lo: nat, hi: nat)
    requires Spells(v, a) && lo <= hi <= 1024 && 1024 * i + 1024 < U64_LIMIT
    ensures var f := Frag(v, i);
            && OnesIn(a, 1024 * i + lo, 1024 * i + hi) == OnesIn(f, lo, hi)
            && (lo <= |f| <= hi ==> OnesIn(f, lo, hi) == OnesIn(f, lo, |f|))
            && (|f| <= lo ==> OnesIn(f, lo, hi) == 0)
  {
    hide OnesIn, Frag, At;
    var f := Frag(v, i);
    forall n | lo <= n < hi ensures At(a, 1024 * i + n) == At(f, n) {
      var at := 1024 * i + n;
      assert at / 1024 == i && at % 1024 == n;
      FragByte(v, a, at);
    }
    OnesShift(a, f, 1024 * i, lo, hi);
    if lo <= |f| <= hi {
      OnesInSplit(f, lo, |f|, hi);
      OnesBeyond(f, |f|, hi);
    }
    if |f| <= lo { OnesBeyond(f, lo, hi); }
  }

  /** The part of one fragment that BITCOUNT looks at. */
  method CountFragment(db: StorageEngine, ns: Bytes, k: Bytes, version: u64, i: u64, start: nat, end: nat,
                       ghost a: Bytes)
    returns (count: nat)
    requires Spells(View(db.disk.subkey, Stem(ns, k, version)), a)
             && start <= end < |a| && start / 1024 <= i <= end / 1024
    ensures var lo := if start > 1024 * i then start else 1024 * i;
            var hi := if end + 1 < 1024 * i + 1024 then end + 1 else 1024 * i + 1024;
            lo <= hi && count == OnesIn(a, lo, hi)
  {
    hide Stem, View, Spells, Frag, OnesIn;
    ghost var v := View(db.disk.subkey, Stem(ns, k, version));
    SpelledSize(v, a, i);
    var frag := ReadFragment(db, ns, k, version, i);
    var base := 1024 * i;
    var localStart := if start < base then 0 else start - base;
    var localEnd := if end - base < FRAGMENT_BYTES - 1 then end - base else FRAGMENT_BYTES - 1;
    FragmentOnes(v, a, i, localStart, localEnd + 1);
    if frag == [] { return 0; }
    if localEnd > |frag| - 1 { localEnd := |frag| - 1; }
    if localStart > localEnd { return 0; }
    count := CountSlice(frag, localStart, localEnd + 1);
  }

  lemma SpelledSize(v: Frags, a: Bytes, i: u64)
    requires Spells(v, a)
    ensures |a| <= MAX_BYTES && |Frag(v, i)| <= FRAGMENT_BYTES
  {
  }

  /** BITCOUNT over a live bitmap, fragment by fragment. */
  method CountBytes(db: StorageEngine, ns: Bytes, k: Bytes, version: u64, start: nat, end: nat, ghost a: Bytes)
    returns (count: nat)
    requires Spells(View(db.disk.subkey, Stem(ns, k, version)), a) && start <= end < |a|
    ensures count == OnesIn(a, start, end + 1)
  {
    hide Stem, View, Spells, OnesIn;
    ghost var v := View(db.disk.subkey, Stem(ns, k, version));
    SpelledSize(v, a, 0);
    var startFrag, endFrag := start / FRAGMENT_BYTES, end / FRAGMENT_BYTES;
    count := 0;
    NothingIn(a, start);
    ghost var reached := start;
    for i := startFrag to endFrag + 1
      invariant reached == if i == startFrag then start else if 1024 * i < end + 1 then 1024 * i else end + 1
      invariant start <= reached <= end + 1 && count == OnesIn(a, start, reached)
    {
      var more := CountFragment(db, ns, k, version, i, start, end, a);
      ghost var upTo := if end + 1 < 1024 * i + 1024 then end + 1 else 1024 * i + 1024;
      OnesInSplit(a, start, reached, upTo);
      count := count + more;
      reached := upTo;
    }
  }

  lemma NothingIn(a: Bytes, n: nat)
    ensures OnesIn(a, n, n) == 0
  {
  }

  /** BITCOUNT key [start end]. */
  method Bitcount(db: StorageEngine, ns: Bytes, k: Bytes, now: i64, range: Option<(Option<i64>, Option<i64>)>,
                  ghost a: Bytes)
    returns (r: Result<nat>)
    requires Sees(db.disk, ns, k, now, a)
    ensures var meta := BitmapMeta(db.disk, ns, k, now);
            if range.Some? && (range.value.0.None? || range.value.1.None?) then r == Err(NotInteger)
            else if meta.Err? then r == Err(meta.error)
            else if range.None? then r == Ok(CountRange(a, 0, -1))
            else r == Ok(CountRange(a, range.value.0.value, range.value.1.value))
  {
    hide Stem, BitmapMeta, View, Spells, OnesIn;
    var start, end := 0, -1;
    if range.Some? {
      if range.value.0.None? || range.value.1.None? { return Err(NotInteger); }
      start, end := range.value.0.value, range.value.1.value;
    }
    var loaded := BitmapMeta(db.disk, ns, k, now);
    if loaded.Err? { return Err(loaded.error); }
    if loaded.value.None? { return Ok(0); }
    var meta := loaded.value.value;
    if meta.size == 0 { return Ok(0); }
    var s, e := Clamped(start, meta.size), Clamped(end, meta.size);
    if s > e { return Ok(0); }
    var count := CountBytes(db, ns, k, meta.version, s, e, a);
    r := Ok(count);
  }

  // ---------- whole runs of SETBIT ----------

  datatype SetbitCmd = SetbitCmd(now: i64, newVersion: u64, offset: Option<u64>, bit: Option<bool>)

  predicate Legal(c: SetbitCmd) { c.offset.Some? && c.bit.Some? }

  function RunArray(cmds: seq<SetbitCmd>, a: Bytes): Bytes {
    if cmds == [] then a
    else
      var c, before := cmds[|cmds| - 1], RunArray(cmds[..|cmds| - 1], a);
      if Legal(c) then Flipped(before, c.offset.value, c.bit.value) else before
  }

  /** The bit that the last legal SETBIT of an offset wrote, or the one it had. */
  function LastWrite(cmds: seq<SetbitCmd>, a: Bytes, o: u64): bool {
    if cmds == [] then BitAt(a, o)
    else
      var c := cmds[|cmds| - 1];
      if Legal(c) && c.offset.value == o then c.bit.value else LastWrite(cmds[..|cmds| - 1], a, o)
  }

  /** That is the bit of the last command that wrote the offset. */
  lemma {:induction false} LastWriteMeaning(cmds: seq<SetbitCmd>, a: Bytes, o: u64, i: nat)
    requires i < |cmds| && Legal(cmds[i]) && cmds[i].offset.value == o
    requires forall j :: i < j < |cmds| && Legal(cmds[j]) ==> cmds[j].offset.value != o
    ensures LastWrite(cmds, a, o) == cmds[i].bit.value
  {
    hide BitAt;
    var n := |cmds| - 1;
    if i < n { LastWriteMeaning(cmds[..n], a, o, i); }
  }

  /** After any run, every bit of the array is the last one written to it. */
  lemma {:induction false} RunIsLastWrite(cmds: seq<SetbitCmd>, a: Bytes, o: u64)
    ensures BitAt(RunArray(cmds, a), o) == LastWrite(cmds, a, o)
  {
    hide BitAt, Flipped;
    if cmds != [] {
      var n := |cmds| - 1;
      RunIsLastWrite(cmds[..n], a, o);
      if Legal(cmds[n]) { FlippedBits(RunArray(cmds[..n], a), cmds[n].offset.value, cmds[n].bit.value, o); }
    }
  }

  ghost predicate Slot(d: Disk, ns: Bytes, k: Bytes, slot: Option<Metadata>, a: Bytes) {
    hide Stored, GetMeta;
    match slot
    case None => GetMeta(d, ns, k) == None && a == []
    case Some(m) => Stored(d, ns, k, m, a) && m.expire == 0
  }

  lemma SlotSees(d: Disk, ns: Bytes, k: Bytes, now: i64, slot: Option<Metadata>, a: Bytes)
    requires Slot(d, ns, k, slot, a)
    ensures BitmapMeta(d, ns, k, now) == Ok(slot) && Sees(d, ns, k, now, a)
  {
    hide Stored, GetMeta;
    if slot.Some? { StoredIsSeen(d, ns, k, now, slot.value, a); }
  }

  /** The key as the commands so far leave it, and the new versions still to come unused. */
  ghost predicate Ran(d: Disk, ns: Bytes, k: Bytes, slot: Option<Metadata>, a: Bytes, cmds: seq<SetbitCmd>, i: nat) {
    && Slot(d, ns, k, slot, a)
    && forall j :: i <= j < |cmds| ==>
         Vacant(d, Stem(ns, k, cmds[j].newVersion)) && (slot.Some? ==> slot.value.version != cmds[j].newVersion)
  }

  ghost predicate DistinctVersions(cmds: seq<SetbitCmd>) {
    forall i, j :: 0 <= i < j < |cmds| ==> cmds[i].newVersion != cmds[j].newVersion
  }

  lemma RanWrite(d: Disk, e: Disk, ns: Bytes, k: Bytes, slot: Option<Metadata>, a: Bytes, cmds: seq<SetbitCmd>, i: nat,
                 m: Metadata, a': Bytes)
    requires ValidKey(k) && ValidNamespace(ns) && i < |cmds|
             && DistinctVersions(cmds) && Ran(d, ns, k, slot, a, cmds, i)
    requires Wrote(d, e, ns, k, m, a') && m.expire == 0
    requires m.version == if slot.Some? then slot.value.version else cmds[i].newVersion
    ensures Ran(e, ns, k, Some(m), a', cmds, i + 1)
  {
    hide Stored, Vacant, Touches, Stem, MetadataKey, GetMeta;
    forall j | i + 1 <= j < |cmds|
      ensures Vacant(e, Stem(ns, k, cmds[j].newVersion)) && m.version != cmds[j].newVersion
    {
      VacantKept(d, e, ns, k, MetadataKey(k, ns), m.version, cmds[j].newVersion);
    }
  }

  lemma RunStep(cmds: seq<SetbitCmd>, i: nat, a: Bytes)
    requires i < |cmds|
    ensures var before := RunArray(cmds[..i], a);
            RunArray(cmds[..i + 1], a)
            == if Legal(cmds[i]) then Flipped(before, cmds[i].offset.value, cmds[i].bit.value) else before
  {
    hide Flipped;
    assert cmds[..i + 1][..i] == cmds[..i];
  }

  method RunOne(db: StorageEngine, ns: Bytes, k: Bytes, cmds: seq<SetbitCmd>, i: nat, ghost slot: Option<Metadata>,
                ghost a: Bytes)
    returns (r: Result<bool>, ghost next: Option<Metadata>)
    requires ValidKey(k) && ValidNamespace(ns) && i < |cmds| && DistinctVersions(cmds)
             && Ran(db.disk, ns, k, slot, a, cmds, i)
    modifies db
    ensures r == if Legal(cmds[i]) then Ok(BitAt(a, cmds[i].offset.value)) else Err(OutOfRange)
    ensures Ran(db.disk, ns, k, next,
                if Legal(cmds[i]) then Flipped(a, cmds[i].offset.value, cmds[i].bit.value) else a, cmds, i + 1)
  {
    hide Stored, Touches, Stem, MetadataKey, Vacant, Sees, BitmapMeta, GetMeta, DistinctVersions, Wrote, BitAt, Flipped;
    ghost var d := db.disk;
    SlotSees(d, ns, k, cmds[i].now, slot, a);
    ghost var m;
    r, m := Setbit(db, ns, k, cmds[i].now, cmds[i].newVersion, cmds[i].offset, cmds[i].bit, a);
    next := slot;
    if Legal(cmds[i]) {
      RanWrite(d, db.disk, ns, k, slot, a, cmds, i, m, Flipped(a, cmds[i].offset.value, cmds[i].bit.value));
      next := Some(m);
    }
  }

  /** Every run of SETBIT keeps the fragments spelling the array: the final bits are the last
      ones written, and each reply is the bit the command replaced. */
  method RunSetbit(db: StorageEngine, ns: Bytes, k: Bytes, cmds: seq<SetbitCmd>, ghost slot0: Option<Metadata>,
                   ghost a0: Bytes)
    returns (replies: seq<Result<bool>>, ghost slot: Option<Metadata>)
    requires ValidKey(k) && ValidNamespace(ns) && DistinctVersions(cmds) && Ran(db.disk, ns, k, slot0, a0, cmds, 0)
    modifies db
    ensures |replies| == |cmds|
    ensures forall i :: 0 <= i < |cmds| ==>
              replies[i] == if Legal(cmds[i]) then Ok(LastWrite(cmds[..i], a0, cmds[i].offset.value))
                            else Err(OutOfRange)
    ensures Slot(db.disk, ns, k, slot, RunArray(cmds, a0))
    ensures forall o: u64 :: BitAt(RunArray(cmds, a0), o) == LastWrite(cmds, a0, o)
  {
    hide Slot, DistinctVersions, RunArray, LastWrite, BitAt, Flipped, Vacant, Stem;
    replies, slot := [], slot0;
    RunNothing(a0);
    assert cmds[..0] == [];
    for i := 0 to |cmds|
      invariant |replies| == i && Ran(db.disk, ns, k, slot, RunArray(cmds[..i], a0), cmds, i)
      invariant forall j :: 0 <= j < i ==>
                  replies[j] == if Legal(cmds[j]) then Ok(LastWrite(cmds[..j], a0, cmds[j].offset.value))
                                else Err(OutOfRange)
    {
      RunStep(cmds, i, a0);
      if Legal(cmds[i]) { RunIsLastWrite(cmds[..i], a0, cmds[i].offset.value); }
      var r;
      r, slot := RunOne(db, ns, k, cmds, i, slot, RunArray(cmds[..i], a0));
      replies := replies + [r];
    }
    assert cmds[..|cmds|] == cmds;
    forall o: u64 { RunIsLastWrite(cmds, a0, o); }
  }

  lemma RunNothing(a: Bytes)
    ensures RunArray([], a) == a
  {
  }
}
