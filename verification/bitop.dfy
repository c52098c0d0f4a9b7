/** BITOP: AND, OR, XOR and NOT over whole bitmaps, computed fragment by fragment. */
module BitOperations {
  import opened ByteStrings
  import opened OrderedStore
  import opened Storage
  import opened Encoding
  import opened Contexts
  import opened Bits
  import opened Bitmaps

  // ---------- what the operation means ----------

  function Longest(srcs: seq<Bytes>): nat {
    if srcs == [] then 0
    else
      var n := |srcs| - 1;
      if |srcs[n]| > Longest(srcs[..n]) then |srcs[n]| else Longest(srcs[..n])
  }

  /** No source is longer, and some source is that long. */
  lemma {:induction false} LongestIsMaximum(srcs: seq<Bytes>)
    ensures forall s :: s in srcs ==> |s| <= Longest(srcs)
    ensures srcs != [] ==> exists s :: s in srcs && |s| == Longest(srcs)
    ensures srcs == [] ==> Longest(srcs) == 0
  {
    if srcs != [] {
      var n := |srcs| - 1;
      var init := srcs[..n];
      LongestIsMaximum(init);
      forall s | s in srcs ensures |s| <= Longest(srcs) { assert s in init || s == srcs[n]; }
      if |srcs[n]| > Longest(init) || n == 0 {
        assert srcs[n] in srcs && |srcs[n]| == Longest(srcs);
      } else {
        var s :| s in init && |s| == Longest(init);
        assert s in srcs && |s| == Longest(srcs);
      }
    }
  }

  /** The sources folded at one byte, each going on with zeros past its end. */
  function FoldByte(op: BitOp, srcs: seq<Bytes>, n: nat): byte {
    if srcs == [] then 0
    else if |srcs| == 1 then At(srcs[0], n)
    else ByteFn(op, FoldByte(op, srcs[..|srcs| - 1], n), At(srcs[|srcs| - 1], n))
  }

  function ResultByte(op: BitOp, srcs: seq<Bytes>, n: nat): byte {
    if op.Not? && srcs != [] then ByteFn(Not, At(srcs[0], n), 0) else FoldByte(op, srcs, n)
  }

  function ResultOf(op: BitOp, srcs: seq<Bytes>): (r: Bytes)
    ensures |r| == Longest(srcs) && forall n :: 0 <= n < |r| ==> r[n] == ResultByte(op, srcs, n)
  {
    seq(Longest(srcs), n requires 0 <= n < Longest(srcs) => ResultByte(op, srcs, n))
  }

  /** How many of the sources have the bit set. */
  function HowMany(srcs: seq<Bytes>, o: nat): nat {
    if srcs == [] then 0
    else HowMany(srcs[..|srcs| - 1], o) + if BitAt(srcs[|srcs| - 1], o) then 1 else 0
  }

  /** That is the number of positions in the list whose source has it. */
  lemma {:induction false} HowManyIs(srcs: seq<Bytes>, o: nat)
    ensures HowMany(srcs, o) == |set i | 0 <= i < |srcs| && BitAt(srcs[i], o)|
  {
    hide BitAt;
    var here := set i | 0 <= i < |srcs| && BitAt(srcs[i], o);
    if srcs == [] {
      assert here == {};
    } else {
      var n := |srcs| - 1;
      HowManyIs(srcs[..n], o);
      var before := set i | 0 <= i < n && BitAt(srcs[..n][i], o);
      assert here == before + if BitAt(srcs[n], o) then {n} else {};
    }
  }

  lemma {:induction false} HowManyBound(srcs: seq<Bytes>, o: nat)
    ensures HowMany(srcs, o) <= |srcs|
  {
    hide BitAt;
    if srcs != [] { HowManyBound(srcs[..|srcs| - 1], o); }
  }

  /** One folded bit: all of them, any of them, an odd number of them. */
  lemma {:induction false} FoldBits(op: BitOp, srcs: seq<Bytes>, o: nat)
    requires srcs != [] && !op.Not?
    ensures var bit := Bit(FoldByte(op, srcs, o / 8), o % 8);
            match op
            case And => bit <==> HowMany(srcs, o) == |srcs|
            case Or => bit <==> HowMany(srcs, o) > 0
            case Xor => bit <==> HowMany(srcs, o) % 2 == 1
            case Not => true
  {
    hide Bit, ByteFn, At;
    var n := |srcs| - 1;
    if n == 0 {
      assert srcs[..0] == [];
    } else {
      FoldBits(op, srcs[..n], o);
      HowManyBound(srcs[..n], o);
      ByteFnBits(op, FoldByte(op, srcs[..n], o / 8), At(srcs[n], o / 8), o % 8);
    }
  }

  /** BITOP as an operation on bit arrays: at every bit position of the longest source, AND
      asks for all sources, OR for any, XOR for an odd number, NOT for the opposite of its one
      source; a missing or short source counts as zeros. */
  lemma ResultBits(op: BitOp, srcs: seq<Bytes>, o: nat)
    requires srcs != [] && (op.Not? ==> |srcs| == 1)
    requires o < 8 * Longest(srcs)
    ensures var bit := BitAt(ResultOf(op, srcs), o);
            match op
            case And => bit <==> HowMany(srcs, o) == |srcs|
            case Or => bit <==> HowMany(srcs, o) > 0
            case Xor => bit <==> HowMany(srcs, o) % 2 == 1
            case Not => bit <==> !BitAt(srcs[0], o)
  {
    hide Bit, ByteFn, FoldByte, Longest, HowMany;
    if op.Not? {
      ByteFnBits(Not, At(srcs[0], o / 8), 0, o % 8);
    } else {
      FoldBits(op, srcs, o);
    }
  }

  // ---------- sources ----------

  /** The first source that is not a bitmap, if any. */
  function SourceError(d: Disk, ns: Bytes, now: i64, keys: seq<Bytes>): Option<KvError> {
    if keys == [] then None
    else
      var n := |keys| - 1;
      var before := SourceError(d, ns, now, keys[..n]);
      if before.Some? then before
      else
        match BitmapMeta(d, ns, keys[n], now)
        case Err(e) => Some(e)
        case Ok(_) => None
  }

  /** The records read for the sources agree with the arrays. */
  ghost predicate Sourced(d: Disk, ns: Bytes, keys: seq<Bytes>, metas: seq<Option<Metadata>>, srcs: seq<Bytes>) {
    && |metas| == |keys| == |srcs|
    && forall i :: 0 <= i < |keys| ==>
         match metas[i] case None => srcs[i] == [] case Some(m) => Shape(d, ns, keys[i], m, srcs[i])
  }

  method ReadSources(db: StorageEngine, ns: Bytes, now: i64, keys: seq<Bytes>, ghost srcs: seq<Bytes>)
    returns (r: Result<seq<Option<Metadata>>>, maxSize: u64)
    requires |keys| == |srcs| && forall i :: 0 <= i < |keys| ==> Sees(db.disk, ns, keys[i], now, srcs[i])
    ensures var e := SourceError(db.disk, ns, now, keys);
            if e.Some? then r == Err(e.value)
            else r.Ok? && Sourced(db.disk, ns, keys, r.value, srcs) && maxSize == Longest(srcs) <= MAX_BYTES
  {
    hide BitmapMeta, Shape, Sees;
    var metas: seq<Option<Metadata>> := [];
    maxSize := 0;
    assert keys[..0] == [] && srcs[..0] == [];
    for i := 0 to |keys|
      invariant SourceError(db.disk, ns, now, keys[..i]).None?
      invariant Sourced(db.disk, ns, keys[..i], metas, srcs[..i]) && maxSize == Longest(srcs[..i]) <= MAX_BYTES
    {
      assert keys[..i + 1][..i] == keys[..i] && srcs[..i + 1][..i] == srcs[..i];
      var loaded := BitmapMeta(db.disk, ns, keys[i], now);
      if loaded.Err? {
        ErrorStays(db.disk, ns, now, keys, i + 1);
        return Err(loaded.error), maxSize;
      }
      SeenShape(db.disk, ns, keys[i], now, srcs[i]);
      if loaded.value.Some? && loaded.value.value.size > maxSize { maxSize := loaded.value.value.size; }
      metas := metas + [loaded.value];
    }
    assert keys[..|keys|] == keys && srcs[..|keys|] == srcs;
    r := Ok(metas);
  }

  lemma SeenShape(d: Disk, ns: Bytes, k: Bytes, now: i64, a: Bytes)
    requires Sees(d, ns, k, now, a) && BitmapMeta(d, ns, k, now).Ok?
    ensures match BitmapMeta(d, ns, k, now).value
            case None => a == []
            case Some(m) => Shape(d, ns, k, m, a) && m.size == |a| <= MAX_BYTES
  {
    hide BitmapMeta, Stem, View, Frag;
  }

  lemma {:induction false} ErrorStays(d: Disk, ns: Bytes, now: i64, keys: seq<Bytes>, i: nat)
    requires i <= |keys| && SourceError(d, ns, now, keys[..i]).Some?
    ensures SourceError(d, ns, now, keys) == SourceError(d, ns, now, keys[..i])
    decreases |keys|
  {
    hide BitmapMeta;
    if i == |keys| {
      assert keys[..i] == keys;
    } else {
      var n := |keys| - 1;
      assert keys[..n][..i] == keys[..i];
      ErrorStays(d, ns, now, keys[..n], i);
    }
  }

  // ---------- one fragment ----------

  /** Folds one more fragment into the buffer; the first one is copied. */
  method Combine(op: BitOp, result: array<byte>, frag: Bytes, first: bool)
    modifies result
    ensures forall j :: 0 <= j < result.Length ==>
              result[j] == if first then At(frag, j) else ByteFn(op, old(result[j]), At(frag, j))
  {
    hide ByteFn;
    for j := 0 to result.Length
      invariant forall i :: 0 <= i < j ==> result[i] == if first then At(frag, i)
                                                        else ByteFn(op, old(result[i]), At(frag, i))
      invariant forall i :: j <= i < result.Length ==> result[i] == old(result[i])
    {
      var b := if j < |frag| then frag[j] else 0;
      result[j] := if first then b else ByteFn(op, result[j], b);
    }
  }

  /** The fragment of one source. */
  method SourceFragment(db: StorageEngine, ns: Bytes, keys: seq<Bytes>, metas: seq<Option<Metadata>>, t: nat, i: u64,
                        ghost srcs: seq<Bytes>)
    returns (frag: Bytes)
    requires Sourced(db.disk, ns, keys, metas, srcs) && t < |keys| && 1024 * i + 1024 < U64_LIMIT
    ensures forall j :: 0 <= j < 1024 ==> At(frag, j) == At(srcs[t], 1024 * i + j)
  {
    hide Stem, View, Frag;
    if metas[t].None? { return []; }
    frag := ReadFragment(db, ns, keys[t], metas[t].value.version, i);
    ghost var v := View(db.disk.subkey, Stem(ns, keys[t], metas[t].value.version));
    forall j | 0 <= j < 1024 ensures At(Frag(v, i), j) == At(srcs[t], 1024 * i + j) {
      var n := 1024 * i + j;
      assert n / 1024 == i && n % 1024 == j;
      FragByte(v, srcs[t], n);
    }
  }

  lemma FoldStep(op: BitOp, srcs: seq<Bytes>, t: nat, n: nat)
    requires t < |srcs|
    ensures FoldByte(op, srcs[..t + 1], n) == if t == 0 then At(srcs[0], n)
                                              else ByteFn(op, FoldByte(op, srcs[..t], n), At(srcs[t], n))
  {
    hide ByteFn;
    assert srcs[..t + 1][..t] == srcs[..t];
  }

  /** AND, OR and XOR of the sources' fragments. */
  method FoldFragment(db: StorageEngine, ns: Bytes, op: BitOp, keys: seq<Bytes>, metas: seq<Option<Metadata>>, i: u64,
                      len: nat, ghost srcs: seq<Bytes>)
    returns (r: Bytes)
    requires Sourced(db.disk, ns, keys, metas, srcs) && keys != [] && len <= 1024 && 1024 * i + 1024 < U64_LIMIT
    ensures |r| == len && forall j :: 0 <= j < len ==> r[j] == FoldByte(op, srcs, 1024 * i + j)
  {
    hide ByteFn, FoldByte, Sourced, At;
    var result := new byte[len];
    var first := true;
    SourcedSize(db.disk, ns, keys, metas, srcs);
    for t := 0 to |keys|
      invariant first == (t == 0)
      invariant t > 0 ==> forall j :: 0 <= j < len ==> result[j] == FoldByte(op, srcs[..t], 1024 * i + j)
    {
      var frag := SourceFragment(db, ns, keys, metas, t, i, srcs);
      Combine(op, result, frag, first);
      forall j | 0 <= j < len ensures result[j] == FoldByte(op, srcs[..t + 1], 1024 * i + j) {
        FoldStep(op, srcs, t, 1024 * i + j);
      }
      first := false;
    }
    assert srcs[..|keys|] == srcs;
    r := result[..];
  }

  lemma SourcedSize(d: Disk, ns: Bytes, keys: seq<Bytes>, metas: seq<Option<Metadata>>, srcs: seq<Bytes>)
    requires Sourced(d, ns, keys, metas, srcs)
    ensures |metas| == |keys| == |srcs|
  {
    hide Shape;
  }

  /** NOT of the one source's fragment. */
  method NotFragment(db: StorageEngine, ns: Bytes, keys: seq<Bytes>, metas: seq<Option<Metadata>>, i: u64, len: nat,
                     ghost srcs: seq<Bytes>)
    returns (r: Bytes)
    requires Sourced(db.disk, ns, keys, metas, srcs) && |keys| == 1 && metas[0].Some?
             && len <= 1024 && 1024 * i + 1024 < U64_LIMIT
    ensures |r| == len && forall j :: 0 <= j < len ==> r[j] == ByteFn(Not, At(srcs[0], 1024 * i + j), 0)
  {
    hide ByteFn, Sourced;
    var result := new byte[len];
    SourcedSize(db.disk, ns, keys, metas, srcs);
    var frag := SourceFragment(db, ns, keys, metas, 0, i, srcs);
    for j := 0 to len
      invariant forall n :: 0 <= n < j ==> result[n] == ByteFn(Not, At(srcs[0], 1024 * i + n), 0)
    {
      assert At(frag, j) == At(srcs[0], 1024 * i + j);
      result[j] := ByteFn(Not, if j < |frag| then frag[j] else 0, 0);
    }
    r := result[..];
  }

  // ---------- the whole result ----------

  /** The piece of a byte string that fragment j holds. */
  function Piece(a: Bytes, j: nat): Bytes {
    var lo := 1024 * j;
    if lo >= |a| then [] else if |a| < lo + 1024 then a[lo..] else a[lo..lo + 1024]
  }

  /** The first i fragments are in place, the rest are missing. */
  ghost predicate Building(v: Frags, a: Bytes, i: nat) {
    forall j: u64 :: Frag(v, j) == if j < i then Piece(a, j) else []
  }

  lemma BuildStart(v: Frags, a: Bytes)
    requires v == map[]
    ensures Building(v, a, 0)
  {
  }

  lemma BuildStep(v: Frags, a: Bytes, i: u64)
    requires Building(v, a, i)
    ensures Building(v[EncodeU64(i) := Piece(a, i)], a, i + 1)
  {
    hide EncodeU64, Frag, Piece;
    forall j: u64 ensures Frag(v[EncodeU64(i) := Piece(a, i)], j) == if j < i + 1 then Piece(a, j) else [] {
      FragPut(v, i, Piece(a, i), j);
    }
  }

  lemma PieceAt(a: Bytes, n: nat)
    ensures At(Piece(a, n / 1024), n % 1024) == At(a, n)
    ensures |Piece(a, n / 1024)| <= 1024
  {
    assert n == 1024 * (n / 1024) + n % 1024;
  }

  lemma Built(v: Frags, a: Bytes, i: nat)
    requires Building(v, a, i) && |a| <= MAX_BYTES && 1024 * i >= |a|
    ensures Spells(v, a)
  {
    hide Frag, Piece, At;
    forall j: u64 ensures |Frag(v, j)| <= FRAGMENT_BYTES && (Frag(v, j) != [] ==> 1024 * j + |Frag(v, j)| <= |a|) {
      PieceSize(a, j);
    }
    forall n: u64 ensures At(Frag(v, n / 1024), n % 1024) == At(a, n) {
      PieceAt(a, n);
      if n / 1024 >= i { NoByte(a, n); }
    }
  }

  lemma PieceSize(a: Bytes, j: nat)
    ensures |Piece(a, j)| <= 1024 && (Piece(a, j) != [] ==> 1024 * j + |Piece(a, j)| <= |a|)
  {
  }

  lemma NoByte(a: Bytes, n: nat)
    requires n >= |a|
    ensures At(a, n) == 0 && At([], n % 1024) == 0
  {
  }

  /** The fragments of the result, each put into the batch behind the record. */
  method BuildFragments(db: StorageEngine, ns: Bytes, op: BitOp, dest: Bytes, version: u64, keys: seq<Bytes>,
                        metas: seq<Option<Metadata>>, maxSize: u64, ghost d1: Disk, ghost srcs: seq<Bytes>)
    returns (batch: WriteBatch, ghost v: Frags)
    requires Sourced(db.disk, ns, keys, metas, srcs) && keys != [] && (op.Not? ==> |keys| == 1)
    requires 0 < maxSize == Longest(srcs) <= MAX_BYTES && View(d1.subkey, Stem(ns, dest, version)) == map[]
    ensures Staged(d1, batch, MetadataKey(dest, ns), Stem(ns, dest, version), v) && Spells(v, ResultOf(op, srcs))
  {
    hide Stem, MetadataKey, SubKey, EncodeU64, Staged, View, Building, ByteFn, FoldByte, Sourced, Piece, At, Spells;
    ghost var mk, p, a := MetadataKey(dest, ns), Stem(ns, dest, version), ResultOf(op, srcs);
    batch, v := [], map[];
    StagedNothing(d1, mk, p);
    BuildStart(v, a);
    var maxFrag := (maxSize - 1) / FRAGMENT_BYTES;
    SourcedSize(db.disk, ns, keys, metas, srcs);
    for i := 0 to maxFrag + 1
      invariant Staged(d1, batch, mk, p, v) && Building(v, a, i)
    {
      var base := i * FRAGMENT_BYTES;
      var len := if maxSize - base < FRAGMENT_BYTES then maxSize - base else FRAGMENT_BYTES;
      var result: Bytes;
      if op.Not? {
        NotSource(db.disk, ns, keys, metas, srcs);
        result := NotFragment(db, ns, keys, metas, i, len, srcs);
      } else {
        result := FoldFragment(db, ns, op, keys, metas, i, len, srcs);
      }
      PieceOf(op, srcs, i, len, result);
      SubKeyIsStem(ns, dest, version, EncodeU64(i));
      StagedPut(d1, batch, mk, p, v, EncodeU64(i), result);
      BuildStep(v, a, i);
      batch := batch + [Put(CfSubkey, SubKey(dest, version, EncodeU64(i), ns), result)];
      v := v[EncodeU64(i) := result];
    }
    Built(v, a, maxFrag + 1);
  }

  /** A NOT that has anything to compute has a source to compute it from. */
  lemma NotSource(d: Disk, ns: Bytes, keys: seq<Bytes>, metas: seq<Option<Metadata>>, srcs: seq<Bytes>)
    requires Sourced(d, ns, keys, metas, srcs) && |keys| == 1 && Longest(srcs) > 0
    ensures metas[0].Some?
  {
    hide Shape;
    assert srcs[..0] == [];
  }

  lemma PieceOf(op: BitOp, srcs: seq<Bytes>, i: nat, len: nat, r: Bytes)
    requires srcs != [] && 1024 * i < Longest(srcs) && |r| == len
    requires len == if Longest(srcs) - 1024 * i < 1024 then Longest(srcs) - 1024 * i else 1024
    requires forall j :: 0 <= j < len ==> r[j] == ResultByte(op, srcs, 1024 * i + j)
    ensures r == Piece(ResultOf(op, srcs), i)
  {
    hide ResultByte, Longest;
  }

  /** BITOP op dest src ...: dest becomes a new bitmap that holds the result, whatever it
      held before and even when it is one of the sources; the reply is its length in bytes. */
  method Bitop(db: StorageEngine, ns: Bytes, now: i64, newVersion: u64, op: Option<BitOp>, dest: Bytes,
               keys: seq<Bytes>, ghost srcs: seq<Bytes>)
    returns (r: Result<nat>, ghost m: Metadata)
    requires |keys| == |srcs| && forall i :: 0 <= i < |keys| ==> Sees(db.disk, ns, keys[i], now, srcs[i])
    requires Vacant(db.disk, Stem(ns, dest, newVersion))
    modifies db
    ensures r.Err? ==> db.disk == old(db.disk)
    ensures var e := SourceError(old(db.disk), ns, now, keys);
            if keys == [] then r == Err(WrongArgCount)
            else if op.None? || (op.value.Not? && |keys| != 1) then r == Err(SyntaxError)
            else if e.Some? then r == Err(e.value)
            else
              && r == Ok(Longest(srcs)) && Longest(srcs) <= MAX_BYTES
              && m == NewMetadata(TBitmap, newVersion).(size := Longest(srcs))
              && Wrote(old(db.disk), db.disk, ns, dest, m, ResultOf(op.value, srcs))
  {
    hide Stem, MetadataKey, BitmapMeta, Sees, View, Apply, MetaPut, Stored;
    hide Touches, Staged, Spells, Longest, ResultByte, Sourced;
    m := NewMetadata(TBitmap, newVersion);
    if keys == [] { return Err(WrongArgCount), m; }
    if op.None? { return Err(SyntaxError), m; }
    if op.value.Not? && |keys| != 1 { return Err(SyntaxError), m; }
    var metas, maxSize := ReadSources(db, ns, now, keys, srcs);
    if metas.Err? { return Err(metas.error), m; }
    var destMeta := NewMetadata(TBitmap, newVersion).(size := maxSize);
    ghost var d1, a := ApplyOp(db.disk, MetaPut(ns, dest, destMeta)), ResultOf(op.value, srcs);
    VacantBehind(db.disk, ns, dest, destMeta);
    var batch := [MetaPut(ns, dest, destMeta)];
    if maxSize == 0 {
      NothingSpelled(map[]);
      StagedNothing(d1, MetadataKey(dest, ns), Stem(ns, dest, newVersion));
      CommitResult(db.disk, [], ns, dest, destMeta, map[], a);
      assert batch + [] == batch;
      db.Write(batch);
      return Ok(0), destMeta;
    }
    var puts; ghost var v;
    puts, v := BuildFragments(db, ns, op.value, dest, newVersion, keys, metas.value, maxSize, d1, srcs);
    CommitResult(db.disk, puts, ns, dest, destMeta, v, a);
    db.Write(batch + puts);
    m := destMeta;
    r := Ok(maxSize);
  }

  lemma VacantBehind(d: Disk, ns: Bytes, dest: Bytes, m: Metadata)
    requires Vacant(d, Stem(ns, dest, m.version))
    ensures View(ApplyOp(d, MetaPut(ns, dest, m)).subkey, Stem(ns, dest, m.version)) == map[]
  {
    hide Stem, View, EncodeMetadata, MetadataKey;
  }

  lemma CommitResult(d: Disk, batch: WriteBatch, ns: Bytes, dest: Bytes, m: Metadata, v: Frags, a: Bytes)
    requires IsBitmap(m) && m.size == |a| && Spells(v, a)
    requires Staged(ApplyOp(d, MetaPut(ns, dest, m)), batch, MetadataKey(dest, ns), Stem(ns, dest, m.version), v)
    ensures Wrote(d, Apply(d, [MetaPut(ns, dest, m)] + batch), ns, dest, m, a)
  {
    hide Stem, MetadataKey, View, Apply, EncodeMetadata, Spells, GetMeta, Touches, Staged;
    RecordThenStaged(d, batch, ns, dest, Stem(ns, dest, m.version), EncodeMetadata(m), v);
  }
}
