/** DEL, FLUSHDB and DBSIZE: commands that reach across data types and over a namespace. */
module Keyspace {
  import opened ByteStrings
  import opened OrderedStore
  import opened Storage
  import opened Encoding
  import opened Contexts
  import Bits
  import Bitmaps
  import BitOperations

  // ---------- DEL ----------

  const DEL_BATCH_SIZE: nat := 1024

  /** The version whose entries a DEL removes: none for a string or an unreadable record. */
  function PurgedVersion(record: Bytes): Option<u64> {
    if record == [] || TypeOfFlags(record[0]) == Some(TString) then None
    else
      match DecodeMetadata(record)
      case None => None
      case Some(m) => Some(m.version)
  }

  function IsZset(record: Bytes): bool {
    var m := DecodeMetadata(record);
    m.Some? && m.value.Type() == Some(TZSet)
  }

  /** A DEL purges the version a record names, for every type but strings, and score entries
      for sorted sets. */
  lemma PurgedIs(m: Metadata)
    requires m.Type().Some?
    ensures PurgedVersion(EncodeMetadata(m)) == if m.Type() == Some(TString) then None else Some(m.version)
    ensures IsZset(EncodeMetadata(m)) <==> m.Type() == Some(TZSet)
  {
    hide EncodeMetadata, DecodeMetadata;
    MetadataRoundTrip(m);
    EncodedFlags(m);
  }

  /** The store after a DEL of one key. */
  ghost function Deleted(d: Disk, ns: Bytes, k: Bytes): Disk {
    match GetMeta(d, ns, k)
    case None => d
    case Some(record) =>
      var gone := d.(metadata := d.metadata - {MetadataKey(k, ns)});
      match PurgedVersion(record)
      case None => gone
      case Some(version) =>
        var p := Stem(ns, k, version);
        Disk(gone.metadata, d.subkey - Under(d.subkey, p),
             if IsZset(record) then d.zsetScore - Under(d.zsetScore, p) else d.zsetScore)
  }

  ghost function AllDeleted(d: Disk, ns: Bytes, keys: seq<Bytes>): Disk {
    if keys == [] then d else Deleted(AllDeleted(d, ns, keys[..|keys| - 1]), ns, keys[|keys| - 1])
  }

  ghost function DelCount(d: Disk, ns: Bytes, keys: seq<Bytes>): nat {
    if keys == [] then 0
    else
      var n := |keys| - 1;
      DelCount(d, ns, keys[..n]) + if GetMeta(AllDeleted(d, ns, keys[..n]), ns, keys[n]).Some? then 1 else 0
  }

  /** One key of a DEL: its entries page by page, then its record. */
  method DelOne(db: StorageEngine, ns: Bytes, k: Bytes) returns (counted: bool)
    modifies db
    ensures db.disk == Deleted(old(db.disk), ns, k)
    ensures counted == GetMeta(old(db.disk), ns, k).Some?
  {
    hide GetMeta, Stem, MetadataKey, DecodeMetadata;
    var record := GetMeta(db.disk, ns, k);
    if record.None? { return false; }
    var version := PurgedVersion(record.value);
    if version.Some? {
      var prefix := Stem(ns, k, version.value);
      db.DeletePrefix(CfSubkey, prefix, DEL_BATCH_SIZE);
      if IsZset(record.value) { db.DeletePrefix(CfZsetScore, prefix, DEL_BATCH_SIZE); }
    }
    db.Delete(CfMetadata, MetadataKey(k, ns));
    counted := true;
  }

  /** DEL key ...: the keys one after another; the reply counts those found at their turn. */
  method Del(db: StorageEngine, ns: Bytes, keys: seq<Bytes>) returns (r: Result<nat>)
    modifies db
    ensures keys == [] ==> r == Err(WrongArgCount) && db.disk == old(db.disk)
    ensures keys != [] ==> db.disk == AllDeleted(old(db.disk), ns, keys) && r == Ok(DelCount(old(db.disk), ns, keys))
  {
    hide Deleted, GetMeta;
    if keys == [] { return Err(WrongArgCount); }
    var count := 0;
    for i := 0 to |keys|
      invariant db.disk == AllDeleted(old(db.disk), ns, keys[..i]) && count == DelCount(old(db.disk), ns, keys[..i])
    {
      assert keys[..i + 1][..i] == keys[..i];
      var counted := DelOne(db, ns, keys[i]);
      if counted { count := count + 1; }
    }
    assert keys[..|keys|] == keys;
    r := Ok(count);
  }

  /** A deleted key's record is gone unless a record from before namespaces stands behind it. */
  lemma DeletedIsGone(d: Disk, ns: Bytes, k: Bytes)
    ensures GetMeta(Deleted(d, ns, k), ns, k).None? <==> NoLegacy(d, ns, k)
  {
    LegacyKeyDiffers(k, ns);
    hide MetadataKey, Stem, DecodeMetadata;
  }

  /** No record from before namespaces stands behind the key. */
  ghost predicate NoLegacy(d: Disk, ns: Bytes, k: Bytes) { ns == [] || MetadataKey(k, []) !in d.metadata }

  lemma LegacyKeyDiffers(k: Bytes, ns: Bytes)
    ensures ns != [] ==> MetadataKey(k, []) != MetadataKey(k, ns)
  {
    hide LengthPrefix;
    assert |MetadataKey(k, ns)| == |NamespacePrefix(ns)| + 4 + |k|;
  }

  /** A disk that holds nothing but a record from before namespaces: the key outlives its DEL,
      and a DEL that names it twice counts it twice. */
  lemma LegacyOutlivesDel(k: Bytes, ns: Bytes, record: Bytes)
    requires ns != [] && PurgedVersion(record).None?
    ensures var d := Disk(map[MetadataKey(k, []) := record], map[], map[]);
            && Deleted(d, ns, k) == d && GetMeta(d, ns, k) == Some(record)
            && DelCount(d, ns, [k, k]) == 2 && Present(d, ns, [k, k]) == {k}
  {
    hide MetadataKey, DecodeMetadata;
    LegacyKeyDiffers(k, ns);
    var d := Disk(map[MetadataKey(k, []) := record], map[], map[]);
    var once, none: seq<Bytes> := [k], [];
    assert d.metadata - {MetadataKey(k, ns)} == d.metadata;
    assert [k, k][..1] == once && once[..0] == none;
    assert AllDeleted(d, ns, once) == Deleted(AllDeleted(d, ns, none), ns, k) == d;
    assert DelCount(d, ns, once) == 1;
  }

  /** The metadata keys the names stand for in their own namespace. */
  ghost function OwnKeys(ns: Bytes, keys: seq<Bytes>): set<Bytes> {
    set k | k in keys :: MetadataKey(k, ns)
  }

  /** A DEL takes the records under the keys' own names and no other. */
  lemma {:induction false} AllDeletedMetadata(d: Disk, ns: Bytes, keys: seq<Bytes>)
    ensures AllDeleted(d, ns, keys).metadata == d.metadata - OwnKeys(ns, keys)
  {
    hide MetadataKey, Stem, PurgedVersion;
    if keys != [] {
      var n := |keys| - 1;
      AllDeletedMetadata(d, ns, keys[..n]);
      assert keys == keys[..n] + [keys[n]];
      assert OwnKeys(ns, keys) == OwnKeys(ns, keys[..n]) + {MetadataKey(keys[n], ns)};
    }
  }

  /** After a DEL a key is found exactly when it had a record of its own and was not named,
      or has a record from before namespaces that is no named key's own. */
  lemma FoundAfterDel(d: Disk, ns: Bytes, keys: seq<Bytes>, k: Bytes)
    requires ValidNamespace(ns) && ValidKey(k) && forall k' :: k' in keys ==> ValidKey(k')
    ensures GetMeta(AllDeleted(d, ns, keys), ns, k).Some?
            <==> || (MetadataKey(k, ns) in d.metadata && k !in keys)
                 || (ns != [] && MetadataKey(k, []) in d.metadata && MetadataKey(k, []) !in OwnKeys(ns, keys))
  {
    hide MetadataKey, ValidKey;
    AllDeletedMetadata(d, ns, keys);
    if MetadataKey(k, ns) in OwnKeys(ns, keys) {
      var k' :| k' in keys && MetadataKey(k', ns) == MetadataKey(k, ns);
      MetadataKeyInjective(k, k', ns);
    }
  }

  /** No named key's own record serves as the record from before namespaces of a named key. */
  ghost predicate Unaliased(d: Disk, ns: Bytes, keys: seq<Bytes>) {
    ns == [] || forall k :: k in keys && MetadataKey(k, []) in d.metadata ==> MetadataKey(k, []) !in OwnKeys(ns, keys)
  }

  /** Keys under 2^24 bytes cannot be confused. */
  lemma ShortKeysUnaliased(d: Disk, ns: Bytes, keys: seq<Bytes>)
    requires ValidNamespace(ns) && forall k :: k in keys ==> |k| < 0x100_0000
    ensures Unaliased(d, ns, keys)
  {
    if ns != [] {
      forall k, other | k in keys ensures MetadataKey(k, []) != MetadataKey(other, ns) {
        OwnKeyHeader(ns, other);
        hide MetadataKey, NamespacePrefix;
        assert MetadataKey(k, []) + [] == MetadataKey(k, []);
        ShortLegacyKeysApart(ns, k, []);
      }
    }
  }

  lemma OwnKeyHeader(ns: Bytes, k: Bytes)
    ensures NamespacePrefix(ns) <= MetadataKey(k, ns)
  {
    hide NamespacePrefix, LengthPrefix;
  }

  /** The named keys that exist. */
  ghost function Present(d: Disk, ns: Bytes, keys: seq<Bytes>): set<Bytes> {
    set k | k in keys && GetMeta(d, ns, k).Some?
  }

  lemma PresentStep(d: Disk, ns: Bytes, keys: seq<Bytes>)
    requires keys != []
    ensures var n := |keys| - 1;
            |Present(d, ns, keys)|
            == |Present(d, ns, keys[..n])| + if GetMeta(d, ns, keys[n]).Some? && keys[n] !in keys[..n] then 1 else 0
  {
    hide GetMeta;
    var n := |keys| - 1;
    var before := Present(d, ns, keys[..n]);
    assert keys == keys[..n] + [keys[n]];
    assert Present(d, ns, keys) == if GetMeta(d, ns, keys[n]).Some? then before + {keys[n]} else before;
    assert keys[n] in before <==> keys[n] in keys[..n] && GetMeta(d, ns, keys[n]).Some?;
    if keys[n] in before { assert before + {keys[n]} == before; }
  }

  /** Some key with a record from before namespaces behind it is named twice. */
  ghost predicate LegacyTwice(d: Disk, ns: Bytes, keys: seq<Bytes>) {
    exists i, j :: 0 <= i < j < |keys| && keys[i] == keys[j] && !NoLegacy(d, ns, keys[j])
  }

  lemma LegacyTwiceStep(d: Disk, ns: Bytes, keys: seq<Bytes>)
    requires keys != []
    ensures var n := |keys| - 1;
            LegacyTwice(d, ns, keys)
            <==> LegacyTwice(d, ns, keys[..n]) || (keys[n] in keys[..n] && !NoLegacy(d, ns, keys[n]))
  {
    hide NoLegacy;
    var n := |keys| - 1;
    var init := keys[..n];
    if i, j :| 0 <= i < j < |keys| && keys[i] == keys[j] && !NoLegacy(d, ns, keys[j]) {
      assert init[i] == keys[i];
      if j < n { assert init[j] == keys[j]; }
    }
    if i, j :| 0 <= i < j < n && init[i] == init[j] && !NoLegacy(d, ns, init[j]) {
      assert keys[i] == keys[j] && !NoLegacy(d, ns, keys[j]);
    }
    if keys[n] in init && !NoLegacy(d, ns, keys[n]) {
      var i :| 0 <= i < n && init[i] == keys[n];
      assert keys[i] == keys[n] && !NoLegacy(d, ns, keys[n]);
    }
  }

  /** The reply of DEL is at least the number of different keys that existed, and is that
      number exactly when no key with a record from before namespaces is named twice. */
  lemma {:induction false} DelCountsKeys(d: Disk, ns: Bytes, keys: seq<Bytes>)
    requires ValidNamespace(ns) && Unaliased(d, ns, keys) && forall k :: k in keys ==> ValidKey(k)
    ensures DelCount(d, ns, keys) >= |Present(d, ns, keys)|
    ensures DelCount(d, ns, keys) == |Present(d, ns, keys)| <==> !LegacyTwice(d, ns, keys)
  {
    hide GetMeta, NoLegacy, ValidKey, AllDeleted, Present, LegacyTwice, Unaliased;
    if keys == [] {
      NonePresent(d, ns);
    } else {
      var n := |keys| - 1;
      assert keys[n] in keys;
      UnaliasedInit(d, ns, keys);
      DelCountsKeys(d, ns, keys[..n]);
      FoundAtTurn(d, ns, keys);
      PresentStep(d, ns, keys);
      LegacyTwiceStep(d, ns, keys);
    }
  }

  /** Two keys of more than 2^24 bytes that share one record: a DEL of both finds one. */
  lemma AliasedDel(k: Bytes, record: Bytes)
    requires |k| == 0x100_0000 + 254 && PurgedVersion(record).None?
    ensures var other: Bytes := [0, 254] + k;
            var d := Disk(map[MetadataKey(other, []) := record], map[], map[]);
            k != other && Present(d, [0], [k, other]) == {k, other} && DelCount(d, [0], [k, other]) == 1
  {
    var other: Bytes := [0, 254] + k;
    var d := Disk(map[MetadataKey(other, []) := record], map[], map[]);
    LongKeysAlias(k);
    MetadataKeyLength(k, [0]);
    MetadataKeyLength(other, [0]);
    hide MetadataKey, PurgedVersion;
    var both, once, none: seq<Bytes> := [k, other], [k], [];
    assert both[..1] == once && once[..0] == none;
    assert AllDeleted(d, [0], none) == d && DelCount(d, [0], none) == 0;
    assert AllDeleted(d, [0], once) == Deleted(d, [0], k);
    assert Deleted(d, [0], k).metadata == map[];
    assert DelCount(d, [0], once) == 1;
  }

  lemma UnaliasedInit(d: Disk, ns: Bytes, keys: seq<Bytes>)
    requires keys != [] && Unaliased(d, ns, keys)
    ensures Unaliased(d, ns, keys[..|keys| - 1])
  {
    hide MetadataKey;
    assert OwnKeys(ns, keys[..|keys| - 1]) <= OwnKeys(ns, keys);
  }

  /** The last key of a DEL is found at its turn when it existed and is named for the first
      time, or has a record from before namespaces. */
  lemma FoundAtTurn(d: Disk, ns: Bytes, keys: seq<Bytes>)
    requires keys != [] && ValidNamespace(ns) && Unaliased(d, ns, keys) && forall k :: k in keys ==> ValidKey(k)
    ensures var n := |keys| - 1;
            GetMeta(AllDeleted(d, ns, keys[..n]), ns, keys[n]).Some?
            <==> (GetMeta(d, ns, keys[n]).Some? && keys[n] !in keys[..n]) || !NoLegacy(d, ns, keys[n])
    ensures !NoLegacy(d, ns, keys[|keys| - 1]) ==> GetMeta(d, ns, keys[|keys| - 1]).Some?
  {
    hide MetadataKey, ValidKey, AllDeleted;
    var n := |keys| - 1;
    assert keys[n] in keys;
    assert OwnKeys(ns, keys[..n]) <= OwnKeys(ns, keys);
    FoundAfterDel(d, ns, keys[..n], keys[n]);
  }

  lemma NonePresent(d: Disk, ns: Bytes)
    ensures Present(d, ns, []) == {} && !LegacyTwice(d, ns, [])
  {
  }

  /** The version whose subkeys a DEL of the key purges, if there is one. */
  ghost function SubkeysPurged(d: Disk, ns: Bytes, k: Bytes): Option<u64> {
    match GetMeta(d, ns, k)
    case None => None
    case Some(record) => PurgedVersion(record)
  }

  /** The version whose score entries it purges: the same, for a sorted set only. */
  ghost function ScoresPurged(d: Disk, ns: Bytes, k: Bytes): Option<u64> {
    match GetMeta(d, ns, k)
    case None => None
    case Some(record) => if IsZset(record) then PurgedVersion(record) else None
  }

  /** The family holds no entry of the key but at the exempt version. */
  ghost predicate NoneBut(f: Family, ns: Bytes, k: Bytes, exempt: Option<u64>) {
    forall v: u64 :: exempt != Some(v) ==> View(f, Stem(ns, k, v)) == map[]
  }

  lemma PurgeLeaves(f: Family, ns: Bytes, k: Bytes, version: u64)
    requires ValidKey(k) && ValidNamespace(ns)
    ensures var g := f - Under(f, Stem(ns, k, version));
            NoneBut(g, ns, k, None) <==> NoneBut(f, ns, k, Some(version))
  {
    hide Stem, ValidKey, View;
    var p := Stem(ns, k, version);
    var g := f - Under(f, p);
    NothingUnder(f, p);
    forall v: u64 | v != version ensures View(g, Stem(ns, k, v)) == View(f, Stem(ns, k, v)) {
      StemsApart(ns, k, version, v);
      ViewFrame(f, g, p, Stem(ns, k, v));
    }
  }

  /** A DEL leaves no entry of the key if and only if the key had none but those at the
      version its record names, in the score index none but those of a sorted set. */
  lemma DeletedLeavesNothing(d: Disk, ns: Bytes, k: Bytes)
    requires ValidKey(k) && ValidNamespace(ns)
    ensures var e := Deleted(d, ns, k);
            && (NoneBut(e.subkey, ns, k, None) <==> NoneBut(d.subkey, ns, k, SubkeysPurged(d, ns, k)))
            && (NoneBut(e.zsetScore, ns, k, None) <==> NoneBut(d.zsetScore, ns, k, ScoresPurged(d, ns, k)))
  {
    hide GetMeta, Stem, MetadataKey, DecodeMetadata, ValidKey, NoneBut;
    var version := SubkeysPurged(d, ns, k);
    if version.Some? {
      PurgeLeaves(d.subkey, ns, k, version.value);
      PurgeLeaves(d.zsetScore, ns, k, version.value);
    }
  }

  /** BITOP gives its destination a new version and purges nothing, so a DEL after it leaves
      every entry the destination had before, in both families. */
  method BitopThenDel(db: StorageEngine, ns: Bytes, now: i64, newVersion: u64, op: Bits.BitOp, dest: Bytes,
                      keys: seq<Bytes>, ghost srcs: seq<Bytes>)
    returns (r: Result<nat>)
    requires ValidKey(dest) && ValidNamespace(ns)
    requires |keys| == |srcs| && forall i :: 0 <= i < |keys| ==> Bitmaps.Sees(db.disk, ns, keys[i], now, srcs[i])
    requires Vacant(db.disk, Stem(ns, dest, newVersion))
    modifies db
    ensures r.Ok? ==> MetadataKey(dest, ns) !in db.disk.metadata
    ensures forall v: u64 :: r.Ok? && v != newVersion ==>
              && View(db.disk.subkey, Stem(ns, dest, v)) == View(old(db.disk).subkey, Stem(ns, dest, v))
              && View(db.disk.zsetScore, Stem(ns, dest, v)) == View(old(db.disk).zsetScore, Stem(ns, dest, v))
  {
    hide Stem, View, Bitmaps.Sees, Vacant, MetadataKey, ValidKey;
    ghost var m;
    r, m := BitOperations.Bitop(db, ns, now, newVersion, Some(op), dest, keys, srcs);
    if r.Err? { return; }
    ghost var written := db.disk;
    var counted := DelOne(db, ns, dest);
    StaleKept(old(db.disk), written, ns, dest, m, BitOperations.ResultOf(op, srcs));
  }

  lemma StaleKept(d: Disk, e: Disk, ns: Bytes, k: Bytes, m: Metadata, a: Bytes)
    requires ValidKey(k) && ValidNamespace(ns) && Bitmaps.Wrote(d, e, ns, k, m, a)
    ensures var gone := Deleted(e, ns, k);
            && MetadataKey(k, ns) !in gone.metadata
            && forall v: u64 :: v != m.version ==>
                 && View(gone.subkey, Stem(ns, k, v)) == View(d.subkey, Stem(ns, k, v))
                 && View(gone.zsetScore, Stem(ns, k, v)) == View(d.zsetScore, Stem(ns, k, v))
  {
    hide Stem, View, MetadataKey, ValidKey, GetMeta, EncodeMetadata, DecodeMetadata, Bitmaps.Shape;
    var gone, p := Deleted(e, ns, k), Stem(ns, k, m.version);
    BitmapPurged(m);
    forall v: u64 | v != m.version
      ensures && View(gone.subkey, Stem(ns, k, v)) == View(d.subkey, Stem(ns, k, v))
              && View(gone.zsetScore, Stem(ns, k, v)) == View(d.zsetScore, Stem(ns, k, v))
    {
      StemsApart(ns, k, m.version, v);
      ViewFrame(d.subkey, e.subkey, p, Stem(ns, k, v));
      ViewFrame(d.zsetScore, e.zsetScore, p, Stem(ns, k, v));
      ViewFrame(e.subkey, gone.subkey, p, Stem(ns, k, v));
    }
  }

  /** The record of a bitmap names its version, and is no sorted set's. */
  lemma BitmapPurged(m: Metadata)
    requires Bitmaps.IsBitmap(m)
    ensures PurgedVersion(EncodeMetadata(m)) == Some(m.version) && !IsZset(EncodeMetadata(m))
  {
    MetadataRoundTrip(m);
  }

  /** A key whose record names version 2 and an entry at version 1, as a BITOP onto the key
      leaves them: the entry is still there after the DEL. */
  lemma StaleOutlivesDel(k: Bytes, ns: Bytes, sub: Bytes, value: Bytes)
    requires ValidKey(k) && ValidNamespace(ns)
    ensures var m := NewMetadata(TBitmap, 2);
            var d := Disk(map[MetadataKey(k, ns) := EncodeMetadata(m)], map[Stem(ns, k, 1) + sub := value], map[]);
            Deleted(d, ns, k) == Disk(map[], d.subkey, map[])
  {
    hide Stem, MetadataKey, ValidKey, EncodeMetadata, DecodeMetadata;
    var m := NewMetadata(TBitmap, 2);
    var x := Stem(ns, k, 1) + sub;
    var d := Disk(map[MetadataKey(k, ns) := EncodeMetadata(m)], map[x := value], map[]);
    BitmapPurged(m);
    StemsApart(ns, k, 1, 2);
    assert !(Stem(ns, k, 2) <= x);
    assert Under(d.subkey, Stem(ns, k, 2)) == {};
    assert Deleted(d, ns, k).metadata == map[];
  }

  lemma NothingUnder(f: Family, p: Bytes)
    ensures View(f - Under(f, p), p) == map[]
  {
    forall m ensures p + m !in f - Under(f, p) {
      assert p <= p + m;
    }
  }

  /** A DEL of one key touches the key's record and its entries at the recorded version, and
      nothing else: not another version, not another key, not a key of another namespace. */
  lemma DeletedTouches(d: Disk, ns: Bytes, k: Bytes, cf: Column, x: Bytes)
    requires x in d.Get(cf)
    requires cf.CfMetadata? ==> x != MetadataKey(k, ns)
    requires !cf.CfMetadata? && GetMeta(d, ns, k).Some? ==>
               var version := PurgedVersion(GetMeta(d, ns, k).value);
               version.Some? ==> !(Stem(ns, k, version.value) <= x)
    ensures var e := Deleted(d, ns, k);
            x in e.Get(cf) && e.Get(cf)[x] == d.Get(cf)[x]
  {
    hide GetMeta, Stem, MetadataKey, DecodeMetadata;
  }

  /** One of the key's two possible records names the version. */
  ghost predicate Records(d: Disk, ns: Bytes, k: Bytes, version: u64) {
    exists at :: && at in d.metadata && (at == MetadataKey(k, ns) || at == MetadataKey(k, []))
                 && PurgedVersion(d.metadata[at]) == Some(version)
  }

  /** The same for a DEL of any keys: what is neither a named key's record nor an entry at a
      version one of its records names stays. */
  lemma {:induction false} AllDeletedTouches(d: Disk, ns: Bytes, keys: seq<Bytes>, cf: Column, x: Bytes)
    requires x in d.Get(cf)
    requires cf.CfMetadata? ==> forall k :: k in keys ==> x != MetadataKey(k, ns)
    requires !cf.CfMetadata? ==>
               forall k, version :: k in keys && Records(d, ns, k, version) ==> !(Stem(ns, k, version) <= x)
    ensures var e := AllDeleted(d, ns, keys);
            x in e.Get(cf) && e.Get(cf)[x] == d.Get(cf)[x]
  {
    hide Deleted, Stem, MetadataKey, DecodeMetadata, PurgedVersion, Records;
    if keys != [] {
      var n := |keys| - 1;
      var k := keys[n];
      assert k in keys;
      AllDeletedTouches(d, ns, keys[..n], cf, x);
      var e := AllDeleted(d, ns, keys[..n]);
      AllDeletedMetadata(d, ns, keys[..n]);
      if !cf.CfMetadata? { StillRecords(d, e, ns, k); }
      DeletedTouches(e, ns, k, cf, x);
    }
  }

  lemma StillRecords(d: Disk, e: Disk, ns: Bytes, k: Bytes)
    requires forall x :: x in e.metadata ==> x in d.metadata && e.metadata[x] == d.metadata[x]
    ensures GetMeta(e, ns, k).Some? && PurgedVersion(GetMeta(e, ns, k).value).Some? ==>
              Records(d, ns, k, PurgedVersion(GetMeta(e, ns, k).value).value)
  {
    hide MetadataKey, PurgedVersion;
  }

  /** Which stored subkeys begin with the prefix a DEL removes: exactly the key's own at that version. */
  lemma PurgeIsExact(ns: Bytes, k: Bytes, version: u64, ns': Bytes, k': Bytes, version': u64, sub': Bytes)
    requires ValidNamespace(ns) && ValidNamespace(ns') && ValidKey(k) && ValidKey(k')
    requires ns != ns' ==> (ns' == [] ==> |k'| < 0x100_0000) && (ns == [] ==> |k| < 0x100_0000)
    ensures Stem(ns, k, version) <= SubKey(k', version', sub', ns') <==> ns == ns' && k == k' && version == version'
  {
    if ns == ns' {
      SubKeyPrefixExact(k, version, k', version', sub', ns);
    } else if ns != [] {
      StemStartsWithNamespace(ns, k, version);
      if Stem(ns, k, version) <= SubKey(k', version', sub', ns') {
        PrefixThrough(NamespacePrefix(ns), Stem(ns, k, version), SubKey(k', version', sub', ns'));
        NotUnder(ns, ns', k', version', sub');
      }
    } else {
      if Stem(ns, k, version) <= SubKey(k', version', sub', ns') {
        LegacyStemApart(k, version, ns', k', version', sub');
      }
    }
  }

  lemma StemStartsWithNamespace(ns: Bytes, k: Bytes, version: u64)
    ensures NamespacePrefix(ns) <= Stem(ns, k, version)
  {
    hide NamespacePrefix, LengthPrefix, EncodeU64;
    var tail := LengthPrefix(k) + k + EncodeU64(version) + [];
    assert Stem(ns, k, version) == NamespacePrefix(ns) + tail;
  }

  lemma PrefixThrough(a: Bytes, b: Bytes, c: Bytes)
    requires a <= b <= c
    ensures a <= c
  {
  }

  /** A subkey of another namespace does not carry this one's header. */
  lemma NotUnder(ns: Bytes, ns': Bytes, k': Bytes, version': u64, sub': Bytes)
    requires ns != [] && ns != ns' && ValidNamespace(ns) && ValidNamespace(ns') && (ns' == [] ==> |k'| < 0x100_0000)
    ensures !(NamespacePrefix(ns) <= SubKey(k', version', sub', ns'))
  {
    hide NamespacePrefix, LengthPrefix, EncodeU64;
    var rest := EncodeU64(version') + sub';
    assert SubKey(k', version', sub', ns') == MetadataKey(k', ns') + rest;
    hide MetadataKey, SubKey;
    if ns' == [] { ShortLegacyKeysApart(ns, k', rest); } else { NamespacesApart(ns, ns', k', rest); }
  }

  /** The length byte of a short key without a namespace is 0, that of a namespace is not. */
  lemma LegacyStemApart(k: Bytes, version: u64, ns': Bytes, k': Bytes, version': u64, sub': Bytes)
    requires |k| < 0x100_0000 && ns' != [] && ValidNamespace(ns')
    ensures !(Stem([], k, version) <= SubKey(k', version', sub', ns'))
  {
    hide LengthPrefix, EncodeU64;
    LengthPrefixHead(k);
    NamespaceHeader(ns');
    assert Stem([], k, version)[0] == LengthPrefix(k)[0] == 0;
    assert SubKey(k', version', sub', ns')[0] == |ns'|;
  }

  // ---------- FLUSHDB ----------

  const FLUSH_BATCH_SIZE: nat := 1024

  ghost function Flushed(d: Disk, prefix: Bytes): Disk {
    Disk(d.metadata - Under(d.metadata, prefix), d.subkey - Under(d.subkey, prefix),
         d.zsetScore - Under(d.zsetScore, prefix))
  }

  /** FLUSHDB: every family loses exactly the keys that carry the namespace's header. */
  method Flushdb(db: StorageEngine, ns: Bytes)
    modifies db
    ensures db.disk == Flushed(old(db.disk), NamespacePrefix(ns))
  {
    var prefix := NamespacePrefix(ns);
    db.DeletePrefix(CfMetadata, prefix, FLUSH_BATCH_SIZE);
    db.DeletePrefix(CfSubkey, prefix, FLUSH_BATCH_SIZE);
    db.DeletePrefix(CfZsetScore, prefix, FLUSH_BATCH_SIZE);
  }

  /** After a FLUSHDB the namespace holds nothing. */
  lemma FlushEmptiesOwn(d: Disk, ns: Bytes, k: Bytes, version: u64, sub: Bytes)
    ensures var e := Flushed(d, NamespacePrefix(ns));
            && MetadataKey(k, ns) !in e.metadata
            && SubKey(k, version, sub, ns) !in e.subkey && SubKey(k, version, sub, ns) !in e.zsetScore
  {
    hide NamespacePrefix, LengthPrefix, EncodeU64;
    assert MetadataKey(k, ns) == NamespacePrefix(ns) + (LengthPrefix(k) + k);
    assert SubKey(k, version, sub, ns) == NamespacePrefix(ns) + (LengthPrefix(k) + k + EncodeU64(version) + sub);
  }

  /** A FLUSHDB of a named namespace leaves every other namespace as it was, and the keys
      from before namespaces as well when they are under 2^24 bytes. */
  lemma FlushKeepsOthers(d: Disk, ns: Bytes, ns': Bytes, k': Bytes, version': u64, sub': Bytes)
    requires ns != [] && ns != ns' && ValidNamespace(ns) && ValidNamespace(ns') && (ns' == [] ==> |k'| < 0x100_0000)
    ensures var e := Flushed(d, NamespacePrefix(ns));
            && Lookup(e.metadata, MetadataKey(k', ns')) == Lookup(d.metadata, MetadataKey(k', ns'))
            && Lookup(e.subkey, SubKey(k', version', sub', ns')) == Lookup(d.subkey, SubKey(k', version', sub', ns'))
            && Lookup(e.zsetScore, SubKey(k', version', sub', ns'))
               == Lookup(d.zsetScore, SubKey(k', version', sub', ns'))
  {
    hide NamespacePrefix, MetadataKey, SubKey;
    NotUnder(ns, ns', k', version', sub');
    MetaNotUnder(ns, ns', k');
  }

  lemma MetaNotUnder(ns: Bytes, ns': Bytes, k': Bytes)
    requires ns != [] && ns != ns' && ValidNamespace(ns) && ValidNamespace(ns') && (ns' == [] ==> |k'| < 0x100_0000)
    ensures !(NamespacePrefix(ns) <= MetadataKey(k', ns'))
  {
    hide NamespacePrefix;
    assert MetadataKey(k', ns') + [] == MetadataKey(k', ns');
    hide MetadataKey;
    if ns' == [] { ShortLegacyKeysApart(ns, k', []); } else { NamespacesApart(ns, ns', k', []); }
  }

  // ---------- DBSIZE ----------

  predicate ExpiredValue(v: Bytes, now: i64) {
    match DecodeString(v)
    case None => false
    case Some((_, expire, _)) => 0 < expire <= now
  }

  /** Every kind of record expires at the time stored in it, 0 and below standing for never: not
      before, and from then on for good. */
  lemma ExpiryIsStored(flags: byte, expire: i64, payload: Bytes, m: Metadata, now: i64)
    requires m.Type().Some?
    ensures ExpiredValue(EncodeString(flags, expire, payload), now) <==> expire > 0 && now >= expire
    ensures ExpiredValue(EncodeMetadata(m), now) <==> m.Expired(now)
    ensures m.Expired(now) <==> m.expire > 0 && now >= m.expire
  {
    hide EncodeString, DecodeString, EncodeMetadata;
    StringRoundTrip(flags, expire, payload);
    MetadataExpiry(m);
  }

  /** A record is read for its expiry as a string is. */
  lemma MetadataExpiry(m: Metadata)
    ensures DecodeString(EncodeMetadata(m)).Some? && DecodeString(EncodeMetadata(m)).value.1 == m.expire
  {
    hide EncodeI64, DecodeI64, EncodeU64;
    I64RoundTrip(m.expire);
    var b := EncodeMetadata(m);
    assert b[1..9] == EncodeI64(m.expire);
  }

  /** A key counts for DBSIZE as long as a read would find it. */
  lemma LiveWhileFound(f: Family, prefix: Bytes, k: Bytes, m: Metadata, now: i64)
    requires m.Type().Some? && k in f && f[k] == EncodeMetadata(m) && prefix <= k
    ensures k in LiveKeys(f, prefix, now) <==> !m.Expired(now)
  {
    hide ExpiredValue, EncodeMetadata;
    ExpiryIsStored(0, 0, [], m, now);
  }

  ghost function LiveKeys(f: Family, prefix: Bytes, now: i64): set<Bytes> {
    set k | k in f && prefix <= k && !ExpiredValue(f[k], now)
  }

  /** How many of the keys hold a record that has not expired. */
  ghost function LiveCount(f: Family, keys: seq<Bytes>, now: i64): nat
    requires forall k :: k in keys ==> k in f
  {
    if keys == [] then 0
    else
      var n := |keys| - 1;
      LiveCount(f, keys[..n], now) + if ExpiredValue(f[keys[n]], now) then 0 else 1
  }

  ghost function LiveIn(f: Family, keys: seq<Bytes>, now: i64): set<Bytes>
    requires forall k :: k in keys ==> k in f
  {
    set k | k in keys && !ExpiredValue(f[k], now)
  }

  lemma LiveStep(f: Family, keys: seq<Bytes>, now: i64)
    requires Ascending(keys) && keys != [] && forall k :: k in keys ==> k in f
    ensures var n := |keys| - 1;
            && keys[n] !in keys[..n]
            && LiveIn(f, keys, now)
               == LiveIn(f, keys[..n], now) + (if ExpiredValue(f[keys[n]], now) then {} else {keys[n]})
  {
    hide ExpiredValue, Less;
    var n := |keys| - 1;
    assert keys == keys[..n] + [keys[n]];
    if keys[n] in keys[..n] {
      var i :| 0 <= i < n && keys[i] == keys[n];
      assert Less(keys[i], keys[n]);
      LessIrreflexive(keys[n]);
    }
  }

  lemma {:induction false} LiveCountIs(f: Family, keys: seq<Bytes>, now: i64)
    requires Ascending(keys) && forall k :: k in keys ==> k in f
    ensures LiveCount(f, keys, now) == |LiveIn(f, keys, now)|
  {
    hide ExpiredValue, Less;
    if keys != [] {
      LiveCountIs(f, keys[..|keys| - 1], now);
      LiveStep(f, keys, now);
    }
  }

  /** DBSIZE: the records under the namespace's header that have not expired, counted page by page. */
  method Dbsize(db: StorageEngine, ns: Bytes, now: i64) returns (count: nat)
    ensures count == |LiveKeys(db.disk.metadata, NamespacePrefix(ns), now)|
  {
    hide Less, SortedKeys, ForwardPage, Scan, Entries, LiveCount, ExpiredValue;
    var prefix := NamespacePrefix(ns);
    ghost var f := db.disk.metadata;
    ghost var scan := Scan(f, prefix);
    var start: Bytes := [];
    ghost var p: nat := 0;
    count := 0;
    NoneCounted(f, scan, now);
    while true
      invariant p <= |scan| && CursorAt(scan, start, p)
      invariant count == LiveCount(f, scan[..p], now)
      decreases |scan| - p
    {
      PageAt(f, prefix, start, p, FLUSH_BATCH_SIZE);
      ChainExtend(f, prefix, FLUSH_BATCH_SIZE, start, p);
      var items, next := db.PrefixScanPage(CfMetadata, prefix, start, FLUSH_BATCH_SIZE);
      ghost var e := p + |items|;
      assert items == Entries(f, scan[p..e]);
      if items == [] { break; }
      count := CountPage(items, now, count, f, scan, p);
      p := e;
      match next {
        case Some(k) => start := k;
        case None => break;
      }
    }
    assert scan[..|scan|] == scan;
    LiveCountIs(f, scan, now);
    assert LiveIn(f, scan, now) == LiveKeys(f, prefix, now);
  }

  lemma NoneCounted(f: Family, scan: seq<Bytes>, now: i64)
    requires forall k :: k in scan ==> k in f
    ensures LiveCount(f, scan[..0], now) == 0
  {
  }

  method CountPage(items: seq<(Bytes, Bytes)>, now: i64, before: nat, ghost f: Family, ghost scan: seq<Bytes>,
                   ghost p: nat)
    returns (count: nat)
    requires p + |items| <= |scan| && (forall k :: k in scan ==> k in f) && items == Entries(f, scan[p..p + |items|])
    requires before == LiveCount(f, scan[..p], now)
    ensures count == LiveCount(f, scan[..p + |items|], now)
  {
    hide ExpiredValue;
    count := before;
    for i := 0 to |items|
      invariant count == LiveCount(f, scan[..p + i], now)
    {
      assert scan[..p + i + 1][..p + i] == scan[..p + i];
      assert items[i].1 == f[scan[p + i]];
      if !ExpiredValue(items[i].1, now) { count := count + 1; }
    }
  }

  /** Every record belongs to some namespace; those without one have short keys. */
  ghost predicate WellKept(f: Family) {
    forall x :: x in f ==>
      exists k: Bytes, ns: Bytes :: x == MetadataKey(k, ns) && ValidNamespace(ns) && (ns == [] ==> |k| < 0x100_0000)
  }

  /** DBSIZE of a named namespace counts its own keys and no others. */
  lemma DbsizeCountsOwn(f: Family, ns: Bytes, now: i64, x: Bytes)
    requires ns != [] && ValidNamespace(ns) && WellKept(f)
    ensures x in LiveKeys(f, NamespacePrefix(ns), now)
            <==> x in f && !ExpiredValue(f[x], now) && exists k: Bytes :: x == MetadataKey(k, ns)
  {
    hide NamespacePrefix, LengthPrefix, ExpiredValue;
    if x in LiveKeys(f, NamespacePrefix(ns), now) {
      var k: Bytes, other: Bytes :|
        x == MetadataKey(k, other) && ValidNamespace(other) && (other == [] ==> |k| < 0x100_0000);
      if other != ns { MetaNotUnder(ns, other, k); }
      assert x == MetadataKey(k, ns);
    }
    if x in f && !ExpiredValue(f[x], now) && exists k: Bytes :: x == MetadataKey(k, ns) {
      var k: Bytes :| x == MetadataKey(k, ns);
      assert x == NamespacePrefix(ns) + (LengthPrefix(k) + k);
    }
  }
}
