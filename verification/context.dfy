/** What every command shares: metadata lookup with its legacy fallback, the view of
    one key's entries under its versioned prefix, and the frame of a command. */
module Contexts {
  import opened ByteStrings
  import opened OrderedStore
  import opened Encoding

  /** The error replies of commands; Aborted is the one for a command that panicked. */
  datatype KvError =
    | WrongType | NotInteger | OutOfRange | WrongArgCount | SyntaxError
    | BadEncoding | NotFinite | InvalidId | InvalidCursor | Aborted

  datatype Result<+T> = Ok(value: T) | Err(error: KvError)

  function Lookup<T>(m: map<Bytes, T>, k: Bytes): Option<T> {
    if k in m then Some(m[k]) else None
  }

  /** The metadata of a user key: its own namespace first, then the legacy key without one. */
  function GetMeta(d: Disk, ns: Bytes, k: Bytes): Option<Bytes> {
    var own := MetadataKey(k, ns);
    if own in d.metadata then Some(d.metadata[own])
    else if ns == [] then None
    else Lookup(d.metadata, MetadataKey(k, []))
  }

  lemma GetMetaAfterPut(d: Disk, ns: Bytes, k: Bytes, v: Bytes)
    ensures GetMeta(d.(metadata := d.metadata[MetadataKey(k, ns) := v]), ns, k) == Some(v)
  {
  }

  // ---------- the entries of one key ----------

  /** The prefix of all subkeys of a key at a version. */
  function Stem(ns: Bytes, k: Bytes, version: u64): Bytes {
    SubKey(k, version, [], ns)
  }

  lemma StemNonEmpty(ns: Bytes, k: Bytes, version: u64)
    ensures |Stem(ns, k, version)| >= 12
  {
  }

  lemma SubKeyIsStem(ns: Bytes, k: Bytes, version: u64, sub: Bytes)
    ensures SubKey(k, version, sub, ns) == Stem(ns, k, version) + sub
  {
    SubKeyExtends(k, version, sub, ns);
  }

  /** The entries under a prefix, by what follows the prefix. */
  ghost function View(f: Family, p: Bytes): (r: map<Bytes, Bytes>)
    ensures forall m :: m in r <==> p + m in f
    ensures forall m :: m in r ==> r[m] == f[p + m]
  {
    map m | m in Suffixes(f, p) :: f[p + m]
  }

  ghost function Suffixes(f: Family, p: Bytes): (r: set<Bytes>)
    ensures forall m :: m in r <==> p + m in f
  {
    var r := set k | k in f && p <= k :: k[|p|..];
    assert forall k :: k in f && p <= k ==> p + k[|p|..] == k;
    assert forall m :: p + m in f ==> m in r by {
      forall m | p + m in f ensures m in r {
        assert p <= p + m && (p + m)[|p|..] == m;
      }
    }
    r
  }

  lemma ViewPut(f: Family, p: Bytes, m: Bytes, v: Bytes)
    ensures View(f[p + m := v], p) == View(f, p)[m := v]
  {
    var a, b := View(f[p + m := v], p), View(f, p)[m := v];
    forall x ensures x in a <==> x in b {
      if p + x == p + m { assert x == (p + x)[|p|..] == (p + m)[|p|..] == m; }
    }
    forall x | x in a ensures a[x] == b[x] {
      if p + x == p + m { assert x == (p + x)[|p|..] == (p + m)[|p|..] == m; }
    }
  }

  lemma ViewDelete(f: Family, p: Bytes, m: Bytes)
    ensures View(f - {p + m}, p) == View(f, p) - {m}
  {
    var a, b := View(f - {p + m}, p), View(f, p) - {m};
    forall x ensures x in a <==> x in b {
      if p + x == p + m { assert x == (p + x)[|p|..] == (p + m)[|p|..] == m; }
    }
  }

  /** The families agree on every key outside the prefix. */
  ghost predicate SameOutside(f: Family, g: Family, p: Bytes) {
    forall k :: !(p <= k) ==> (k in f <==> k in g) && (k in f ==> f[k] == g[k])
  }

  lemma PutOutside(f: Family, p: Bytes, m: Bytes, v: Bytes)
    ensures SameOutside(f, f[p + m := v], p)
  {
  }

  lemma DeleteOutside(f: Family, p: Bytes, m: Bytes)
    ensures SameOutside(f, f - {p + m}, p)
  {
  }

  lemma SameOutsideTransitive(f: Family, g: Family, h: Family, p: Bytes)
    requires SameOutside(f, g, p) && SameOutside(g, h, p)
    ensures SameOutside(f, h, p)
  {
  }

  /** Agreement everywhere else, so the view under any unrelated prefix is unchanged. */
  lemma ViewFrame(f: Family, g: Family, p: Bytes, q: Bytes)
    requires SameOutside(f, g, p)
    requires !(p <= q) && !(q <= p)
    ensures View(f, q) == View(g, q)
  {
    forall m ensures !(p <= q + m) {
      assert (q + m)[..|q|] == q;
    }
  }

  /** A command on one key changes its metadata entry and subkeys of one version only. */
  ghost predicate Touches(d: Disk, e: Disk, mk: Bytes, p: Bytes) {
    && (forall k :: k != mk ==>
          (k in d.metadata <==> k in e.metadata) && (k in d.metadata ==> d.metadata[k] == e.metadata[k]))
    && SameOutside(d.subkey, e.subkey, p)
    && SameOutside(d.zsetScore, e.zsetScore, p)
  }

  /** No entry exists under the prefix. */
  ghost predicate Vacant(d: Disk, p: Bytes) {
    View(d.subkey, p) == map[] && View(d.zsetScore, p) == map[]
  }

  lemma StemsApart(ns: Bytes, k: Bytes, v: u64, w: u64)
    requires ValidKey(k) && ValidNamespace(ns) && v != w
    ensures !(Stem(ns, k, v) <= Stem(ns, k, w)) && !(Stem(ns, k, w) <= Stem(ns, k, v))
  {
    SubKeyPrefixExact(k, v, k, w, [], ns);
    SubKeyPrefixExact(k, w, k, v, [], ns);
  }

  lemma VacantKept(d: Disk, e: Disk, ns: Bytes, k: Bytes, mk: Bytes, v: u64, w: u64)
    requires ValidKey(k) && ValidNamespace(ns) && v != w
    requires Touches(d, e, mk, Stem(ns, k, v)) && Vacant(d, Stem(ns, k, w))
    ensures Vacant(e, Stem(ns, k, w))
  {
    hide Stem;
    StemsApart(ns, k, v, w);
    ViewFrame(d.subkey, e.subkey, Stem(ns, k, v), Stem(ns, k, w));
    ViewFrame(d.zsetScore, e.zsetScore, Stem(ns, k, v), Stem(ns, k, w));
  }

  // ---------- scans of a view ----------

  function Prefixed(p: Bytes, s: seq<Bytes>): (r: seq<Bytes>)
    ensures |r| == |s| && forall i :: 0 <= i < |s| ==> r[i] == p + s[i]
  {
    seq(|s|, i requires 0 <= i < |s| => p + s[i])
  }

  /** A prefix scan lists the view in the order of what follows the prefix. */
  lemma ScanIsView(f: Family, p: Bytes)
    ensures Scan(f, p) == Prefixed(p, SortedKeys(View(f, p).Keys))
  {
    hide Less, SortedKeys;
    var subs := SortedKeys(View(f, p).Keys);
    var keys := Prefixed(p, subs);
    forall i, j | 0 <= i < j < |keys| ensures Less(keys[i], keys[j]) {
      assert Less(subs[i], subs[j]);
      LessUnderPrefix(p, subs[i], subs[j]);
    }
    forall k ensures k in keys <==> k in Scan(f, p) {
      if k in keys {
        var i :| 0 <= i < |keys| && keys[i] == k;
        assert subs[i] in subs;
      }
      if k in Scan(f, p) {
        var m := k[|p|..];
        assert k == p + m;
        assert m in subs;
        var i :| 0 <= i < |subs| && subs[i] == m;
        assert keys[i] == k;
      }
    }
    AscendingUnique(keys, Scan(f, p));
  }

  // ---------- batches ----------

  lemma {:induction false} ApplyConcat(d: Disk, a: WriteBatch, b: WriteBatch)
    ensures Apply(d, a + b) == Apply(Apply(d, a), b)
  {
    if b == [] {
      assert a + b == a;
    } else {
      var n := |b| - 1;
      ApplyConcat(d, a, b[..n]);
      assert (a + b)[..|a + b| - 1] == a + b[..n];
    }
  }

  lemma ApplyOne(d: Disk, op: WriteOp)
    ensures Apply(d, [op]) == ApplyOp(d, op)
  {
    assert [op][..0] == [];
    assert Apply(d, []) == d;
  }

  lemma TouchesTransitive(a: Disk, b: Disk, c: Disk, mk: Bytes, p: Bytes)
    requires Touches(a, b, mk, p) && Touches(b, c, mk, p)
    ensures Touches(a, c, mk, p)
  {
  }

  // ---------- records ----------

  function MetaPut(ns: Bytes, k: Bytes, m: Metadata): WriteOp {
    Put(CfMetadata, MetadataKey(k, ns), EncodeMetadata(m))
  }

  lemma EncodedFlags(m: Metadata)
    ensures EncodeMetadata(m) != [] && EncodeMetadata(m)[0] == m.flags
  {
  }

  lemma TouchesNothing(d: Disk, mk: Bytes, p: Bytes)
    ensures Touches(d, d, mk, p)
  {
  }

  lemma {:induction false} SubsetSize<T>(a: set<T>, b: set<T>)
    requires a <= b
    ensures |a| <= |b|
  {
    if a != {} {
      var x :| x in a;
      SubsetSize(a - {x}, b - {x});
    }
  }

  // ---------- one key's entries under a batch in the making ----------

  /** The batch leads to these entries under p, and changes nothing else. */
  ghost predicate Staged(d: Disk, batch: WriteBatch, mk: Bytes, p: Bytes, v: map<Bytes, Bytes>) {
    var e := Apply(d, batch);
    View(e.subkey, p) == v && e.metadata == d.metadata && Touches(d, e, mk, p)
  }

  lemma StagedNothing(d: Disk, mk: Bytes, p: Bytes)
    ensures Staged(d, [], mk, p, View(d.subkey, p))
  {
    hide View;
    assert Apply(d, []) == d;
    TouchesNothing(d, mk, p);
  }

  lemma StagedPut(d: Disk, batch: WriteBatch, mk: Bytes, p: Bytes, v: map<Bytes, Bytes>, m: Bytes, value: Bytes)
    requires Staged(d, batch, mk, p, v)
    ensures Staged(d, batch + [Put(CfSubkey, p + m, value)], mk, p, v[m := value])
  {
    hide View, Apply, SameOutside;
    var e := Apply(d, batch);
    ApplySnoc(d, batch, Put(CfSubkey, p + m, value));
    ViewPut(e.subkey, p, m, value);
    PutOutside(e.subkey, p, m, value);
    SameOutsideTransitive(d.subkey, e.subkey, e.subkey[p + m := value], p);
  }

  lemma StagedDelete(d: Disk, batch: WriteBatch, mk: Bytes, p: Bytes, v: map<Bytes, Bytes>, m: Bytes)
    requires Staged(d, batch, mk, p, v)
    ensures Staged(d, batch + [Delete(CfSubkey, p + m)], mk, p, v - {m})
  {
    hide View, Apply, SameOutside;
    var e := Apply(d, batch);
    ApplySnoc(d, batch, Delete(CfSubkey, p + m));
    ViewDelete(e.subkey, p, m);
    DeleteOutside(e.subkey, p, m);
    SameOutsideTransitive(d.subkey, e.subkey, e.subkey - {p + m}, p);
  }

  /** One key's record and entries are as given, and no other key or version is touched. */
  ghost predicate Committed(d: Disk, e: Disk, ns: Bytes, k: Bytes, p: Bytes, record: Bytes, v: map<Bytes, Bytes>) {
    && GetMeta(e, ns, k) == Some(record)
    && View(e.subkey, p) == v
    && Touches(d, e, MetadataKey(k, ns), p)
  }

  lemma StagedCommit(d: Disk, batch: WriteBatch, ns: Bytes, k: Bytes, p: Bytes, record: Bytes, v: map<Bytes, Bytes>)
    requires Staged(d, batch, MetadataKey(k, ns), p, v)
    ensures Committed(d, Apply(d, batch + [Put(CfMetadata, MetadataKey(k, ns), record)]), ns, k, p, record, v)
  {
    hide View, Apply, MetadataKey;
    var e := Apply(d, batch);
    ApplySnoc(d, batch, Put(CfMetadata, MetadataKey(k, ns), record));
    GetMetaAfterPut(e, ns, k, record);
  }

  /** The same with the record first in the batch. */
  lemma RecordThenStaged(d: Disk, batch: WriteBatch, ns: Bytes, k: Bytes, p: Bytes, record: Bytes, v: map<Bytes, Bytes>)
    requires Staged(ApplyOp(d, Put(CfMetadata, MetadataKey(k, ns), record)), batch, MetadataKey(k, ns), p, v)
    ensures Committed(d, Apply(d, [Put(CfMetadata, MetadataKey(k, ns), record)] + batch), ns, k, p, record, v)
  {
    hide View, Apply, MetadataKey;
    var put := Put(CfMetadata, MetadataKey(k, ns), record);
    ApplyConcat(d, [put], batch);
    ApplyOne(d, put);
    GetMetaAfterPut(d, ns, k, record);
  }

  // ---------- names given in a command ----------

  /** How many of the names are in the set, repeats counted each time. */
  ghost function Named(keys: set<Bytes>, names: seq<Bytes>): (n: nat)
    ensures n <= |names|
  {
    if names == [] then 0
    else
      var i := |names| - 1;
      Named(keys, names[..i]) + if names[i] in keys then 1 else 0
  }

  function Range(names: seq<Bytes>): set<Bytes> { set m | m in names }

  function WrapU64(n: int): u64 { n % U64_LIMIT }

  function SaturatingSub(a: nat, b: nat): nat { if a < b then 0 else a - b }

  /** One more name adds at most itself to the keys hit. */
  lemma HitStep(keys: set<Bytes>, names: seq<Bytes>)
    requires names != []
    ensures var i := |names| - 1;
            var before, last := Range(names[..i]) * keys, names[i];
            && Range(names) == Range(names[..i]) + {last}
            && Range(names) * keys == (if last in keys then before + {last} else before)
            && Named(keys, names) == Named(keys, names[..i]) + (if last in keys then 1 else 0)
  {
    var i := |names| - 1;
    assert names == names[..i] + [names[i]];
    assert Range(names) == Range(names[..i]) + {names[i]};
  }

  lemma {:induction false} NamedAtLeast(keys: set<Bytes>, names: seq<Bytes>)
    ensures Named(keys, names) >= |Range(names) * keys|
  {
    if names != [] {
      hide Named, Range;
      NamedAtLeast(keys, names[..|names| - 1]);
      HitStep(keys, names);
    } else {
      assert Range(names) * keys == {};
    }
  }

  /** Some name in the set is given more than once. */
  ghost predicate NamedTwice(keys: set<Bytes>, names: seq<Bytes>) {
    exists i, j :: 0 <= i < j < |names| && names[i] == names[j] && names[i] in keys
  }

  lemma NamedTwiceStep(keys: set<Bytes>, names: seq<Bytes>)
    requires names != []
    ensures var i := |names| - 1;
            NamedTwice(keys, names)
            <==> NamedTwice(keys, names[..i]) || (names[i] in keys && names[i] in Range(names[..i]))
  {
    var n := |names| - 1;
    var init := names[..n];
    if NamedTwice(keys, names) {
      var i, j :| 0 <= i < j < |names| && names[i] == names[j] && names[i] in keys;
      assert init[i] == names[i];
      if j < n { assert init[j] == names[j]; }
    }
    if NamedTwice(keys, init) {
      var i, j :| 0 <= i < j < |init| && init[i] == init[j] && init[i] in keys;
      assert names[i] == names[j] && names[i] in keys;
    }
    if names[n] in keys && names[n] in Range(init) {
      var i :| 0 <= i < n && init[i] == names[n];
      assert names[i] == names[n] && names[i] in keys;
    }
  }

  /** Counting mentions counts keys exactly when no key is named twice. */
  lemma {:induction false} CountedOnce(keys: set<Bytes>, names: seq<Bytes>)
    ensures Named(keys, names) == |Range(names) * keys| <==> !NamedTwice(keys, names)
  {
    if names == [] {
      assert Range(names) * keys == {};
    } else {
      hide Named, Range, NamedTwice;
      var init := names[..|names| - 1];
      CountedOnce(keys, init);
      NamedAtLeast(keys, init);
      HitStep(keys, names);
      NamedTwiceStep(keys, names);
    }
  }

  lemma {:induction false} NoneNamed<T>(z: map<Bytes, T>, names: seq<Bytes>)
    requires Named(z.Keys, names) == 0
    ensures z - Range(names) == z
  {
    if names != [] {
      NoneNamed(z, names[..|names| - 1]);
      HitStep(z.Keys, names);
    } else {
      assert Range(names) == {};
    }
  }

  lemma {:induction false} NamedNothing<T>(z: map<Bytes, T>, names: seq<Bytes>)
    requires z == map[]
    ensures Named(z.Keys, names) == 0 && z - Range(names) == z
  {
    if names != [] { NamedNothing(z, names[..|names| - 1]); }
  }

  /** Taking one off the size per mention gives the remaining count exactly when no
      present key is named twice, or every key is named. */
  lemma RemovalSizeExact<T>(z: map<Bytes, T>, names: seq<Bytes>)
    ensures SaturatingSub(|z|, Named(z.Keys, names)) == |z - Range(names)|
            <==> !NamedTwice(z.Keys, names) || z.Keys <= Range(names)
  {
    hide Named, Range, NamedTwice;
    NamedAtLeast(z.Keys, names);
    CountedOnce(z.Keys, names);
    var hit := Range(names) * z.Keys;
    assert (z - Range(names)).Keys == z.Keys - hit;
    assert |z| == |z.Keys| && |z - Range(names)| == |(z - Range(names)).Keys|;
    assert z.Keys == (z.Keys - hit) + hit;
    assert |z.Keys| == |z.Keys - hit| + |hit|;
    assert z.Keys <= Range(names) <==> z.Keys - hit == {};
  }

  lemma MapMinusOne<T>(z: map<Bytes, T>, m: Bytes)
    requires m in z
    ensures |z - {m}| == |z| - 1
  {
    assert (z - {m}).Keys == z.Keys - {m};
    assert |z| == |z.Keys| && |z - {m}| == |(z - {m}).Keys|;
  }

  lemma MapPlusOne<T>(z: map<Bytes, T>, m: Bytes, v: T)
    ensures |z[m := v]| == if m in z then |z| else |z| + 1
  {
    assert z[m := v].Keys == z.Keys + {m};
    assert |z| == |z.Keys| && |z[m := v]| == |z[m := v].Keys|;
  }
}
