/** HSET, HDEL, HGETALL and HSCAN over the subkeys of one hash. */
module Hashes {
  import opened ByteStrings
  import opened OrderedStore
  import opened Storage
  import opened Encoding
  import opened Contexts
  import opened HashScans

  predicate IsHash(m: Metadata) { m.Type() == Some(THash) && m.head == 0 && m.tail == -1 }

  /** The hash a command sees. Expiry is not looked at. */
  function HashMeta(d: Disk, ns: Bytes, k: Bytes): (r: Result<Option<Metadata>>)
    ensures r.Ok? && r.value.Some? ==> IsHash(r.value.value)
  {
    match GetMeta(d, ns, k)
    case None => Ok(None)
    case Some(v) =>
      if v == [] then Err(BadEncoding)
      else if TypeOfFlags(v[0]) == Some(TString) then Err(WrongType)
      else
        match DecodeMetadata(v)
        case None => Err(BadEncoding)
        case Some(m) => if m.Type() != Some(THash) then Err(WrongType) else Ok(Some(m))
  }

  /** A record of another type is refused; expiry makes no difference. */
  lemma HashMetaCases(d: Disk, ns: Bytes, k: Bytes, m: Metadata)
    requires m.Type().Some? && GetMeta(d, ns, k) == Some(EncodeMetadata(m))
    ensures HashMeta(d, ns, k)
            == if m.Type() != Some(THash) then Err(WrongType) else Ok(Some(m.(head := 0, tail := -1)))
  {
    hide EncodeMetadata, DecodeMetadata, GetMeta;
    MetadataRoundTrip(m);
    EncodedFlags(m);
  }

  function StartHash(meta: Option<Metadata>, newVersion: u64): Metadata {
    match meta
    case Some(m) => m
    case None => NewMetadata(THash, newVersion)
  }

  /** The entries of the key are h; an absent key has none. */
  ghost predicate Sees(d: Disk, ns: Bytes, k: Bytes, h: Hash) {
    match HashMeta(d, ns, k)
    case Err(_) => true
    case Ok(None) => h == map[]
    case Ok(Some(m)) => View(d.subkey, Stem(ns, k, m.version)) == h
  }

  /** The key is a hash with this record and these entries. */
  ghost predicate Stored(d: Disk, ns: Bytes, k: Bytes, m: Metadata, h: Hash) {
    && GetMeta(d, ns, k) == Some(EncodeMetadata(m)) && IsHash(m)
    && View(d.subkey, Stem(ns, k, m.version)) == h
  }

  lemma StoredIsSeen(d: Disk, ns: Bytes, k: Bytes, m: Metadata, h: Hash)
    requires Stored(d, ns, k, m, h)
    ensures HashMeta(d, ns, k) == Ok(Some(m)) && Sees(d, ns, k, h)
  {
    hide EncodeMetadata, DecodeMetadata, Stem, GetMeta, View;
    MetadataRoundTrip(m);
    EncodedFlags(m);
  }

  /** What a write leaves of the disk it found. */
  ghost predicate Wrote(d: Disk, e: Disk, ns: Bytes, k: Bytes, m: Metadata, h: Hash) {
    Stored(e, ns, k, m, h) && Touches(d, e, MetadataKey(k, ns), Stem(ns, k, m.version))
  }

  lemma CommitHash(d: Disk, batch: WriteBatch, ns: Bytes, k: Bytes, m: Metadata, h: Hash)
    requires IsHash(m) && Staged(d, batch, MetadataKey(k, ns), Stem(ns, k, m.version), h)
    ensures Wrote(d, Apply(d, batch + [MetaPut(ns, k, m)]), ns, k, m, h)
  {
    hide Staged, View, Stem, MetadataKey, EncodeMetadata, Apply, GetMeta, Touches;
    StagedCommit(d, batch, ns, k, Stem(ns, k, m.version), EncodeMetadata(m), h);
  }

  // ---------- HSET ----------

  function Fields(args: seq<Bytes>): (r: seq<(Bytes, Bytes)>)
    requires |args| % 2 == 0
    ensures |r| == |args| / 2
  {
    seq(|args| / 2, i requires 0 <= i < |args| / 2 => (args[2 * i], args[2 * i + 1]))
  }

  /** The last value given for a field wins; other fields keep theirs. */
  ghost function AfterHset(h: Hash, pairs: seq<(Bytes, Bytes)>): Hash {
    if pairs == [] then h
    else
      var n := |pairs| - 1;
      AfterHset(h, pairs[..n])[pairs[n].0 := pairs[n].1]
  }

  /** How many mentions name a field that was not there. */
  ghost function NewMentions(h: Hash, pairs: seq<(Bytes, Bytes)>): nat {
    |pairs| - Named(h.Keys, Names(pairs))
  }

  ghost predicate Setting(d: Disk, batch: WriteBatch, mk: Bytes, p: Bytes, h: Hash, done: seq<(Bytes, Bytes)>,
                          size0: u64, size: u64, added: int)
  {
    && Staged(d, batch, mk, p, AfterHset(h, done))
    && added == NewMentions(h, done) && size == WrapU64(size0 + added)
  }

  lemma SettingStart(d: Disk, mk: Bytes, p: Bytes, h: Hash, size0: u64)
    requires View(d.subkey, p) == h
    ensures Setting(d, [], mk, p, h, [], size0, size0, 0)
  {
    hide Staged, View;
    StagedNothing(d, mk, p);
  }

  lemma SettingStep(d: Disk, batch: WriteBatch, mk: Bytes, p: Bytes, h: Hash, done: seq<(Bytes, Bytes)>, size0: u64,
                    size: u64, added: int, x: (Bytes, Bytes))
    requires Setting(d, batch, mk, p, h, done, size0, size, added)
    ensures var one := if x.0 in h then 0 else 1;
            Setting(d, batch + [Put(CfSubkey, p + x.0, x.1)], mk, p, h,
                    done + [x], size0, WrapU64(size + one), added + one)
  {
    hide Staged, AfterHset, NewMentions;
    HsetStep(h, done, x);
    StagedPut(d, batch, mk, p, AfterHset(h, done), x.0, x.1);
  }

  lemma HsetStep(h: Hash, done: seq<(Bytes, Bytes)>, x: (Bytes, Bytes))
    ensures AfterHset(h, done + [x]) == AfterHset(h, done)[x.0 := x.1]
    ensures NewMentions(h, done + [x]) == NewMentions(h, done) + if x.0 in h then 0 else 1
  {
    var next := done + [x];
    assert next[..|done|] == done;
    assert Names(next)[..|done|] == Names(done);
  }

  lemma {:induction false} LastPairWins(h: Hash, pairs: seq<(Bytes, Bytes)>, i: nat)
    requires i < |pairs| && forall j :: i < j < |pairs| ==> pairs[j].0 != pairs[i].0
    ensures Lookup(AfterHset(h, pairs), pairs[i].0) == Some(pairs[i].1)
  {
    var n := |pairs| - 1;
    if i < n { LastPairWins(h, pairs[..n], i); }
  }

  lemma {:induction false} UnnamedKept(h: Hash, pairs: seq<(Bytes, Bytes)>, x: Bytes)
    requires forall i :: 0 <= i < |pairs| ==> pairs[i].0 != x
    ensures Lookup(AfterHset(h, pairs), x) == Lookup(h, x)
  {
    if pairs != [] { UnnamedKept(h, pairs[..|pairs| - 1], x); }
  }

  /** HSET on the arguments themselves: argument 2 * i names a field that gets argument
      2 * i + 1, unless a later pair names it again. */
  lemma HsetArguments(h: Hash, args: seq<Bytes>, i: nat)
    requires |args| % 2 == 0 && i < |args| / 2
    requires forall j :: i < j < |args| / 2 ==> args[2 * j] != args[2 * i]
    ensures Lookup(AfterHset(h, Fields(args)), args[2 * i]) == Some(args[2 * i + 1])
  {
    hide AfterHset;
    LastPairWins(h, Fields(args), i);
  }

  /** A field that is no even argument keeps its value. */
  lemma HsetOthersKept(h: Hash, args: seq<Bytes>, x: Bytes)
    requires |args| % 2 == 0 && forall i :: 0 <= i < |args| / 2 ==> args[2 * i] != x
    ensures Lookup(AfterHset(h, Fields(args)), x) == Lookup(h, x)
  {
    hide AfterHset;
    UnnamedKept(h, Fields(args), x);
  }

  /** The loop of HSET: whether a field is new is read from the store, not from the batch. */
  method HsetBatch(db: StorageEngine, ns: Bytes, k: Bytes, version: u64, pairs: seq<(Bytes, Bytes)>, size0: u64,
                   ghost h: Hash)
    returns (batch: WriteBatch, size: u64, added: nat)
    requires View(db.disk.subkey, Stem(ns, k, version)) == h
    ensures Setting(db.disk, batch, MetadataKey(k, ns), Stem(ns, k, version), h, pairs, size0, size, added)
  {
    hide Setting, Stem, MetadataKey, SubKey, View, Named;
    batch, size, added := [], size0, 0;
    ghost var mk, p := MetadataKey(k, ns), Stem(ns, k, version);
    SettingStart(db.disk, mk, p, h, size0);
    for i := 0 to |pairs|
      invariant Setting(db.disk, batch, mk, p, h, pairs[..i], size0, size, added)
    {
      var (field, value) := pairs[i];
      assert pairs[..i + 1] == pairs[..i] + [(field, value)];
      SettingStep(db.disk, batch, mk, p, h, pairs[..i], size0, size, added, (field, value));
      SubKeyIsStem(ns, k, version, field);
      var sk := SubKey(k, version, field, ns);
      var existing := db.Get(CfSubkey, sk);
      batch := batch + [Put(CfSubkey, sk, value)];
      if existing.None? {
        size := WrapU64(size + 1);
        added := added + 1;
      }
    }
    assert pairs[..|pairs|] == pairs;
  }

  lemma StartSees(d: Disk, ns: Bytes, k: Bytes, h: Hash, newVersion: u64)
    requires Sees(d, ns, k, h) && Vacant(d, Stem(ns, k, newVersion))
    ensures var meta := HashMeta(d, ns, k);
            meta.Ok? ==> var m := StartHash(meta.value, newVersion);
                         View(d.subkey, Stem(ns, k, m.version)) == h && IsHash(m)
  {
    hide Stem, View, HashMeta;
  }

  /** HSET key field value ...: each field gets the last value given for it; the size and
      the reply go up once for every mention of a field that was not stored before. */
  method Hset(db: StorageEngine, ns: Bytes, k: Bytes, newVersion: u64, args: seq<Bytes>, ghost h: Hash)
    returns (r: Result<nat>)
    requires Sees(db.disk, ns, k, h) && Vacant(db.disk, Stem(ns, k, newVersion))
    modifies db
    ensures r.Err? ==> db.disk == old(db.disk)
    ensures |args| < 2 || |args| % 2 != 0 ==> r == Err(WrongArgCount)
    ensures |args| >= 2 && |args| % 2 == 0 ==>
              var meta := HashMeta(old(db.disk), ns, k);
              if meta.Err? then r == Err(meta.error)
              else
                var start, n := StartHash(meta.value, newVersion), NewMentions(h, Fields(args));
                && r == Ok(n)
                && Wrote(old(db.disk), db.disk, ns, k, start.(size := WrapU64(start.size + n)),
                         AfterHset(h, Fields(args)))
  {
    hide Stem, MetadataKey, View, HashMeta, Apply, MetaPut, Vacant, Staged;
    hide NewMentions, AfterHset, Stored, Touches, StartHash, Sees;
    if |args| < 2 || |args| % 2 != 0 { return Err(WrongArgCount); }
    var loaded := HashMeta(db.disk, ns, k);
    if loaded.Err? { return Err(loaded.error); }
    var meta := StartHash(loaded.value, newVersion);
    StartSees(db.disk, ns, k, h, newVersion);
    var batch, size, added := HsetBatch(db, ns, k, meta.version, Fields(args), meta.size, h);
    CommitHash(db.disk, batch, ns, k, meta.(size := size), AfterHset(h, Fields(args)));
    db.Write(batch + [MetaPut(ns, k, meta.(size := size))]);
    r := Ok(added);
  }

  lemma {:induction false} AfterHsetKeys(h: Hash, pairs: seq<(Bytes, Bytes)>)
    ensures AfterHset(h, pairs).Keys == h.Keys + Range(Names(pairs))
  {
    if pairs == [] {
      assert Range(Names(pairs)) == {};
    } else {
      var n := |pairs| - 1;
      AfterHsetKeys(h, pairs[..n]);
      assert Names(pairs)[..n] == Names(pairs[..n]);
      HitStep({}, Names(pairs));
    }
  }

  lemma {:induction false} AbsentNamed(keys: set<Bytes>, all: set<Bytes>, names: seq<Bytes>)
    requires Range(names) <= all
    ensures Named(all - keys, names) == |names| - Named(keys, names)
  {
    if names != [] {
      var n := |names| - 1;
      HitStep(all, names);
      AbsentNamed(keys, all, names[..n]);
      assert names[n] in Range(names);
    }
  }

  /** A field that is not in h is given twice. */
  ghost predicate NewTwice(h: Hash, pairs: seq<(Bytes, Bytes)>) {
    exists i, j :: 0 <= i < j < |pairs| && pairs[i].0 == pairs[j].0 && pairs[i].0 !in h
  }

  lemma NewTwiceIsNamed(h: Hash, pairs: seq<(Bytes, Bytes)>)
    ensures NewTwice(h, pairs) <==> NamedTwice(Range(Names(pairs)) - h.Keys, Names(pairs))
  {
    var names := Names(pairs);
    var added := Range(names) - h.Keys;
    if i, j :| 0 <= i < j < |names| && names[i] == names[j] && names[i] in added {
      assert pairs[i].0 == pairs[j].0 && pairs[i].0 !in h;
    }
    if i, j :| 0 <= i < j < |pairs| && pairs[i].0 == pairs[j].0 && pairs[i].0 !in h {
      assert names[i] == names[j] && names[i] in added;
    }
  }

  /** HSET counts the fields it adds exactly when no new field is given twice. */
  lemma HsetSizeExact(h: Hash, pairs: seq<(Bytes, Bytes)>)
    ensures |h| + NewMentions(h, pairs) == |AfterHset(h, pairs)| <==> !NewTwice(h, pairs)
  {
    hide NewTwice, NamedTwice, Named, AfterHset, Range;
    var names := Names(pairs);
    var added := Range(names) - h.Keys;
    AbsentNamed(h.Keys, Range(names), names);
    CountedOnce(added, names);
    AfterHsetKeys(h, pairs);
    NewTwiceIsNamed(h, pairs);
    assert Range(names) * added == added;
    assert h.Keys + Range(names) == h.Keys + added;
    assert |h| == |h.Keys| && |AfterHset(h, pairs)| == |AfterHset(h, pairs).Keys|;
  }

  /** HSET k f v f w on an absent key replies 2 and stores one field with size 2. */
  lemma HsetRepeatedName(f: Bytes, v: Bytes, w: Bytes)
    ensures var pairs := [(f, v), (f, w)];
            NewMentions(map[], pairs) == 2 && AfterHset(map[], pairs) == map[f := w]
  {
    var pairs := [(f, v), (f, w)];
    assert pairs[..1] == [(f, v)] && [(f, v)][..0] == [];
    var h: Hash := map[];
    NamedNothing(h, Names(pairs));
    assert AfterHset(map[], [(f, v)]) == map[f := v];
  }

  // ---------- HDEL ----------

  ghost predicate Deleting(d: Disk, batch: WriteBatch, mk: Bytes, p: Bytes, h: Hash, done: seq<Bytes>, size0: u64,
                           size: u64, deleted: int)
  {
    && Staged(d, batch, mk, p, h - Range(done))
    && deleted == Named(h.Keys, done) && size == SaturatingSub(size0, deleted)
    && (deleted == 0 ==> batch == [])
  }

  lemma DeletingStart(d: Disk, mk: Bytes, p: Bytes, h: Hash, size0: u64)
    requires View(d.subkey, p) == h
    ensures Deleting(d, [], mk, p, h, [], size0, size0, 0)
  {
    hide Staged, View;
    StagedNothing(d, mk, p);
    assert h - Range([]) == h;
  }

  lemma DeletingStep(d: Disk, batch: WriteBatch, mk: Bytes, p: Bytes, h: Hash, done: seq<Bytes>, size0: u64, size: u64,
                     deleted: int, x: Bytes)
    requires Deleting(d, batch, mk, p, h, done, size0, size, deleted)
    ensures x in h ==>
              Deleting(d, batch + [Delete(CfSubkey, p + x)], mk, p, h, done + [x],
                       size0, SaturatingSub(size, 1), deleted + 1)
    ensures x !in h ==> Deleting(d, batch, mk, p, h, done + [x], size0, size, deleted)
  {
    hide Staged;
    assert (done + [x])[..|done|] == done;
    assert Range(done + [x]) == Range(done) + {x};
    assert h - Range(done + [x]) == h - Range(done) - {x};
    if x in h {
      StagedDelete(d, batch, mk, p, h - Range(done), x);
    } else {
      assert h - Range(done) - {x} == h - Range(done);
    }
  }

  method HdelBatch(db: StorageEngine, ns: Bytes, k: Bytes, version: u64, fields: seq<Bytes>, size0: u64, ghost h: Hash)
    returns (batch: WriteBatch, size: u64, deleted: nat)
    requires View(db.disk.subkey, Stem(ns, k, version)) == h
    ensures Deleting(db.disk, batch, MetadataKey(k, ns), Stem(ns, k, version), h, fields, size0, size, deleted)
  {
    hide Deleting, Stem, MetadataKey, SubKey, View;
    batch, size, deleted := [], size0, 0;
    ghost var mk, p := MetadataKey(k, ns), Stem(ns, k, version);
    DeletingStart(db.disk, mk, p, h, size0);
    for i := 0 to |fields|
      invariant Deleting(db.disk, batch, mk, p, h, fields[..i], size0, size, deleted)
    {
      assert fields[..i + 1] == fields[..i] + [fields[i]];
      DeletingStep(db.disk, batch, mk, p, h, fields[..i], size0, size, deleted, fields[i]);
      SubKeyIsStem(ns, k, version, fields[i]);
      var sk := SubKey(k, version, fields[i], ns);
      var existing := db.Get(CfSubkey, sk);
      if existing.Some? {
        batch := batch + [Delete(CfSubkey, sk)];
        size := SaturatingSub(size, 1);
        deleted := deleted + 1;
      }
    }
    assert fields[..|fields|] == fields;
  }

  /** HDEL key field ...: the named fields go, the size and the reply count every mention. */
  method Hdel(db: StorageEngine, ns: Bytes, k: Bytes, fields: seq<Bytes>, ghost h: Hash) returns (r: Result<nat>)
    requires Sees(db.disk, ns, k, h)
    modifies db
    ensures r.Err? ==> db.disk == old(db.disk)
    ensures fields == [] ==> r == Err(WrongArgCount)
    ensures fields != [] ==>
              var meta := HashMeta(old(db.disk), ns, k);
              if meta.Err? then r == Err(meta.error)
              else
                && r == Ok(Named(h.Keys, fields))
                && (Named(h.Keys, fields) == 0 ==> db.disk == old(db.disk) && h - Range(fields) == h)
                && (Named(h.Keys, fields) > 0 ==>
                      && meta.value.Some?
                      && var m := meta.value.value;
                         Wrote(old(db.disk), db.disk, ns, k,
                               m.(size := SaturatingSub(m.size, Named(h.Keys, fields))), h - Range(fields)))
  {
    hide Stem, MetadataKey, View, HashMeta, Apply, MetaPut, Staged, Stored, Touches, Named, Range;
    if fields == [] { return Err(WrongArgCount); }
    var loaded := HashMeta(db.disk, ns, k);
    if loaded.Err? { return Err(loaded.error); }
    if loaded.value.None? {
      NamedNothing(h, fields);
      return Ok(0);
    }
    var meta := loaded.value.value;
    var batch, size, deleted := HdelBatch(db, ns, k, meta.version, fields, meta.size, h);
    if deleted > 0 {
      CommitHash(db.disk, batch, ns, k, meta.(size := size), h - Range(fields));
      batch := batch + [MetaPut(ns, k, meta.(size := size))];
    } else {
      NoneNamed(h, fields);
      WriteNothing(db.disk);
    }
    db.Write(batch);
    r := Ok(deleted);
  }

  lemma WriteNothing(d: Disk)
    ensures Apply(d, []) == d
  {
  }

  // ---------- HSCAN and HGETALL ----------

  /** The COUNT option of HSCAN: not given, given (None when it is not a number), or other words. */
  datatype CountArg = NoCount | CountOf(n: Option<nat>) | OtherWords

  datatype HashPage = HashPage(cursor: Bytes, entries: seq<(Bytes, Bytes)>)

  /** The entries of a page, each key cut down to what follows the prefix. */
  function CutKeys(p: Bytes, items: seq<(Bytes, Bytes)>): (r: seq<(Bytes, Bytes)>)
    requires forall i :: 0 <= i < |items| ==> p <= items[i].0
    ensures |r| == |items| && forall i :: 0 <= i < |r| ==> r[i] == (items[i].0[|p|..], items[i].1)
  {
    seq(|items|, i requires 0 <= i < |items| => (items[i].0[|p|..], items[i].1))
  }

  lemma PageUnderPrefix(f: Family, p: Bytes, start: Bytes, limit: nat)
    ensures forall i :: 0 <= i < |ForwardPage(f, p, start, limit).items| ==>
              p <= ForwardPage(f, p, start, limit).items[i].0
  {
    hide ForwardRun;
    var run := ForwardRun(f, p, start);
    assert forall i :: 0 <= i < |run| ==> run[i] in run;
  }

  /** The field of each subkey of a page, as the subkey parses; none fails to parse. */
  method ReadFields(ns: Bytes, k: Bytes, version: u64, items: seq<(Bytes, Bytes)>)
    returns (r: Result<seq<(Bytes, Bytes)>>)
    requires ValidKey(k) && ValidNamespace(ns)
    requires forall i :: 0 <= i < |items| ==> Stem(ns, k, version) <= items[i].0
    ensures r == Ok(CutKeys(Stem(ns, k, version), items))
  {
    hide Stem, SubKey, ParseSubKey;
    ghost var p := Stem(ns, k, version);
    var entries: seq<(Bytes, Bytes)> := [];
    for i := 0 to |items|
      invariant entries == CutKeys(p, items[..i])
    {
      var (key, value) := items[i];
      ghost var field := key[|p|..];
      assert key == p + field;
      SubKeyIsStem(ns, k, version, field);
      ParseSubKeyInverts(k, version, field, ns);
      var parsed := ParseSubKey(key, ns);
      if parsed.None? { return Err(BadEncoding); }
      entries := entries + [(parsed.value.2, value)];
    }
    assert items[..|items|] == items;
    r := Ok(entries);
  }

  /** The reply of HSCAN from a start key: a page of the subkeys, and the cursor of its next key. */
  ghost function ScanReply(f: Family, p: Bytes, start: Bytes, limit: nat): HashPage {
    var page := ForwardPage(f, p, start, limit);
    PageUnderPrefix(f, p, start, limit);
    HashPage(EncodeCursor(if page.next.Some? then page.next.value else []), CutKeys(p, page.items))
  }

  /** HSCAN key cursor [COUNT n]: a malformed count or cursor is refused before the key is
      read, a cursor cut inside a character aborts the command, an absent key ends the
      iteration, otherwise one page from whatever the cursor names. */
  method Hscan(db: StorageEngine, ns: Bytes, k: Bytes, cursor: Bytes, count: CountArg) returns (r: Result<HashPage>)
    requires ValidKey(k) && ValidNamespace(ns)
    ensures var start, meta := DecodeCursor(cursor), HashMeta(db.disk, ns, k);
            if !ValidUtf8(cursor) then r == Err(InvalidCursor)
            else if count == OtherWords then r == Err(SyntaxError)
            else if count == CountOf(None) then r == Err(NotInteger)
            else if start.Splits? then r == Err(Aborted)
            else if start.Malformed? then r == Err(InvalidCursor)
            else if meta.Err? then r == Err(meta.error)
            else if meta.value.None? then r == Ok(HashPage(ZERO, []))
            else r == Ok(ScanReply(db.disk.subkey, Stem(ns, k, meta.value.value.version), start.key,
                                   if count.NoCount? then 10 else count.n.value))
  {
    hide Stem, HashMeta, DecodeCursor, EncodeCursor, ForwardPage, ValidUtf8;
    if !ValidUtf8(cursor) { return Err(InvalidCursor); }
    var limit := 10;
    if count.OtherWords? { return Err(SyntaxError); }
    if count.CountOf? {
      if count.n.None? { return Err(NotInteger); }
      limit := count.n.value;
    }
    var start := DecodeCursor(cursor);
    if start.Splits? { return Err(Aborted); }
    if start.Malformed? { return Err(InvalidCursor); }
    var loaded := HashMeta(db.disk, ns, k);
    if loaded.Err? { return Err(loaded.error); }
    if loaded.value.None? { return Ok(HashPage(ZERO, [])); }
    var meta := loaded.value.value;
    var p := Stem(ns, k, meta.version);
    PageUnderPrefix(db.disk.subkey, p, start.key, limit);
    var items, next := db.PrefixScanPage(CfSubkey, p, start.key, limit);
    assert items == ForwardPage(db.disk.subkey, p, start.key, limit).items;
    var entries := ReadFields(ns, k, meta.version, items);
    r := Ok(HashPage(EncodeCursor(if next.Some? then next.value else []), entries.value));
  }

  /** The cursor text that stands for a place in the hash. */
  function CursorText(p: Bytes, place: Place): Bytes {
    if place.Done? then ZERO else EncodeCursor(StartAt(p, place.after))
  }

  /** From the cursor of a place, HSCAN returns the page of fields at that place, and the
      cursor of the place the page ends at; "0" means the beginning and the end only. */
  lemma ScanFromPlace(f: Family, p: Bytes, after: Option<Bytes>, limit: nat)
    requires p != []
    ensures var h := View(f, p);
            && ValidUtf8(CursorText(p, At(after)))
            && DecodeCursor(CursorText(p, At(after))) == Key(StartAt(p, after))
            && ScanReply(f, p, StartAt(p, after), limit)
               == HashPage(CursorText(p, PagePlace(h, after, limit)), Pairs(h, PageFields(h, after, limit)))
            && (CursorText(p, PagePlace(h, after, limit)) == ZERO <==> PagePlace(h, after, limit).Done?)
  {
    hide View, ForwardPage, PagePlace, PageFields, EncodeCursor, DecodeCursor, ValidUtf8;
    CursorRoundTrip(StartAt(p, after));
    PageIsFields(f, p, after, limit);
    PageUnderPrefix(f, p, StartAt(p, after), limit);
    var h, page := View(f, p), ForwardPage(f, p, StartAt(p, after), limit);
    assert CutKeys(p, page.items) == Pairs(h, PageFields(h, after, limit));
    if page.next.Some? {
      assert page.next.value == p + page.next.value[|p|..];
      CursorRoundTrip(page.next.value);
    } else {
      CursorRoundTrip([]);
    }
  }

  // ---------- HGETALL ----------

  const HASH_PAGE_SIZE: nat := 1024

  /** An iteration over one unchanging hash. */
  ghost function StillRounds(h: Hash, n: nat): (r: seq<(Hash, nat)>)
    ensures |r| == n && forall i :: 0 <= i < n ==> r[i] == (h, HASH_PAGE_SIZE)
  {
    seq(n, i => (h, HASH_PAGE_SIZE))
  }

  /** Over an unchanging hash a finished iteration is the whole hash in field order. */
  lemma StillScan(h: Hash, n: nat)
    requires ScanRun(StillRounds(h, n)).place.Done? && n > 0
    ensures ScanRun(StillRounds(h, n)).got == Pairs(h, SortedKeys(h.Keys))
  {
    hide Less, SortedKeys, ScanRun;
    var rounds := StillRounds(h, n);
    var got := ScanRun(rounds).got;
    var names := Names(got);
    ScanKept(rounds);
    forall i | 0 <= i < |got| ensures got[i].0 in h && h[got[i].0] == got[i].1 {
      assert got[i] in got;
      assert SeenIn(got[i], rounds);
    }
    forall x ensures x in names <==> x in SortedKeys(h.Keys) {
      if x in h { assert InEvery(x, rounds); }
      if x in names {
        var i :| 0 <= i < |names| && names[i] == x;
      }
    }
    AscendingUnique(names, SortedKeys(h.Keys));
  }

  /** HGETALL: every field with its value, in field order, read page by page. */
  method Hgetall(db: StorageEngine, ns: Bytes, k: Bytes, ghost h: Hash) returns (r: Result<seq<(Bytes, Bytes)>>)
    requires ValidKey(k) && ValidNamespace(ns) && Sees(db.disk, ns, k, h)
    ensures var meta := HashMeta(db.disk, ns, k);
            if meta.Err? then r == Err(meta.error) else r == Ok(Pairs(h, SortedKeys(h.Keys)))
  {
    hide Less, SortedKeys, ScanRun, Stem, View, HashMeta, ForwardPage, PagePlace, PageFields, Ahead;
    var loaded := HashMeta(db.disk, ns, k);
    if loaded.Err? { return Err(loaded.error); }
    if loaded.value.None? {
      assert Pairs(h, SortedKeys(h.Keys)) == [];
      return Ok([]);
    }
    var meta := loaded.value.value;
    var prefix := Stem(ns, k, meta.version);
    StemNonEmpty(ns, k, meta.version);
    var result: seq<(Bytes, Bytes)> := [];
    var start: Bytes := [];
    ghost var after: Option<Bytes>, n: nat := None, 0;
    assert StillRounds(h, 0) == [];
    ScanBegins(prefix);
    while true
      invariant start == StartAt(prefix, after) && ScanRun(StillRounds(h, n)) == Scanned(At(after), result)
      decreases |Ahead(h, after)|
    {
      PageIsFields(db.disk.subkey, prefix, after, HASH_PAGE_SIZE);
      PageUnderPrefix(db.disk.subkey, prefix, start, HASH_PAGE_SIZE);
      ScanExtends(StillRounds(h, n), h, HASH_PAGE_SIZE);
      assert StillRounds(h, n) + [(h, HASH_PAGE_SIZE)] == StillRounds(h, n + 1);
      PageFacts(h, after, HASH_PAGE_SIZE);
      var items, next := db.PrefixScanPage(CfSubkey, prefix, start, HASH_PAGE_SIZE);
      assert items == ForwardPage(db.disk.subkey, prefix, start, HASH_PAGE_SIZE).items;
      assert CutKeys(prefix, items) == Pairs(h, PageFields(h, after, HASH_PAGE_SIZE));
      n := n + 1;
      if items == [] {
        assert result + CutKeys(prefix, items) == result;
        break;
      }
      var entries := ReadFields(ns, k, meta.version, items);
      result := result + entries.value;
      match next {
        case Some(key) =>
          AheadShrinks(h, h, after, HASH_PAGE_SIZE);
          after := Some(key[|prefix|..]);
          start := key;
        case None => break;
      }
    }
    StillScan(h, n);
    r := Ok(result);
  }

  // ---------- an iteration amid writes ----------

  datatype HashWrite = HsetCmd(args: seq<Bytes>) | HdelCmd(fields: seq<Bytes>)

  ghost function Written(h: Hash, w: HashWrite): Hash {
    match w
    case HsetCmd(args) => if |args| < 2 || |args| % 2 != 0 then h else AfterHset(h, Fields(args))
    case HdelCmd(fields) => h - Range(fields)
  }

  ghost function AllWritten(h: Hash, ws: seq<HashWrite>): Hash {
    if ws == [] then h else Written(AllWritten(h, ws[..|ws| - 1]), ws[|ws| - 1])
  }

  /** Writes leave a hash at the version it has. */
  method WriteOne(db: StorageEngine, ns: Bytes, k: Bytes, newVersion: u64, w: HashWrite, ghost m: Metadata,
                  ghost h: Hash)
    returns (ghost m': Metadata)
    requires Stored(db.disk, ns, k, m, h) && Vacant(db.disk, Stem(ns, k, newVersion))
    modifies db
    ensures Stored(db.disk, ns, k, m', Written(h, w)) && m'.version == m.version
    ensures Touches(old(db.disk), db.disk, MetadataKey(k, ns), Stem(ns, k, m.version))
  {
    hide Stored, Vacant, Stem, MetadataKey, Touches, HashMeta, AfterHset, NewMentions, Named, Range, Sees;
    StoredIsSeen(db.disk, ns, k, m, h);
    TouchesNothing(db.disk, MetadataKey(k, ns), Stem(ns, k, m.version));
    m' := m;
    match w {
      case HsetCmd(args) =>
        var r := Hset(db, ns, k, newVersion, args, h);
        if r.Ok? { m' := m.(size := WrapU64(m.size + NewMentions(h, Fields(args)))); }
      case HdelCmd(fields) =>
        var r := Hdel(db, ns, k, fields, h);
        if fields == [] {
          NothingNamed(h);
        } else if Named(h.Keys, fields) > 0 {
          m' := m.(size := SaturatingSub(m.size, Named(h.Keys, fields)));
        }
    }
  }

  lemma NothingNamed(h: Hash)
    ensures h - Range([]) == h
  {
  }

  method WriteAll(db: StorageEngine, ns: Bytes, k: Bytes, newVersion: u64, ws: seq<HashWrite>, ghost m: Metadata,
                  ghost h: Hash)
    returns (ghost m': Metadata)
    requires ValidKey(k) && ValidNamespace(ns) && newVersion != m.version
    requires Stored(db.disk, ns, k, m, h) && Vacant(db.disk, Stem(ns, k, newVersion))
    modifies db
    ensures Stored(db.disk, ns, k, m', AllWritten(h, ws)) && m'.version == m.version
    ensures Vacant(db.disk, Stem(ns, k, newVersion))
  {
    hide Stored, Vacant, Stem, MetadataKey, Touches, Written;
    m' := m;
    for i := 0 to |ws|
      invariant Stored(db.disk, ns, k, m', AllWritten(h, ws[..i])) && m'.version == m.version
      invariant Vacant(db.disk, Stem(ns, k, newVersion))
    {
      ghost var before := db.disk;
      assert ws[..i + 1][..i] == ws[..i];
      m' := WriteOne(db, ns, k, newVersion, ws[i], m', AllWritten(h, ws[..i]));
      VacantKept(before, db.disk, ns, k, MetadataKey(k, ns), m.version, newVersion);
    }
    assert ws[..|ws|] == ws;
  }

  /** The hash each page of an iteration meets: the pages alternate with groups of writes. */
  ghost function Rounds(h: Hash, counts: seq<nat>, writes: seq<seq<HashWrite>>): (r: seq<(Hash, nat)>)
    requires |counts| == |writes|
    ensures |r| == |counts|
  {
    if counts == [] then []
    else
      var n := |counts| - 1;
      Rounds(h, counts[..n], writes[..n]) + [(HashAt(h, writes[..n]), counts[n])]
  }

  ghost function HashAt(h: Hash, writes: seq<seq<HashWrite>>): Hash {
    if writes == [] then h else AllWritten(HashAt(h, writes[..|writes| - 1]), writes[|writes| - 1])
  }

  /** A client that follows the cursors from "0" while others write between its pages reads
      the hash as it stands at each page; at "0" it has every field that was there
      throughout, no field twice, and nothing that was not there. It reaches "0" once the
      writes from some page on add no field and more pages follow than there are fields. */
  method Iterate(db: StorageEngine, ns: Bytes, k: Bytes, newVersion: u64, counts: seq<nat>, writes: seq<seq<HashWrite>>,
                 ghost m0: Metadata, ghost h: Hash)
    returns (got: seq<(Bytes, Bytes)>, ended: bool, ghost rounds: seq<(Hash, nat)>)
    requires ValidKey(k) && ValidNamespace(ns) && newVersion != m0.version && |counts| == |writes|
    requires Stored(db.disk, ns, k, m0, h) && Vacant(db.disk, Stem(ns, k, newVersion))
    modifies db
    ensures |rounds| <= |counts| && rounds == Rounds(h, counts, writes)[..|rounds|]
    ensures ended || |rounds| == |counts|
    ensures got == ScanRun(rounds).got && (ended <==> ScanRun(rounds).place.Done?)
    ensures forall s :: 0 <= s < |counts| && StopsGrowing(Rounds(h, counts, writes), s) ==>
              |counts| - s > |HashAt(h, writes[..s])| ==> ended
    ensures ended ==>
              && (forall i, j :: 0 <= i < j < |got| ==> got[i].0 != got[j].0)
              && (forall e :: e in got ==> SeenIn(e, rounds))
              && (forall x :: InEvery(x, rounds) ==> exists i :: 0 <= i < |got| && got[i].0 == x)
  {
    hide SeenIn, InEvery;
    hide Stored, Vacant, Stem, MetadataKey, AllWritten, ScanRun, Rounds;
    got, ended, rounds := [], false, [];
    var cursor := ZERO;
    ghost var m, place := m0, At(None);
    ghost var p := Stem(ns, k, m0.version);
    StemNonEmpty(ns, k, m0.version);
    ScanBegins(p);
    for i := 0 to |counts|
      invariant !ended && |rounds| == i && Stored(db.disk, ns, k, m, HashAt(h, writes[..i])) && m.version == m0.version
      invariant Vacant(db.disk, Stem(ns, k, newVersion))
      invariant rounds == Rounds(h, counts[..i], writes[..i])
      invariant place.At? && cursor == CursorText(p, place) && ScanRun(rounds) == Scanned(place, got)
    {
      ghost var now := HashAt(h, writes[..i]);
      var page := Page(db, ns, k, cursor, counts[i], m, now, place.after);
      ScanExtends(rounds, now, counts[i]);
      RoundsExtend(h, counts, writes, i);
      rounds := rounds + [(now, counts[i])];
      place := PagePlace(now, place.after, counts[i]);
      got := got + page.entries;
      cursor := page.cursor;
      if cursor == ZERO {
        ended := true;
        RoundsPrefix(h, counts, writes, i + 1);
        ScanGuarantee(rounds);
        return;
      }
      assert writes[..i + 1][..i] == writes[..i];
      m := WriteAll(db, ns, k, newVersion, writes[i], m, now);
    }
    assert counts[..|counts|] == counts && writes[..|writes|] == writes;
    assert rounds[..|rounds|] == rounds;
    MustHaveEnded(h, counts, writes);
  }

  /** A run of pages that did not end is one in which fields kept being added, or one with
      no more pages than fields. */
  lemma MustHaveEnded(h: Hash, counts: seq<nat>, writes: seq<seq<HashWrite>>)
    requires |counts| == |writes| && ScanRun(Rounds(h, counts, writes)).place.At?
    ensures forall s :: 0 <= s < |counts| && StopsGrowing(Rounds(h, counts, writes), s) ==>
              |counts| - s <= |HashAt(h, writes[..s])|
  {
    hide ScanRun, Rounds, HashAt, StopsGrowing;
    var rounds := Rounds(h, counts, writes);
    forall s | 0 <= s < |counts| && StopsGrowing(rounds, s) ensures |counts| - s <= |HashAt(h, writes[..s])| {
      RoundAt(h, counts, writes, s);
      if |rounds| - s > |rounds[s].0| { ScanEnds(rounds, s); }
    }
  }

  lemma RoundAt(h: Hash, counts: seq<nat>, writes: seq<seq<HashWrite>>, s: nat)
    requires |counts| == |writes| && s < |counts|
    ensures Rounds(h, counts, writes)[s] == (HashAt(h, writes[..s]), counts[s])
  {
    hide Rounds, HashAt;
    RoundsPrefix(h, counts, writes, s + 1);
    RoundsExtend(h, counts, writes, s);
  }

  lemma ScanBegins(p: Bytes)
    ensures CursorText(p, At(None)) == ZERO && ScanRun([]) == Scanned(At(None), [])
  {
  }

  lemma ScanExtends(rounds: seq<(Hash, nat)>, h: Hash, count: nat)
    requires ScanRun(rounds).place.At?
    ensures var prev := ScanRun(rounds);
            ScanRun(rounds + [(h, count)])
            == Scanned(PagePlace(h, prev.place.after, count),
                       prev.got + Pairs(h, PageFields(h, prev.place.after, count)))
  {
    assert (rounds + [(h, count)])[..|rounds|] == rounds;
  }

  lemma RoundsExtend(h: Hash, counts: seq<nat>, writes: seq<seq<HashWrite>>, i: nat)
    requires |counts| == |writes| && i < |counts|
    ensures Rounds(h, counts[..i + 1], writes[..i + 1])
            == Rounds(h, counts[..i], writes[..i]) + [(HashAt(h, writes[..i]), counts[i])]
  {
    assert counts[..i + 1][..i] == counts[..i] && writes[..i + 1][..i] == writes[..i];
  }

  lemma {:induction false} RoundsPrefix(h: Hash, counts: seq<nat>, writes: seq<seq<HashWrite>>, i: nat)
    requires |counts| == |writes| && i <= |counts|
    ensures Rounds(h, counts[..i], writes[..i]) == Rounds(h, counts, writes)[..i]
  {
    hide HashAt;
    var n := |counts|;
    if i == n {
      assert counts[..n] == counts && writes[..n] == writes;
    } else {
      RoundsPrefix(h, counts[..n - 1], writes[..n - 1], i);
      assert counts[..n - 1][..i] == counts[..i] && writes[..n - 1][..i] == writes[..i];
    }
  }

  /** One page of an iteration. */
  method Page(db: StorageEngine, ns: Bytes, k: Bytes, cursor: Bytes, count: nat, ghost m: Metadata, ghost h: Hash,
              ghost after: Option<Bytes>)
    returns (page: HashPage)
    requires ValidKey(k) && ValidNamespace(ns) && Stored(db.disk, ns, k, m, h)
    requires cursor == CursorText(Stem(ns, k, m.version), At(after))
    ensures page == HashPage(CursorText(Stem(ns, k, m.version), PagePlace(h, after, count)),
                             Pairs(h, PageFields(h, after, count)))
    ensures page.cursor == ZERO <==> PagePlace(h, after, count).Done?
  {
    hide Stem, HashMeta, View, ScanReply, CursorText, DecodeCursor, PagePlace, PageFields, ValidUtf8;
    StoredIsSeen(db.disk, ns, k, m, h);
    StemNonEmpty(ns, k, m.version);
    ScanFromPlace(db.disk.subkey, Stem(ns, k, m.version), after, count);
    var r := Hscan(db, ns, k, cursor, CountOf(Some(count)));
    page := r.value;
  }
}
