/** ZADD, ZINCRBY and ZREM over the two stored forms of a sorted set. */
module SortedSetWrites {
  import opened ByteStrings
  import opened OrderedStore
  import opened Storage
  import opened Encoding
  import opened Contexts
  import opened Scores
  import opened SortedSets

  datatype ZaddFlags = ZaddFlags(nx: bool, xx: bool, gt: bool, lt: bool, ch: bool, incr: bool)

  datatype ZReply = Count(n: int) | NewScore(score: Score) | Nil

  /** A sorted set record, as it decodes: only lists use head and tail. */
  predicate Plain(m: Metadata) { m.Type() == Some(TZSet) && m.head == 0 && m.tail == -1 }

  /** The sorted set a command sees; an expired key of any type counts as absent,
      a live key of another type is refused. */
  function ZsetMeta(d: Disk, ns: Bytes, k: Bytes, now: i64): (r: Result<Option<Metadata>>)
    ensures r.Ok? && r.value.Some? ==> Plain(r.value.value) && !r.value.value.Expired(now)
  {
    match GetMeta(d, ns, k)
    case None => Ok(None)
    case Some(v) =>
      if v == [] then Ok(None)
      else
        match TypeOfFlags(v[0])
        case None => Err(BadEncoding)
        case Some(t) =>
          if t == TString then Err(WrongType)
          else
            match DecodeMetadata(v)
            case None => Err(BadEncoding)
            case Some(m) =>
              if m.Expired(now) then Ok(None)
              else if m.Type() != Some(TZSet) then Err(WrongType)
              else Ok(Some(m))
  }

  /** The invariant of a sorted set (no scores when absent): both stored forms agree on z. */
  ghost predicate Holds(d: Disk, ns: Bytes, k: Bytes, now: i64, z: ScoreMap) {
    match ZsetMeta(d, ns, k, now)
    case Err(_) => true
    case Ok(None) => z == map[]
    case Ok(Some(m)) => Represents(d, Stem(ns, k, m.version), z)
  }

  /** The key's metadata is the record m, and its entries at that version are z. */
  ghost predicate Stored(d: Disk, ns: Bytes, k: Bytes, m: Metadata, z: ScoreMap) {
    && GetMeta(d, ns, k) == Some(EncodeMetadata(m)) && Plain(m)
    && Represents(d, Stem(ns, k, m.version), z)
  }

  lemma StoredMeta(d: Disk, ns: Bytes, k: Bytes, now: i64, m: Metadata, z: ScoreMap)
    requires Stored(d, ns, k, m, z)
    ensures ZsetMeta(d, ns, k, now) == Ok(if m.Expired(now) then None else Some(m))
    ensures !m.Expired(now) ==> Holds(d, ns, k, now, z)
  {
    hide EncodeMetadata, DecodeMetadata, Stem, Represents, GetMeta;
    MetadataRoundTrip(m);
    EncodedFlags(m);
  }

  /** An expired record of any type is absent, a live one of another type is refused. */
  lemma ZsetMetaCases(d: Disk, ns: Bytes, k: Bytes, now: i64, m: Metadata)
    requires m.Type().Some? && m.Type() != Some(TString) && GetMeta(d, ns, k) == Some(EncodeMetadata(m))
    ensures ZsetMeta(d, ns, k, now) == if m.Expired(now) then Ok(None)
                                       else if m.Type() != Some(TZSet) then Err(WrongType)
                                       else Ok(Some(m.(head := 0, tail := -1)))
  {
    hide EncodeMetadata, DecodeMetadata, GetMeta;
    MetadataRoundTrip(m);
    EncodedFlags(m);
  }

  /** What a write leaves: the start record with a new size over the new scores, and no
      other key and no other version touched. */
  ghost predicate Wrote(d: Disk, e: Disk, ns: Bytes, k: Bytes, start: Metadata, z': ScoreMap, n: u64) {
    && Stored(e, ns, k, start.(size := n), z')
    && Touches(d, e, MetadataKey(k, ns), Stem(ns, k, start.version))
  }

  /** The size after a write that adds members: it goes up by as many as were added. */
  ghost function Grown(size: u64, z: ScoreMap, z': ScoreMap): u64 { WrapU64(size + |z'| - |z|) }

  /** The metadata a write starts from: the live record or a new one at the new version. */
  function StartMeta(meta: Option<Metadata>, newVersion: u64): Metadata {
    match meta
    case Some(m) => m
    case None => NewMetadata(TZSet, newVersion)
  }

  lemma EmptyRepresented(d: Disk, p: Bytes)
    requires Vacant(d, p)
    ensures Represents(d, p, map[])
  {
    assert Codes(map[]) == map[];
    assert IndexKeys(map[]) == {};
    assert Index(map[]) == map[];
  }

  lemma StartRepresents(d: Disk, ns: Bytes, k: Bytes, now: i64, z: ScoreMap, newVersion: u64)
    requires Holds(d, ns, k, now, z) && Vacant(d, Stem(ns, k, newVersion))
    ensures var meta := ZsetMeta(d, ns, k, now);
            meta.Ok? ==> var m := StartMeta(meta.value, newVersion);
                         Represents(d, Stem(ns, k, m.version), z) && Plain(m) && !m.Expired(now)
  {
    hide Represents, Vacant, Stem;
    EmptyRepresented(d, Stem(ns, k, newVersion));
  }

  /** A metadata put on top of agreeing forms is what the next command finds. */
  lemma MetaPutStores(d: Disk, ns: Bytes, k: Bytes, m: Metadata, z: ScoreMap)
    requires Plain(m) && Represents(d, Stem(ns, k, m.version), z)
    ensures var e := ApplyOp(d, MetaPut(ns, k, m));
            && Stored(e, ns, k, m, z)
            && Touches(d, e, MetadataKey(k, ns), Stem(ns, k, m.version))
  {
    hide EncodeMetadata, Stem, MetadataKey, View, Codes, Index;
    GetMetaAfterPut(d, ns, k, EncodeMetadata(m));
  }

  // ---------- what each command means ----------

  /** Whether ZADD takes the new score for a member. */
  predicate Accepts(flags: ZaddFlags, prev: Option<Score>, s: Score) {
    match prev
    case None => !flags.xx
    case Some(o) =>
      && !flags.nx
      && !(flags.gt && NumAtMost(s, o))
      && !(flags.lt && NumAtMost(o, s))
      && !NumEqual(o, s)
  }

  /** The scores after ZADD has dealt with the members in done: a taken score replaces
      or adds, every other member keeps what it had. */
  ghost function AfterZadd(flags: ZaddFlags, z: ScoreMap, upd: ScoreMap, done: set<Bytes>): ScoreMap
    requires done <= upd.Keys
  {
    map m | m in z.Keys + Taken(flags, z, upd, done) ::
      if m in done && Accepts(flags, Lookup(z, m), upd[m]) then upd[m] else z[m]
  }

  ghost function Taken(flags: ZaddFlags, z: ScoreMap, upd: ScoreMap, done: set<Bytes>): set<Bytes>
    requires done <= upd.Keys
  {
    set m | m in done && Accepts(flags, Lookup(z, m), upd[m])
  }

  /** The last score given for each member wins. */
  ghost function Updates(pairs: seq<(Option<Score>, Bytes)>): ScoreMap
    requires forall i :: 0 <= i < |pairs| ==> pairs[i].0.Some?
  {
    if pairs == [] then map[]
    else
      var n := |pairs| - 1;
      Updates(pairs[..n])[pairs[n].1 := pairs[n].0.value]
  }

  predicate AllParsed(pairs: seq<(Option<Score>, Bytes)>) {
    forall i :: 0 <= i < |pairs| ==> pairs[i].0.Some?
  }

  /** The increment of one member, as ZINCRBY and ZADD INCR share it. */
  function Incremented(z: ScoreMap, m: Bytes, s: Score, add: (u64, u64) -> u64): (r: Result<Score>)
  {
    match Lookup(z, m)
    case None => Ok(s)
    case Some(o) => if IsFinite(add(o, s)) then FiniteIsNumber(add(o, s)); Ok(add(o, s)) else Err(NotFinite)
  }

  lemma FiniteIsNumber(bits: u64)
    requires IsFinite(bits)
    ensures !IsNaN(bits)
  {
  }

  /** Whether ZADD INCR applies: like ZADD, but an unchanged score is stored again. */
  predicate IncrApplies(flags: ZaddFlags, prev: Option<Score>, s: Score) {
    match prev
    case None => !flags.xx
    case Some(o) => !flags.nx && !(flags.gt && NumAtMost(s, o)) && !(flags.lt && NumAtMost(o, s))
  }

  predicate IncrSkips(flags: ZaddFlags, prev: Option<Score>) {
    (flags.nx && prev.Some?) || (flags.xx && prev.None?)
  }

  /** ZADD refuses these before it looks at the key. */
  function ZaddArgError(flags: ZaddFlags, pairs: seq<(Option<Score>, Bytes)>): Option<KvError> {
    if (flags.nx && flags.xx) || (flags.gt && flags.lt) || (flags.nx && (flags.gt || flags.lt)) then Some(SyntaxError)
    else if pairs == [] then Some(WrongArgCount)
    else if flags.incr && |pairs| != 1 then Some(SyntaxError)
    else None
  }

  /** The scores and the reply after a command, and whether it writes at all. */
  datatype ZOutcome = ZOutcome(scores: ScoreMap, reply: ZReply, writes: bool)

  /** The sorted set and the reply after ZADD INCR. */
  ghost function IncrMeaning(flags: ZaddFlags, m: Bytes, s: Score, z: ScoreMap,
                             add: (u64, u64) -> u64): Result<ZOutcome>
  {
    if IncrSkips(flags, Lookup(z, m)) then Ok(ZOutcome(z, Nil, false))
    else
      match Incremented(z, m, s, add)
      case Err(e) => Err(e)
      case Ok(t) =>
        if IncrApplies(flags, Lookup(z, m), t) then Ok(ZOutcome(z[m := t], NewScore(t), true))
        else Ok(ZOutcome(z, Nil, false))
  }

  /** The sorted set and the reply after ZADD, on legal arguments. */
  ghost function ZaddMeaning(flags: ZaddFlags, pairs: seq<(Option<Score>, Bytes)>, z: ScoreMap,
                             add: (u64, u64) -> u64): Result<ZOutcome>
    requires ZaddArgError(flags, pairs).None?
  {
    if !AllParsed(pairs) then Err(NotInteger)
    else if flags.incr then
      IncrMeaning(flags, pairs[0].1, pairs[0].0.value, z, add)
    else
      var upd := Updates(pairs);
      var taken := Taken(flags, z, upd, upd.Keys);
      Ok(ZOutcome(AfterZadd(flags, z, upd, upd.Keys), Count(if flags.ch then |taken| else |taken - z.Keys|), true))
  }

  // ---------- what the flags mean for the numbers ----------

  predicate Below(a: Score, b: Score) { NumberLess(NumberOf(a), NumberOf(b)) }

  lemma AtMostIsNotAbove(a: Score, b: Score)
    ensures NumAtMost(a, b) <==> !Below(b, a)
    ensures NumEqual(a, b) <==> NumberOf(a) == NumberOf(b)
  {
    hide NumberOf, NumberLess;
    PositionIsValueOrder(b, a);
    PositionIsValueOrder(a, b);
  }

  /** ZADD for one member, told by the numbers. NX keeps every score, XX adds no member. GT
      leaves the greater of the old and the given score, LT the lesser. Without these the
      score is the given number. A member that is not named keeps what it had. */
  lemma ZaddScores(flags: ZaddFlags, z: ScoreMap, upd: ScoreMap, m: Bytes)
    ensures var after := AfterZadd(flags, z, upd, upd.Keys);
            && (m in after <==> m in z || (m in upd && !flags.xx))
            && (m in z && (m !in upd || flags.nx) ==> after[m] == z[m])
            && (m in after && m !in z ==> after[m] == upd[m])
    ensures m in z && m in upd && !flags.nx ==>
              var s := AfterZadd(flags, z, upd, upd.Keys)[m];
              && (s == z[m] || s == upd[m])
              && (NumberOf(z[m]) == NumberOf(upd[m]) ==> s == z[m])
              && (flags.gt && !flags.lt ==> !Below(s, z[m]) && !Below(s, upd[m]))
              && (flags.lt && !flags.gt ==> !Below(z[m], s) && !Below(upd[m], s))
              && (!flags.gt && !flags.lt ==> NumberOf(s) == NumberOf(upd[m]))
  {
    hide NumAtMost, NumEqual, Below, NumberOf;
    if m in z && m in upd {
      AtMostIsNotAbove(z[m], upd[m]);
      AtMostIsNotAbove(upd[m], z[m]);
      BelowSelf(z[m], upd[m]);
    }
  }

  lemma BelowSelf(a: Score, b: Score)
    ensures !Below(a, a) && !Below(b, b) && (NumberOf(a) == NumberOf(b) ==> !Below(a, b) && !Below(b, a))
    ensures Below(a, b) ==> !Below(b, a)
  {
    hide NumberOf;
  }

  /** The last score given for a member is the one that counts. */
  lemma {:induction false} UpdatesMeaning(pairs: seq<(Option<Score>, Bytes)>, i: nat)
    requires AllParsed(pairs) && i < |pairs| && forall j :: i < j < |pairs| ==> pairs[j].1 != pairs[i].1
    ensures pairs[i].1 in Updates(pairs) && Updates(pairs)[pairs[i].1] == pairs[i].0.value
  {
    var n := |pairs| - 1;
    if i < n { UpdatesMeaning(pairs[..n], i); }
  }

  lemma {:induction false} UpdatesNames(pairs: seq<(Option<Score>, Bytes)>, m: Bytes)
    requires AllParsed(pairs)
    ensures m in Updates(pairs) <==> exists i :: 0 <= i < |pairs| && pairs[i].1 == m
  {
    if pairs != [] {
      var n := |pairs| - 1;
      UpdatesNames(pairs[..n], m);
      if i :| 0 <= i < n && pairs[..n][i].1 == m { assert pairs[i].1 == m; }
      if i :| 0 <= i < |pairs| && pairs[i].1 == m {
        if i < n { assert pairs[..n][i].1 == m; }
      }
    }
  }

  /** The members whose number ZADD changed or that it added. */
  ghost function Changed(z: ScoreMap, z': ScoreMap): set<Bytes> {
    set m | m in z' && (m !in z || NumberOf(z'[m]) != NumberOf(z[m]))
  }

  lemma TakenIsChanged(flags: ZaddFlags, z: ScoreMap, upd: ScoreMap, m: Bytes)
    ensures m in Taken(flags, z, upd, upd.Keys) <==> m in Changed(z, AfterZadd(flags, z, upd, upd.Keys))
  {
    hide NumberOf, NumEqual, NumAtMost;
    if m in z && m in upd { AtMostIsNotAbove(z[m], upd[m]); }
  }

  lemma KeysAfterZadd(flags: ZaddFlags, z: ScoreMap, upd: ScoreMap)
    ensures |AfterZadd(flags, z, upd, upd.Keys)| == |z| + |Taken(flags, z, upd, upd.Keys) - z.Keys|
  {
    hide Taken, Accepts;
    var taken, after := Taken(flags, z, upd, upd.Keys), AfterZadd(flags, z, upd, upd.Keys);
    assert after.Keys == z.Keys + taken;
    hide AfterZadd;
    UnionSize(z.Keys, taken);
    assert |after| == |after.Keys| && |z| == |z.Keys|;
  }

  lemma UnionSize(a: set<Bytes>, b: set<Bytes>)
    ensures |a + b| == |a| + |b - a|
  {
    assert a + b == a + (b - a);
  }

  /** With CH the reply counts the members added or changed, without it those added. */
  lemma ZaddReply(flags: ZaddFlags, pairs: seq<(Option<Score>, Bytes)>, z: ScoreMap, add: (u64, u64) -> u64)
    requires ZaddArgError(flags, pairs).None? && AllParsed(pairs) && !flags.incr
    ensures var out := ZaddMeaning(flags, pairs, z, add);
            && out.Ok?
            && out.value.reply == Count(if flags.ch then |Changed(z, out.value.scores)| else |out.value.scores| - |z|)
  {
    hide Updates, Taken, AfterZadd, Changed;
    var upd := Updates(pairs);
    forall m ensures m in Taken(flags, z, upd, upd.Keys) <==> m in Changed(z, AfterZadd(flags, z, upd, upd.Keys)) {
      TakenIsChanged(flags, z, upd, m);
    }
    assert Taken(flags, z, upd, upd.Keys) == Changed(z, AfterZadd(flags, z, upd, upd.Keys));
    KeysAfterZadd(flags, z, upd);
  }

  /** ZADD INCR: NX skips members, XX skips others, a new member starts from the increment,
      a sum that is no finite number is refused, and GT or LT store only a strictly greater or
      lesser sum; what is stored is the reply. */
  lemma IncrScores(flags: ZaddFlags, m: Bytes, s: Score, z: ScoreMap, add: (u64, u64) -> u64)
    ensures var out, skipped := IncrMeaning(flags, m, s, z, add), Ok(ZOutcome(z, Nil, false));
            if m !in z then out == if flags.xx then skipped else Ok(ZOutcome(z[m := s], NewScore(s), true))
            else if flags.nx then out == skipped
            else
              var t := add(z[m], s);
              if IsNaN(t) || !NumberOf(t).Finite? then out == Err(NotFinite)
              else if (flags.gt && !Below(z[m], t)) || (flags.lt && !Below(t, z[m])) then out == skipped
              else out == Ok(ZOutcome(z[m := t], NewScore(t), true))
  {
    hide NumAtMost, Below, Value, Negative;
    if m in z && !IsNaN(add(z[m], s)) {
      AtMostIsNotAbove(z[m], add(z[m], s));
      AtMostIsNotAbove(add(z[m], s), z[m]);
    }
  }

  function On(flag: bool): nat { if flag then 1 else 0 }

  /** The argument lists that ZADD takes: at least one score and member, one with INCR, not
      both NX and XX, and at most one of NX, GT and LT. */
  lemma ZaddLegal(flags: ZaddFlags, pairs: seq<(Option<Score>, Bytes)>)
    ensures ZaddArgError(flags, pairs).None?
            <==> && pairs != [] && (flags.incr ==> |pairs| == 1)
                 && On(flags.nx) + On(flags.xx) <= 1 && On(flags.nx) + On(flags.gt) + On(flags.lt) <= 1
  {
  }

  // ---------- reading and keys ----------

  /** The stored score of a member. */
  method ReadScore(db: StorageEngine, ns: Bytes, k: Bytes, version: u64, m: Bytes, ghost z: ScoreMap)
    returns (r: Option<Score>)
    requires Represents(db.disk, Stem(ns, k, version), z)
    ensures r == Lookup(z, m)
  {
    hide Represents, Stem, SubKey, ScoreCode, ScoreOfCode;
    SubKeyIsStem(ns, k, version, m);
    StoredMember(db.disk, Stem(ns, k, version), z, m);
    var bytes := db.Get(CfSubkey, SubKey(k, version, m, ns));
    match bytes {
      case None => r := None;
      case Some(b) =>
        ScoreRoundTrip(z[m]);
        var bits := DecodeScore(b[..8]);
        assert b[..8] == b;
        r := Some(bits);
    }
  }

  /** score_subkey: the index key of a scored member. */
  method ScoreSubkey(ns: Bytes, k: Bytes, version: u64, s: Score, m: Bytes) returns (key: Bytes)
    ensures key == Stem(ns, k, version) + IndexKey(s, m)
  {
    hide SubKey, Stem, ScoreCode;
    var code := EncodeScore(s);
    SubKeyIsStem(ns, k, version, code + m);
    key := SubKey(k, version, code + m, ns);
  }

  /** Appends the writes that store a score, in the order the commands issue them. */
  method BatchScore(batch: WriteBatch, ns: Bytes, k: Bytes, version: u64, prev: Option<Score>, m: Bytes, s: Score)
    returns (r: WriteBatch)
    ensures r == batch + SetOps(Stem(ns, k, version), prev, m, s)
  {
    hide SubKey, Stem, ScoreCode, IndexKey;
    r := batch;
    if prev.Some? {
      var oldKey := ScoreSubkey(ns, k, version, prev.value, m);
      r := r + [Delete(CfZsetScore, oldKey)];
    }
    SubKeyIsStem(ns, k, version, m);
    var code := EncodeScore(s);
    r := r + [Put(CfSubkey, SubKey(k, version, m, ns), code)];
    var newKey := ScoreSubkey(ns, k, version, s, m);
    r := r + [Put(CfZsetScore, newKey, [])];
  }

  // ---------- ZADD ----------

  lemma ZaddStep(flags: ZaddFlags, z: ScoreMap, upd: ScoreMap, done: set<Bytes>, m: Bytes)
    requires done <= upd.Keys && m in upd && m !in done
    ensures var a, b := AfterZadd(flags, z, upd, done), AfterZadd(flags, z, upd, done + {m});
            var t, u := Taken(flags, z, upd, done), Taken(flags, z, upd, done + {m});
            && Lookup(a, m) == Lookup(z, m)
            && m !in t
            && (Accepts(flags, Lookup(z, m), upd[m]) ==> b == a[m := upd[m]] && u == t + {m})
            && (!Accepts(flags, Lookup(z, m), upd[m]) ==> b == a && u == t)
  {
    hide Accepts;
  }

  /** The pending batch leads to the scores reached so far, in both forms. */
  ghost predicate Pending(d: Disk, batch: WriteBatch, mk: Bytes, p: Bytes, z: ScoreMap) {
    var e := Apply(d, batch);
    Represents(e, p, z) && e.metadata == d.metadata && Touches(d, e, mk, p)
  }

  lemma PendingNothing(d: Disk, mk: Bytes, p: Bytes, z: ScoreMap)
    requires Represents(d, p, z)
    ensures Pending(d, [], mk, p, z)
  {
    hide Represents, Touches;
    TouchesNothing(d, mk, p);
    assert Apply(d, []) == d;
  }

  lemma PendingSet(d: Disk, batch: WriteBatch, mk: Bytes, p: Bytes, z: ScoreMap, m: Bytes, s: Score)
    requires Pending(d, batch, mk, p, z)
    ensures Pending(d, batch + SetOps(p, Lookup(z, m), m, s), mk, p, z[m := s])
  {
    hide Represents, Touches, Apply, SetOps;
    var ops := SetOps(p, Lookup(z, m), m, s);
    var e := Apply(d, batch);
    SetScore(e, p, z, m, s, mk);
    ApplyConcat(d, batch, ops);
    TouchesTransitive(d, e, Apply(e, ops), mk, p);
  }

  /** Writing a pending batch with a metadata record on top. */
  lemma Commit(d: Disk, batch: WriteBatch, ns: Bytes, k: Bytes, m: Metadata, z: ScoreMap)
    requires Plain(m) && Pending(d, batch, MetadataKey(k, ns), Stem(ns, k, m.version), z)
    ensures var e := Apply(d, batch + [MetaPut(ns, k, m)]);
            Stored(e, ns, k, m, z) && Touches(d, e, MetadataKey(k, ns), Stem(ns, k, m.version))
  {
    hide Represents, Touches, Apply, MetaPut, Stored, Stem, MetadataKey;
    var e := Apply(d, batch);
    ApplySnoc(d, batch, MetaPut(ns, k, m));
    MetaPutStores(e, ns, k, m, z);
    TouchesTransitive(d, e, ApplyOp(e, MetaPut(ns, k, m)), MetadataKey(k, ns), Stem(ns, k, m.version));
  }

  lemma UpdatesStep(pairs: seq<(Option<Score>, Bytes)>, i: nat)
    requires i < |pairs| && AllParsed(pairs[..i]) && pairs[i].0.Some?
    ensures AllParsed(pairs[..i + 1])
    ensures Updates(pairs[..i + 1]) == Updates(pairs[..i])[pairs[i].1 := pairs[i].0.value]
  {
    assert pairs[..i + 1][..i] == pairs[..i];
  }

  method CollectUpdates(pairs: seq<(Option<Score>, Bytes)>) returns (r: Result<ScoreMap>)
    ensures r == if AllParsed(pairs) then Ok(Updates(pairs)) else Err(NotInteger)
    ensures r.Ok? ==> |r.value| <= |pairs|
  {
    var upd: ScoreMap := map[];
    assert Updates(pairs[..0]) == map[];
    hide Updates;
    for i := 0 to |pairs|
      invariant AllParsed(pairs[..i]) && upd == Updates(pairs[..i]) && |upd| <= i
    {
      if pairs[i].0.None? { return Err(NotInteger); }
      MapPlusOne(upd, pairs[i].1, pairs[i].0.value);
      UpdatesStep(pairs, i);
      upd := upd[pairs[i].1 := pairs[i].0.value];
    }
    assert pairs[..|pairs|] == pairs;
    r := Ok(upd);
  }

  datatype ZaddVerdict = Skipped | Updated | Added

  /** One member of a ZADD: skip it, or append the writes that store its score.
      Existence is read from the store, not from the pending batch. */
  method ZaddOne(db: StorageEngine, ns: Bytes, k: Bytes, version: u64, flags: ZaddFlags, m: Bytes, upd: ScoreMap,
                 batch: WriteBatch, ghost z: ScoreMap, ghost done: set<Bytes>, ghost added: int, ghost changed: int)
    returns (r: WriteBatch, v: ZaddVerdict)
    requires Represents(db.disk, Stem(ns, k, version), z)
    requires done <= upd.Keys && m in upd && m !in done
    requires Progress(db.disk, batch, MetadataKey(k, ns), Stem(ns, k, version), flags, z, upd, done, added, changed)
    ensures Progress(db.disk, r, MetadataKey(k, ns), Stem(ns, k, version), flags, z, upd, done + {m},
                     if v.Added? then added + 1 else added, if v.Skipped? then changed else changed + 1)
  {
    hide Represents, Touches, SetOps, Stem, MetadataKey, Pending, Tallied, AfterZadd;
    ghost var reached := AfterZadd(flags, z, upd, done);
    ZaddStep(flags, z, upd, done, m);
    TallyStep(flags, z, upd, done, m, added, changed);
    var score := upd[m];
    r, v := batch, Skipped;
    var existing := ReadScore(db, ns, k, version, m, z);
    if existing.Some? {
      var prev := existing.value;
      if flags.nx { return; }
      if flags.gt && NumAtMost(score, prev) { return; }
      if flags.lt && NumAtMost(prev, score) { return; }
      if NumEqual(prev, score) { return; }
      v := Updated;
    } else {
      if flags.xx { return; }
      v := Added;
    }
    r := BatchScore(batch, ns, k, version, existing, m, score);
    PendingSet(db.disk, batch, MetadataKey(k, ns), Stem(ns, k, version), reached, m, score);
  }

  /** The batch and the counters agree with the members dealt with so far. */
  ghost predicate Progress(d: Disk, batch: WriteBatch, mk: Bytes, p: Bytes, flags: ZaddFlags, z: ScoreMap,
                           upd: ScoreMap, done: set<Bytes>, added: int, changed: int)
  {
    && Tallied(flags, z, upd, done, added, changed)
    && Pending(d, batch, mk, p, AfterZadd(flags, z, upd, done))
  }

  /** The loop of ZADD: every distinct member once, in any order, into one batch. */
  method ZaddBatch(db: StorageEngine, ns: Bytes, k: Bytes, version: u64, flags: ZaddFlags, upd: ScoreMap, size0: u64,
                   ghost z: ScoreMap)
    returns (batch: WriteBatch, size: u64, added: nat, changed: nat)
    requires Represents(db.disk, Stem(ns, k, version), z)
    ensures Progress(db.disk, batch, MetadataKey(k, ns), Stem(ns, k, version), flags, z, upd, upd.Keys, added, changed)
    ensures size == WrapU64(size0 + added)
  {
    hide Represents, Stem, MetadataKey, Progress, Accepts, Lookup;
    batch, size, added, changed := [], size0, 0, 0;
    var todo := upd.Keys;
    ghost var mk, p := MetadataKey(k, ns), Stem(ns, k, version);
    ghost var done: set<Bytes> := {};
    ProgressStart(db.disk, mk, p, flags, z, upd);
    while todo != {}
      invariant todo == upd.Keys - done && done <= upd.Keys
      invariant Progress(db.disk, batch, mk, p, flags, z, upd, done, added, changed) && size == WrapU64(size0 + added)
      decreases todo
    {
      var m :| m in todo;
      var v: ZaddVerdict;
      batch, v := ZaddOne(db, ns, k, version, flags, m, upd, batch, z, done, added, changed);
      match v {
        case Skipped =>
        case Updated => changed := changed + 1;
        case Added => size, added, changed := WrapU64(size + 1), added + 1, changed + 1;
      }
      todo := todo - {m};
      done := done + {m};
    }
    assert done == upd.Keys;
  }

  lemma ProgressStart(d: Disk, mk: Bytes, p: Bytes, flags: ZaddFlags, z: ScoreMap, upd: ScoreMap)
    requires Represents(d, p, z)
    ensures Progress(d, [], mk, p, flags, z, upd, {}, 0, 0)
  {
    hide Represents, Pending, Tallied;
    ZaddStart(flags, z, upd);
    PendingNothing(d, mk, p, z);
  }

  /** ZADD without INCR: one atomic batch with the metadata last. */
  method ZaddMany(db: StorageEngine, ns: Bytes, k: Bytes, flags: ZaddFlags, upd: ScoreMap, meta0: Metadata,
                  ghost z: ScoreMap)
    returns (added: nat, changed: nat)
    requires Plain(meta0) && Represents(db.disk, Stem(ns, k, meta0.version), z)
    modifies db
    ensures var z' := AfterZadd(flags, z, upd, upd.Keys);
            Wrote(old(db.disk), db.disk, ns, k, meta0, z', Grown(meta0.size, z, z'))
    ensures changed == |Taken(flags, z, upd, upd.Keys)| && added == |Taken(flags, z, upd, upd.Keys) - z.Keys|
  {
    hide *;
    var batch, size;
    batch, size, added, changed := ZaddBatch(db, ns, k, meta0.version, flags, upd, meta0.size, z);
    var meta := meta0.(size := size);
    ZaddWritten(db.disk, batch, ns, k, flags, upd, meta0, z, added, changed, size);
    ZaddCounted(flags, z, upd, added, changed, meta0.size);
    db.Write(batch + [MetaPut(ns, k, meta)]);
  }

  lemma ZaddWritten(d: Disk, batch: WriteBatch, ns: Bytes, k: Bytes, flags: ZaddFlags, upd: ScoreMap, meta0: Metadata,
                    z: ScoreMap, added: int, changed: int, size: u64)
    requires Plain(meta0)
    requires Progress(d, batch, MetadataKey(k, ns), Stem(ns, k, meta0.version), flags, z, upd, upd.Keys, added, changed)
    ensures Tallied(flags, z, upd, upd.Keys, added, changed)
    ensures var e := Apply(d, batch + [MetaPut(ns, k, meta0.(size := size))]);
            Wrote(d, e, ns, k, meta0, AfterZadd(flags, z, upd, upd.Keys), size)
  {
    hide Represents, Touches, Apply, Stored, Stem, MetadataKey, AfterZadd, Tallied, Pending, MetaPut, Plain;
    PlainSized(meta0, size);
    Commit(d, batch, ns, k, meta0.(size := size), AfterZadd(flags, z, upd, upd.Keys));
  }

  lemma ZaddCounted(flags: ZaddFlags, z: ScoreMap, upd: ScoreMap, added: int, changed: int, size0: u64)
    requires Tallied(flags, z, upd, upd.Keys, added, changed)
    ensures WrapU64(size0 + added) == Grown(size0, z, AfterZadd(flags, z, upd, upd.Keys))
    ensures changed == |Taken(flags, z, upd, upd.Keys)| && added == |Taken(flags, z, upd, upd.Keys) - z.Keys|
  {
    hide AfterZadd, Taken, WrapU64;
  }

  lemma PlainSized(m: Metadata, n: u64)
    requires Plain(m)
    ensures Plain(m.(size := n))
  {
  }

  lemma ZaddStart(flags: ZaddFlags, z: ScoreMap, upd: ScoreMap)
    ensures AfterZadd(flags, z, upd, {}) == z && Tallied(flags, z, upd, {}, 0, 0)
  {
    hide Accepts, Lookup;
    NoneTaken(flags, z, upd);
    hide Taken;
    assert AfterZadd(flags, z, upd, {}).Keys == z.Keys;
  }

  lemma NoneTaken(flags: ZaddFlags, z: ScoreMap, upd: ScoreMap)
    ensures Taken(flags, z, upd, {}) == {}
  {
    hide Accepts, Lookup;
  }

  /** The counters agree with the members dealt with so far. */
  ghost predicate Tallied(flags: ZaddFlags, z: ScoreMap, upd: ScoreMap, done: set<Bytes>, added: int, changed: int) {
    && done <= upd.Keys
    && changed == |Taken(flags, z, upd, done)|
    && added == |Taken(flags, z, upd, done) - z.Keys|
    && |AfterZadd(flags, z, upd, done)| == |z| + added
  }

  lemma TallyStep(flags: ZaddFlags, z: ScoreMap, upd: ScoreMap, done: set<Bytes>, m: Bytes, added: int, changed: int)
    requires m in upd && m !in done && Tallied(flags, z, upd, done, added, changed)
    ensures var taken := Accepts(flags, Lookup(z, m), upd[m]);
            Tallied(flags, z, upd, done + {m}, if taken && m !in z then added + 1 else added,
                    if taken then changed + 1 else changed)
  {
    hide Accepts, AfterZadd, Taken;
    ZaddSizes(flags, z, upd, done, m);
  }

  lemma ZaddSizes(flags: ZaddFlags, z: ScoreMap, upd: ScoreMap, done: set<Bytes>, m: Bytes)
    requires done <= upd.Keys && m in upd && m !in done
    ensures var a, b := AfterZadd(flags, z, upd, done), AfterZadd(flags, z, upd, done + {m});
            var t, u := Taken(flags, z, upd, done), Taken(flags, z, upd, done + {m});
            var taken := Accepts(flags, Lookup(z, m), upd[m]);
            && |b| == (if taken && m !in z then |a| + 1 else |a|)
            && |u| == (if taken then |t| + 1 else |t|)
            && |u - z.Keys| == (if taken && m !in z then |t - z.Keys| + 1 else |t - z.Keys|)
  {
    hide Accepts, AfterZadd, Taken;
    ZaddStep(flags, z, upd, done, m);
    var a, t := AfterZadd(flags, z, upd, done), Taken(flags, z, upd, done);
    if Accepts(flags, Lookup(z, m), upd[m]) {
      MapPlusOne(a, m, upd[m]);
      OneMoreTaken(t, z.Keys, m);
    }
  }

  lemma OneMoreTaken(t: set<Bytes>, keys: set<Bytes>, m: Bytes)
    requires m !in t
    ensures |t + {m}| == |t| + 1
    ensures |(t + {m}) - keys| == if m in keys then |t - keys| else |t - keys| + 1
  {
    assert (t + {m}) - keys == if m in keys then t - keys else (t - keys) + {m};
  }

  /** Stores one score in its own batch, as INCR and ZINCRBY do. */
  method StoreOne(db: StorageEngine, ns: Bytes, k: Bytes, meta0: Metadata, prev: Option<Score>, m: Bytes, s: Score,
                  ghost z: ScoreMap)
    requires Plain(meta0) && Represents(db.disk, Stem(ns, k, meta0.version), z) && prev == Lookup(z, m)
    modifies db
    ensures Wrote(old(db.disk), db.disk, ns, k, meta0, z[m := s], Grown(meta0.size, z, z[m := s]))
  {
    hide Represents, Touches, Apply, Stored, Stem, MetadataKey, Pending, MetaPut, SetOps;
    ghost var mk, p := MetadataKey(k, ns), Stem(ns, k, meta0.version);
    var meta := if prev.None? then meta0.(size := WrapU64(meta0.size + 1)) else meta0;
    var batch := BatchScore([], ns, k, meta.version, prev, m, s);
    PendingNothing(db.disk, mk, p, z);
    PendingSet(db.disk, [], mk, p, z, m, s);
    assert [] + SetOps(p, prev, m, s) == SetOps(p, prev, m, s);
    MapPlusOne(z, m, s);
    Commit(db.disk, batch, ns, k, meta, z[m := s]);
    assert meta == meta0.(size := Grown(meta0.size, z, z[m := s]));
    db.Write(batch + [MetaPut(ns, k, meta)]);
  }

  /** What a command leaves: its write, or the store as it was. */
  ghost predicate Left(d: Disk, e: Disk, ns: Bytes, k: Bytes, start: Metadata, z: ScoreMap, out: ZOutcome) {
    if out.writes then Wrote(d, e, ns, k, start, out.scores, Grown(start.size, z, out.scores)) else e == d
  }

  /** The path of ZADD INCR: nil when a flag holds it back, the new score otherwise. */
  method ZaddIncr(db: StorageEngine, ns: Bytes, k: Bytes, flags: ZaddFlags, m: Bytes, s: Score, meta: Metadata,
                  add: (u64, u64) -> u64, ghost z: ScoreMap)
    returns (r: Result<ZReply>)
    requires Plain(meta) && Represents(db.disk, Stem(ns, k, meta.version), z)
    modifies db
    ensures match IncrMeaning(flags, m, s, z, add)
            case Err(e) => r == Err(e) && db.disk == old(db.disk)
            case Ok(out) => r == Ok(out.reply) && Left(old(db.disk), db.disk, ns, k, meta, z, out)
  {
    hide Represents, Touches, Stored, Stem, MetadataKey;
    var existing := ReadScore(db, ns, k, meta.version, m, z);
    if flags.nx && existing.Some? { return Ok(Nil); }
    if flags.xx && existing.None? { return Ok(Nil); }
    var newScore := s;
    if existing.Some? {
      var prev := existing.value;
      var sum := add(prev, s);
      if !IsFinite(sum) { return Err(NotFinite); }
      FiniteIsNumber(sum);
      newScore := sum;
      if flags.gt && NumAtMost(newScore, prev) { return Ok(Nil); }
      if flags.lt && NumAtMost(prev, newScore) { return Ok(Nil); }
    }
    StoreOne(db, ns, k, meta, existing, m, newScore, z);
    r := Ok(NewScore(newScore));
  }

  /** ZADD key [NX|XX] [GT|LT] [CH] [INCR] score member ...: scores that do not parse are None. */
  method Zadd(db: StorageEngine, ns: Bytes, k: Bytes, now: i64, newVersion: u64, flags: ZaddFlags,
              pairs: seq<(Option<Score>, Bytes)>, add: (u64, u64) -> u64, ghost z: ScoreMap)
    returns (r: Result<ZReply>)
    requires Holds(db.disk, ns, k, now, z) && Vacant(db.disk, Stem(ns, k, newVersion))
    modifies db
    ensures r.Err? ==> db.disk == old(db.disk)
    ensures ZaddArgError(flags, pairs).Some? ==> r == Err(ZaddArgError(flags, pairs).value)
    ensures ZaddArgError(flags, pairs).None? ==>
              var meta := ZsetMeta(old(db.disk), ns, k, now);
              if meta.Err? then r == Err(meta.error)
              else
                match ZaddMeaning(flags, pairs, z, add)
                case Err(e) => r == Err(e)
                case Ok(out) =>
                  && r == Ok(out.reply)
                  && Left(old(db.disk), db.disk, ns, k, StartMeta(meta.value, newVersion), z, out)
  {
    hide Represents, Touches, Stored, Stem, MetadataKey, ZsetMeta, Vacant, AfterZadd;
    hide Taken, Updates, IncrMeaning, Accepts, Holds, Wrote, StartMeta;
    if (flags.nx && flags.xx) || (flags.gt && flags.lt) || (flags.nx && (flags.gt || flags.lt)) {
      return Err(SyntaxError);
    }
    if pairs == [] { return Err(WrongArgCount); }
    if flags.incr && |pairs| != 1 { return Err(SyntaxError); }
    var loaded := ZsetMeta(db.disk, ns, k, now);
    if loaded.Err? { return Err(loaded.error); }
    var meta := StartMeta(loaded.value, newVersion);
    StartRepresents(db.disk, ns, k, now, z, newVersion);
    if flags.incr {
      if pairs[0].0.None? { return Err(NotInteger); }
      r := ZaddIncr(db, ns, k, flags, pairs[0].1, pairs[0].0.value, meta, add, z);
      return;
    }
    var updates := CollectUpdates(pairs);
    if updates.Err? { return Err(updates.error); }
    var added, changed := ZaddMany(db, ns, k, flags, updates.value, meta, z);
    r := Ok(Count(if flags.ch then changed else added));
  }

  // ---------- ZINCRBY ----------

  /** ZINCRBY key increment member. */
  method Zincrby(db: StorageEngine, ns: Bytes, k: Bytes, now: i64, newVersion: u64, increment: Option<Score>, m: Bytes,
                 add: (u64, u64) -> u64, ghost z: ScoreMap)
    returns (r: Result<ZReply>)
    requires Holds(db.disk, ns, k, now, z) && Vacant(db.disk, Stem(ns, k, newVersion))
    modifies db
    ensures r.Err? ==> db.disk == old(db.disk)
    ensures var meta := ZsetMeta(old(db.disk), ns, k, now);
            if increment.None? then r == Err(NotInteger)
            else if meta.Err? then r == Err(meta.error)
            else
              match Incremented(z, m, increment.value, add)
              case Err(e) => r == Err(e)
              case Ok(t) =>
                var start := StartMeta(meta.value, newVersion);
                && r == Ok(NewScore(t))
                && Wrote(old(db.disk), db.disk, ns, k, start, z[m := t], Grown(start.size, z, z[m := t]))
  {
    hide Represents, Touches, Stored, Stem, MetadataKey, ZsetMeta, Vacant, Holds, Wrote, StartMeta;
    if increment.None? { return Err(NotInteger); }
    var loaded := ZsetMeta(db.disk, ns, k, now);
    if loaded.Err? { return Err(loaded.error); }
    var meta := StartMeta(loaded.value, newVersion);
    StartRepresents(db.disk, ns, k, now, z, newVersion);
    var existing := ReadScore(db, ns, k, meta.version, m, z);
    var newScore := increment.value;
    if existing.Some? {
      var sum := add(existing.value, increment.value);
      if !IsFinite(sum) { return Err(NotFinite); }
      FiniteIsNumber(sum);
      newScore := sum;
    }
    StoreOne(db, ns, k, meta, existing, m, newScore, z);
    r := Ok(NewScore(newScore));
  }

  // ---------- ZREM ----------

  lemma PendingRemove(d: Disk, batch: WriteBatch, mk: Bytes, p: Bytes, z: ScoreMap, gone: set<Bytes>, m: Bytes)
    requires m in z && Pending(d, batch, mk, p, z - gone)
    ensures Pending(d, batch + RemoveOps(p, z[m], m), mk, p, z - (gone + {m}))
  {
    hide Represents, Touches, Apply, RemoveOps;
    var ops, e, now := RemoveOps(p, z[m], m), Apply(d, batch), z - gone;
    ApplyConcat(d, batch, ops);
    if m in gone {
      RemoveScoreAgain(e, p, now, m, z[m]);
      assert gone + {m} == gone;
    } else {
      RemoveScore(e, p, now, m, mk);
      TouchesTransitive(d, e, Apply(e, ops), mk, p);
      assert z - (gone + {m}) == now - {m};
    }
  }

  /** The batch and the counters after the first i mentions. */
  ghost predicate Removing(d: Disk, batch: WriteBatch, mk: Bytes, p: Bytes, z: ScoreMap, done: seq<Bytes>,
                           removed: int)
  {
    && Pending(d, batch, mk, p, z - Range(done))
    && removed == Named(z.Keys, done)
    && (removed == 0 ==> batch == [])
  }

  lemma RemovingStart(d: Disk, mk: Bytes, p: Bytes, z: ScoreMap)
    requires Represents(d, p, z)
    ensures Removing(d, [], mk, p, z, [], 0)
  {
    hide Represents, Pending;
    assert z - Range([]) == z;
    PendingNothing(d, mk, p, z);
  }

  lemma RemovingStep(d: Disk, batch: WriteBatch, mk: Bytes, p: Bytes, z: ScoreMap, done: seq<Bytes>, removed: int,
                     m: Bytes)
    requires Removing(d, batch, mk, p, z, done, removed)
    ensures m in z ==> Removing(d, batch + RemoveOps(p, z[m], m), mk, p, z, done + [m], removed + 1)
    ensures m !in z ==> Removing(d, batch, mk, p, z, done + [m], removed)
  {
    hide Pending, RemoveOps;
    assert (done + [m])[..|done|] == done;
    assert Range(done + [m]) == Range(done) + {m};
    if m in z {
      PendingRemove(d, batch, mk, p, z, Range(done), m);
    } else {
      assert z - Range(done + [m]) == z - Range(done);
    }
  }

  /** The loop of ZREM. Existence is read from the store, so a repeated name counts again. */
  method ZremBatch(db: StorageEngine, ns: Bytes, k: Bytes, version: u64, members: seq<Bytes>, size0: u64,
                   ghost z: ScoreMap)
    returns (batch: WriteBatch, removed: nat, size: u64)
    requires Represents(db.disk, Stem(ns, k, version), z)
    ensures Removing(db.disk, batch, MetadataKey(k, ns), Stem(ns, k, version), z, members, removed)
    ensures size == SaturatingSub(size0, removed)
  {
    hide Represents, Stem, MetadataKey, Removing, SubKey, IndexKey;
    batch, removed, size := [], 0, size0;
    ghost var mk, p := MetadataKey(k, ns), Stem(ns, k, version);
    RemovingStart(db.disk, mk, p, z);
    for i := 0 to |members|
      invariant Removing(db.disk, batch, mk, p, z, members[..i], removed) && size == SaturatingSub(size0, removed)
    {
      var m := members[i];
      assert members[..i + 1] == members[..i] + [m];
      RemovingStep(db.disk, batch, mk, p, z, members[..i], removed, m);
      var prev := ReadScore(db, ns, k, version, m, z);
      if prev.Some? {
        var skey := ScoreSubkey(ns, k, version, prev.value, m);
        SubKeyIsStem(ns, k, version, m);
        assert batch + [Delete(CfSubkey, p + m)] + [Delete(CfZsetScore, skey)] == batch + RemoveOps(p, prev.value, m);
        batch := batch + [Delete(CfSubkey, SubKey(k, version, m, ns))];
        batch := batch + [Delete(CfZsetScore, skey)];
        removed := removed + 1;
        size := if size == 0 then 0 else size - 1;
      }
    }
    assert members[..|members|] == members;
  }

  /** ZREM key member ...: the named members leave both forms together, whatever is
      repeated; the count and the size go down once for every mention of a member. */
  method Zrem(db: StorageEngine, ns: Bytes, k: Bytes, now: i64, members: seq<Bytes>, ghost z: ScoreMap)
    returns (r: Result<ZReply>)
    requires Holds(db.disk, ns, k, now, z)
    modifies db
    ensures r.Err? ==> db.disk == old(db.disk)
    ensures var meta := ZsetMeta(old(db.disk), ns, k, now);
            if meta.Err? then r == Err(meta.error)
            else
              var n := Named(z.Keys, members);
              && r == Ok(Count(n))
              && (n == 0 ==> db.disk == old(db.disk) && z - Range(members) == z)
              && (n > 0 ==> meta.value.Some? &&
                            var start := meta.value.value;
                            Wrote(old(db.disk), db.disk, ns, k, start,
                                  z - Range(members), SaturatingSub(start.size, n)))
  {
    hide Represents, Touches, Stem, MetadataKey, ZsetMeta, Apply, MetaPut, Pending, Named, Range, Stored;
    var loaded := ZsetMeta(db.disk, ns, k, now);
    if loaded.Err? { return Err(loaded.error); }
    if loaded.value.None? {
      NamedNothing(z, members);
      return Ok(Count(0));
    }
    var meta := loaded.value.value;
    var batch, removed, size := ZremBatch(db, ns, k, meta.version, members, meta.size, z);
    if removed > 0 {
      Commit(db.disk, batch, ns, k, meta.(size := size), z - Range(members));
      db.Write(batch + [MetaPut(ns, k, meta.(size := size))]);
    } else {
      NoneNamed(z, members);
    }
    r := Ok(Count(removed));
  }

  /** ZREM leaves size equal to the member count exactly when no present member is
      named twice, or every member is named. */
  lemma ZremSizeExact(z: ScoreMap, members: seq<Bytes>)
    ensures SaturatingSub(|z|, Named(z.Keys, members)) == |z - Range(members)|
            <==> !NamedTwice(z.Keys, members) || z.Keys <= Range(members)
  {
    RemovalSizeExact(z, members);
  }

  /** ZREM k a a on the two members a and b replies 2 and leaves b behind with size 0. */
  lemma ZremRepeatedName(a: Bytes, b: Bytes, s: Score)
    requires a != b
    ensures var z: ScoreMap := map[a := s, b := s];
            && Named(z.Keys, [a, a]) == 2
            && SaturatingSub(|z|, Named(z.Keys, [a, a])) == 0
            && z - Range([a, a]) == map[b := s]
  {
    var z: ScoreMap := map[a := s, b := s];
    assert [a, a][..1] == [a] && [a][..0] == [];
    assert Named(z.Keys, [a]) == Named(z.Keys, []) + 1;
    assert z.Keys == {a, b};
    assert |z| == |z.Keys|;
    assert Range([a, a]) == {a};
  }

  // ---------- whole runs ----------

  datatype ZCommand =
    | ZaddCmd(now: i64, newVersion: u64, flags: ZaddFlags, pairs: seq<(Option<Score>, Bytes)>)
    | ZincrbyCmd(now: i64, newVersion: u64, increment: Option<Score>, member: Bytes)
    | ZremCmd(now: i64, members: seq<Bytes>)

  /** The sorted set after one command. */
  ghost function Effect(c: ZCommand, z: ScoreMap, add: (u64, u64) -> u64): ScoreMap {
    match c
    case ZaddCmd(_, _, flags, pairs) =>
      if ZaddArgError(flags, pairs).Some? then z
      else
        var out := ZaddMeaning(flags, pairs, z, add);
        if out.Ok? then out.value.scores else z
    case ZincrbyCmd(_, _, inc, m) =>
      if inc.None? then z
      else
        var t := Incremented(z, m, inc.value, add);
        if t.Ok? then z[m := t.value] else z
    case ZremCmd(_, members) => z - Range(members)
  }

  ghost function RunEffect(cmds: seq<ZCommand>, z: ScoreMap, add: (u64, u64) -> u64): ScoreMap {
    if cmds == [] then z else Effect(cmds[|cmds| - 1], RunEffect(cmds[..|cmds| - 1], z, add), add)
  }

  /** The reply to one command, from the scores it meets. */
  ghost function Answer(c: ZCommand, z: ScoreMap, add: (u64, u64) -> u64): Result<ZReply> {
    match c
    case ZaddCmd(_, _, flags, pairs) =>
      if ZaddArgError(flags, pairs).Some? then Err(ZaddArgError(flags, pairs).value)
      else
        (match ZaddMeaning(flags, pairs, z, add) case Err(e) => Err(e) case Ok(out) => Ok(out.reply))
    case ZincrbyCmd(_, _, inc, m) =>
      if inc.None? then Err(NotInteger)
      else
        (match Incremented(z, m, inc.value, add) case Err(e) => Err(e) case Ok(t) => Ok(NewScore(t)))
    case ZremCmd(_, members) => Ok(Count(Named(z.Keys, members)))
  }

  /** Whether a command writes the key. */
  ghost predicate Writes(c: ZCommand, z: ScoreMap, add: (u64, u64) -> u64) {
    match c
    case ZaddCmd(_, _, flags, pairs) =>
      && ZaddArgError(flags, pairs).None?
      && ZaddMeaning(flags, pairs, z, add).Ok? && ZaddMeaning(flags, pairs, z, add).value.writes
    case ZincrbyCmd(_, _, inc, m) => inc.Some? && Incremented(z, m, inc.value, add).Ok?
    case ZremCmd(_, members) => Named(z.Keys, members) > 0
  }

  /** The stored size after a command, None while there is no record: a plain ZADD and a
      ZINCRBY always leave one, and a ZREM takes one off for every mention. */
  ghost function SizeAfter(c: ZCommand, size: Option<u64>, z: ScoreMap, add: (u64, u64) -> u64): Option<u64> {
    var n: u64 := if size.None? then 0 else size.value;
    if !Writes(c, z, add) then size
    else if c.ZremCmd? then Some(SaturatingSub(n, Named(z.Keys, c.members)))
    else Some(Grown(n, z, Effect(c, z, add)))
  }

  ghost function RunSize(cmds: seq<ZCommand>, size: Option<u64>, z: ScoreMap, add: (u64, u64) -> u64): Option<u64> {
    if cmds == [] then size
    else
      var n := |cmds| - 1;
      SizeAfter(cmds[n], RunSize(cmds[..n], size, z, add), RunEffect(cmds[..n], z, add), add)
  }

  /** The stored size is the number of members; a key without a record has none. */
  ghost predicate Exact(size: Option<u64>, z: ScoreMap) { |z| == if size.None? then 0 else size.value }

  /** What keeps an exact size exact: fewer than 2^64 members, and in a ZREM no present
      member named twice, unless every member is named. */
  ghost predicate Fits(c: ZCommand, z: ScoreMap, add: (u64, u64) -> u64) {
    if c.ZremCmd? then !NamedTwice(z.Keys, c.members) || z.Keys <= Range(c.members)
    else |Effect(c, z, add)| < U64_LIMIT
  }

  /** One command keeps an exact size exact if and only if it fits. */
  lemma {:induction false} SizeStaysExact(c: ZCommand, size: Option<u64>, z: ScoreMap, add: (u64, u64) -> u64)
    requires Exact(size, z)
    ensures Exact(SizeAfter(c, size, z, add), Effect(c, z, add)) <==> Fits(c, z, add)
  {
    hide Named, Range, NamedTwice, ZaddMeaning, Incremented, ZaddArgError;
    if c.ZremCmd? {
      ZremSizeExact(z, c.members);
      if Named(z.Keys, c.members) == 0 { NoneNamed(z, c.members); }
    } else {
      EffectIdle(c, z, add);
      if Writes(c, z, add) {
        var after := Effect(c, z, add);
        assert SizeAfter(c, size, z, add) == Some(WrapU64(|after|));
      }
    }
  }

  lemma EffectIdle(c: ZCommand, z: ScoreMap, add: (u64, u64) -> u64)
    requires !c.ZremCmd?
    ensures !Writes(c, z, add) ==> Effect(c, z, add) == z
  {
    hide Named, Range, AfterZadd, Taken, Updates;
  }

  /** The size is exact after the first i commands of a run. */
  ghost predicate ExactAfter(cmds: seq<ZCommand>, i: nat, size: Option<u64>, z: ScoreMap, add: (u64, u64) -> u64)
    requires i <= |cmds|
  {
    Exact(RunSize(cmds[..i], size, z, add), RunEffect(cmds[..i], z, add))
  }

  /** The command at i keeps an exact size exact. */
  ghost predicate FitsAt(cmds: seq<ZCommand>, i: nat, z: ScoreMap, add: (u64, u64) -> u64)
    requires i < |cmds|
  {
    Fits(cmds[i], RunEffect(cmds[..i], z, add), add)
  }

  lemma ExactStep(cmds: seq<ZCommand>, i: nat, size: Option<u64>, z: ScoreMap, add: (u64, u64) -> u64)
    requires i < |cmds| && ExactAfter(cmds, i, size, z, add)
    ensures ExactAfter(cmds, i + 1, size, z, add) <==> FitsAt(cmds, i, z, add)
  {
    hide Exact, Fits, Effect, SizeAfter, RunEffect, RunSize;
    RunStep(cmds, i, size, z, add);
    SizeStaysExact(cmds[i], RunSize(cmds[..i], size, z, add), RunEffect(cmds[..i], z, add), add);
  }

  lemma ExactStart(cmds: seq<ZCommand>, size: Option<u64>, z: ScoreMap, add: (u64, u64) -> u64)
    requires Exact(size, z)
    ensures ExactAfter(cmds, 0, size, z, add)
  {
    hide Exact, RunEffect, RunSize;
    assert cmds[..0] == [];
    RunNothing(size, z, add);
  }

  lemma {:induction false} FitsToExact(cmds: seq<ZCommand>, n: nat, size: Option<u64>, z: ScoreMap,
                                       add: (u64, u64) -> u64)
    requires n <= |cmds| && Exact(size, z) && forall i :: 0 <= i < n ==> FitsAt(cmds, i, z, add)
    ensures ExactAfter(cmds, n, size, z, add)
  {
    hide Exact, ExactAfter, FitsAt;
    if n == 0 {
      ExactStart(cmds, size, z, add);
    } else {
      FitsToExact(cmds, n - 1, size, z, add);
      ExactStep(cmds, n - 1, size, z, add);
    }
  }

  /** The size is exact all along a run if and only if every command of it fits. */
  lemma RunSizeExact(cmds: seq<ZCommand>, size: Option<u64>, z: ScoreMap, add: (u64, u64) -> u64)
    requires Exact(size, z)
    ensures (forall i :: 0 <= i <= |cmds| ==> ExactAfter(cmds, i, size, z, add))
            <==> forall i :: 0 <= i < |cmds| ==> FitsAt(cmds, i, z, add)
  {
    hide Exact, ExactAfter, FitsAt;
    if forall i :: 0 <= i < |cmds| ==> FitsAt(cmds, i, z, add) {
      forall i | 0 <= i <= |cmds| ensures ExactAfter(cmds, i, size, z, add) { FitsToExact(cmds, i, size, z, add); }
    }
    if forall i :: 0 <= i <= |cmds| ==> ExactAfter(cmds, i, size, z, add) {
      forall i | 0 <= i < |cmds| ensures FitsAt(cmds, i, z, add) { ExactStep(cmds, i, size, z, add); }
    }
  }

  /** A key that never expires: absent, or a sorted set with no expiry. */
  ghost predicate Slot(d: Disk, ns: Bytes, k: Bytes, slot: Option<Metadata>, z: ScoreMap) {
    match slot
    case None => GetMeta(d, ns, k) == None && z == map[]
    case Some(m) => Stored(d, ns, k, m, z) && m.expire == 0
  }

  function SizeOf(slot: Option<Metadata>): Option<u64> { if slot.None? then None else Some(slot.value.size) }

  lemma SlotHolds(d: Disk, ns: Bytes, k: Bytes, now: i64, slot: Option<Metadata>, z: ScoreMap)
    requires Slot(d, ns, k, slot, z)
    ensures ZsetMeta(d, ns, k, now) == Ok(slot) && Holds(d, ns, k, now, z)
  {
    hide Stored, Represents, Stem, GetMeta;
    if slot.Some? { StoredMeta(d, ns, k, now, slot.value, z); }
  }

  /** Commands still to come find their new versions unused. */
  ghost predicate Unused(d: Disk, ns: Bytes, k: Bytes, slot: Option<Metadata>, versions: set<u64>) {
    && (forall v :: v in versions ==> Vacant(d, Stem(ns, k, v)))
    && (slot.Some? ==> slot.value.version !in versions)
  }

  lemma UnusedKept(d: Disk, e: Disk, ns: Bytes, k: Bytes, slot: Option<Metadata>, versions: set<u64>, start: Metadata,
                   n: u64)
    requires ValidKey(k) && ValidNamespace(ns)
    requires Unused(d, ns, k, slot, versions) && start.version !in versions
    requires Touches(d, e, MetadataKey(k, ns), Stem(ns, k, start.version))
    ensures Unused(e, ns, k, Some(start.(size := n)), versions)
  {
    hide Vacant, Touches, Stem, MetadataKey;
    forall v | v in versions ensures Vacant(e, Stem(ns, k, v)) {
      VacantKept(d, e, ns, k, MetadataKey(k, ns), start.version, v);
    }
  }

  /** One write of a run: the key holds the new scores, and later versions are still unused. */
  lemma SlotWrite(d: Disk, e: Disk, ns: Bytes, k: Bytes, slot: Option<Metadata>, newVersion: u64, later: set<u64>,
                  z: ScoreMap, z': ScoreMap, n: u64)
    requires ValidKey(k) && ValidNamespace(ns)
    requires Slot(d, ns, k, slot, z) && Unused(d, ns, k, slot, later) && (slot.None? ==> newVersion !in later)
    requires Wrote(d, e, ns, k, StartMeta(slot, newVersion), z', n)
    ensures var next := Some(StartMeta(slot, newVersion).(size := n));
            Slot(e, ns, k, next, z') && Unused(e, ns, k, next, later)
  {
    hide Stored, Touches, Stem, MetadataKey, Vacant;
    UnusedKept(d, e, ns, k, slot, later, StartMeta(slot, newVersion), n);
  }

  /** The new versions that the commands from position i on would use. */
  ghost function VersionsFrom(cmds: seq<ZCommand>, i: nat): set<u64> {
    set j | i <= j < |cmds| && !cmds[j].ZremCmd? :: cmds[j].newVersion
  }

  /** No two commands bring the same new version. */
  ghost predicate DistinctVersions(cmds: seq<ZCommand>) {
    forall i, j :: 0 <= i < j < |cmds| && !cmds[i].ZremCmd? && !cmds[j].ZremCmd? ==>
      cmds[i].newVersion != cmds[j].newVersion
  }

  lemma LaterVersions(cmds: seq<ZCommand>, i: nat, d: Disk, ns: Bytes, k: Bytes, slot: Option<Metadata>)
    requires i < |cmds| && DistinctVersions(cmds) && Unused(d, ns, k, slot, VersionsFrom(cmds, i))
    ensures Unused(d, ns, k, slot, VersionsFrom(cmds, i + 1))
    ensures !cmds[i].ZremCmd? ==>
              cmds[i].newVersion !in VersionsFrom(cmds, i + 1) && Vacant(d, Stem(ns, k, cmds[i].newVersion))
  {
    hide Vacant, Stem;
    assert VersionsFrom(cmds, i + 1) <= VersionsFrom(cmds, i);
    if !cmds[i].ZremCmd? { assert cmds[i].newVersion in VersionsFrom(cmds, i); }
  }

  lemma StartSize(slot: Option<Metadata>, newVersion: u64)
    ensures StartMeta(slot, newVersion).size == if slot.None? then 0 else slot.value.size
    ensures slot.Some? ==> StartMeta(slot, newVersion) == slot.value
  {
  }

  /** What one command of a run leaves behind. */
  ghost predicate RanOne(d: Disk, ns: Bytes, k: Bytes, c: ZCommand, add: (u64, u64) -> u64, slot: Option<Metadata>,
                         next: Option<Metadata>, later: set<u64>, z: ScoreMap)
  {
    && Slot(d, ns, k, next, Effect(c, z, add)) && Unused(d, ns, k, next, later)
    && SizeOf(next) == SizeAfter(c, SizeOf(slot), z, add)
  }

  lemma RanWrite(d: Disk, e: Disk, ns: Bytes, k: Bytes, c: ZCommand, add: (u64, u64) -> u64, slot: Option<Metadata>,
                 later: set<u64>, z: ScoreMap, newVersion: u64, n: u64)
    requires ValidKey(k) && ValidNamespace(ns) && Writes(c, z, add)
    requires Slot(d, ns, k, slot, z) && Unused(d, ns, k, slot, later) && (slot.None? ==> newVersion !in later)
    requires Wrote(d, e, ns, k, StartMeta(slot, newVersion), Effect(c, z, add), n)
    requires Some(n) == SizeAfter(c, SizeOf(slot), z, add)
    ensures RanOne(e, ns, k, c, add, slot, Some(StartMeta(slot, newVersion).(size := n)), later, z)
  {
    hide Slot, Unused, Wrote, Effect, SizeAfter, Writes, StartMeta;
    SlotWrite(d, e, ns, k, slot, newVersion, later, z, Effect(c, z, add), n);
  }

  lemma RanIdle(d: Disk, ns: Bytes, k: Bytes, c: ZCommand, add: (u64, u64) -> u64, slot: Option<Metadata>,
                later: set<u64>, z: ScoreMap)
    requires Slot(d, ns, k, slot, z) && Unused(d, ns, k, slot, later) && !Writes(c, z, add) && Effect(c, z, add) == z
    ensures RanOne(d, ns, k, c, add, slot, slot, later, z)
  {
    hide Slot, Unused, Effect, Writes;
  }

  method RunZadd(db: StorageEngine, ns: Bytes, k: Bytes, c: ZCommand, add: (u64, u64) -> u64,
                 ghost slot: Option<Metadata>, ghost later: set<u64>, ghost z: ScoreMap)
    returns (r: Result<ZReply>, ghost next: Option<Metadata>)
    requires ValidKey(k) && ValidNamespace(ns) && c.ZaddCmd?
    requires Slot(db.disk, ns, k, slot, z) && Unused(db.disk, ns, k, slot, later)
    requires c.newVersion !in later && Vacant(db.disk, Stem(ns, k, c.newVersion))
    modifies db
    ensures r == Answer(c, z, add) && RanOne(db.disk, ns, k, c, add, slot, next, later, z)
  {
    hide Stored, Touches, Stem, MetadataKey, Vacant, Slot, Unused, ZaddMeaning;
    hide Holds, ZsetMeta, StartMeta, Wrote, ZaddArgError, RanOne, Grown;
    SlotHolds(db.disk, ns, k, c.now, slot, z);
    ghost var d := db.disk;
    r := Zadd(db, ns, k, c.now, c.newVersion, c.flags, c.pairs, add, z);
    StartSize(slot, c.newVersion);
    EffectIdle(c, z, add);
    if Writes(c, z, add) {
      ghost var n := Grown(StartMeta(slot, c.newVersion).size, z, Effect(c, z, add));
      RanWrite(d, db.disk, ns, k, c, add, slot, later, z, c.newVersion, n);
      next := Some(StartMeta(slot, c.newVersion).(size := n));
    } else {
      RanIdle(d, ns, k, c, add, slot, later, z);
      next := slot;
    }
  }

  method RunZincrby(db: StorageEngine, ns: Bytes, k: Bytes, c: ZCommand, add: (u64, u64) -> u64,
                    ghost slot: Option<Metadata>, ghost later: set<u64>, ghost z: ScoreMap)
    returns (r: Result<ZReply>, ghost next: Option<Metadata>)
    requires ValidKey(k) && ValidNamespace(ns) && c.ZincrbyCmd?
    requires Slot(db.disk, ns, k, slot, z) && Unused(db.disk, ns, k, slot, later)
    requires c.newVersion !in later && Vacant(db.disk, Stem(ns, k, c.newVersion))
    modifies db
    ensures r == Answer(c, z, add) && RanOne(db.disk, ns, k, c, add, slot, next, later, z)
  {
    hide Stored, Touches, Stem, MetadataKey, Vacant, Slot, Unused, Incremented;
    hide Holds, ZsetMeta, StartMeta, Wrote, RanOne, Grown;
    SlotHolds(db.disk, ns, k, c.now, slot, z);
    ghost var d := db.disk;
    r := Zincrby(db, ns, k, c.now, c.newVersion, c.increment, c.member, add, z);
    StartSize(slot, c.newVersion);
    if Writes(c, z, add) {
      ghost var n := Grown(StartMeta(slot, c.newVersion).size, z, Effect(c, z, add));
      RanWrite(d, db.disk, ns, k, c, add, slot, later, z, c.newVersion, n);
      next := Some(StartMeta(slot, c.newVersion).(size := n));
    } else {
      RanIdle(d, ns, k, c, add, slot, later, z);
      next := slot;
    }
  }

  method RunZrem(db: StorageEngine, ns: Bytes, k: Bytes, c: ZCommand, add: (u64, u64) -> u64,
                 ghost slot: Option<Metadata>, ghost later: set<u64>, ghost z: ScoreMap)
    returns (r: Result<ZReply>, ghost next: Option<Metadata>)
    requires ValidKey(k) && ValidNamespace(ns) && c.ZremCmd?
    requires Slot(db.disk, ns, k, slot, z) && Unused(db.disk, ns, k, slot, later)
    modifies db
    ensures r == Answer(c, z, add) && RanOne(db.disk, ns, k, c, add, slot, next, later, z)
  {
    hide Stored, Touches, Stem, MetadataKey, Vacant, Slot, Unused, Holds;
    hide ZsetMeta, StartMeta, Wrote, RanOne, Named, Range;
    SlotHolds(db.disk, ns, k, c.now, slot, z);
    ghost var d := db.disk;
    r := Zrem(db, ns, k, c.now, c.members, z);
    if Named(z.Keys, c.members) > 0 {
      StartSize(slot, 0);
      ghost var n: u64 := SaturatingSub(slot.value.size, Named(z.Keys, c.members));
      RanWrite(d, db.disk, ns, k, c, add, slot, later, z, 0, n);
      next := Some(slot.value.(size := n));
    } else {
      RanIdle(d, ns, k, c, add, slot, later, z);
      next := slot;
    }
  }

  lemma RunStep(cmds: seq<ZCommand>, i: nat, size: Option<u64>, z: ScoreMap, add: (u64, u64) -> u64)
    requires i < |cmds|
    ensures RunEffect(cmds[..i + 1], z, add) == Effect(cmds[i], RunEffect(cmds[..i], z, add), add)
    ensures RunSize(cmds[..i + 1], size, z, add)
            == SizeAfter(cmds[i], RunSize(cmds[..i], size, z, add), RunEffect(cmds[..i], z, add), add)
  {
    hide Effect, SizeAfter;
    assert cmds[..i + 1][..i] == cmds[..i];
  }

  lemma RunNothing(size: Option<u64>, z: ScoreMap, add: (u64, u64) -> u64)
    ensures RunEffect([], z, add) == z && RunSize([], size, z, add) == size
  {
  }

  /** Every run of ZADD, ZINCRBY and ZREM, with any legal or illegal arguments, any clock and
      unused new versions, ends in the scores the commands mean one after another with both
      stored forms agreeing on them; every reply is the one meant, and the stored size is the
      one the commands count. */
  method RunZset(db: StorageEngine, ns: Bytes, k: Bytes, cmds: seq<ZCommand>, add: (u64, u64) -> u64,
                 ghost slot0: Option<Metadata>, ghost z0: ScoreMap)
    returns (replies: seq<Result<ZReply>>, ghost slot: Option<Metadata>)
    requires ValidKey(k) && ValidNamespace(ns)
    requires Slot(db.disk, ns, k, slot0, z0)
    requires DistinctVersions(cmds) && Unused(db.disk, ns, k, slot0, VersionsFrom(cmds, 0))
    modifies db
    ensures |replies| == |cmds|
    ensures forall i :: 0 <= i < |cmds| ==> replies[i] == Answer(cmds[i], RunEffect(cmds[..i], z0, add), add)
    ensures Slot(db.disk, ns, k, slot, RunEffect(cmds, z0, add))
    ensures SizeOf(slot) == RunSize(cmds, SizeOf(slot0), z0, add)
  {
    hide Slot, Unused, Effect, Vacant, Stem, DistinctVersions, VersionsFrom, Answer, SizeAfter, SizeOf;
    hide RunEffect, RunSize;
    RunNothing(SizeOf(slot0), z0, add);
    replies, slot := [], slot0;
    for i := 0 to |cmds|
      invariant |replies| == i
      invariant forall j :: 0 <= j < i ==> replies[j] == Answer(cmds[j], RunEffect(cmds[..j], z0, add), add)
      invariant Slot(db.disk, ns, k, slot, RunEffect(cmds[..i], z0, add))
      invariant SizeOf(slot) == RunSize(cmds[..i], SizeOf(slot0), z0, add)
      invariant Unused(db.disk, ns, k, slot, VersionsFrom(cmds, i))
    {
      LaterVersions(cmds, i, db.disk, ns, k, slot);
      RunStep(cmds, i, SizeOf(slot0), z0, add);
      ghost var later, z := VersionsFrom(cmds, i + 1), RunEffect(cmds[..i], z0, add);
      var r;
      match cmds[i] {
        case ZaddCmd(_, _, _, _) => r, slot := RunZadd(db, ns, k, cmds[i], add, slot, later, z);
        case ZincrbyCmd(_, _, _, _) => r, slot := RunZincrby(db, ns, k, cmds[i], add, slot, later, z);
        case ZremCmd(_, _) => r, slot := RunZrem(db, ns, k, cmds[i], add, slot, later, z);
      }
      replies := replies + [r];
    }
    assert cmds[..|cmds|] == cmds;
  }
}
