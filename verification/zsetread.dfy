/** Reading sorted sets by rank and by score, page by page over the score index. */
module SortedSetReads {
  import opened ByteStrings
  import opened OrderedStore
  import opened Storage
  import opened Encoding
  import opened Contexts
  import opened Scores
  import opened SortedSets
  import opened SortedSetWrites

  const ZSET_PAGE_SIZE: nat := 1024

  type Ranked = seq<(Score, Bytes)>

  function ReverseOf(l: Ranked): (r: Ranked)
    ensures |r| == |l| && forall i :: 0 <= i < |l| ==> r[i] == l[|l| - 1 - i]
  {
    seq(|l|, i requires 0 <= i < |l| => l[|l| - 1 - i])
  }

  // ---------- one page of the index ----------

  function ParseScoreSubkey(key: Bytes, ns: Bytes): Option<(u64, Bytes)> {
    match ParseSubKey(key, ns)
    case None => None
    case Some((_, _, sub)) => if |sub| < 8 then None else Some((ScoreOfCode(sub[..8]), sub[8..]))
  }

  lemma ScoreSubkeyParses(ns: Bytes, k: Bytes, version: u64, s: Score, m: Bytes)
    requires ValidKey(k) && ValidNamespace(ns)
    ensures ParseScoreSubkey(Stem(ns, k, version) + IndexKey(s, m), ns) == Some((s, m))
  {
    hide SubKey, Stem, ParseSubKey, ScoreCode, ScoreOfCode;
    var sub := IndexKey(s, m);
    SubKeyIsStem(ns, k, version, sub);
    ParseSubKeyInverts(k, version, sub, ns);
    ScoreRoundTrip(s);
    assert sub[..8] == ScoreCode(s) && sub[8..] == m;
  }

  /** The prefix scan of the score family is the ranking. */
  lemma ScanIsRanking(d: Disk, p: Bytes, z: ScoreMap)
    requires Represents(d, p, z)
    ensures var scan, r := Scan(d.zsetScore, p), Ranking(z);
            |scan| == |r| == |z| && forall i :: 0 <= i < |scan| ==> scan[i] == p + IndexKey(r[i].0, r[i].1)
  {
    hide SortedKeys, View, IndexKeys, IndexKey, Scan;
    ScanIsView(d.zsetScore, p);
    assert Index(z).Keys == IndexKeys(z);
  }

  /** No index key reaches the ceiling, so reverse scans miss nothing. */
  lemma IndexBelowCeiling(d: Disk, p: Bytes, z: ScoreMap)
    requires Represents(d, p, z)
    ensures BelowCeiling(d.zsetScore, p)
  {
    hide Represents, IndexKey, Less;
    forall k | k in d.zsetScore && p <= k ensures Less(k, Ceiling(p)) {
      var m := StoredIndex(d, p, z, k);
      IndexKeyBelow(z[m], m);
      LessUnderPrefix(p, IndexKey(z[m], m), [255, 255, 255, 255, 255, 255, 255, 255]);
    }
  }

  lemma IndexKeyBelow(s: Score, m: Bytes)
    ensures Less(IndexKey(s, m), [255, 255, 255, 255, 255, 255, 255, 255])
  {
    ScoreCodeBelowCeiling(s, m);
  }

  /** The entries that items encode. */
  ghost predicate Encodes(p: Bytes, items: seq<(Bytes, Bytes)>, l: Ranked) {
    |items| == |l| && forall i :: 0 <= i < |l| ==> items[i].0 == p + IndexKey(l[i].0, l[i].1)
  }

  method DecodeItems(ns: Bytes, k: Bytes, version: u64, items: seq<(Bytes, Bytes)>, ghost l: Ranked)
    returns (pairs: Result<Ranked>)
    requires ValidKey(k) && ValidNamespace(ns) && Encodes(Stem(ns, k, version), items, l)
    ensures pairs == Ok(l)
  {
    hide Stem, IndexKey, ParseScoreSubkey;
    var out: Ranked := [];
    for i := 0 to |items|
      invariant out == l[..i]
    {
      ScoreSubkeyParses(ns, k, version, l[i].0, l[i].1);
      var parsed := ParseScoreSubkey(items[i].0, ns);
      if parsed.None? { return Err(BadEncoding); }
      out := out + [parsed.value];
    }
    assert l[..|l|] == l;
    pairs := Ok(out);
  }

  /** The list a reader walks: the ranking, or its reverse. */
  ghost function Walk(z: ScoreMap, reverse: bool): Ranked {
    if reverse then ReverseOf(Ranking(z)) else Ranking(z)
  }

  /** A walk goes from the least number to the greatest, a reverse one the other way. */
  lemma WalkOrder(z: ScoreMap, reverse: bool, i: nat, j: nat)
    requires i < j < |Walk(z, reverse)|
    ensures var w := Walk(z, reverse);
            if reverse then !NumberLess(NumberOf(w[i].0), NumberOf(w[j].0))
            else !NumberLess(NumberOf(w[j].0), NumberOf(w[i].0))
  {
    hide NumberOf, NumberLess, Ranking;
    RankingSorted(z);
    var w, n := Walk(z, reverse), |Ranking(z)|;
    if reverse { assert RankLess(Ranking(z)[n - 1 - j], Ranking(z)[n - 1 - i]); } else { assert RankLess(w[i], w[j]); }
    PositionIsValueOrder(w[i].0, w[j].0);
    PositionIsValueOrder(w[j].0, w[i].0);
  }

  /** current is the cursor of a walk that has passed q entries. */
  ghost predicate WalkAt(d: Disk, p: Bytes, reverse: bool, current: Bytes, q: nat) {
    var scan := Scan(d.zsetScore, p);
    if reverse then ReverseCursorAt(scan, p, current, q) else Positioned(scan, p, current, q)
  }

  /** iter_score_page and iter_score_page_reverse: the next entries of the walk. */
  method NextPage(db: StorageEngine, ns: Bytes, k: Bytes, version: u64, reverse: bool, current: Bytes,
                  ghost z: ScoreMap, ghost q: nat)
    returns (pairs: Ranked, next: Option<Bytes>)
    requires ValidKey(k) && ValidNamespace(ns) && Represents(db.disk, Stem(ns, k, version), z)
    requires WalkAt(db.disk, Stem(ns, k, version), reverse, current, q)
    ensures q <= |z| && var e := Min(q + ZSET_PAGE_SIZE, |z|);
            && pairs == Walk(z, reverse)[q..e]
            && (next.None? <==> e == |z|)
            && (next.Some? ==> WalkAt(db.disk, Stem(ns, k, version), reverse, next.value, e))
  {
    hide Represents, Stem, SubKey, Scan, Ranking, ForwardPage, ReversePage, Positioned, ReverseCursorAt, IndexKey;
    var p := SubKey(k, version, [], ns);
    assert p == Stem(ns, k, version) by { StemIs(ns, k, version); }
    StemNonEmpty(ns, k, version);
    ScanIsRanking(db.disk, p, z);
    ghost var f, scan := db.disk.zsetScore, Scan(db.disk.zsetScore, p);
    var items;
    if reverse {
      IndexBelowCeiling(db.disk, p, z);
      items, next := db.PrefixScanPageReverse(CfZsetScore, p, current, ZSET_PAGE_SIZE);
      ReverseSlice(f, p, current, q, ZSET_PAGE_SIZE);
    } else {
      items, next := db.PrefixScanPage(CfZsetScore, p, current, ZSET_PAGE_SIZE);
      PageFrom(f, p, current, q, ZSET_PAGE_SIZE);
    }
    ghost var e := Min(q + ZSET_PAGE_SIZE, |z|);
    assert Encodes(p, items, Walk(z, reverse)[q..e]);
    var decoded := DecodeItems(ns, k, version, items, Walk(z, reverse)[q..e]);
    pairs := decoded.value;
  }

  lemma StemIs(ns: Bytes, k: Bytes, version: u64)
    ensures Stem(ns, k, version) == SubKey(k, version, [], ns)
  {
  }

  lemma ReverseSlice(f: Family, p: Bytes, current: Bytes, q: nat, limit: nat)
    requires p != [] && BelowCeiling(f, p) && ReverseCursorAt(Scan(f, p), p, current, q)
    ensures var scan := Scan(f, p);
            var page := ReversePage(f, p, current, limit);
            var e := Min(q + PageSize(limit), |scan|);
            && q <= e && |page.items| == e - q
            && (forall i :: 0 <= i < e - q ==> page.items[i].0 == scan[|scan| - 1 - q - i])
            && (page.next.None? <==> e == |scan|)
            && (page.next.Some? ==> ReverseCursorAt(scan, p, page.next.value, e))
  {
    hide Less, SortedKeys, ReverseRun, Scan, ReversePage, Reaches, BelowCeiling;
    BelowReaches(f, p);
    ReversePageAt(f, p, current, q, limit);
  }

  lemma BelowReaches(f: Family, p: Bytes)
    requires p != [] && BelowCeiling(f, p)
    ensures Reaches(f, p)
  {
  }

  /** A walk starts at the empty cursor; a reverse one may also start at the ceiling. */
  lemma WalkStart(d: Disk, p: Bytes, reverse: bool)
    ensures WalkAt(d, p, reverse, [], 0)
    ensures reverse ==> WalkAt(d, p, reverse, Ceiling(p), 0)
  {
  }

  // ---------- by rank ----------

  function NormalizeIndex(idx: i64, len: i64): int
    requires len >= 0
  {
    if idx < 0 then (if len + idx < 0 then 0 else len + idx) else idx
  }

  /** The window that ZRANGE and ZREVRANGE read: first rank and number of entries. A size
      that turned negative reads nothing, whatever the bounds. */
  function RankRange(len: i64, start: i64, stop: i64): (r: (nat, nat))
    ensures len >= 0 ==> r.0 + r.1 <= len
  {
    if len < 0 then (0, 0)
    else
      var s, e := NormalizeIndex(start, len), NormalizeIndex(stop, len);
      if s > e || s >= len then (0, 0)
      else
        var last := if e < len - 1 then e else len - 1;
        (s, last - s + 1)
  }

  /** A stored size read as a signed integer. */
  function AsI64(n: u64): i64 { if n >= SIGN_BIT then n - U64_LIMIT else n }

  /** ZRANGE k 0 -4 on three entries reads the first one, although stop lies before it. */
  lemma RankRangeBeforeFirst()
    ensures RankRange(3, 0, -4) == (0, 1) && forall i :: !InBounds(i, 3, 0, -4)
  {
  }

  /** Index i lies between start and stop, negative bounds counting from the end. */
  predicate InBounds(i: int, len: int, start: int, stop: int) {
    && 0 <= i < len
    && (if start < 0 then len + start else start) <= i <= (if stop < 0 then len + stop else stop)
  }

  /** Rank i goes by two numbers, i and i - len; a window inside the ranking is the same under
      either, and 0 to -1 is all of it. */
  lemma RankRangeInside(len: i64, i: i64, j: i64, r: int)
    requires 0 <= i <= j < len && 0 <= r < len
    ensures RankRange(len, i, j) == RankRange(len, i - len, j - len) == (i, j - i + 1)
    ensures RankRange(len, 0, -1) == (0, len)
    ensures InBounds(r, len, i, j) <==> i <= r <= j
    ensures InBounds(r, len, i - len, j - len) <==> i <= r <= j
  {
  }

  /** The window holds exactly the indices between the bounds, unless stop lies before
      the first entry: it is then taken as 0, and rank 0 is read when start reaches it. */
  lemma RankRangeExact(len: i64, start: i64, stop: i64)
    requires len >= 0
    ensures var (s, n) := RankRange(len, start, stop);
            (forall i :: s <= i < s + n <==> InBounds(i, len, start, stop))
            <==> !(len > 0 && stop < -len && (start <= -len || start == 0))
  {
    var (s, n) := RankRange(len, start, stop);
    if len > 0 && stop < -len && (start <= -len || start == 0) {
      assert s <= 0 < s + n && !InBounds(0, len, start, stop);
    } else {
      forall i ensures s <= i < s + n <==> InBounds(i, len, start, stop) {
      }
    }
  }

  /** collect_rank_range_items: count entries of the walk after the first startRank. */
  method CollectRankRange(db: StorageEngine, ns: Bytes, k: Bytes, version: u64, startRank: nat, count: nat,
                          reverse: bool, ghost z: ScoreMap)
    returns (result: Ranked)
    requires ValidKey(k) && ValidNamespace(ns) && Represents(db.disk, Stem(ns, k, version), z)
    ensures result == Walk(z, reverse)[Min(startRank, |z|)..Min(startRank + count, |z|)]
  {
    hide Represents, Stem, SubKey, Ranking, WalkAt, Ceiling;
    result := [];
    if count == 0 { return; }
    ghost var p, walk := Stem(ns, k, version), Walk(z, reverse);
    WalkStart(db.disk, p, reverse);
    var skipped: nat := 0;
    var current: Bytes := [];
    if reverse {
      StemIs(ns, k, version);
      current := Ceiling(SubKey(k, version, [], ns));
    }
    ghost var q := 0;
    while true
      invariant q <= |z| && WalkAt(db.disk, p, reverse, current, q)
      invariant skipped == Min(q, startRank) && |result| < count
      invariant result == walk[skipped..q]
      decreases |z| - q
    {
      var items, next := NextPage(db, ns, k, version, reverse, current, z, q);
      if items == [] { break; }
      result, skipped := CollectRankPage(items, startRank, count, result, skipped, walk, q);
      if |result| >= count { return; }
      q := q + |items|;
      match next {
        case Some(key) => current := key;
        case None => break;
      }
    }
  }

  /** One page of it: entries before startRank are skipped, then up to count collected. */
  method CollectRankPage(items: Ranked, startRank: nat, count: nat, result0: Ranked, skipped0: nat, ghost walk: Ranked,
                         ghost q: nat)
    returns (result: Ranked, skipped: nat)
    requires q + |items| <= |walk| && items == walk[q..q + |items|]
    requires skipped0 == Min(q, startRank) && result0 == walk[skipped0..q] && |result0| < count
    ensures |result| >= count ==> startRank + count <= |walk| && result == walk[startRank..startRank + count]
    ensures |result| < count ==> skipped == Min(q + |items|, startRank) && result == walk[skipped..q + |items|]
  {
    result, skipped := result0, skipped0;
    for i := 0 to |items|
      invariant skipped == Min(q + i, startRank) && |result| < count
      invariant result == walk[skipped..q + i]
    {
      if skipped < startRank {
        skipped := skipped + 1;
        continue;
      }
      result := result + [items[i]];
      if |result| >= count { return; }
    }
  }

  /** zrank and zrevrank: the number of entries the walk passes before the target. */
  method FindRank(db: StorageEngine, ns: Bytes, k: Bytes, version: u64, target: Bytes, targetScore: Score,
                  reverse: bool, ghost z: ScoreMap)
    returns (r: Option<nat>)
    requires ValidKey(k) && ValidNamespace(ns) && Represents(db.disk, Stem(ns, k, version), z)
    requires target in z && z[target] == targetScore
    ensures r == Some(if reverse then |z| - 1 - RankOf(z, target) else RankOf(z, target))
  {
    hide Represents, Stem, SubKey, Ranking, WalkAt, Ceiling, RankOf;
    ghost var p, walk := Stem(ns, k, version), Walk(z, reverse);
    ghost var goal: nat := if reverse then |z| - 1 - RankOf(z, target) else RankOf(z, target);
    WalkStart(db.disk, p, reverse);
    var rank: nat, current: Bytes := 0, [];
    if reverse {
      StemIs(ns, k, version);
      current := Ceiling(SubKey(k, version, [], ns));
    }
    while true
      invariant rank <= goal && WalkAt(db.disk, p, reverse, current, rank)
      decreases |z| - rank
    {
      ghost var q := rank;
      var items, next := NextPage(db, ns, k, version, reverse, current, z, q);
      if items == [] { break; }
      for i := 0 to |items|
        invariant rank == q + i <= goal
      {
        assert items[i] == walk[q + i];
        OnlyTarget(z, target, reverse, q + i);
        if NumEqual(items[i].0, targetScore) && items[i].1 == target { return Some(rank); }
        rank := rank + 1;
      }
      match next {
        case Some(key) => current := key;
        case None => break;
      }
    }
    return None;
  }

  /** The walk meets the target at its rank and nowhere else. */
  lemma OnlyTarget(z: ScoreMap, target: Bytes, reverse: bool, i: nat)
    requires target in z && i < |z|
    ensures var goal := if reverse then |z| - 1 - RankOf(z, target) else RankOf(z, target);
            Walk(z, reverse)[i].1 == target <==> i == goal
    ensures Walk(z, reverse)[i].1 == target ==> Walk(z, reverse)[i].0 == z[target]
  {
    hide Ranking, RankOf;
    var at := if reverse then |z| - 1 - i else i;
    assert Walk(z, reverse)[i] == Ranking(z)[at];
    if Ranking(z)[at].1 == target { RankUnique(z, at, RankOf(z, target)); }
  }

  /** Wherever a member stands in the ranking and in its reverse, the two positions add up
      to the last rank, and both entries carry its score. */
  lemma RanksMirror(z: ScoreMap, m: Bytes, i: nat, j: nat)
    requires m in z && i < |z| && j < |z|
    requires Walk(z, false)[i].1 == m && Walk(z, true)[j].1 == m
    ensures i + j == |z| - 1 && Walk(z, false)[i] == Walk(z, true)[j] == (z[m], m)
  {
    hide Ranking;
    RankUnique(z, i, |z| - 1 - j);
    RankUnique(z, i, RankOf(z, m));
  }

  /** ZRANGE and ZREVRANGE key start stop: the window that the stored size gives, cut at the
      last entry. With an exact size it is a window of the ranking itself. */
  method Zrange(db: StorageEngine, ns: Bytes, k: Bytes, now: i64, start: i64, stop: i64, reverse: bool,
                ghost z: ScoreMap)
    returns (r: Result<Ranked>)
    requires ValidKey(k) && ValidNamespace(ns) && Holds(db.disk, ns, k, now, z)
    ensures var meta := ZsetMeta(db.disk, ns, k, now);
            if meta.Err? then r == Err(meta.error)
            else
              var size := if meta.value.None? then 0 else AsI64(meta.value.value.size);
              var (s, n) := RankRange(size, start, stop);
              r == Ok(Walk(z, reverse)[Min(s, |z|)..Min(s + n, |z|)])
  {
    hide Represents, Stem, Ranking, RankRange, ZsetMeta;
    var meta := ZsetMeta(db.disk, ns, k, now);
    if meta.Err? { return Err(meta.error); }
    if meta.value.None? { return Ok([]); }
    var (s, n) := RankRange(AsI64(meta.value.value.size), start, stop);
    var items := CollectRankRange(db, ns, k, meta.value.value.version, s, n, reverse, z);
    r := Ok(items);
  }

  /** ZRANK and ZREVRANK key member. */
  method Zrank(db: StorageEngine, ns: Bytes, k: Bytes, now: i64, target: Bytes, reverse: bool, ghost z: ScoreMap)
    returns (r: Result<Option<nat>>)
    requires ValidKey(k) && ValidNamespace(ns) && Holds(db.disk, ns, k, now, z)
    ensures var meta := ZsetMeta(db.disk, ns, k, now);
            if meta.Err? then r == Err(meta.error)
            else if target !in z then r == Ok(None)
            else r == Ok(Some(if reverse then |z| - 1 - RankOf(z, target) else RankOf(z, target)))
  {
    hide Represents, Stem, Ranking, RankOf, ZsetMeta;
    var meta := ZsetMeta(db.disk, ns, k, now);
    if meta.Err? { return Err(meta.error); }
    if meta.value.None? { return Ok(None); }
    var version := meta.value.value.version;
    var score := ReadScore(db, ns, k, version, target, z);
    if score.None? { return Ok(None); }
    var rank := FindRank(db, ns, k, version, target, score.value, reverse, z);
    r := Ok(rank);
  }

  // ---------- by score ----------

  /** The entries whose score lies between two positions of the number line. */
  ghost function Keep(l: Ranked, lo: int, hi: int): Ranked {
    if l == [] then []
    else
      var n := |l| - 1;
      Keep(l[..n], lo, hi) + if lo <= Position(l[n].0) <= hi then [l[n]] else []
  }

  /** LIMIT offset count: drop offset entries, then at most count, 0 standing for all. */
  ghost function Limited(l: Ranked, offset: nat, count: nat): Ranked {
    var rest := if |l| <= offset then [] else l[offset..];
    if count == 0 || |rest| <= count then rest else rest[..count]
  }

  /** The entries kept are those whose number lies between the two bounds, in their order. */
  lemma {:induction false} KeepMeaning(l: Ranked, min: Score, max: Score) returns (at: seq<nat>)
    ensures |at| == |Keep(l, Position(min), Position(max))|
    ensures forall j :: 0 <= j < |at| ==> at[j] < |l| && Keep(l, Position(min), Position(max))[j] == l[at[j]]
    ensures forall i, j :: 0 <= i < j < |at| ==> at[i] < at[j]
    ensures forall i :: 0 <= i < |l| ==>
              var x := NumberOf(l[i].0);
              i in at <==> !NumberLess(x, NumberOf(min)) && !NumberLess(NumberOf(max), x)
  {
    hide NumberOf, NumberLess;
    if l == [] {
      at := [];
    } else {
      var n := |l| - 1;
      at := KeepMeaning(l[..n], min, max);
      PositionIsValueOrder(l[n].0, min);
      PositionIsValueOrder(max, l[n].0);
      if Position(min) <= Position(l[n].0) <= Position(max) { at := at + [n]; }
    }
  }

  /** LIMIT drops the first entries and then keeps at most count. */
  lemma LimitedMeaning(l: Ranked, offset: nat, count: nat, i: nat)
    ensures var r := Limited(l, offset, count);
            && (i < |r| <==> offset + i < |l| && (count == 0 || i < count))
            && (i < |r| ==> r[i] == l[offset + i])
  {
  }

  /** Below the position of every score. */
  const LOWEST: int := -0x8000_0000_0000_0000

  lemma {:induction false} KeepConcat(a: Ranked, b: Ranked, lo: int, hi: int)
    ensures Keep(a + b, lo, hi) == Keep(a, lo, hi) + Keep(b, lo, hi)
  {
    if b == [] {
      assert a + b == a;
    } else {
      var n := |b| - 1;
      KeepConcat(a, b[..n], lo, hi);
      assert (a + b)[..|a + b| - 1] == a + b[..n];
    }
  }

  lemma {:induction false} KeepNone(l: Ranked, lo: int, hi: int)
    requires forall i :: 0 <= i < |l| ==> !(lo <= Position(l[i].0) <= hi)
    ensures Keep(l, lo, hi) == []
  {
    if l != [] { KeepNone(l[..|l| - 1], lo, hi); }
  }

  lemma {:induction false} KeepSome(l: Ranked, lo: int, hi: int, i: nat)
    requires i < |l| && lo <= Position(l[i].0) <= hi
    ensures Keep(l, lo, hi) != []
  {
    if i < |l| - 1 { KeepSome(l[..|l| - 1], lo, hi, i); }
  }

  lemma {:induction false} KeepSame(l: Ranked, lo: int, lo': int, hi: int)
    requires forall i :: 0 <= i < |l| ==> lo <= Position(l[i].0) && lo' <= Position(l[i].0)
    ensures Keep(l, lo, hi) == Keep(l, lo', hi)
  {
    if l != [] { KeepSame(l[..|l| - 1], lo, lo', hi); }
  }

  lemma RankLessPosition(a: (Score, Bytes), b: (Score, Bytes))
    requires RankLess(a, b)
    ensures Position(a.0) <= Position(b.0)
  {
  }

  /** Scores do not go down along the ranking, nor up along its reverse. */
  lemma WalkMonotone(z: ScoreMap, reverse: bool, i: nat, j: nat)
    requires i <= j < |z|
    ensures var a, b := Walk(z, reverse)[i].0, Walk(z, reverse)[j].0;
            if reverse then Position(b) <= Position(a) else Position(a) <= Position(b)
  {
    hide Ranking, RankLess, Position;
    var r := Ranking(z);
    if i < j {
      if reverse {
        RankingAscends(z, |z| - 1 - j, |z| - 1 - i);
        RankLessPosition(r[|z| - 1 - j], r[|z| - 1 - i]);
      } else {
        RankingAscends(z, i, j);
        RankLessPosition(r[i], r[j]);
      }
    }
  }

  /** The limit is reached: what follows cannot change the result. */
  ghost predicate Full(l: Ranked, offset: nat, count: nat) {
    count > 0 && |l| >= offset + count
  }

  lemma FullStays(a: Ranked, b: Ranked, offset: nat, count: nat)
    requires Full(a, offset, count)
    ensures Limited(a + b, offset, count) == Limited(a, offset, count)
  {
    assert (a + b)[offset..] == a[offset..] + b;
  }

  /** One more kept entry, while the limit is not reached. */
  lemma LimitedStep(l: Ranked, x: (Score, Bytes), offset: nat, count: nat)
    requires !Full(l, offset, count)
    ensures Limited(l + [x], offset, count) == if |l| < offset then [] else Limited(l, offset, count) + [x]
  {
    if |l| >= offset { assert (l + [x])[offset..] == l[offset..] + [x]; }
  }

  /** How a reader stands after the entries seen: the kept ones, limited. */
  ghost predicate Emitted(seenList: Ranked, lo: int, hi: int, offset: nat, count: nat, seen: nat, result: Ranked) {
    var kept := Keep(seenList, lo, hi);
    seen == |kept| && result == Limited(kept, offset, count)
  }

  lemma EmitStep(l: Ranked, x: (Score, Bytes), lo: int, hi: int, offset: nat, count: nat, seen: nat, result: Ranked)
    requires Emitted(l, lo, hi, offset, count, seen, result) && !Full(Keep(l, lo, hi), offset, count)
    ensures !(lo <= Position(x.0) <= hi) ==>
              Emitted(l + [x], lo, hi, offset, count, seen, result) && !Full(Keep(l + [x], lo, hi), offset, count)
    ensures lo <= Position(x.0) <= hi ==>
              var result' := if seen < offset then result else result + [x];
              && Emitted(l + [x], lo, hi, offset, count, seen + 1, result')
              && (Full(Keep(l + [x], lo, hi), offset, count) <==> seen >= offset && count > 0 && |result'| >= count)
  {
    assert (l + [x])[..|l|] == l;
    var kept := Keep(l, lo, hi);
    if lo <= Position(x.0) <= hi {
      assert Keep(l + [x], lo, hi) == kept + [x];
      LimitedStep(kept, x, offset, count);
    } else {
      assert Keep(l + [x], lo, hi) == kept;
    }
  }

  lemma EmitNothing(lo: int, hi: int, offset: nat, count: nat)
    ensures Emitted([], lo, hi, offset, count, 0, []) && !Full(Keep([], lo, hi), offset, count)
  {
  }

  /** The entries of one page for ZRANGEBYSCORE: stop above max or at the limit. */
  method EmitPage(items: Ranked, max: Score, offset: nat, count: nat, seen0: nat, result0: Ranked, ghost before: Ranked)
    returns (seen: nat, result: Ranked, done: bool, n: nat)
    requires Emitted(before, LOWEST, Position(max), offset, count, seen0, result0)
    requires !Full(Keep(before, LOWEST, Position(max)), offset, count)
    ensures n <= |items| && Emitted(before + items[..n], LOWEST, Position(max), offset, count, seen, result)
    ensures !done ==> n == |items| && !Full(Keep(before + items[..n], LOWEST, Position(max)), offset, count)
    ensures done ==> Full(Keep(before + items[..n], LOWEST, Position(max)), offset, count)
                     || (n < |items| && NumLess(max, items[n].0))
  {
    hide Emitted, Full, Keep;
    seen, result, done, n := seen0, result0, false, 0;
    assert before + items[..0] == before;
    while n < |items|
      invariant n <= |items| && !done
      invariant Emitted(before + items[..n], LOWEST, Position(max), offset, count, seen, result)
      invariant !Full(Keep(before + items[..n], LOWEST, Position(max)), offset, count)
    {
      var score := items[n].0;
      if NumLess(max, score) {
        done := true;
        break;
      }
      EmitStep(before + items[..n], items[n], LOWEST, Position(max), offset, count, seen, result);
      assert before + items[..n + 1] == before + items[..n] + [items[n]];
      seen := seen + 1;
      n := n + 1;
      if seen <= offset { continue; }
      result := result + [items[n - 1]];
      if count > 0 && |result| >= count {
        done := true;
        break;
      }
    }
  }

  /** Where the walk from the seek key of min starts: after every entry that sorts at
      or before min with the empty member. */
  ghost function SeekRank(z: ScoreMap, min: Score): (q: nat)
    ensures q <= |z|
  {
    var keys := SortedKeys(IndexKeys(z));
    IndexSize(z);
    UpperBound(keys, IndexKey(min, []))
  }

  lemma SeekIsRank(d: Disk, p: Bytes, z: ScoreMap, min: Score)
    requires Represents(d, p, z)
    ensures WalkAt(d, p, false, p + IndexKey(min, []), SeekRank(z, min))
  {
    hide SortedKeys, View, IndexKeys, IndexKey, Less, UpperBound, Scan;
    ScanIsView(d.zsetScore, p);
    assert Index(z).Keys == IndexKeys(z);
    SeekKeyNonEmpty(min);
    PrefixAtMost(p, p + IndexKey(min, []));
    PrefixedUpperBound(p, SortedKeys(IndexKeys(z)), IndexKey(min, []));
  }

  lemma PrefixedUpperBound(p: Bytes, subs: seq<Bytes>, key: Bytes)
    requires Ascending(subs) && Ascending(Prefixed(p, subs))
    ensures UpperBound(Prefixed(p, subs), p + key) == UpperBound(subs, key)
  {
    hide Less, UpperBound;
    var keys, n := Prefixed(p, subs), UpperBound(subs, key);
    forall i | 0 <= i < n ensures !Less(p + key, keys[i]) {
      LessUnderPrefix(p, key, subs[i]);
      LessAsymmetric(key, subs[i]);
      LessIrreflexive(key);
    }
    forall i | n <= i < |keys| ensures Less(p + key, keys[i]) {
      LessUnderPrefix(p, key, subs[i]);
    }
    UpperBoundIs(keys, p + key, n);
  }

  lemma SeekKeyNonEmpty(min: Score)
    ensures IndexKey(min, []) != []
  {
  }

  lemma UpperBoundIs(keys: seq<Bytes>, k: Bytes, n: nat)
    requires Ascending(keys) && n <= |keys|
    requires forall i :: 0 <= i < n ==> !Less(k, keys[i])
    requires forall i :: n <= i < |keys| ==> Less(k, keys[i])
    ensures UpperBound(keys, k) == n
  {
    hide LowerBound, UpperBound, Less;
    var u := UpperBound(keys, k);
    assert u < |keys| ==> Less(k, keys[u]);
    if n < u {
      assert AtMost(keys[n], k) && Less(k, keys[n]);
      LessAsymmetric(k, keys[n]);
      LessIrreflexive(k);
    }
  }

  lemma TakeMore(rest: Ranked, items: Ranked, at: nat, n: nat)
    requires at + |items| <= |rest| && n <= |items|
    requires items == rest[at..at + |items|]
    ensures rest[..at] + items[..n] == rest[..at + n]
  {
    assert items[..n] == rest[at..at + n];
  }

  lemma SliceOfRest(l: Ranked, q0: nat, q: nat, items: Ranked)
    requires q0 <= q && q + |items| <= |l| && items == l[q..q + |items|]
    ensures items == l[q0..][q - q0..q - q0 + |items|]
  {
  }

  /** ZRANGEBYSCORE over a live set: every entry after the seek key up to max, limited. */
  method CollectByScore(db: StorageEngine, ns: Bytes, k: Bytes, version: u64, min: Score, max: Score, offset: nat,
                        count: nat, ghost z: ScoreMap)
    returns (result: Ranked)
    requires ValidKey(k) && ValidNamespace(ns) && Represents(db.disk, Stem(ns, k, version), z)
    ensures result == Limited(Keep(Ranking(z)[SeekRank(z, min)..], LOWEST, Position(max)), offset, count)
  {
    hide Represents, Stem, Ranking, WalkAt, SeekRank, Keep, Emitted, Full, IndexKey, Position, Limited, Less;
    ghost var p, q0, hi := Stem(ns, k, version), SeekRank(z, min), Position(max);
    ghost var rest := Ranking(z)[q0..];
    var current := ScoreSubkey(ns, k, version, min, []);
    SeekIsRank(db.disk, p, z, min);
    var seen: nat, done := 0, false;
    result := [];
    ghost var q := q0;
    EmitNothing(LOWEST, hi, offset, count);
    assert rest[..0] == [];
    while true
      invariant q0 <= q <= |z| && WalkAt(db.disk, p, false, current, q) && !done
      invariant Emitted(rest[..q - q0], LOWEST, hi, offset, count, seen, result)
      invariant !Full(Keep(rest[..q - q0], LOWEST, hi), offset, count)
      decreases |z| - q
    {
      var items, next := NextPage(db, ns, k, version, false, current, z, q);
      if items == [] { break; }
      var n;
      seen, result, done, n := EmitPage(items, max, offset, count, seen, result, rest[..q - q0]);
      SliceOfRest(Ranking(z), q0, q, items);
      TakeMore(rest, items, q - q0, n);
      if done {
        EmittedIsFinal(z, min, max, offset, count, q - q0 + n, seen, result);
        return;
      }
      q := q + |items|;
      match next {
        case Some(key) => current := key;
        case None => break;
      }
    }
    assert rest[..|rest|] == rest;
    EmittedIs(rest, LOWEST, hi, offset, count, seen, result);
  }

  /** Stopping early is right: the rest is above max, or the limit is reached. */
  lemma EmittedIsFinal(z: ScoreMap, min: Score, max: Score, offset: nat, count: nat, n: nat, seen: nat, result: Ranked)
    requires var rest := Ranking(z)[SeekRank(z, min)..];
             && n <= |rest|
             && Emitted(rest[..n], LOWEST, Position(max), offset, count, seen, result)
             && (Full(Keep(rest[..n], LOWEST, Position(max)), offset, count) || (n < |rest| && NumLess(max, rest[n].0)))
    ensures result == Limited(Keep(Ranking(z)[SeekRank(z, min)..], LOWEST, Position(max)), offset, count)
  {
    hide Ranking, SeekRank, Keep, Limited, Full;
    var q, hi := SeekRank(z, min), Position(max);
    var rest := Ranking(z)[q..];
    assert rest == rest[..n] + rest[n..];
    KeepConcat(rest[..n], rest[n..], LOWEST, hi);
    if Full(Keep(rest[..n], LOWEST, hi), offset, count) {
      FullStays(Keep(rest[..n], LOWEST, hi), Keep(rest[n..], LOWEST, hi), offset, count);
    } else {
      forall i | 0 <= i < |rest[n..]| ensures !(LOWEST <= Position(rest[n..][i].0) <= hi) {
        WalkMonotone(z, false, q + n, q + n + i);
      }
      KeepNone(rest[n..], LOWEST, hi);
      assert Keep(rest[..n], LOWEST, hi) + [] == Keep(rest[..n], LOWEST, hi);
    }
  }

  /** The entries that the seek passes over although their score is at least min: the
      empty member at min itself, and minus zero when min is plus zero. */
  predicate PassedOver(s: Score, m: Bytes, min: Score) {
    (s == min && m == []) || (s == MINUS_ZERO && min == 0)
  }

  /** An entry lies before the seek rank exactly when it does not sort after min. */
  lemma BeforeSeek(z: ScoreMap, min: Score, i: nat)
    requires i < |z|
    ensures var (s, m) := Ranking(z)[i];
            i < SeekRank(z, min) <==> TotalLess(s, min) || (s == min && m == [])
  {
    hide SortedKeys, IndexKeys, IndexKey, Less, TotalLess, LowerBound, UpperBound;
    IndexSize(z);
    var keys := SortedKeys(IndexKeys(z));
    var x := Ranking(z)[i];
    assert keys[i] == IndexKey(x.0, x.1);
    RankIsIndexOrder(x, (min, []));
    RankIsIndexOrder((min, []), x);
    IndexKeyInjective(x.0, x.1, min, []);
    LessAsymmetric(keys[i], IndexKey(min, []));
    LessIrreflexive(keys[i]);
    NothingBelowEmpty(x.1);
  }

  lemma NothingBelowEmpty(m: Bytes)
    ensures !Less(m, [])
  {
  }

  /** ZRANGEBYSCORE reads exactly the entries with min <= score <= max if and only if
      no entry up to max is one that its seek passes over. */
  lemma ByScoreExact(z: ScoreMap, min: Score, max: Score)
    ensures Keep(Ranking(z)[SeekRank(z, min)..], LOWEST, Position(max))
            == Keep(Ranking(z), Position(min), Position(max))
            <==> !(NumAtMost(min, max) && exists m :: m in z && PassedOver(z[m], m, min))
  {
    hide Ranking, SeekRank, Keep;
    var r, q, lo, hi := Ranking(z), SeekRank(z, min), Position(min), Position(max);
    assert r == r[..q] + r[q..];
    KeepConcat(r[..q], r[q..], lo, hi);
    forall i | 0 <= i < |r[q..]| ensures lo <= Position(r[q..][i].0) && LOWEST <= Position(r[q..][i].0) {
      BeforeSeek(z, min, q + i);
    }
    KeepSame(r[q..], lo, LOWEST, hi);
    assert Keep(r[q..], LOWEST, hi) == Keep(r, lo, hi) <==> Keep(r[..q], lo, hi) == [];
    MissedEntries(z, min, max);
  }

  lemma MissedEntries(z: ScoreMap, min: Score, max: Score)
    ensures Keep(Ranking(z)[..SeekRank(z, min)], Position(min), Position(max)) == []
            <==> !(NumAtMost(min, max) && exists m :: m in z && PassedOver(z[m], m, min))
  {
    hide Ranking, SeekRank, Keep;
    var r, q, lo, hi := Ranking(z), SeekRank(z, min), Position(min), Position(max);
    RankingSorted(z);
    if NumAtMost(min, max) && exists m :: m in z && PassedOver(z[m], m, min) {
      var m :| m in z && PassedOver(z[m], m, min);
      var i := RankOf(z, m);
      BeforeSeek(z, min, i);
      KeepSome(r[..q], lo, hi, i);
    } else {
      forall i | 0 <= i < q ensures !(lo <= Position(r[..q][i].0) <= hi) {
        BeforeSeek(z, min, i);
        assert (r[i].0, r[i].1) in r;
      }
      KeepNone(r[..q], lo, hi);
    }
  }

  /** ZRANGEBYSCORE k 0 0 on the empty member with score 0: the entry is in the range and
      the seek passes over it. */
  lemma ByScoreMissesEmptyMember()
    ensures var z: ScoreMap := map[[] := 0];
            && Ranking(z) == [(0, [])] && SeekRank(z, 0) == 1
            && Keep(Ranking(z), Position(0), Position(0)) == [(0, [])]
            && Keep(Ranking(z)[SeekRank(z, 0)..], LOWEST, Position(0)) == []
  {
    var z: ScoreMap := map[[] := 0];
    OneEntry(z);
    BeforeSeek(z, 0, 0);
  }

  lemma OneEntry(z: ScoreMap)
    requires z == map[[] := 0]
    ensures Ranking(z) == [(0, [])]
  {
    hide Ranking;
    RankingSorted(z);
    assert |z| == 1;
    var r := Ranking(z);
    assert (r[0].0, r[0].1) in r;
  }

  /** ZRANGEBYSCORE key min max [LIMIT offset count]. */
  method Zrangebyscore(db: StorageEngine, ns: Bytes, k: Bytes, now: i64, min: Score, max: Score, offset: nat,
                       count: nat, ghost z: ScoreMap)
    returns (r: Result<Ranked>)
    requires ValidKey(k) && ValidNamespace(ns) && Holds(db.disk, ns, k, now, z)
    ensures var meta := ZsetMeta(db.disk, ns, k, now);
            if meta.Err? then r == Err(meta.error)
            else r == Ok(Limited(Keep(Ranking(z)[SeekRank(z, min)..], LOWEST, Position(max)), offset, count))
  {
    hide Represents, Stem, Ranking, SeekRank, ZsetMeta;
    var meta := ZsetMeta(db.disk, ns, k, now);
    if meta.Err? { return Err(meta.error); }
    if meta.value.None? {
      assert Ranking(z)[SeekRank(z, min)..] == [];
      return Ok([]);
    }
    var items := CollectByScore(db, ns, k, meta.value.value.version, min, max, offset, count, z);
    r := Ok(items);
  }

  /** The entries of one page for ZREVRANGEBYSCORE: pass over those above max, stop below min or at the limit. */
  method EmitPageDown(items: Ranked, min: Score, max: Score, offset: nat, count: nat, seen0: nat, result0: Ranked,
                      ghost before: Ranked)
    returns (seen: nat, result: Ranked, done: bool, n: nat)
    requires Emitted(before, Position(min), Position(max), offset, count, seen0, result0)
    requires !Full(Keep(before, Position(min), Position(max)), offset, count)
    ensures n <= |items| && Emitted(before + items[..n], Position(min), Position(max), offset, count, seen, result)
    ensures !done ==> n == |items| && !Full(Keep(before + items[..n], Position(min), Position(max)), offset, count)
    ensures done ==> Full(Keep(before + items[..n], Position(min), Position(max)), offset, count)
                     || (n < |items| && NumLess(items[n].0, min))
  {
    hide Emitted, Full, Keep;
    seen, result, done, n := seen0, result0, false, 0;
    assert before + items[..0] == before;
    while n < |items|
      invariant n <= |items| && !done
      invariant Emitted(before + items[..n], Position(min), Position(max), offset, count, seen, result)
      invariant !Full(Keep(before + items[..n], Position(min), Position(max)), offset, count)
    {
      var score := items[n].0;
      EmitStep(before + items[..n], items[n], Position(min), Position(max), offset, count, seen, result);
      assert before + items[..n + 1] == before + items[..n] + [items[n]];
      if NumLess(max, score) {
        n := n + 1;
        continue;
      }
      if NumLess(score, min) {
        done := true;
        break;
      }
      seen := seen + 1;
      n := n + 1;
      if seen <= offset { continue; }
      result := result + [items[n - 1]];
      if count > 0 && |result| >= count {
        done := true;
        break;
      }
    }
  }

  /** ZREVRANGEBYSCORE over a live set: exactly the entries with min <= score <= max, from the top, limited. */
  method CollectByScoreDown(db: StorageEngine, ns: Bytes, k: Bytes, version: u64, min: Score, max: Score, offset: nat,
                            count: nat, ghost z: ScoreMap)
    returns (result: Ranked)
    requires ValidKey(k) && ValidNamespace(ns) && Represents(db.disk, Stem(ns, k, version), z)
    ensures result == Limited(Keep(ReverseOf(Ranking(z)), Position(min), Position(max)), offset, count)
  {
    hide Represents, Stem, Ranking, WalkAt, Keep, Emitted, Full, Position, Limited, ReverseOf;
    ghost var p, lo, hi, walk := Stem(ns, k, version), Position(min), Position(max), ReverseOf(Ranking(z));
    WalkStart(db.disk, p, true);
    var current: Bytes, seen: nat, done := [], 0, false;
    result := [];
    ghost var q := 0;
    EmitNothing(lo, hi, offset, count);
    assert walk[..0] == [];
    while true
      invariant q <= |z| && WalkAt(db.disk, p, true, current, q) && !done
      invariant Emitted(walk[..q], lo, hi, offset, count, seen, result)
      invariant !Full(Keep(walk[..q], lo, hi), offset, count)
      decreases |z| - q
    {
      var items, next := NextPage(db, ns, k, version, true, current, z, q);
      if items == [] { break; }
      var n;
      seen, result, done, n := EmitPageDown(items, min, max, offset, count, seen, result, walk[..q]);
      TakeMore(walk, items, q, n);
      if done {
        EmittedDownIsFinal(z, min, max, offset, count, q + n, seen, result);
        return;
      }
      q := q + |items|;
      match next {
        case Some(key) => current := key;
        case None => break;
      }
    }
    assert walk[..|walk|] == walk;
    EmittedIs(walk, lo, hi, offset, count, seen, result);
  }

  lemma EmittedIs(l: Ranked, lo: int, hi: int, offset: nat, count: nat, seen: nat, result: Ranked)
    requires Emitted(l, lo, hi, offset, count, seen, result)
    ensures result == Limited(Keep(l, lo, hi), offset, count)
  {
  }

  lemma EmittedDownIsFinal(z: ScoreMap, min: Score, max: Score, offset: nat, count: nat, n: nat, seen: nat,
                           result: Ranked)
    requires var walk := ReverseOf(Ranking(z));
             && n <= |walk|
             && Emitted(walk[..n], Position(min), Position(max), offset, count, seen, result)
             && (Full(Keep(walk[..n], Position(min), Position(max)), offset, count)
                 || (n < |walk| && NumLess(walk[n].0, min)))
    ensures result == Limited(Keep(ReverseOf(Ranking(z)), Position(min), Position(max)), offset, count)
  {
    hide Ranking, Keep, Limited, Full;
    var lo, hi, walk := Position(min), Position(max), ReverseOf(Ranking(z));
    assert walk == walk[..n] + walk[n..];
    KeepConcat(walk[..n], walk[n..], lo, hi);
    if Full(Keep(walk[..n], lo, hi), offset, count) {
      FullStays(Keep(walk[..n], lo, hi), Keep(walk[n..], lo, hi), offset, count);
    } else {
      forall i | 0 <= i < |walk[n..]| ensures !(lo <= Position(walk[n..][i].0) <= hi) {
        WalkMonotone(z, true, n, n + i);
      }
      KeepNone(walk[n..], lo, hi);
      assert Keep(walk[..n], lo, hi) + [] == Keep(walk[..n], lo, hi);
    }
  }

  /** ZREVRANGEBYSCORE key max min [LIMIT offset count]. */
  method Zrevrangebyscore(db: StorageEngine, ns: Bytes, k: Bytes, now: i64, max: Score, min: Score, offset: nat,
                          count: nat, ghost z: ScoreMap)
    returns (r: Result<Ranked>)
    requires ValidKey(k) && ValidNamespace(ns) && Holds(db.disk, ns, k, now, z)
    ensures var meta := ZsetMeta(db.disk, ns, k, now);
            if meta.Err? then r == Err(meta.error)
            else r == Ok(Limited(Keep(ReverseOf(Ranking(z)), Position(min), Position(max)), offset, count))
  {
    hide Represents, Stem, Ranking, ZsetMeta;
    var meta := ZsetMeta(db.disk, ns, k, now);
    if meta.Err? { return Err(meta.error); }
    if meta.value.None? {
      assert ReverseOf(Ranking(z)) == [];
      return Ok([]);
    }
    var items := CollectByScoreDown(db, ns, k, meta.value.value.version, min, max, offset, count, z);
    r := Ok(items);
  }
}
