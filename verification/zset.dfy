/** Sorted sets as a map from members to scores, and their two stored forms:
    the member-to-score entries and the score|member index. */
module SortedSets {
  import opened ByteStrings
  import opened OrderedStore
  import opened Contexts
  import opened Scores

  type ScoreMap = map<Bytes, Score>

  /** What the subkey family holds for each member. */
  ghost function Codes(z: ScoreMap): map<Bytes, Bytes> {
    map m | m in z :: ScoreCode(z[m])
  }

  function IndexKey(s: Score, m: Bytes): Bytes { ScoreCode(s) + m }

  lemma IndexKeyInjective(s: Score, m: Bytes, t: Score, n: Bytes)
    ensures IndexKey(s, m) == IndexKey(t, n) <==> s == t && m == n
  {
    hide ScoreCode;
    ScoreRoundTrip(s);
    ScoreRoundTrip(t);
    assert IndexKey(s, m)[..8] == ScoreCode(s) && IndexKey(t, n)[..8] == ScoreCode(t);
    assert IndexKey(s, m)[8..] == m && IndexKey(t, n)[8..] == n;
  }

  ghost function IndexKeys(z: ScoreMap): (r: set<Bytes>)
    ensures forall s: Score, m :: IndexKey(s, m) in r <==> m in z && z[m] == s
  {
    hide IndexKey;
    var r := set m | m in z :: IndexKey(z[m], m);
    assert forall s: Score, m :: IndexKey(s, m) in r ==> m in z && z[m] == s by {
      forall s: Score, m | IndexKey(s, m) in r ensures m in z && z[m] == s {
        var n :| n in z && IndexKey(z[n], n) == IndexKey(s, m);
        IndexKeyInjective(z[n], n, s, m);
      }
    }
    r
  }

  /** What the score family holds: one empty value per score|member key. */
  ghost function Index(z: ScoreMap): map<Bytes, Bytes> {
    map k | k in IndexKeys(z) :: []
  }

  /** Both stored forms of z are complete and hold nothing else. */
  ghost predicate Represents(d: Disk, p: Bytes, z: ScoreMap) {
    View(d.subkey, p) == Codes(z) && View(d.zsetScore, p) == Index(z)
  }

  /** What agreement of the two forms means entry by entry: each member has exactly
      one index entry, it carries the stored score, and no other index entry exists. */
  lemma IndexBijection(d: Disk, p: Bytes, z: ScoreMap)
    requires Represents(d, p, z)
    ensures forall m :: p + m in d.subkey ==>
              exists s: Score :: d.subkey[p + m] == ScoreCode(s) && p + IndexKey(s, m) in d.zsetScore
    ensures forall s: Score, m :: p + IndexKey(s, m) in d.zsetScore ==>
              p + m in d.subkey && d.subkey[p + m] == ScoreCode(s)
    ensures forall k :: k in d.zsetScore && p <= k ==>
              exists s: Score, m :: k == p + IndexKey(s, m) && p + m in d.subkey
    ensures |View(d.subkey, p)| == |View(d.zsetScore, p)| == |z|
  {
    hide IndexKey, ScoreCode, Index, Codes, IndexKeys;
    forall m | p + m in d.subkey
      ensures exists s: Score :: d.subkey[p + m] == ScoreCode(s) && p + IndexKey(s, m) in d.zsetScore
    {
      StoredMember(d, p, z, m);
    }
    forall s: Score, m | p + IndexKey(s, m) in d.zsetScore
      ensures p + m in d.subkey && d.subkey[p + m] == ScoreCode(s)
    {
      StoredMember(d, p, z, m);
      var n := StoredIndex(d, p, z, p + IndexKey(s, m));
      assert (p + IndexKey(s, m))[|p|..] == IndexKey(s, m);
      IndexHolds(z, s, m);
    }
    forall k | k in d.zsetScore && p <= k
      ensures exists s: Score, m :: k == p + IndexKey(s, m) && p + m in d.subkey
    {
      var m := StoredIndex(d, p, z, k);
      StoredMember(d, p, z, m);
      assert k == p + IndexKey(z[m], m);
    }
    RepresentedSizes(d, p, z);
  }

  lemma IndexHolds(z: ScoreMap, s: Score, m: Bytes)
    ensures IndexKey(s, m) in Index(z) <==> m in z && z[m] == s
  {
  }

  lemma StoredMember(d: Disk, p: Bytes, z: ScoreMap, m: Bytes)
    requires Represents(d, p, z)
    ensures p + m in d.subkey <==> m in z
    ensures m in z ==> d.subkey[p + m] == ScoreCode(z[m]) && p + IndexKey(z[m], m) in d.zsetScore
  {
    hide IndexKey, ScoreCode;
    assert m in View(d.subkey, p) <==> p + m in d.subkey;
    assert m in z ==> IndexKey(z[m], m) in View(d.zsetScore, p);
  }

  lemma StoredIndex(d: Disk, p: Bytes, z: ScoreMap, k: Bytes) returns (m: Bytes)
    requires Represents(d, p, z) && k in d.zsetScore && p <= k
    ensures k[|p|..] in Index(z)
    ensures m in z && k == p + IndexKey(z[m], m)
  {
    hide IndexKey;
    assert k == p + k[|p|..];
    assert k[|p|..] in View(d.zsetScore, p);
    m :| m in z && IndexKey(z[m], m) == k[|p|..];
  }

  lemma RepresentedSizes(d: Disk, p: Bytes, z: ScoreMap)
    requires Represents(d, p, z)
    ensures |View(d.subkey, p)| == |View(d.zsetScore, p)| == |z|
  {
    hide View, IndexKeys;
    IndexSize(z);
    assert Codes(z).Keys == z.Keys;
    assert Index(z).Keys == IndexKeys(z);
    assert |Codes(z)| == |Codes(z).Keys| && |Index(z)| == |Index(z).Keys| && |z| == |z.Keys|;
  }

  lemma {:induction false} IndexSize(z: ScoreMap)
    ensures |IndexKeys(z)| == |z|
    decreases |z|
  {
    hide IndexKey;
    if z.Keys == {} {
      assert IndexKeys(z) == {};
      assert |z| == |z.Keys|;
    } else {
      var m :| m in z;
      var rest := z - {m};
      MapMinusOne(z, m);
      IndexSize(rest);
      IndexRemove(z, m);
      assert IndexKeys(z) == IndexKeys(rest) + {IndexKey(z[m], m)};
    }
  }

  lemma IndexRemove(z: ScoreMap, m: Bytes)
    requires m in z
    ensures IndexKeys(z - {m}) == IndexKeys(z) - {IndexKey(z[m], m)}
    ensures IndexKey(z[m], m) in IndexKeys(z)
  {
    hide IndexKey;
    var a, b := IndexKeys(z - {m}), IndexKeys(z) - {IndexKey(z[m], m)};
    forall k ensures k in a <==> k in b {
      if k in a {
        var n :| n in z - {m} && IndexKey((z - {m})[n], n) == k;
        IndexKeyInjective(z[n], n, z[m], m);
      }
      if k in b {
        var n :| n in z && IndexKey(z[n], n) == k;
        assert n in z - {m} && (z - {m})[n] == z[n];
      }
    }
  }

  lemma IndexAdd(z: ScoreMap, m: Bytes, s: Score)
    requires m !in z
    ensures IndexKeys(z[m := s]) == IndexKeys(z) + {IndexKey(s, m)}
  {
    hide IndexKey;
    var a, b := IndexKeys(z[m := s]), IndexKeys(z) + {IndexKey(s, m)};
    forall k ensures k in a <==> k in b {
      if k in a {
        var n :| n in z[m := s] && IndexKey(z[m := s][n], n) == k;
        assert n != m ==> n in z && z[n] == z[m := s][n];
      }
      if k in b && k != IndexKey(s, m) {
        var n :| n in z && IndexKey(z[n], n) == k;
        assert n in z[m := s] && z[m := s][n] == z[n];
      }
    }
  }

  // ---------- storing and removing one score ----------

  /** The writes that give m the score s: drop the old index entry, if any, then put both new entries. */
  function SetOps(p: Bytes, prev: Option<Score>, m: Bytes, s: Score): WriteBatch {
    (if prev.Some? then [Delete(CfZsetScore, p + IndexKey(prev.value, m))] else []) +
    [Put(CfSubkey, p + m, ScoreCode(s)), Put(CfZsetScore, p + IndexKey(s, m), [])]
  }

  /** The writes that remove m with its score. */
  function RemoveOps(p: Bytes, prev: Score, m: Bytes): WriteBatch {
    [Delete(CfSubkey, p + m), Delete(CfZsetScore, p + IndexKey(prev, m))]
  }

  lemma ApplySetOps(d: Disk, p: Bytes, prev: Option<Score>, m: Bytes, s: Score)
    ensures Apply(d, SetOps(p, prev, m, s)) ==
            Disk(d.metadata, d.subkey[p + m := ScoreCode(s)],
                 (if prev.Some? then d.zsetScore - {p + IndexKey(prev.value, m)}
                  else d.zsetScore)[p + IndexKey(s, m) := []])
  {
    hide IndexKey, ScoreCode;
    var del := if prev.Some? then [Delete(CfZsetScore, p + IndexKey(prev.value, m))] else [];
    var a, b := Put(CfSubkey, p + m, ScoreCode(s)), Put(CfZsetScore, p + IndexKey(s, m), []);
    assert SetOps(p, prev, m, s) == del + [a] + [b];
    ApplySnoc(d, del + [a], b);
    ApplySnoc(d, del, a);
    if prev.Some? { ApplyOne(d, del[0]); }
  }

  lemma CodesPut(f: Family, p: Bytes, z: ScoreMap, m: Bytes, s: Score)
    requires View(f, p) == Codes(z)
    ensures View(f[p + m := ScoreCode(s)], p) == Codes(z[m := s])
  {
    hide View, ScoreCode;
    ViewPut(f, p, m, ScoreCode(s));
    assert Codes(z[m := s]) == Codes(z)[m := ScoreCode(s)];
  }

  lemma IndexDrop(f: Family, p: Bytes, z: ScoreMap, m: Bytes)
    requires View(f, p) == Index(z)
    ensures View(if m in z then f - {p + IndexKey(z[m], m)} else f, p) == Index(z - {m})
  {
    hide View, IndexKey, IndexKeys;
    if m in z {
      ViewDelete(f, p, IndexKey(z[m], m));
      IndexRemove(z, m);
      assert Index(z - {m}) == Index(z) - {IndexKey(z[m], m)};
    } else {
      assert z - {m} == z;
    }
  }

  lemma IndexPut(f: Family, p: Bytes, z: ScoreMap, m: Bytes, s: Score)
    requires View(f, p) == Index(z)
    ensures View((if m in z then f - {p + IndexKey(z[m], m)} else f)[p + IndexKey(s, m) := []], p) == Index(z[m := s])
  {
    hide View, IndexKey, IndexKeys;
    IndexDrop(f, p, z, m);
    var g, rest := if m in z then f - {p + IndexKey(z[m], m)} else f, z - {m};
    ViewPut(g, p, IndexKey(s, m), []);
    IndexAdd(rest, m, s);
    assert rest[m := s] == z[m := s];
    assert Index(z[m := s]) == Index(rest)[IndexKey(s, m) := []];
  }

  lemma IndexOutside(f: Family, p: Bytes, prev: Option<Score>, m: Bytes, s: Score)
    ensures SameOutside(f, (if prev.Some? then f - {p + IndexKey(prev.value, m)} else f)[p + IndexKey(s, m) := []], p)
  {
    hide SameOutside, IndexKey;
    var g := if prev.Some? then f - {p + IndexKey(prev.value, m)} else f;
    if prev.Some? { DeleteOutside(f, p, IndexKey(prev.value, m)); }
    PutOutside(g, p, IndexKey(s, m), []);
    if prev.Some? { SameOutsideTransitive(f, g, g[p + IndexKey(s, m) := []], p); }
  }

  /** Storing a score keeps the two forms in agreement, whatever the previous score was,
      equal patterns included: the put comes after the delete. */
  lemma SetScore(d: Disk, p: Bytes, z: ScoreMap, m: Bytes, s: Score, mk: Bytes)
    requires Represents(d, p, z)
    ensures var e := Apply(d, SetOps(p, Lookup(z, m), m, s));
            Represents(e, p, z[m := s]) && e.metadata == d.metadata && Touches(d, e, mk, p)
  {
    hide IndexKey, ScoreCode, Apply, SetOps, View, Codes, Index, SameOutside;
    ApplySetOps(d, p, Lookup(z, m), m, s);
    CodesPut(d.subkey, p, z, m, s);
    IndexPut(d.zsetScore, p, z, m, s);
    PutOutside(d.subkey, p, m, ScoreCode(s));
    IndexOutside(d.zsetScore, p, Lookup(z, m), m, s);
  }

  lemma ApplyRemoveOps(d: Disk, p: Bytes, s: Score, m: Bytes)
    ensures Apply(d, RemoveOps(p, s, m)) ==
            Disk(d.metadata, d.subkey - {p + m}, d.zsetScore - {p + IndexKey(s, m)})
  {
    hide IndexKey;
    var a, b := Delete(CfSubkey, p + m), Delete(CfZsetScore, p + IndexKey(s, m));
    assert RemoveOps(p, s, m) == [a] + [b];
    ApplySnoc(d, [a], b);
    ApplyOne(d, a);
  }

  lemma RemoveScore(d: Disk, p: Bytes, z: ScoreMap, m: Bytes, mk: Bytes)
    requires Represents(d, p, z) && m in z
    ensures var e := Apply(d, RemoveOps(p, z[m], m));
            Represents(e, p, z - {m}) && e.metadata == d.metadata && Touches(d, e, mk, p)
  {
    hide IndexKey, Apply, RemoveOps, View, Index, SameOutside;
    ApplyRemoveOps(d, p, z[m], m);
    ViewDelete(d.subkey, p, m);
    assert Codes(z - {m}) == Codes(z) - {m};
    IndexDrop(d.zsetScore, p, z, m);
    DeleteOutside(d.subkey, p, m);
    DeleteOutside(d.zsetScore, p, IndexKey(z[m], m));
  }

  /** Removing again what the batch has already removed changes nothing. */
  lemma RemoveScoreAgain(d: Disk, p: Bytes, z: ScoreMap, m: Bytes, s: Score)
    requires Represents(d, p, z) && m !in z
    ensures Apply(d, RemoveOps(p, s, m)) == d
  {
    hide IndexKey, Apply, RemoveOps;
    ApplyRemoveOps(d, p, s, m);
    assert m !in View(d.subkey, p);
    assert IndexKey(s, m) !in View(d.zsetScore, p);
    MinusAbsent(d.subkey, p + m);
    MinusAbsent(d.zsetScore, p + IndexKey(s, m));
  }

  lemma MinusAbsent(f: Family, k: Bytes)
    requires k !in f
    ensures f - {k} == f
  {
  }

  // ---------- the ranking ----------

  /** The members with their scores in index order. */
  ghost function Ranking(z: ScoreMap): (r: seq<(Score, Bytes)>)
    ensures |r| == |z|
  {
    var keys := SortedKeys(IndexKeys(z));
    IndexSize(z);
    seq(|keys|, i requires 0 <= i < |keys| => PairOf(z, keys[i]))
  }

  ghost function PairOf(z: ScoreMap, key: Bytes): (r: (Score, Bytes))
    requires key in IndexKeys(z)
    ensures r.1 in z && z[r.1] == r.0 && key == IndexKey(r.0, r.1)
  {
    var m :| m in z && IndexKey(z[m], m) == key;
    (z[m], m)
  }

  /** By score in totalOrder, then by member. */
  predicate RankLess(a: (Score, Bytes), b: (Score, Bytes)) {
    TotalLess(a.0, b.0) || (a.0 == b.0 && Less(a.1, b.1))
  }

  /** The ranking lists exactly the scored members, each once, strictly ascending. */
  lemma RankingSorted(z: ScoreMap)
    ensures forall i, j :: 0 <= i < j < |Ranking(z)| ==> RankLess(Ranking(z)[i], Ranking(z)[j])
    ensures forall s: Score, m :: (s, m) in Ranking(z) <==> m in z && z[m] == s
  {
    hide SortedKeys, IndexKey, Less, TotalLess;
    var keys := SortedKeys(IndexKeys(z));
    var r := Ranking(z);
    forall i, j | 0 <= i < j < |r| ensures RankLess(r[i], r[j]) {
      assert Less(keys[i], keys[j]);
      RankIsIndexOrder(r[i], r[j]);
    }
    forall s: Score, m ensures (s, m) in r <==> m in z && z[m] == s {
      if (s, m) in r {
        var i :| 0 <= i < |r| && r[i] == (s, m);
      }
      if m in z && z[m] == s {
        assert IndexKey(s, m) in keys;
        var i :| 0 <= i < |keys| && keys[i] == IndexKey(s, m);
        IndexKeyInjective(r[i].0, r[i].1, s, m);
        assert r[i] == (s, m);
      }
    }
  }

  lemma RankingAscends(z: ScoreMap, i: nat, j: nat)
    requires i < j < |z|
    ensures RankLess(Ranking(z)[i], Ranking(z)[j])
  {
    hide Ranking, RankLess;
    RankingSorted(z);
  }

  lemma RankIsIndexOrder(a: (Score, Bytes), b: (Score, Bytes))
    ensures Less(IndexKey(a.0, a.1), IndexKey(b.0, b.1)) <==> RankLess(a, b)
  {
    ScoreMemberOrder(a.0, a.1, b.0, b.1);
  }

  /** The position of a member in the ranking. */
  ghost function RankOf(z: ScoreMap, m: Bytes): (i: nat)
    requires m in z
    ensures i < |z| && Ranking(z)[i] == (z[m], m)
  {
    RankingSorted(z);
    assert (z[m], m) in Ranking(z);
    var i :| 0 <= i < |Ranking(z)| && Ranking(z)[i] == (z[m], m);
    i
  }

  /** A member appears at one position only. */
  lemma RankUnique(z: ScoreMap, i: nat, j: nat)
    requires i < |z| && j < |z| && Ranking(z)[i].1 == Ranking(z)[j].1
    ensures i == j
  {
    hide Ranking, Less, TotalLess;
    RankingSorted(z);
    var r := Ranking(z);
    assert (r[i].0, r[i].1) in r && (r[j].0, r[j].1) in r;
    if i < j { assert RankLess(r[i], r[j]); RankIrreflexive(r[i]); assert false; }
    if j < i { assert RankLess(r[j], r[i]); RankIrreflexive(r[i]); assert false; }
  }

  lemma RankIrreflexive(a: (Score, Bytes))
    ensures !RankLess(a, a)
  {
    LessIrreflexive(a.1);
  }

  /** The rank of a member counts the entries before it. */
  lemma RankCounts(z: ScoreMap, m: Bytes, i: nat)
    requires m in z && i < |z|
    ensures RankLess(Ranking(z)[i], (z[m], m)) <==> i < RankOf(z, m)
  {
    hide Ranking, Less, TotalLess;
    RankingSorted(z);
    var r, j := Ranking(z), RankOf(z, m);
    if i < j {
      assert RankLess(r[i], r[j]);
    } else if i == j {
      RankIrreflexive(r[i]);
    } else {
      assert RankLess(r[j], r[i]);
      RankAsymmetric(r[i], r[j]);
    }
  }

  lemma RankAsymmetric(a: (Score, Bytes), b: (Score, Bytes))
    ensures !(RankLess(a, b) && RankLess(b, a))
  {
    LessAsymmetric(a.1, b.1);
  }
}
