/** The ordered key-value store: column families as finite maps iterated in
    byte order, atomic write batches, and the paged prefix scans built on them. */
module OrderedStore {
  import opened ByteStrings

  type Family = map<Bytes, Bytes>

  datatype Column = CfMetadata | CfSubkey | CfZsetScore

  datatype Disk = Disk(metadata: Family, subkey: Family, zsetScore: Family) {
    function Get(c: Column): Family {
      match c
      case CfMetadata => metadata
      case CfSubkey => subkey
      case CfZsetScore => zsetScore
    }

    function With(c: Column, f: Family): Disk {
      match c
      case CfMetadata => this.(metadata := f)
      case CfSubkey => this.(subkey := f)
      case CfZsetScore => this.(zsetScore := f)
    }
  }

  // ---------- write batches ----------

  datatype WriteOp =
    | Put(cf: Column, key: Bytes, value: Bytes)
    | Delete(cf: Column, key: Bytes)

  type WriteBatch = seq<WriteOp>

  function ApplyOp(d: Disk, op: WriteOp): Disk {
    match op
    case Put(cf, k, v) => d.With(cf, d.Get(cf)[k := v])
    case Delete(cf, k) => d.With(cf, d.Get(cf) - {k})
  }

  /** A batch takes effect as a whole, a later operation on a key winning. */
  function Apply(d: Disk, batch: WriteBatch): Disk {
    if batch == [] then d
    else ApplyOp(Apply(d, batch[..|batch| - 1]), batch[|batch| - 1])
  }

  /** The operation is on this key of this family. */
  predicate OnKey(op: WriteOp, cf: Column, k: Bytes) { op.cf == cf && op.key == k }

  /** A batch leaves a key it does not name as it was. */
  lemma {:induction false} BatchKeeps(d: Disk, batch: WriteBatch, cf: Column, k: Bytes)
    requires forall i :: 0 <= i < |batch| ==> !OnKey(batch[i], cf, k)
    ensures k in Apply(d, batch).Get(cf) <==> k in d.Get(cf)
    ensures k in d.Get(cf) ==> Apply(d, batch).Get(cf)[k] == d.Get(cf)[k]
  {
    if batch != [] { BatchKeeps(d, batch[..|batch| - 1], cf, k); }
  }

  /** The last operation of a batch on a key decides: its value after a put, gone after a delete. */
  lemma {:induction false} LastWins(d: Disk, batch: WriteBatch, cf: Column, k: Bytes, i: nat)
    requires i < |batch| && OnKey(batch[i], cf, k)
    requires forall j :: i < j < |batch| ==> !OnKey(batch[j], cf, k)
    ensures var f := Apply(d, batch).Get(cf);
            match batch[i]
            case Put(_, _, v) => k in f && f[k] == v
            case Delete(_, _) => k !in f
  {
    var n := |batch| - 1;
    if i < n { LastWins(d, batch[..n], cf, k, i); }
  }

  lemma ApplySnoc(d: Disk, batch: WriteBatch, op: WriteOp)
    ensures Apply(d, batch + [op]) == ApplyOp(Apply(d, batch), op)
  {
    assert (batch + [op])[..|batch|] == batch;
  }

  // ---------- keys in iteration order ----------

  ghost predicate Ascending(s: seq<Bytes>) {
    forall i, j {:trigger Less(s[i], s[j])} :: 0 <= i < j < |s| ==> Less(s[i], s[j])
  }

  predicate IsLeast(k: Bytes, s: set<Bytes>) {
    k in s && forall x :: x in s ==> AtMost(k, x)
  }

  lemma LeastExists(s: set<Bytes>)
    requires s != {}
    ensures exists k :: IsLeast(k, s)
  {
    var x :| x in s;
    if s == {x} {
      assert IsLeast(x, s);
    } else {
      LeastExists(s - {x});
      var y :| IsLeast(y, s - {x});
      LessTotal(x, y);
      if Less(x, y) {
        forall z | z in s ensures AtMost(x, z) {
          if z != x && z != y {
            assert z in s - {x};
            LessTransitive(x, y, z);
          }
        }
        assert IsLeast(x, s);
      } else {
        assert IsLeast(y, s);
      }
    }
  }

  function Least(s: set<Bytes>): (k: Bytes)
    requires s != {}
    ensures IsLeast(k, s)
  {
    LeastExists(s);
    assert forall x, y :: IsLeast(x, s) && IsLeast(y, s) ==> x == y by {
      forall x, y | IsLeast(x, s) && IsLeast(y, s) ensures x == y {
        LessAsymmetric(x, y);
      }
    }
    var k :| k in s && IsLeast(k, s);
    k
  }

  /** The iteration order of a column family that holds the keys s. */
  function SortedKeys(s: set<Bytes>): (r: seq<Bytes>)
    ensures Ascending(r)
    ensures forall k :: k in r <==> k in s
    ensures |r| == |s|
    decreases |s|
  {
    if s == {} then []
    else
      var k := Least(s);
      var rest := SortedKeys(s - {k});
      assert forall i :: 0 <= i < |rest| ==> Less(k, rest[i]) by {
        assert forall i :: 0 <= i < |rest| ==> rest[i] in s - {k};
      }
      [k] + rest
  }

  lemma HeadIsLeast(s: seq<Bytes>, k: Bytes)
    requires Ascending(s) && k in s
    ensures AtMost(s[0], k)
  {
    var i :| 0 <= i < |s| && s[i] == k;
    assert i == 0 || Less(s[0], s[i]);
  }

  lemma HeadNotRepeated(s: seq<Bytes>)
    requires Ascending(s) && s != []
    ensures s[0] !in s[1..]
  {
    if s[0] in s[1..] {
      var i :| 0 <= i < |s| - 1 && s[1..][i] == s[0];
      assert Less(s[0], s[i + 1]);
      LessIrreflexive(s[0]);
      assert false;
    }
  }

  lemma {:induction false} AscendingUnique(a: seq<Bytes>, b: seq<Bytes>)
    requires Ascending(a) && Ascending(b)
    requires forall k :: k in a <==> k in b
    ensures a == b
  {
    hide Less;
    if a != [] { assert a[0] in b; }
    if b != [] { assert b[0] in a; }
    if a != [] && b != [] {
      assert AtMost(a[0], b[0]) && AtMost(b[0], a[0]) by {
        HeadIsLeast(a, b[0]);
        HeadIsLeast(b, a[0]);
      }
      LessAsymmetric(a[0], b[0]);
      HeadNotRepeated(a);
      HeadNotRepeated(b);
      forall k ensures k in a[1..] <==> k in b[1..] {
        assert k in a <==> k == a[0] || k in a[1..];
        assert k in b <==> k == b[0] || k in b[1..];
      }
      AscendingUnique(a[1..], b[1..]);
      assert a == [a[0]] + a[1..] && b == [b[0]] + b[1..];
    }
  }

  /** The first position whose key is at or above k: where a forward seek lands. */
  function LowerBound(keys: seq<Bytes>, k: Bytes): (n: nat)
    requires Ascending(keys)
    ensures n <= |keys|
    ensures forall i :: 0 <= i < n ==> Less(keys[i], k)
    ensures forall i :: n <= i < |keys| ==> !Less(keys[i], k)
  {
    if keys == [] then 0
    else if Less(keys[0], k) then 1 + LowerBound(keys[1..], k)
    else
      assert forall i :: 0 < i < |keys| ==> !Less(keys[i], k) by {
        forall i | 0 < i < |keys| ensures !Less(keys[i], k) {
          if Less(keys[i], k) { LessTransitive(keys[0], keys[i], k); }
        }
      }
      0
  }

  /** One past the last position at or below k: a reverse seek lands just before it. */
  function UpperBound(keys: seq<Bytes>, k: Bytes): (n: nat)
    requires Ascending(keys)
    ensures n <= |keys|
    ensures forall i :: 0 <= i < n ==> AtMost(keys[i], k)
    ensures forall i :: n <= i < |keys| ==> Less(k, keys[i])
  {
    var n := LowerBound(keys, k);
    if n < |keys| && keys[n] == k then
      n + 1
    else
      assert forall i :: n <= i < |keys| ==> Less(k, keys[i]) by {
        forall i | n <= i < |keys| ensures Less(k, keys[i]) {
          LessTotal(k, keys[i]);
          if keys[i] == k && n < i { LessTotal(keys[n], k); }
        }
      }
      n
  }

  function Entries(f: Family, keys: seq<Bytes>): (r: seq<(Bytes, Bytes)>)
    requires forall k :: k in keys ==> k in f
    ensures |r| == |keys|
  {
    seq(|keys|, i requires 0 <= i < |keys| => (keys[i], f[keys[i]]))
  }

  ghost function Under(f: Family, prefix: Bytes): set<Bytes> {
    set k | k in f && prefix <= k
  }

  /** Every key with the prefix, in key order: what prefix_scan returns. */
  ghost function Scan(f: Family, prefix: Bytes): (r: seq<Bytes>)
    ensures forall k :: k in r <==> k in f && prefix <= k
    ensures Ascending(r)
  {
    SortedKeys(Under(f, prefix))
  }

  // ---------- forward pages ----------

  datatype Page = Page(items: seq<(Bytes, Bytes)>, next: Option<Bytes>)

  /** Where a scan that starts at base stops: at the first key outside the prefix. */
  function RunEnd(keys: seq<Bytes>, base: nat, prefix: Bytes): (e: nat)
    requires base <= |keys|
    ensures base <= e <= |keys|
    ensures forall i :: base <= i < e ==> prefix <= keys[i]
    ensures e < |keys| ==> !(prefix <= keys[e])
    decreases |keys| - base
  {
    if base == |keys| || !(prefix <= keys[base]) then base else RunEnd(keys, base + 1, prefix)
  }

  /** The first position a forward page may return. */
  function ForwardBase(keys: seq<Bytes>, prefix: Bytes, start: Bytes): (n: nat)
    requires Ascending(keys)
    ensures n <= |keys|
    ensures forall i :: 0 <= i < n ==> if start == [] then Less(keys[i], prefix) else AtMost(keys[i], start)
    ensures forall i :: n <= i < |keys| ==> if start == [] then !Less(keys[i], prefix) else Less(start, keys[i])
  {
    if start == [] then LowerBound(keys, prefix) else UpperBound(keys, start)
  }

  /** The keys a forward page may return: from the prefix, or strictly after start,
      up to the first key outside the prefix. */
  function ForwardRun(f: Family, prefix: Bytes, start: Bytes): (r: seq<Bytes>)
    ensures forall k :: k in r ==> k in f && prefix <= k
    ensures Ascending(r)
  {
    hide Less, SortedKeys, RunEnd, ForwardBase;
    var keys := SortedKeys(f.Keys);
    var base := ForwardBase(keys, prefix, start);
    keys[base..RunEnd(keys, base, prefix)]
  }

  /** The page size in force: a limit of 0 still returns one entry. */
  function PageSize(limit: nat): nat { if limit == 0 then 1 else limit }

  function CutPage(f: Family, run: seq<Bytes>, limit: nat): (p: Page)
    requires forall k :: k in run ==> k in f
    ensures |p.items| <= PageSize(limit)
  {
    var n := PageSize(limit);
    if |run| <= n then Page(Entries(f, run), None)
    else Page(Entries(f, run[..n]), Some(run[n - 1]))
  }

  function ForwardPage(f: Family, prefix: Bytes, start: Bytes, limit: nat): Page {
    CutPage(f, ForwardRun(f, prefix, start), limit)
  }

  ghost function Remaining(f: Family, prefix: Bytes, start: Bytes): set<Bytes> {
    set k | k in f && prefix <= k && (start == [] || Less(start, k))
  }

  /** From a start inside or above the prefix, a run misses no key. */
  lemma ForwardRunComplete(f: Family, prefix: Bytes, start: Bytes)
    requires start == [] || AtMost(prefix, start)
    ensures ForwardRun(f, prefix, start) == SortedKeys(Remaining(f, prefix, start))
  {
    hide Less, SortedKeys, RunEnd, ForwardBase, Remaining;
    var keys := SortedKeys(f.Keys);
    var base := ForwardBase(keys, prefix, start);
    forall k ensures k in ForwardRun(f, prefix, start) <==> k in Remaining(f, prefix, start) {
      RunIsRemaining(f, prefix, start, base, RunEnd(keys, base, prefix), k);
    }
    AscendingUnique(ForwardRun(f, prefix, start), SortedKeys(Remaining(f, prefix, start)));
  }

  lemma RunIsRemaining(f: Family, prefix: Bytes, start: Bytes, base: nat, e: nat, k: Bytes)
    requires start == [] || AtMost(prefix, start)
    requires var keys := SortedKeys(f.Keys);
             base == ForwardBase(keys, prefix, start) && e == RunEnd(keys, base, prefix)
    ensures k in SortedKeys(f.Keys)[base..e] <==> k in Remaining(f, prefix, start)
  {
    hide Less, SortedKeys, RunEnd, ForwardBase;
    var keys := SortedKeys(f.Keys);
    if k in keys[base..e] {
      var i :| base <= i < e && keys[i] == k;
    }
    if k in Remaining(f, prefix, start) {
      assert k in keys;
      var i :| 0 <= i < |keys| && keys[i] == k;
      AfterIsInRun(keys, prefix, start, base, e, i);
      assert keys[base..e][i - base] == k;
    }
  }

  /** Walking up from the seek, the prefix is not left before its greatest key. */
  lemma AfterIsInRun(keys: seq<Bytes>, prefix: Bytes, start: Bytes, base: nat, e: nat, i: nat)
    requires Ascending(keys) && base <= e <= |keys| && i < |keys|
    requires start == [] || AtMost(prefix, start)
    requires prefix <= keys[i] && (start == [] || Less(start, keys[i]))
    requires forall j :: 0 <= j < base ==> if start == [] then Less(keys[j], prefix) else AtMost(keys[j], start)
    requires forall j :: base <= j < |keys| ==> if start == [] then !Less(keys[j], prefix) else Less(start, keys[j])
    requires e < |keys| ==> !(prefix <= keys[e])
    ensures base <= i < e
  {
    hide Less;
    PrefixAtMost(prefix, keys[i]);
    if i < base {
      LessAsymmetric(start, keys[i]);
      LessIrreflexive(keys[i]);
      assert false;
    }
    if i >= e {
      var x := keys[e];
      assert i == e || Less(x, keys[i]);
      BoundaryBelow(prefix, start, x);
      PrefixBetween(prefix, x, keys[i]);
      assert false;
    }
  }

  lemma BoundaryBelow(prefix: Bytes, start: Bytes, x: Bytes)
    requires start == [] || AtMost(prefix, start)
    requires if start == [] then !Less(x, prefix) else Less(start, x)
    ensures AtMost(prefix, x)
  {
    LessTotal(prefix, x);
    if start != [] && Less(prefix, start) { LessTransitive(prefix, start, x); }
  }

  /** start is the cursor that stands after the first p keys of the scan. */
  ghost predicate CursorAt(scan: seq<Bytes>, start: Bytes, p: nat) {
    p <= |scan| && if p == 0 then start == [] else start == scan[p - 1] && start != []
  }

  lemma {:induction false} RemainingAt(f: Family, prefix: Bytes, start: Bytes, p: nat)
    requires CursorAt(Scan(f, prefix), start, p)
    ensures ForwardRun(f, prefix, start) == Scan(f, prefix)[p..]
  {
    hide Less, SortedKeys, ForwardRun;
    var scan := Scan(f, prefix);
    if p > 0 {
      assert start in scan;
      PrefixAtMost(prefix, start);
    }
    ForwardRunComplete(f, prefix, start);
    forall k ensures k in Remaining(f, prefix, start) <==> k in scan[p..] {
      if k in Remaining(f, prefix, start) {
        assert k in scan;
        var i :| 0 <= i < |scan| && scan[i] == k;
        if i < p {
          assert i == p - 1 || Less(scan[i], scan[p - 1]);
          LessAsymmetric(start, k);
          LessIrreflexive(k);
          assert false;
        }
        assert scan[p..][i - p] == k;
      }
      if k in scan[p..] {
        var i :| 0 <= i < |scan| - p && scan[p..][i] == k;
        assert scan[p + i] == k && k in scan;
        assert p > 0 ==> Less(scan[p - 1], scan[p + i]);
      }
    }
    AscendingUnique(ForwardRun(f, prefix, start), scan[p..]);
  }

  /** A page read at position p of the scan is the next slice of it, and its
      next cursor stands at the end of that slice, or is absent at the end. */
  lemma PageAt(f: Family, prefix: Bytes, start: Bytes, p: nat, limit: nat)
    requires CursorAt(Scan(f, prefix), start, p)
    ensures var scan := Scan(f, prefix);
            var page := ForwardPage(f, prefix, start, limit);
            var e := if p + PageSize(limit) < |scan| then p + PageSize(limit) else |scan|;
            && page.items == Entries(f, scan[p..e])
            && page.next == (if e < |scan| then Some(scan[e - 1]) else None)
            && (page.next.Some? && page.next.value != [] ==> CursorAt(scan, page.next.value, e))
  {
    hide Less, SortedKeys, ForwardRun;
    RemainingAt(f, prefix, start, p);
    var scan := Scan(f, prefix);
    var n := PageSize(limit);
    if |scan[p..]| > n {
      assert scan[p..][..n] == scan[p..p + n];
    } else {
      assert scan[p..] == scan[p..|scan|];
    }
  }

  /** Any start key at or above the prefix stands after the keys at or below it. */
  ghost predicate Positioned(scan: seq<Bytes>, prefix: Bytes, start: Bytes, q: nat)
    requires Ascending(scan)
  {
    if start == [] then q == 0 else AtMost(prefix, start) && q == UpperBound(scan, start)
  }

  lemma RunFrom(f: Family, prefix: Bytes, start: Bytes, q: nat)
    requires Positioned(Scan(f, prefix), prefix, start, q)
    ensures q <= |Scan(f, prefix)| && ForwardRun(f, prefix, start) == Scan(f, prefix)[q..]
  {
    hide Less, SortedKeys, ForwardRun, UpperBound, Scan;
    var scan := Scan(f, prefix);
    ForwardRunComplete(f, prefix, start);
    forall k ensures k in Remaining(f, prefix, start) <==> k in scan[q..] {
      if k in Remaining(f, prefix, start) {
        assert k in scan;
        var i :| 0 <= i < |scan| && scan[i] == k;
        if i < q {
          LessAsymmetric(start, k);
          LessIrreflexive(k);
          assert false;
        }
        assert scan[q..][i - q] == k;
      }
      if k in scan[q..] {
        var i :| 0 <= i < |scan| - q && scan[q..][i] == k;
        assert scan[q + i] == k && k in scan;
      }
    }
    assert Ascending(scan[q..]);
    AscendingUnique(ForwardRun(f, prefix, start), scan[q..]);
  }

  /** The page is the slice of the scan that follows the first p keys, and its cursor the
      last key of that slice, or absent at the end. */
  ghost predicate NextSlice(f: Family, scan: seq<Bytes>, p: nat, limit: nat, page: Page)
    requires p <= |scan| && forall k :: k in scan ==> k in f
  {
    var e := Min(p + PageSize(limit), |scan|);
    && page.items == Entries(f, scan[p..e])
    && page.next == (if e < |scan| then Some(scan[e - 1]) else None)
  }

  /** A page read from such a position is the next slice of the scan. */
  lemma PageFrom(f: Family, prefix: Bytes, start: Bytes, q: nat, limit: nat)
    requires prefix != [] && Positioned(Scan(f, prefix), prefix, start, q)
    ensures var scan := Scan(f, prefix);
            var page := ForwardPage(f, prefix, start, limit);
            var e := Min(q + PageSize(limit), |scan|);
            && q <= e && NextSlice(f, scan, q, limit, page)
            && (page.next.Some? ==> page.next.value != [] && Positioned(scan, prefix, page.next.value, e))
  {
    hide Less, SortedKeys, ForwardRun, UpperBound, Scan;
    RunFrom(f, prefix, start, q);
    var scan := Scan(f, prefix);
    var n := PageSize(limit);
    if |scan[q..]| > n {
      assert scan[q..][..n] == scan[q..q + n];
      assert scan[q + n - 1] in scan;
      PrefixAtMost(prefix, scan[q + n - 1]);
      UpperBoundOf(scan, q + n - 1);
    } else {
      assert scan[q..] == scan[q..|scan|];
    }
  }

  lemma StartPositioned(f: Family, prefix: Bytes)
    ensures Positioned(Scan(f, prefix), prefix, [], 0)
  {
  }

  lemma EntriesSlice(f: Family, keys: seq<Bytes>, q: nat, e: nat, i: nat)
    requires q + i < e <= |keys| && forall k :: k in keys ==> k in f
    ensures Entries(f, keys[q..e])[i] == (keys[q + i], f[keys[q + i]])
  {
  }

  lemma UpperBoundOf(keys: seq<Bytes>, i: nat)
    requires Ascending(keys) && i < |keys|
    ensures UpperBound(keys, keys[i]) == i + 1
  {
    hide Less, LowerBound, UpperBound;
    var n := UpperBound(keys, keys[i]);
    LessIrreflexive(keys[i]);
    if n > i + 1 {
      assert Less(keys[i], keys[i + 1]);
      LessAsymmetric(keys[i], keys[i + 1]);
    }
  }

  /** Pages read one after another, each from the cursor the previous one returned. */
  ghost predicate IsPageChain(f: Family, prefix: Bytes, limit: nat, pages: seq<Page>) {
    && |pages| > 0
    && pages[0] == ForwardPage(f, prefix, [], limit)
    && forall i :: 0 <= i < |pages| - 1 ==>
         pages[i].next.Some? && pages[i + 1] == ForwardPage(f, prefix, pages[i].next.value, limit)
  }

  ghost function ChainItems(pages: seq<Page>): seq<(Bytes, Bytes)> {
    if pages == [] then [] else ChainItems(pages[..|pages| - 1]) + pages[|pages| - 1].items
  }

  /** The one chain that does not advance: the empty key ends a page of one. */
  ghost predicate CursorSticks(f: Family, prefix: Bytes, limit: nat) {
    prefix == [] && [] in f && limit <= 1 && |f| > 1
  }

  function Min(a: nat, b: nat): nat { if a < b then a else b }

  /** How many entries k full pages hold. */
  function PagesHold(k: nat, limit: nat): nat {
    if k == 0 then 0 else PagesHold(k - 1, limit) + PageSize(limit)
  }

  /** Every page but the last holds limit entries, one when the limit is 0. */
  lemma {:induction false} PagesHoldProduct(k: nat, limit: nat)
    ensures PagesHold(k, limit) == if limit == 0 then k else k * limit
  {
    if k > 0 { PagesHoldProduct(k - 1, limit); }
  }

  /** k chained pages are the first k * limit entries of the one-shot scan, so the
      chain ends, and covers the scan exactly, at the first page that reaches its end. */
  lemma {:induction false} ChainedPages(f: Family, prefix: Bytes, limit: nat, pages: seq<Page>)
    requires IsPageChain(f, prefix, limit, pages)
    requires !CursorSticks(f, prefix, limit)
    ensures var scan := Scan(f, prefix);
            var e := PagesHold(|pages|, limit);
            && ChainItems(pages) == Entries(f, scan[..Min(e, |scan|)])
            && (pages[|pages| - 1].next.None? <==> e >= |scan|)
            && (e < |scan| ==> CursorAt(scan, pages[|pages| - 1].next.value, e))
  {
    hide Less, SortedKeys, ForwardPage, Scan, Entries;
    var scan := Scan(f, prefix);
    var last := |pages| - 1;
    var p := PagesHold(last, limit);
    if last == 0 {
      assert ChainItems(pages[..0]) == [];
      assert Entries(f, scan[..0]) == [];
      ChainExtend(f, prefix, limit, [], 0);
    } else {
      var init := pages[..last];
      ChainedPages(f, prefix, limit, init);
      assert init[last - 1] == pages[last - 1] && pages[last - 1].next.Some?;
      assert p < |scan| && CursorAt(scan, pages[last - 1].next.value, p);
      ChainExtend(f, prefix, limit, pages[last - 1].next.value, p);
    }
  }

  lemma ChainExtend(f: Family, prefix: Bytes, limit: nat, start: Bytes, p: nat)
    requires CursorAt(Scan(f, prefix), start, p) && !CursorSticks(f, prefix, limit)
    ensures var scan := Scan(f, prefix);
            var page := ForwardPage(f, prefix, start, limit);
            var e := p + PageSize(limit);
            && Entries(f, scan[..p]) + page.items == Entries(f, scan[..Min(e, |scan|)])
            && (page.next.None? <==> e >= |scan|)
            && (e < |scan| ==> CursorAt(scan, page.next.value, e))
  {
    hide Less, SortedKeys, ForwardPage, Scan;
    PageAt(f, prefix, start, p, limit);
    var scan := Scan(f, prefix);
    var e := Min(p + PageSize(limit), |scan|);
    assert scan[..p] + scan[p..e] == scan[..e];
    assert Entries(f, scan[..p]) + Entries(f, scan[p..e]) == Entries(f, scan[..e]);
    if e < |scan| {
      if p == 0 {
        NextCursorNonEmpty(f, prefix, limit);
      } else {
        assert Less(scan[0], scan[e - 1]);
        LessNonEmpty(scan[0], scan[e - 1]);
      }
    }
  }

  lemma LessNonEmpty(a: Bytes, b: Bytes)
    requires Less(a, b)
    ensures b != []
  {
  }

  lemma NextCursorNonEmpty(f: Family, prefix: Bytes, limit: nat)
    requires !CursorSticks(f, prefix, limit)
    requires PageSize(limit) < |Scan(f, prefix)|
    ensures Scan(f, prefix)[PageSize(limit) - 1] != []
  {
    hide Less, SortedKeys;
    var scan := Scan(f, prefix);
    var n := PageSize(limit);
    assert scan[n - 1] in scan;
    if n > 1 {
      assert Less(scan[0], scan[n - 1]);
      LessNonEmpty(scan[0], scan[n - 1]);
    } else if prefix == [] {
      assert Under(f, prefix) == f.Keys;
      assert |f| == |f.Keys|;
    }
  }

  /** In that one case the next cursor is the empty key, which reads the first page again. */
  lemma StuckCursor(f: Family, prefix: Bytes, limit: nat)
    requires CursorSticks(f, prefix, limit)
    ensures ForwardPage(f, prefix, [], limit).next == Some([])
  {
    hide SortedKeys, ForwardPage;
    var scan := Scan(f, prefix);
    assert Under(f, prefix) == f.Keys;
    assert |f| == |f.Keys|;
    assert [] in scan;
    HeadIsLeast(scan, []);
    PageAt(f, prefix, [], 0, limit);
  }

  // ---------- reverse pages ----------

  function Reversed(s: seq<Bytes>): (r: seq<Bytes>)
    ensures |r| == |s|
    ensures forall i :: 0 <= i < |s| ==> r[i] == s[|s| - 1 - i]
    ensures forall k :: k in r ==> k in s
  {
    seq(|s|, i requires 0 <= i < |s| => s[|s| - 1 - i])
  }

  /** Where a reverse scan with no start key begins: the prefix and eight 0xFF bytes. */
  function Ceiling(prefix: Bytes): Bytes {
    prefix + [255, 255, 255, 255, 255, 255, 255, 255]
  }

  /** One past the highest position a reverse page may return: the landing key of the
      seek is passed over when it equals start, which the empty key does for an empty start. */
  function ReverseBase(keys: seq<Bytes>, prefix: Bytes, start: Bytes): (n: nat)
    requires Ascending(keys)
    ensures n <= |keys|
  {
    var n := UpperBound(keys, if start == [] then Ceiling(prefix) else start);
    if n > 0 && keys[n - 1] == start then n - 1 else n
  }

  /** The one reverse scan that starts by passing over an entry: nothing but the
      empty key lies at or below the ceiling of the empty prefix. */
  ghost predicate LoneEmptyKey(f: Family, prefix: Bytes) {
    prefix == [] && [] in f && forall k :: k in f && AtMost(k, Ceiling(prefix)) ==> k == []
  }

  /** Where a downward scan from cut stops: above the first key outside the prefix. */
  function RunStart(keys: seq<Bytes>, cut: nat, prefix: Bytes): (b: nat)
    requires cut <= |keys|
    ensures b <= cut
    ensures forall i :: b <= i < cut ==> prefix <= keys[i]
    ensures b > 0 ==> !(prefix <= keys[b - 1])
    decreases cut
  {
    if cut == 0 || !(prefix <= keys[cut - 1]) then cut else RunStart(keys, cut - 1, prefix)
  }

  /** The keys a reverse page may return, highest first: from the ceiling down, or
      strictly below start, to the first key outside the prefix. */
  function ReverseRun(f: Family, prefix: Bytes, start: Bytes): (r: seq<Bytes>)
    ensures forall k :: k in r ==> k in f && prefix <= k
  {
    hide Less, SortedKeys, RunStart, ReverseBase;
    var keys := SortedKeys(f.Keys);
    var cut := ReverseBase(keys, prefix, start);
    Reversed(keys[RunStart(keys, cut, prefix)..cut])
  }

  function ReversePage(f: Family, prefix: Bytes, start: Bytes, limit: nat): Page {
    CutPage(f, ReverseRun(f, prefix, start), limit)
  }

  ghost function Below(f: Family, prefix: Bytes, start: Bytes): set<Bytes> {
    set k | k in f && prefix <= k && (if start == [] then AtMost(k, Ceiling(prefix)) else Less(k, start))
  }

  lemma ReverseRunComplete(f: Family, prefix: Bytes, start: Bytes)
    requires if start == [] then !LoneEmptyKey(f, prefix) else prefix <= start
    ensures ReverseRun(f, prefix, start) == Reversed(SortedKeys(Below(f, prefix, start)))
  {
    hide Less, SortedKeys, RunStart, Reversed, Ceiling, ReverseBase, Below, LoneEmptyKey;
    var keys := SortedKeys(f.Keys);
    var cut := ReverseBase(keys, prefix, start);
    var b := RunStart(keys, cut, prefix);
    var upward := keys[b..cut];
    forall k ensures k in upward <==> k in Below(f, prefix, start) {
      RunIsBelow(f, prefix, start, cut, b, k);
    }
    assert Ascending(upward);
    AscendingUnique(upward, SortedKeys(Below(f, prefix, start)));
  }

  lemma RunIsBelow(f: Family, prefix: Bytes, start: Bytes, cut: nat, b: nat, k: Bytes)
    requires if start == [] then !LoneEmptyKey(f, prefix) else prefix <= start
    requires var keys := SortedKeys(f.Keys);
             cut == ReverseBase(keys, prefix, start) && b == RunStart(keys, cut, prefix)
    ensures k in SortedKeys(f.Keys)[b..cut] <==> k in Below(f, prefix, start)
  {
    hide Less, SortedKeys, ReverseBase, Ceiling, LoneEmptyKey, RunStart, Below;
    if k in SortedKeys(f.Keys)[b..cut] { RunInBelow(f, prefix, start, cut, b, k); }
    if k in Below(f, prefix, start) { BelowInRun(f, prefix, start, cut, b, k); }
  }

  lemma RunInBelow(f: Family, prefix: Bytes, start: Bytes, cut: nat, b: nat, k: Bytes)
    requires if start == [] then !LoneEmptyKey(f, prefix) else prefix <= start
    requires var keys := SortedKeys(f.Keys);
             cut == ReverseBase(keys, prefix, start) && b == RunStart(keys, cut, prefix)
    requires k in SortedKeys(f.Keys)[b..cut]
    ensures k in Below(f, prefix, start)
  {
    hide Less, SortedKeys, ReverseBase, Ceiling, LoneEmptyKey, RunStart;
    var keys := SortedKeys(f.Keys);
    ReverseBaseSplits(f, prefix, start);
    var i :| b <= i < cut && keys[i] == k;
  }

  lemma BelowInRun(f: Family, prefix: Bytes, start: Bytes, cut: nat, b: nat, k: Bytes)
    requires if start == [] then !LoneEmptyKey(f, prefix) else prefix <= start
    requires var keys := SortedKeys(f.Keys);
             cut == ReverseBase(keys, prefix, start) && b == RunStart(keys, cut, prefix)
    requires k in Below(f, prefix, start)
    ensures k in SortedKeys(f.Keys)[b..cut]
  {
    hide Less, SortedKeys, ReverseBase, Ceiling, LoneEmptyKey, RunStart;
    var keys := SortedKeys(f.Keys);
    var bound := if start == [] then Ceiling(prefix) else start;
    ReverseBaseSplits(f, prefix, start);
    assert k in keys;
    var i :| 0 <= i < |keys| && keys[i] == k;
    CeilingExtends(prefix);
    BelowIsInRun(keys, prefix, bound, start == [], cut, b, i);
    assert keys[b..cut][i - b] == k;
  }

  /** The positions below the base are those the scan may still visit. */
  lemma ReverseBaseSplits(f: Family, prefix: Bytes, start: Bytes)
    requires start == [] ==> !LoneEmptyKey(f, prefix)
    ensures var keys := SortedKeys(f.Keys);
            var cut := ReverseBase(keys, prefix, start);
            var bound := if start == [] then Ceiling(prefix) else start;
            && cut <= |keys|
            && (forall j :: cut <= j < |keys| && prefix <= keys[j] ==>
                  if start == [] then Less(bound, keys[j]) else !Less(keys[j], bound))
            && (forall j :: 0 <= j < cut ==> if start == [] then AtMost(keys[j], bound) else Less(keys[j], bound))
  {
    hide Less, SortedKeys, LowerBound, UpperBound, Ceiling;
    var keys := SortedKeys(f.Keys);
    var bound := if start == [] then Ceiling(prefix) else start;
    var n := UpperBound(keys, bound);
    var cut := ReverseBase(keys, prefix, start);
    if start == [] {
      if cut != n && prefix == [] { OnlyEmptyBelow(f, prefix, n); }
    } else {
      forall j | cut <= j < |keys| ensures !Less(keys[j], bound) {
        LessAsymmetric(bound, keys[j]);
        LessIrreflexive(bound);
      }
      forall j | 0 <= j < cut ensures Less(keys[j], bound) {
        assert cut != n ==> Less(keys[j], keys[n - 1]);
        if cut == n && keys[j] == start && j < n - 1 {
          assert Less(keys[j], keys[n - 1]);
          LessAsymmetric(start, keys[n - 1]);
        }
      }
    }
  }

  lemma OnlyEmptyBelow(f: Family, prefix: Bytes, n: nat)
    requires prefix == []
    requires var keys := SortedKeys(f.Keys);
             0 < n <= |keys| && n == UpperBound(keys, Ceiling(prefix)) && keys[n - 1] == []
    ensures LoneEmptyKey(f, prefix)
  {
    hide SortedKeys, UpperBound, LowerBound;
    var keys := SortedKeys(f.Keys);
    assert [] in keys;
    forall k | k in f && AtMost(k, Ceiling(prefix)) ensures k == [] {
      assert k in keys;
      var i :| 0 <= i < |keys| && keys[i] == k;
      LessAsymmetric(k, Ceiling(prefix));
      LessIrreflexive(k);
      assert i < n;
      assert i < n - 1 ==> Less(keys[i], keys[n - 1]);
    }
  }

  lemma CeilingExtends(prefix: Bytes)
    ensures prefix <= Ceiling(prefix)
  {
  }

  /** Walking down from the bound, the prefix is not left before its least key. */
  lemma BelowIsInRun(keys: seq<Bytes>, prefix: Bytes, bound: Bytes, inclusive: bool, cut: nat, b: nat, i: nat)
    requires Ascending(keys) && b <= cut <= |keys| && i < |keys|
    requires prefix <= bound && prefix <= keys[i]
    requires if inclusive then AtMost(keys[i], bound) else Less(keys[i], bound)
    requires forall j :: cut <= j < |keys| && prefix <= keys[j] ==>
               if inclusive then Less(bound, keys[j]) else !Less(keys[j], bound)
    requires forall j :: 0 <= j < cut ==> AtMost(keys[j], bound)
    requires b > 0 ==> !(prefix <= keys[b - 1])
    ensures b <= i < cut
  {
    hide Less;
    if i >= cut {
      LessAsymmetric(bound, keys[i]);
      LessIrreflexive(bound);
      assert false;
    }
    if i < b {
      var x := keys[b - 1];
      assert AtMost(keys[i], x) by { assert i == b - 1 || Less(keys[i], x); }
      PrefixAtMost(prefix, keys[i]);
      PrefixConvex(prefix, keys[i], x, bound);
      assert false;
    }
  }

  /** start is the cursor of a reverse scan that has visited the last p keys. */
  ghost predicate ReverseCursorAt(scan: seq<Bytes>, prefix: Bytes, start: Bytes, p: nat) {
    p <= |scan| &&
    if p == 0 then start == [] || start == Ceiling(prefix) else start == scan[|scan| - p] && start != []
  }

  ghost predicate BelowCeiling(f: Family, prefix: Bytes) {
    forall k :: k in f && prefix <= k ==> Less(k, Ceiling(prefix))
  }

  /** Every key of the prefix lies within reach of a reverse scan with no start key. */
  ghost predicate Reaches(f: Family, prefix: Bytes) {
    !LoneEmptyKey(f, prefix) && forall k :: k in f && prefix <= k ==> AtMost(k, Ceiling(prefix))
  }

  /** A scan that names the ceiling as its start does not return a key equal to it. */
  ghost predicate ReachesFrom(f: Family, prefix: Bytes, start: Bytes, p: nat) {
    if p == 0 && start != [] then BelowCeiling(f, prefix) else p == 0 ==> Reaches(f, prefix)
  }

  lemma BelowAt(f: Family, prefix: Bytes, start: Bytes, p: nat)
    requires ReverseCursorAt(Scan(f, prefix), prefix, start, p) && ReachesFrom(f, prefix, start, p)
    ensures ReverseRun(f, prefix, start) == Reversed(Scan(f, prefix))[p..]
  {
    hide Less, SortedKeys, ReverseRun, LoneEmptyKey;
    var scan := Scan(f, prefix);
    if p > 0 { assert start in scan; }
    ReverseRunComplete(f, prefix, start);
    var rest := scan[..|scan| - p];
    forall k ensures k in Below(f, prefix, start) <==> k in rest {
      if k in Below(f, prefix, start) {
        assert k in scan;
        var i :| 0 <= i < |scan| && scan[i] == k;
        if i >= |scan| - p {
          assert i == |scan| - p || Less(scan[|scan| - p], scan[i]);
          LessAsymmetric(start, k);
          LessIrreflexive(k);
          assert false;
        }
        assert rest[i] == k;
      }
      if k in rest {
        var i :| 0 <= i < |rest| && rest[i] == k;
        assert scan[i] == k && k in scan;
        assert p > 0 ==> Less(scan[i], scan[|scan| - p]);
      }
    }
    AscendingUnique(rest, SortedKeys(Below(f, prefix, start)));
    assert Reversed(rest) == Reversed(scan)[p..];
  }

  /** A reverse page read after p keys is the next slice of the reversed scan, and its next
      cursor stands at the end of that slice, or is absent at the end. */
  lemma ReversePageAt(f: Family, prefix: Bytes, start: Bytes, p: nat, limit: nat)
    requires ReverseCursorAt(Scan(f, prefix), prefix, start, p) && ReachesFrom(f, prefix, start, p)
    ensures var scan := Reversed(Scan(f, prefix));
            var page := ReversePage(f, prefix, start, limit);
            var e := Min(p + PageSize(limit), |scan|);
            && p <= e && NextSlice(f, scan, p, limit, page)
            && (page.next.Some? ==> ReverseCursorAt(Scan(f, prefix), prefix, page.next.value, e))
  {
    hide Less, SortedKeys, ReverseRun, ReachesFrom, Scan;
    BelowAt(f, prefix, start, p);
    var scan := Reversed(Scan(f, prefix));
    var n := PageSize(limit);
    if |scan[p..]| > n {
      assert scan[p..][..n] == scan[p..p + n];
      assert Less(scan[p + n], scan[p + n - 1]);
      LessNonEmpty(scan[p + n], scan[p + n - 1]);
    } else {
      assert scan[p..] == scan[p..|scan|];
    }
  }

  /** Reverse pages read one after another, the first with no start key. */
  ghost predicate IsReverseChain(f: Family, prefix: Bytes, limit: nat, pages: seq<Page>) {
    && |pages| > 0
    && pages[0] == ReversePage(f, prefix, [], limit)
    && forall i :: 0 <= i < |pages| - 1 ==>
         pages[i].next.Some? && pages[i + 1] == ReversePage(f, prefix, pages[i].next.value, limit)
  }

  /** k chained reverse pages are the first k * limit entries of the reversed scan, for
      every prefix and limit, whenever no key of the prefix lies above its ceiling. */
  lemma {:induction false} ReverseChainedPages(f: Family, prefix: Bytes, limit: nat, pages: seq<Page>)
    requires IsReverseChain(f, prefix, limit, pages) && Reaches(f, prefix)
    ensures var scan := Reversed(Scan(f, prefix));
            var e := PagesHold(|pages|, limit);
            && ChainItems(pages) == Entries(f, scan[..Min(e, |scan|)])
            && (pages[|pages| - 1].next.None? <==> e >= |scan|)
            && (e < |scan| ==> ReverseCursorAt(Scan(f, prefix), prefix, pages[|pages| - 1].next.value, e))
  {
    hide Less, SortedKeys, ReversePage, Scan, Entries, Reaches, Reversed;
    var scan := Reversed(Scan(f, prefix));
    var last := |pages| - 1;
    var p := PagesHold(last, limit);
    if last == 0 {
      assert ChainItems(pages[..0]) == [];
      assert Entries(f, scan[..0]) == [];
      ReverseChainExtend(f, prefix, limit, [], 0);
    } else {
      var init := pages[..last];
      ReverseChainedPages(f, prefix, limit, init);
      assert init[last - 1] == pages[last - 1] && pages[last - 1].next.Some?;
      ReverseChainExtend(f, prefix, limit, pages[last - 1].next.value, p);
    }
  }

  lemma ReverseChainExtend(f: Family, prefix: Bytes, limit: nat, start: Bytes, p: nat)
    requires ReverseCursorAt(Scan(f, prefix), prefix, start, p) && ReachesFrom(f, prefix, start, p)
    ensures var scan := Reversed(Scan(f, prefix));
            var page := ReversePage(f, prefix, start, limit);
            var e := p + PageSize(limit);
            && Entries(f, scan[..p]) + page.items == Entries(f, scan[..Min(e, |scan|)])
            && (page.next.None? <==> e >= |scan|)
            && (e < |scan| ==> ReverseCursorAt(Scan(f, prefix), prefix, page.next.value, e))
  {
    hide Less, SortedKeys, ReversePage, Scan, ReachesFrom, Reversed;
    ReversePageAt(f, prefix, start, p, limit);
    var scan := Reversed(Scan(f, prefix));
    var e := Min(p + PageSize(limit), |scan|);
    assert scan[..p] + scan[p..e] == scan[..e];
    assert Entries(f, scan[..p]) + Entries(f, scan[p..e]) == Entries(f, scan[..e]);
  }

  /** A reverse page never goes above its start, and with no start not above the ceiling. */
  lemma ReversePageBelow(f: Family, prefix: Bytes, start: Bytes, limit: nat)
    requires start == [] || (prefix <= start && AtMost(start, Ceiling(prefix)))
    ensures var page := ReversePage(f, prefix, start, limit);
            && (forall x :: x in page.items ==> AtMost(x.0, Ceiling(prefix)))
            && (page.next.Some? ==> prefix <= page.next.value && AtMost(page.next.value, Ceiling(prefix)))
  {
    hide Less, SortedKeys, ReverseRun, Ceiling, LoneEmptyKey;
    var run := ReverseRun(f, prefix, start);
    if start == [] && LoneEmptyKey(f, prefix) {
      LoneEmptyKeyIsMissed(f, prefix);
    } else {
      ReverseRunComplete(f, prefix, start);
      forall k | k in run ensures AtMost(k, Ceiling(prefix)) {
        assert k in Below(f, prefix, start);
        if start != [] && Less(start, Ceiling(prefix)) { LessTransitive(k, start, Ceiling(prefix)); }
      }
    }
    assert forall i :: 0 <= i < |run| ==> run[i] in run;
  }

  lemma {:induction false} ReverseChainBelow(f: Family, prefix: Bytes, limit: nat, pages: seq<Page>)
    requires IsReverseChain(f, prefix, limit, pages)
    ensures forall x :: x in ChainItems(pages) ==> AtMost(x.0, Ceiling(prefix))
    ensures var next := pages[|pages| - 1].next;
            next.Some? ==> prefix <= next.value && AtMost(next.value, Ceiling(prefix))
  {
    hide Less, ReversePage, Ceiling;
    var last := |pages| - 1;
    if last == 0 {
      assert ChainItems(pages[..0]) == [];
      ReversePageBelow(f, prefix, [], limit);
    } else {
      var init := pages[..last];
      ReverseChainBelow(f, prefix, limit, init);
      assert init[last - 1] == pages[last - 1] && pages[last - 1].next.Some?;
      ReversePageBelow(f, prefix, pages[last - 1].next.value, limit);
    }
  }

  /** A reverse chain read to its end visits exactly the reversed scan, each key once, if and
      only if no key of the prefix lies above prefix + eight 0xFF bytes, and the prefix does
      not hold the empty key alone. */
  lemma ReverseScanReaches(f: Family, prefix: Bytes, limit: nat, pages: seq<Page>)
    requires IsReverseChain(f, prefix, limit, pages) && pages[|pages| - 1].next.None?
    ensures ChainItems(pages) == Entries(f, Reversed(Scan(f, prefix))) <==> Reaches(f, prefix)
  {
    hide Less, SortedKeys, Ceiling, ReversePage, LoneEmptyKey;
    var scan := Reversed(Scan(f, prefix));
    if Reaches(f, prefix) {
      ReverseChainedPages(f, prefix, limit, pages);
      assert scan[..|scan|] == scan;
    } else if LoneEmptyKey(f, prefix) {
      LoneEmptyChain(f, prefix, limit, pages);
    } else {
      var k :| k in f && prefix <= k && !AtMost(k, Ceiling(prefix));
      KeyInEntries(f, prefix, k);
      ReverseChainBelow(f, prefix, limit, pages);
    }
  }

  lemma KeyInEntries(f: Family, prefix: Bytes, k: Bytes)
    requires k in f && prefix <= k
    ensures (k, f[k]) in Entries(f, Reversed(Scan(f, prefix)))
  {
    hide SortedKeys;
    var scan := Scan(f, prefix);
    assert k in scan;
    var i :| 0 <= i < |scan| && scan[i] == k;
    assert Entries(f, Reversed(scan))[|scan| - 1 - i] == (k, f[k]);
  }

  lemma LoneEmptyChain(f: Family, prefix: Bytes, limit: nat, pages: seq<Page>)
    requires IsReverseChain(f, prefix, limit, pages) && LoneEmptyKey(f, prefix)
    ensures ChainItems(pages) == [] && ([], f[[]]) in Entries(f, Reversed(Scan(f, prefix)))
  {
    hide SortedKeys, ReverseRun, Scan;
    LoneEmptyKeyIsMissed(f, prefix);
    assert pages[0].next.None?;
    assert ChainItems(pages[..0]) == [];
    KeyInEntries(f, prefix, []);
  }

  /** A key of the prefix and nine 0xFF bytes is in the scan and in no reverse page. */
  lemma NineBytesMissed(prefix: Bytes, v: Bytes)
    ensures var key := prefix + seq(9, _ => 255);
            var f: Family := map[key := v];
            Scan(f, prefix) == [key] && ReverseRun(f, prefix, []) == []
  {
    hide SortedKeys, ReverseRun;
    var key := prefix + seq(9, _ => 255);
    assert key == Ceiling(prefix) + [255];
    var f: Family := map[key := v];
    assert prefix <= key;
    assert Under(f, prefix) == {key};
    AscendingUnique(Scan(f, prefix), [key]);
    PrefixAtMost(Ceiling(prefix), key);
    LessAsymmetric(key, Ceiling(prefix));
    assert key != Ceiling(prefix);
    ReverseRunComplete(f, prefix, []);
    assert Below(f, prefix, []) == {};
  }

  /** A key of the prefix and eight such bytes is still reached. */
  lemma EightBytesReached(prefix: Bytes, v: Bytes)
    ensures var key := prefix + seq(8, _ => 255);
            ReverseRun(map[key := v], prefix, []) == [key]
  {
    hide SortedKeys, ReverseRun, Less;
    var key := prefix + seq(8, _ => 255);
    assert key == Ceiling(prefix);
    var f: Family := map[key := v];
    ReverseRunComplete(f, prefix, []);
    assert Below(f, prefix, []) == {key};
    AscendingUnique(SortedKeys({key}), [key]);
  }

  lemma LoneEmptyKeyIsMissed(f: Family, prefix: Bytes)
    requires LoneEmptyKey(f, prefix)
    ensures ReverseRun(f, prefix, []) == []
  {
    hide SortedKeys, UpperBound, LowerBound, RunStart;
    var keys := SortedKeys(f.Keys);
    var n := UpperBound(keys, Ceiling(prefix));
    assert [] in keys;
    HeadIsLeast(keys, []);
    assert n >= 1;
    assert keys[n - 1] in f && keys[n - 1] == [];
    assert n > 1 ==> Less(keys[0], keys[n - 1]);
    assert n == 1;
  }
}
