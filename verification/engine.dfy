/** The storage engine object: point reads and writes, atomic batches, and the
    loops that walk a RocksDB iterator over a prefix. */
module Storage {
  import opened ByteStrings
  import opened OrderedStore

  lemma {:induction false} ApplyDeletes(d: Disk, cf: Column, keys: seq<Bytes>, batch: WriteBatch)
    requires |batch| == |keys| && forall i :: 0 <= i < |keys| ==> batch[i] == Delete(cf, keys[i])
    ensures Apply(d, batch) == d.With(cf, d.Get(cf) - set k | k in keys)
  {
    if keys == [] {
      assert d.Get(cf) - (set k | k in keys) == d.Get(cf);
    } else {
      var n := |keys| - 1;
      ApplyDeletes(d, cf, keys[..n], batch[..n]);
      DropOneMore(d.Get(cf), keys, keys[..n], keys[n]);
    }
  }

  lemma DropOneMore(f: Family, keys: seq<Bytes>, init: seq<Bytes>, last: Bytes)
    requires keys == init + [last]
    ensures f - (set k | k in keys) == f - (set k | k in init) - {last}
  {
    assert (set k | k in keys) == (set k | k in init) + {last};
  }

  function KeysOf(items: seq<(Bytes, Bytes)>): (r: seq<Bytes>)
    ensures |r| == |items|
    ensures forall i :: 0 <= i < |items| ==> r[i] == items[i].0
  {
    seq(|items|, i requires 0 <= i < |items| => items[i].0)
  }

  class StorageEngine {
    var disk: Disk

    constructor (d: Disk)
      ensures disk == d
    {
      disk := d;
    }

    method Get(cf: Column, key: Bytes) returns (r: Option<Bytes>)
      ensures r == if key in disk.Get(cf) then Some(disk.Get(cf)[key]) else None
    {
      var f := disk.Get(cf);
      r := if key in f then Some(f[key]) else None;
    }

    method Write(batch: WriteBatch)
      modifies this
      ensures disk == Apply(old(disk), batch)
    {
      disk := Apply(disk, batch);
    }

    method Put(cf: Column, key: Bytes, value: Bytes)
      modifies this
      ensures disk == old(disk).With(cf, old(disk).Get(cf)[key := value])
    {
      disk := disk.With(cf, disk.Get(cf)[key := value]);
    }

    method Delete(cf: Column, key: Bytes)
      modifies this
      ensures disk == old(disk).With(cf, old(disk).Get(cf) - {key})
    {
      disk := disk.With(cf, disk.Get(cf) - {key});
    }

    /** All entries with the prefix, in key order. */
    method PrefixScan(cf: Column, prefix: Bytes) returns (result: seq<(Bytes, Bytes)>)
      ensures result == Entries(disk.Get(cf), Scan(disk.Get(cf), prefix))
    {
      hide Less, SortedKeys, LowerBound, Scan, Entries, Ascending;
      var f := disk.Get(cf);
      var keys := SortedKeys(f.Keys);
      var base := LowerBound(keys, prefix);
      var pos := base;
      result := [];
      while pos < |keys| && prefix <= keys[pos]
        invariant base <= pos <= |keys|
        invariant forall i :: base <= i < pos ==> prefix <= keys[i]
        invariant result == Entries(f, keys[base..pos])
      {
        EntriesStep(f, keys, base, pos);
        result := result + [(keys[pos], f[keys[pos]])];
        pos := pos + 1;
      }
      ScanStretch(f, prefix, pos);
    }

    /** The number of keys with the prefix. */
    method CountPrefix(cf: Column, prefix: Bytes) returns (count: nat)
      ensures count == |Under(disk.Get(cf), prefix)|
    {
      hide Less, SortedKeys, LowerBound, Ascending;
      var f := disk.Get(cf);
      var keys := SortedKeys(f.Keys);
      var base := LowerBound(keys, prefix);
      count := 0;
      while base + count < |keys| && prefix <= keys[base + count]
        invariant base + count <= |keys|
        invariant forall i :: base <= i < base + count ==> prefix <= keys[i]
      {
        count := count + 1;
      }
      ScanStretch(f, prefix, base + count);
    }

    /** Up to limit entries with the prefix, strictly after start (or from the first
        one when start is empty), and the cursor of the next page if there is one. */
    method PrefixScanPage(cf: Column, prefix: Bytes, start: Bytes, limit: nat)
      returns (items: seq<(Bytes, Bytes)>, next: Option<Bytes>)
      ensures Page(items, next) == ForwardPage(disk.Get(cf), prefix, start, limit)
    {
      hide ForwardSeek, Collected, ForwardPage;
      var f := disk.Get(cf);
      var keys, pos, base := SeekForward(f, prefix, start);
      var lastKey := None;
      var first := start != [];
      var hitBoundary := false;
      items := [];
      ghost var seek := pos;
      CollectNothing(f, prefix, keys, base);
      while pos < |keys|
        invariant base + |items| <= |keys| && pos <= |keys| && !hitBoundary
        invariant first ==> start != [] && items == [] && pos == seek
        invariant !first ==> pos == base + |items|
        invariant |items| == 0 || |items| < limit
        invariant Collected(f, prefix, keys, base, items)
        invariant |items| > 0 ==> lastKey == Some(keys[base + |items| - 1])
        decreases |keys| - pos
      {
        var k := keys[pos];
        pos := pos + 1;
        if first {
          first := false;
          if k == start { continue; }
        }
        if !(prefix <= k) {
          hitBoundary := true;
          break;
        }
        lastKey := Some(k);
        CollectOne(f, prefix, keys, base, items);
        items := items + [(k, f[k])];
        if |items| >= limit { break; }
      }
      PageRead(f, prefix, start, limit, keys, base, items);
      if hitBoundary || |items| < limit {
        next := None;
      } else if pos < |keys| && prefix <= keys[pos] {
        next := lastKey;
      } else {
        next := None;
      }
    }

    /** Up to limit entries with the prefix in descending order, strictly before start
        (or from the ceiling when start is empty), and the cursor of the next page. */
    method PrefixScanPageReverse(cf: Column, prefix: Bytes, start: Bytes, limit: nat)
      returns (items: seq<(Bytes, Bytes)>, next: Option<Bytes>)
      ensures Page(items, next) == ReversePage(disk.Get(cf), prefix, start, limit)
    {
      hide ReverseSeek, CollectedDown, ReversePage;
      var f := disk.Get(cf);
      var keys, left, cut := SeekBackward(f, prefix, start);
      ghost var seek := left;
      var lastKey := None;
      var first := true;
      var hitBoundary := false;
      items := [];
      CollectNothing(f, prefix, keys, cut);
      while left > 0
        invariant left <= |keys| && |items| <= cut <= |keys| && !hitBoundary
        invariant first ==> items == [] && left == seek
        invariant !first ==> left + |items| == cut
        invariant |items| == 0 || |items| < limit
        invariant CollectedDown(f, prefix, keys, cut, items)
        invariant |items| > 0 ==> lastKey == Some(keys[cut - |items|])
        decreases left
      {
        left := left - 1;
        var k := keys[left];
        if first {
          first := false;
          if k == start { continue; }
        }
        if !(prefix <= k) {
          hitBoundary := true;
          break;
        }
        lastKey := Some(k);
        CollectOneDown(f, prefix, keys, cut, items);
        items := items + [(k, f[k])];
        if |items| >= limit { break; }
      }
      ReversePageRead(f, prefix, start, limit, keys, cut, items);
      if hitBoundary || |items| < limit {
        next := None;
      } else if left > 0 && prefix <= keys[left - 1] {
        next := lastKey;
      } else {
        next := None;
      }
    }

    /** Removes exactly the keys with the prefix, page by page; the cursor of each
        page after the first is a key that the previous round has just deleted. */
    method DeletePrefix(cf: Column, prefix: Bytes, batchSize: nat)
      modifies this
      ensures disk == old(disk).With(cf, old(disk).Get(cf) - Under(old(disk).Get(cf), prefix))
    {
      hide Less, SortedKeys, ForwardPage, Scan, Entries, DeletedUpTo, Apply;
      var start: Bytes := [];
      ghost var before := disk.Get(cf);
      ghost var scan := Scan(before, prefix);
      ghost var p: nat := 0;
      assert DeletedUpTo(before, disk.Get(cf), scan, 0) by { DeletedNone(before, scan); }
      while true
        invariant p <= |scan| && DeletedUpTo(before, disk.Get(cf), scan, p)
        invariant disk == old(disk).With(cf, disk.Get(cf))
        invariant start == if p == 0 then [] else scan[p - 1]
        decreases |scan| - p
      {
        var items, next := PrefixScanPage(cf, prefix, start, batchSize);
        PageWhileDeleting(before, disk.Get(cf), prefix, start, p, batchSize);
        if items == [] { break; }
        var batch: WriteBatch := [];
        for i := 0 to |items|
          invariant |batch| == i && forall j :: 0 <= j < i ==> batch[j] == WriteOp.Delete(cf, items[j].0)
        {
          batch := batch + [WriteOp.Delete(cf, items[i].0)];
        }
        ApplyDeletes(disk, cf, KeysOf(items), batch);
        DeletedNext(before, disk.Get(cf), scan, p, KeysOf(items));
        Write(batch);
        p := p + |items|;
        match next {
          case Some(k) => start := k;
          case None => break;
        }
      }
      DeletedAll(before, disk.Get(cf), prefix);
    }
  }

  lemma EntriesStep(f: Family, keys: seq<Bytes>, base: nat, pos: nat)
    requires base <= pos < |keys| && forall k :: k in keys ==> k in f
    ensures Entries(f, keys[base..pos + 1]) == Entries(f, keys[base..pos]) + [(keys[pos], f[keys[pos]])]
  {
    assert keys[base..pos + 1] == keys[base..pos] + [keys[pos]];
  }

  /** The stretch of keys from the seek to the first key outside the prefix is the scan. */
  lemma ScanStretch(f: Family, prefix: Bytes, e: nat)
    requires var keys := SortedKeys(f.Keys);
             var base := LowerBound(keys, prefix);
             && base <= e <= |keys|
             && (forall i :: base <= i < e ==> prefix <= keys[i])
             && (e < |keys| ==> !(prefix <= keys[e]))
    ensures SortedKeys(f.Keys)[LowerBound(SortedKeys(f.Keys), prefix)..e] == Scan(f, prefix)
  {
    hide Less, SortedKeys, LowerBound, RunEnd, Ascending;
    var keys := SortedKeys(f.Keys);
    var base := ForwardBase(keys, prefix, []);
    assert RunEnd(keys, base, prefix) == e;
    RemainingAt(f, prefix, [], 0);
    assert Scan(f, prefix)[0..] == Scan(f, prefix);
  }

  /** items are the entries read upwards from base, all inside the prefix. */
  ghost predicate Collected(f: Family, prefix: Bytes, keys: seq<Bytes>, base: nat, items: seq<(Bytes, Bytes)>) {
    && base + |items| <= |keys|
    && (forall k :: k in keys ==> k in f)
    && (forall i :: base <= i < base + |items| ==> prefix <= keys[i])
    && items == Entries(f, keys[base..base + |items|])
  }

  lemma CollectNothing(f: Family, prefix: Bytes, keys: seq<Bytes>, at: nat)
    requires at <= |keys| && forall k :: k in keys ==> k in f
    ensures Collected(f, prefix, keys, at, []) && CollectedDown(f, prefix, keys, at, [])
  {
    assert keys[at..at] == [];
  }

  lemma CollectOne(f: Family, prefix: Bytes, keys: seq<Bytes>, base: nat, items: seq<(Bytes, Bytes)>)
    requires Collected(f, prefix, keys, base, items)
    requires base + |items| < |keys| && prefix <= keys[base + |items|]
    ensures var k := keys[base + |items|];
            Collected(f, prefix, keys, base, items + [(k, f[k])])
  {
    hide Entries;
    EntriesStep(f, keys, base, base + |items|);
  }

  ghost predicate ForwardSeek(f: Family, prefix: Bytes, start: Bytes, keys: seq<Bytes>, base: nat) {
    keys == SortedKeys(f.Keys) && base == ForwardBase(keys, prefix, start)
  }

  /** A forward iterator over the family as it is now, positioned at the prefix or at start. */
  method SeekForward(f: Family, prefix: Bytes, start: Bytes) returns (keys: seq<Bytes>, pos: nat, ghost base: nat)
    ensures ForwardSeek(f, prefix, start, keys, base)
    ensures pos <= |keys| && base <= |keys| && forall k :: k in keys ==> k in f
    ensures base == if start != [] && pos < |keys| && keys[pos] == start then pos + 1 else pos
  {
    hide SortedKeys, Less;
    keys := SortedKeys(f.Keys);
    pos := LowerBound(keys, if start == [] then prefix else start);
    base := ForwardBase(keys, prefix, start);
  }

  /** What has been read is the page, once it is full or the run is over. */
  lemma PageRead(f: Family, prefix: Bytes, start: Bytes, limit: nat, keys: seq<Bytes>, base: nat,
                 items: seq<(Bytes, Bytes)>)
    requires ForwardSeek(f, prefix, start, keys, base)
    requires Collected(f, prefix, keys, base, items) && |items| <= PageSize(limit)
    requires base + |items| <= |keys|
    requires base + |items| == |keys| || |items| == PageSize(limit) || !(prefix <= keys[base + |items|])
    ensures var e := base + |items|;
            var more := |items| == PageSize(limit) && e < |keys| && prefix <= keys[e];
            ForwardPage(f, prefix, start, limit) == Page(items, if more then Some(keys[e - 1]) else None)
  {
    hide Less, SortedKeys, ForwardBase, RunEnd, Ascending, Entries;
    var run := ForwardRun(f, prefix, start);
    assert base + |items| <= RunEnd(keys, base, prefix);
    assert run[..|items|] == keys[base..base + |items|];
    assert |run| == |items| ==> run[..|items|] == run;
  }

  /** items are the entries read downwards from cut, all inside the prefix. */
  ghost predicate CollectedDown(f: Family, prefix: Bytes, keys: seq<Bytes>, cut: nat, items: seq<(Bytes, Bytes)>) {
    && |items| <= cut <= |keys|
    && (forall k :: k in keys ==> k in f)
    && (forall i :: cut - |items| <= i < cut ==> prefix <= keys[i])
    && items == Entries(f, Reversed(keys[cut - |items|..cut]))
  }

  lemma CollectOneDown(f: Family, prefix: Bytes, keys: seq<Bytes>, cut: nat, items: seq<(Bytes, Bytes)>)
    requires CollectedDown(f, prefix, keys, cut, items)
    requires |items| < cut && prefix <= keys[cut - |items| - 1]
    ensures var k := keys[cut - |items| - 1];
            CollectedDown(f, prefix, keys, cut, items + [(k, f[k])])
  {
    var b := cut - |items| - 1;
    assert Reversed(keys[b..cut]) == Reversed(keys[b + 1..cut]) + [keys[b]];
  }

  ghost predicate ReverseSeek(f: Family, prefix: Bytes, start: Bytes, keys: seq<Bytes>, cut: nat) {
    keys == SortedKeys(f.Keys) && cut == ReverseBase(keys, prefix, start)
  }

  /** A reverse iterator positioned at the ceiling of the prefix or at start:
      left keys lie at or below that point. */
  method SeekBackward(f: Family, prefix: Bytes, start: Bytes) returns (keys: seq<Bytes>, left: nat, ghost cut: nat)
    ensures ReverseSeek(f, prefix, start, keys, cut)
    ensures cut <= left <= |keys| && forall k :: k in keys ==> k in f
    ensures cut == if left > 0 && keys[left - 1] == start then left - 1 else left
  {
    hide SortedKeys, Less;
    keys := SortedKeys(f.Keys);
    left := UpperBound(keys, if start == [] then Ceiling(prefix) else start);
    cut := ReverseBase(keys, prefix, start);
  }

  /** What has been read downwards is the page, once it is full or the run is over. */
  lemma ReversePageRead(f: Family, prefix: Bytes, start: Bytes, limit: nat, keys: seq<Bytes>, cut: nat,
                        items: seq<(Bytes, Bytes)>)
    requires ReverseSeek(f, prefix, start, keys, cut)
    requires CollectedDown(f, prefix, keys, cut, items) && |items| <= PageSize(limit)
    requires |items| <= cut <= |keys|
    requires cut == |items| || |items| == PageSize(limit) || !(prefix <= keys[cut - |items| - 1])
    ensures var b := cut - |items|;
            var more := |items| == PageSize(limit) && b > 0 && prefix <= keys[b - 1];
            ReversePage(f, prefix, start, limit) == Page(items, if more then Some(keys[b]) else None)
  {
    hide Less, SortedKeys, ReverseBase, RunStart, Ascending, Entries;
    var run := ReverseRun(f, prefix, start);
    assert RunStart(keys, cut, prefix) <= cut - |items|;
    assert run[..|items|] == Reversed(keys[cut - |items|..cut]);
    assert |run| == |items| ==> run[..|items|] == run;
  }

  /** now is before without the first p keys of the scan. */
  ghost predicate DeletedUpTo(before: Family, now: Family, scan: seq<Bytes>, p: nat)
    requires p <= |scan|
  {
    now == before - set k | k in scan[..p]
  }

  lemma DeletedNone(before: Family, scan: seq<Bytes>)
    ensures DeletedUpTo(before, before, scan, 0)
  {
    assert before - (set k | k in scan[..0]) == before;
  }

  lemma DeletedNext(before: Family, now: Family, scan: seq<Bytes>, p: nat, keys: seq<Bytes>)
    requires p + |keys| <= |scan| && keys == scan[p..p + |keys|]
    requires DeletedUpTo(before, now, scan, p)
    ensures DeletedUpTo(before, now - (set k | k in keys), scan, p + |keys|)
  {
    var e := p + |keys|;
    assert scan[..e] == scan[..p] + keys;
    assert (set k | k in scan[..e]) == (set k | k in scan[..p]) + (set k | k in keys);
  }

  lemma DeletedAll(before: Family, now: Family, prefix: Bytes)
    requires DeletedUpTo(before, now, Scan(before, prefix), |Scan(before, prefix)|)
    ensures now == before - Under(before, prefix)
  {
    hide Scan, Less;
    var scan := Scan(before, prefix);
    assert scan[..|scan|] == scan;
    assert (set k | k in scan) == Under(before, prefix);
  }

  /** A page read from a deleted cursor still is the next slice of the first scan. */
  lemma PageWhileDeleting(before: Family, now: Family, prefix: Bytes, start: Bytes, p: nat, limit: nat)
    requires p <= |Scan(before, prefix)| && DeletedUpTo(before, now, Scan(before, prefix), p)
    requires start == if p == 0 then [] else Scan(before, prefix)[p - 1]
    ensures var scan := Scan(before, prefix);
            var page := ForwardPage(now, prefix, start, limit);
            var e := p + |page.items|;
            && e <= |scan| && KeysOf(page.items) == scan[p..e]
            && (page.items == [] ==> p == |scan|)
            && page.next == (if e < |scan| then Some(scan[e - 1]) else None)
  {
    hide Less, SortedKeys, ForwardRun, Scan;
    var scan := Scan(before, prefix);
    RunWhileDeleting(before, now, prefix, start, p);
    var run := ForwardRun(now, prefix, start);
    assert KeysOf(Entries(now, run)) == run;
    if |run| > PageSize(limit) {
      assert KeysOf(Entries(now, run[..PageSize(limit)])) == scan[p..p + PageSize(limit)];
    }
  }

  lemma RunWhileDeleting(before: Family, now: Family, prefix: Bytes, start: Bytes, p: nat)
    requires p <= |Scan(before, prefix)| && DeletedUpTo(before, now, Scan(before, prefix), p)
    requires start == if p == 0 then [] else Scan(before, prefix)[p - 1]
    ensures ForwardRun(now, prefix, start) == Scan(before, prefix)[p..]
  {
    hide Less, SortedKeys, ForwardRun, Scan, Remaining, DeletedUpTo;
    var scan := Scan(before, prefix);
    if p > 0 {
      assert scan[p - 1] in scan;
      PrefixAtMost(prefix, start);
    }
    ForwardRunComplete(now, prefix, start);
    forall k ensures k in Remaining(now, prefix, start) <==> k in scan[p..] {
      RemainingWhileDeleting(before, now, prefix, start, p, k);
    }
    assert Ascending(scan[p..]);
    AscendingUnique(ForwardRun(now, prefix, start), scan[p..]);
  }

  lemma RemainingWhileDeleting(before: Family, now: Family, prefix: Bytes, start: Bytes, p: nat, k: Bytes)
    requires p <= |Scan(before, prefix)| && DeletedUpTo(before, now, Scan(before, prefix), p)
    requires start == if p == 0 then [] else Scan(before, prefix)[p - 1]
    ensures k in Remaining(now, prefix, start) <==> k in Scan(before, prefix)[p..]
  {
    hide Less, Scan;
    var scan := Scan(before, prefix);
    if k in scan {
      var i :| 0 <= i < |scan| && scan[i] == k;
      if i < p {
        assert k in scan[..p] by { assert scan[..p][i] == k; }
        if k in scan[p..] {
          var j :| 0 <= j < |scan| - p && scan[p..][j] == k;
          assert Less(scan[i], scan[p + j]);
          LessIrreflexive(k);
        }
      } else {
        assert scan[p..][i - p] == k;
        assert p > 0 ==> Less(scan[p - 1], scan[i]);
        if k in scan[..p] {
          var j :| 0 <= j < p && scan[..p][j] == k;
          assert Less(scan[j], scan[i]);
          LessIrreflexive(k);
        }
      }
    }
  }
}
