/** Lists: a deque stored one element per subkey under signed indices head..tail. */
module Lists {
  import opened ByteStrings
  import opened OrderedStore
  import opened Storage
  import opened Encoding
  import opened Contexts

  // ---------- the index code ----------

  /** encode_index: two's complement with the sign bit flipped, big-endian. */
  function IndexCode(i: i64): (b: Bytes)
    ensures |b| == 8
  {
    var raw := if i < 0 then i + U64_LIMIT else i;
    EncodeU64(if raw >= SIGN_BIT then raw - SIGN_BIT else raw + SIGN_BIT)
  }

  function IndexOf(b: Bytes): i64
    requires |b| == 8
  {
    var raw := DecodeU64(b);
    var bits := if raw >= SIGN_BIT then raw - SIGN_BIT else raw + SIGN_BIT;
    if bits >= SIGN_BIT then bits - U64_LIMIT else bits
  }

  lemma IndexRoundTrip(i: i64)
    ensures IndexOf(IndexCode(i)) == i
  {
    hide EncodeU64, DecodeU64;
    U64RoundTrip(i + SIGN_BIT);
  }

  lemma CodeRoundTrip(b: Bytes)
    requires |b| == 8
    ensures IndexCode(IndexOf(b)) == b
  {
    hide EncodeU64, DecodeU64;
    U64BytesRoundTrip(b);
  }

  /** Byte order of index codes is numeric order of the indices, negative ones first. */
  lemma IndexOrder(i: i64, j: i64)
    ensures Less(IndexCode(i), IndexCode(j)) <==> i < j
  {
    hide EncodeU64, Less;
    U64Order(i + SIGN_BIT, j + SIGN_BIT);
  }

  // ---------- the stored form ----------

  /** All indices of the list are 64-bit. */
  ghost predicate Spans(head: int, n: nat) { -SIGN_BIT <= head && head + n <= SIGN_BIT }

  ghost function Codes(head: int, n: nat): set<Bytes>
    requires Spans(head, n)
  {
    set i | head <= i < head + n :: IndexCode(i)
  }

  lemma CodesAre(head: int, n: nat, c: Bytes)
    requires Spans(head, n)
    ensures c in Codes(head, n) <==> |c| == 8 && head <= IndexOf(c) < head + n
  {
    hide IndexCode, IndexOf;
    if c in Codes(head, n) {
      var i :| head <= i < head + n && IndexCode(i) == c;
      IndexRoundTrip(i);
    }
    if |c| == 8 && head <= IndexOf(c) < head + n { CodeRoundTrip(c); }
  }

  /** The entries of a list whose first element has index head. */
  ghost function Cells(head: int, l: seq<Bytes>): map<Bytes, Bytes>
    requires Spans(head, |l|)
  {
    map c | c in Codes(head, |l|) :: Element(head, l, c)
  }

  function Element(head: int, l: seq<Bytes>, c: Bytes): Bytes {
    if |c| == 8 && head <= IndexOf(c) < head + |l| then l[IndexOf(c) - head] else []
  }

  lemma CellsAre(head: int, l: seq<Bytes>)
    requires Spans(head, |l|)
    ensures forall c :: c in Cells(head, l) <==> |c| == 8 && head <= IndexOf(c) < head + |l|
    ensures forall c :: c in Cells(head, l) ==> Cells(head, l)[c] == l[IndexOf(c) - head]
  {
    hide IndexOf, Codes;
    forall c ensures c in Codes(head, |l|) <==> |c| == 8 && head <= IndexOf(c) < head + |l| { CodesAre(head, |l|, c); }
  }

  lemma CellAt(head: int, l: seq<Bytes>, i: nat)
    requires Spans(head, |l|) && i < |l|
    ensures IndexCode(head + i) in Cells(head, l) && Cells(head, l)[IndexCode(head + i)] == l[i]
  {
    hide IndexCode, IndexOf, Codes, Cells;
    CellsAre(head, l);
    IndexRoundTrip(head + i);
  }

  lemma OnlyIndex(c: Bytes, i: i64)
    requires |c| == 8
    ensures IndexOf(c) == i <==> c == IndexCode(i)
  {
    hide IndexCode, IndexOf;
    IndexRoundTrip(i);
    CodeRoundTrip(c);
  }

  lemma PushFront(head: int, l: seq<Bytes>, x: Bytes)
    requires Spans(head, |l|) && Spans(head - 1, |l| + 1)
    ensures Cells(head, l)[IndexCode(head - 1) := x] == Cells(head - 1, [x] + l)
  {
    hide IndexCode, IndexOf, Codes, Cells;
    CellsAre(head, l);
    CellsAre(head - 1, [x] + l);
    var a, b := Cells(head, l)[IndexCode(head - 1) := x], Cells(head - 1, [x] + l);
    forall c ensures c in a <==> c in b {
      if |c| == 8 { OnlyIndex(c, head - 1); }
    }
    forall c | c in b ensures a[c] == b[c] { OnlyIndex(c, head - 1); }
  }

  lemma PushBack(head: int, l: seq<Bytes>, x: Bytes)
    requires Spans(head, |l| + 1)
    ensures Cells(head, l)[IndexCode(head + |l|) := x] == Cells(head, l + [x])
  {
    hide IndexCode, IndexOf, Codes, Cells;
    CellsAre(head, l);
    CellsAre(head, l + [x]);
    var a, b := Cells(head, l)[IndexCode(head + |l|) := x], Cells(head, l + [x]);
    forall c ensures c in a <==> c in b {
      if |c| == 8 { OnlyIndex(c, head + |l|); }
    }
    forall c | c in b ensures a[c] == b[c] { OnlyIndex(c, head + |l|); }
  }

  lemma PopFront(head: int, l: seq<Bytes>)
    requires Spans(head, |l|) && l != []
    ensures Cells(head, l) - {IndexCode(head)} == Cells(head + 1, l[1..])
  {
    hide IndexCode, IndexOf, Codes, Cells;
    CellsAre(head, l);
    CellsAre(head + 1, l[1..]);
    var a, b := Cells(head, l) - {IndexCode(head)}, Cells(head + 1, l[1..]);
    forall c ensures c in a <==> c in b {
      if |c| == 8 { OnlyIndex(c, head); }
    }
  }

  lemma PopBack(head: int, l: seq<Bytes>)
    requires Spans(head, |l|) && l != []
    ensures Cells(head, l) - {IndexCode(head + |l| - 1)} == Cells(head, l[..|l| - 1])
  {
    hide IndexCode, IndexOf, Codes, Cells;
    CellsAre(head, l);
    CellsAre(head, l[..|l| - 1]);
    var a, b := Cells(head, l) - {IndexCode(head + |l| - 1)}, Cells(head, l[..|l| - 1]);
    forall c ensures c in a <==> c in b {
      if |c| == 8 { OnlyIndex(c, head + |l| - 1); }
    }
  }

  lemma NoCells(head: int, head': int)
    requires Spans(head, 0) && Spans(head', 0)
    ensures Cells(head, []) == Cells(head', []) == map[]
  {
    hide IndexCode, IndexOf, Codes, Cells;
    CellsAre(head, []);
    CellsAre(head', []);
  }

  function IndexText(p: Bytes, head: int, n: nat): (r: seq<Bytes>)
    requires Spans(head, n)
    ensures |r| == n && forall i :: 0 <= i < n ==> r[i] == p + IndexCode(head + i)
  {
    seq(n, i requires 0 <= i < n => p + IndexCode(head + i))
  }

  lemma IndexTextAscends(p: Bytes, head: int, n: nat)
    requires Spans(head, n)
    ensures Ascending(IndexText(p, head, n))
  {
    hide Less, IndexCode;
    var keys := IndexText(p, head, n);
    forall i, j | 0 <= i < j < |keys| ensures Less(keys[i], keys[j]) {
      IndexOrder(head + i, head + j);
      LessUnderPrefix(p, IndexCode(head + i), IndexCode(head + j));
    }
  }

  /** A scan of the subkeys meets the elements from head to tail. */
  lemma ListScan(f: Family, p: Bytes, head: int, l: seq<Bytes>)
    requires Spans(head, |l|) && View(f, p) == Cells(head, l)
    ensures Scan(f, p) == IndexText(p, head, |l|)
  {
    hide *;
    IndexTextAscends(p, head, |l|);
    forall k ensures k in IndexText(p, head, |l|) <==> k in Scan(f, p) {
      ScanMeets(f, p, head, l, k);
    }
    AscendingUnique(IndexText(p, head, |l|), Scan(f, p));
  }

  lemma ScanMeets(f: Family, p: Bytes, head: int, l: seq<Bytes>, k: Bytes)
    requires Spans(head, |l|) && View(f, p) == Cells(head, l)
    ensures k in IndexText(p, head, |l|) <==> k in Scan(f, p)
  {
    hide *;
    if k in IndexText(p, head, |l|) { TextInScan(f, p, head, l, k); }
    if k in Scan(f, p) { ScanInText(f, p, head, l, k); }
  }

  lemma TextInScan(f: Family, p: Bytes, head: int, l: seq<Bytes>, k: Bytes)
    requires Spans(head, |l|) && View(f, p) == Cells(head, l) && k in IndexText(p, head, |l|)
    ensures k in Scan(f, p)
  {
    hide Less, SortedKeys, IndexCode, IndexOf, Codes, View, Cells;
    var keys := IndexText(p, head, |l|);
    var i :| 0 <= i < |keys| && keys[i] == k;
    CellAt(head, l, i);
    assert IndexCode(head + i) in View(f, p);
  }

  lemma ScanInText(f: Family, p: Bytes, head: int, l: seq<Bytes>, k: Bytes)
    requires Spans(head, |l|) && View(f, p) == Cells(head, l) && k in Scan(f, p)
    ensures k in IndexText(p, head, |l|)
  {
    hide Less, SortedKeys, IndexCode, IndexOf, Codes, View, Cells;
    var c := k[|p|..];
    assert k == p + c && c in View(f, p);
    CellIs(head, l, c);
    CodeRoundTrip(c);
    assert IndexText(p, head, |l|)[IndexOf(c) - head] == k;
  }

  lemma CellIs(head: int, l: seq<Bytes>, c: Bytes)
    requires Spans(head, |l|) && c in Cells(head, l)
    ensures |c| == 8 && head <= IndexOf(c) < head + |l|
  {
    hide IndexOf, Codes, Cells;
    CellsAre(head, l);
  }

  // ---------- records ----------

  function ListMeta(d: Disk, ns: Bytes, k: Bytes, now: i64): (r: Result<Option<Metadata>>)
    ensures r.Ok? && r.value.Some? ==> r.value.value.Type() == Some(TList) && !r.value.value.Expired(now)
  {
    match GetMeta(d, ns, k)
    case None => Ok(None)
    case Some(v) =>
      if v == [] then Err(BadEncoding)
      else if TypeOfFlags(v[0]) == Some(TString) then Err(WrongType)
      else
        match DecodeMetadata(v)
        case None => Err(BadEncoding)
        case Some(m) =>
          if m.Type() != Some(TList) then Err(WrongType)
          else if m.Expired(now) then Ok(None)
          else Ok(Some(m))
  }

  /** The record and the entries of a list: live indices are exactly head..tail. */
  ghost predicate Shape(d: Disk, ns: Bytes, k: Bytes, m: Metadata, l: seq<Bytes>) {
    && m.size == |l| < SIGN_BIT && m.tail == m.head + |l| - 1 && Spans(m.head, |l|)
    && Lays(d.subkey, Stem(ns, k, m.version), m.head, l)
  }

  /** The entries under p are the elements of l from index head on. */
  ghost predicate Lays(f: Family, p: Bytes, head: int, l: seq<Bytes>) {
    Spans(head, |l|) && View(f, p) == Cells(head, l)
  }

  lemma CellStored(f: Family, p: Bytes, head: int, l: seq<Bytes>, i: nat)
    requires Lays(f, p, head, l) && i < |l|
    ensures p + IndexCode(head + i) in f && f[p + IndexCode(head + i)] == l[i]
  {
    hide Cells, IndexCode, View;
    CellAt(head, l, i);
    assert IndexCode(head + i) in View(f, p);
  }

  ghost predicate Sees(d: Disk, ns: Bytes, k: Bytes, now: i64, l: seq<Bytes>) {
    match ListMeta(d, ns, k, now)
    case Err(_) => true
    case Ok(None) => l == []
    case Ok(Some(m)) => Shape(d, ns, k, m, l)
  }

  ghost predicate Stored(d: Disk, ns: Bytes, k: Bytes, m: Metadata, l: seq<Bytes>) {
    GetMeta(d, ns, k) == Some(EncodeMetadata(m)) && m.Type() == Some(TList) && Shape(d, ns, k, m, l)
  }

  lemma StoredIsSeen(d: Disk, ns: Bytes, k: Bytes, now: i64, m: Metadata, l: seq<Bytes>)
    requires Stored(d, ns, k, m, l)
    ensures ListMeta(d, ns, k, now) == Ok(if m.Expired(now) then None else Some(m))
    ensures !m.Expired(now) ==> Sees(d, ns, k, now, l)
  {
    hide EncodeMetadata, DecodeMetadata, GetMeta, Shape;
    MetadataRoundTrip(m);
    EncodedFlags(m);
  }

  /** A record of another type is refused, an expired list is absent. */
  lemma ListMetaCases(d: Disk, ns: Bytes, k: Bytes, now: i64, m: Metadata)
    requires m.Type().Some? && GetMeta(d, ns, k) == Some(EncodeMetadata(m))
    ensures ListMeta(d, ns, k, now) == if m.Type() != Some(TList) then Err(WrongType)
                                       else if m.Expired(now) then Ok(None)
                                       else Ok(Some(m))
  {
    hide EncodeMetadata, DecodeMetadata, GetMeta;
    MetadataRoundTrip(m);
    EncodedFlags(m);
  }

  function StartList(meta: Option<Metadata>, newVersion: u64): Metadata {
    match meta
    case Some(m) => m
    case None => NewMetadata(TList, newVersion)
  }

  lemma StartShape(d: Disk, ns: Bytes, k: Bytes, now: i64, l: seq<Bytes>, newVersion: u64)
    requires Sees(d, ns, k, now, l) && Vacant(d, Stem(ns, k, newVersion))
    ensures var meta := ListMeta(d, ns, k, now);
            meta.Ok? ==> var m := StartList(meta.value, newVersion);
                         Shape(d, ns, k, m, l) && m.Type() == Some(TList)
  {
    hide Stem, View, ListMeta;
    NoCells(0, 0);
  }

  /** What a write leaves: the same key at the same version and expiry, now holding l. */
  ghost predicate Wrote(d: Disk, e: Disk, ns: Bytes, k: Bytes, start: Metadata, m: Metadata, l: seq<Bytes>) {
    && Stored(e, ns, k, m, l) && m.version == start.version && m.expire == start.expire
    && Touches(d, e, MetadataKey(k, ns), Stem(ns, k, start.version))
  }

  lemma CommitList(d: Disk, batch: WriteBatch, ns: Bytes, k: Bytes, start: Metadata, m: Metadata, l: seq<Bytes>)
    requires m.Type() == Some(TList) && m.version == start.version && m.expire == start.expire
    requires m.size == |l| < SIGN_BIT && m.tail == m.head + |l| - 1 && Spans(m.head, |l|)
    requires Staged(d, batch, MetadataKey(k, ns), Stem(ns, k, m.version), Cells(m.head, l))
    ensures Wrote(d, Apply(d, batch + [MetaPut(ns, k, m)]), ns, k, start, m, l)
  {
    hide Staged, View, Stem, MetadataKey, EncodeMetadata, Apply, GetMeta, Touches, Cells;
    StagedCommit(d, batch, ns, k, Stem(ns, k, m.version), EncodeMetadata(m), Cells(m.head, l));
  }

  // ---------- LPUSH and RPUSH ----------

  function Reversed(s: seq<Bytes>): (r: seq<Bytes>)
    ensures |r| == |s| && forall i :: 0 <= i < |s| ==> r[i] == s[|s| - 1 - i]
  {
    seq(|s|, i requires 0 <= i < |s| => s[|s| - 1 - i])
  }

  /** LPUSH puts each element in front of the ones before it, RPUSH behind. */
  function Pushed(l: seq<Bytes>, xs: seq<Bytes>, left: bool): (r: seq<Bytes>) {
    if left then Reversed(xs) + l else l + xs
  }

  lemma PushedStep(l: seq<Bytes>, xs: seq<Bytes>, x: Bytes, left: bool)
    ensures Pushed(l, xs + [x], left) == if left then [x] + Pushed(l, xs, left) else Pushed(l, xs, left) + [x]
  {
    if left { assert Reversed(xs + [x]) == [x] + Reversed(xs); }
  }

  /** There are indices left for n more elements on that side. */
  ghost predicate Room(m: Metadata, n: nat, left: bool) {
    && m.size + n < SIGN_BIT
    && if left then m.head - n >= -SIGN_BIT else m.tail + n < SIGN_BIT
  }

  /** The record and the pending batch after the elements pushed so far. */
  ghost predicate Pushing(d: Disk, batch: WriteBatch, mk: Bytes, p: Bytes, m0: Metadata, m: Metadata, l: seq<Bytes>) {
    && m.flags == m0.flags && m.version == m0.version && m.expire == m0.expire
    && m.size == |l| < SIGN_BIT && m.tail == m.head + |l| - 1 && Spans(m.head, |l|)
    && Staged(d, batch, mk, p, Cells(m.head, l))
  }

  lemma PushingLeft(d: Disk, batch: WriteBatch, mk: Bytes, p: Bytes, m0: Metadata, m: Metadata, l: seq<Bytes>, x: Bytes)
    requires Pushing(d, batch, mk, p, m0, m, l) && Room(m, 1, true)
    ensures Pushing(d, batch + [Put(CfSubkey, p + IndexCode(m.head - 1), x)], mk,
                    p, m0, m.(head := m.head - 1, size := m.size + 1), [x] + l)
  {
    hide Staged, Cells, IndexCode;
    StagedPut(d, batch, mk, p, Cells(m.head, l), IndexCode(m.head - 1), x);
    PushFront(m.head, l, x);
  }

  lemma PushingRight(d: Disk, batch: WriteBatch, mk: Bytes, p: Bytes, m0: Metadata, m: Metadata, l: seq<Bytes>,
                     x: Bytes)
    requires Pushing(d, batch, mk, p, m0, m, l) && Room(m, 1, false)
    ensures Pushing(d, batch + [Put(CfSubkey, p + IndexCode(m.tail + 1), x)], mk,
                    p, m0, m.(tail := m.tail + 1, size := m.size + 1), l + [x])
  {
    hide Staged, Cells, IndexCode;
    StagedPut(d, batch, mk, p, Cells(m.head, l), IndexCode(m.tail + 1), x);
    PushBack(m.head, l, x);
  }

  method PushBatch(ns: Bytes, k: Bytes, m0: Metadata, xs: seq<Bytes>, left: bool, ghost d: Disk, ghost l: seq<Bytes>)
    returns (batch: WriteBatch, m: Metadata)
    requires Shape(d, ns, k, m0, l) && Room(m0, |xs|, left)
    ensures Pushing(d, batch, MetadataKey(k, ns), Stem(ns, k, m0.version), m0, m, Pushed(l, xs, left))
    ensures if left then m.tail == m0.tail else m.head == m0.head
  {
    hide Pushing, Stem, MetadataKey, SubKey, Cells, IndexCode, Shape;
    batch, m := [], m0;
    ghost var mk, p := MetadataKey(k, ns), Stem(ns, k, m0.version);
    PushingStart(d, ns, k, m0, l);
    NothingPushed(l, left);
    for i := 0 to |xs|
      invariant Pushing(d, batch, mk, p, m0, m, Pushed(l, xs[..i], left))
                && Room(m, |xs| - i, left) && m.version == m0.version
      invariant if left then m.tail == m0.tail else m.head == m0.head
    {
      assert xs[..i + 1] == xs[..i] + [xs[i]];
      PushedStep(l, xs[..i], xs[i], left);
      if left {
        PushingLeft(d, batch, mk, p, m0, m, Pushed(l, xs[..i], left), xs[i]);
        m := m.(head := m.head - 1);
        SubKeyIsStem(ns, k, m.version, IndexCode(m.head));
        batch := batch + [Put(CfSubkey, SubKey(k, m.version, IndexCode(m.head), ns), xs[i])];
      } else {
        PushingRight(d, batch, mk, p, m0, m, Pushed(l, xs[..i], left), xs[i]);
        m := m.(tail := m.tail + 1);
        SubKeyIsStem(ns, k, m.version, IndexCode(m.tail));
        batch := batch + [Put(CfSubkey, SubKey(k, m.version, IndexCode(m.tail), ns), xs[i])];
      }
      m := m.(size := m.size + 1);
    }
    assert xs[..|xs|] == xs;
  }

  lemma PushingStart(d: Disk, ns: Bytes, k: Bytes, m: Metadata, l: seq<Bytes>)
    requires Shape(d, ns, k, m, l)
    ensures Pushing(d, [], MetadataKey(k, ns), Stem(ns, k, m.version), m, m, l)
  {
    hide Staged, Cells, View, Stem, MetadataKey;
    StagedNothing(d, MetadataKey(k, ns), Stem(ns, k, m.version));
  }

  lemma NothingPushed(l: seq<Bytes>, left: bool)
    ensures Pushed(l, [], left) == l
  {
  }

  /** LPUSH and RPUSH: the list grows at that end, and the reply is its new length. */
  method Push(db: StorageEngine, ns: Bytes, k: Bytes, now: i64, newVersion: u64, xs: seq<Bytes>, left: bool,
              ghost l: seq<Bytes>)
    returns (r: Result<int>, ghost m: Metadata)
    requires Sees(db.disk, ns, k, now, l) && Vacant(db.disk, Stem(ns, k, newVersion))
    requires var meta := ListMeta(db.disk, ns, k, now);
             meta.Ok? ==> Room(StartList(meta.value, newVersion), |xs|, left)
    modifies db
    ensures r.Err? ==> db.disk == old(db.disk)
    ensures xs == [] ==> r == Err(WrongArgCount)
    ensures xs != [] ==>
              var meta := ListMeta(old(db.disk), ns, k, now);
              if meta.Err? then r == Err(meta.error)
              else
                && r == Ok(|Pushed(l, xs, left)|)
                && Wrote(old(db.disk), db.disk, ns, k, StartList(meta.value, newVersion), m, Pushed(l, xs, left))
                && (if left then m.tail == StartList(meta.value, newVersion).tail
                    else m.head == StartList(meta.value, newVersion).head)
  {
    hide Stem, MetadataKey, ListMeta, StartList, Sees, Vacant, Room, Staged;
    hide Cells, Apply, MetaPut, Shape, Stored, Touches;
    m := NewMetadata(TList, newVersion);
    if xs == [] { return Err(WrongArgCount), m; }
    var loaded := ListMeta(db.disk, ns, k, now);
    if loaded.Err? { return Err(loaded.error), m; }
    var start := StartList(loaded.value, newVersion);
    StartShape(db.disk, ns, k, now, l, newVersion);
    var batch, meta := PushBatch(ns, k, start, xs, left, db.disk, l);
    CommitList(db.disk, batch, ns, k, start, meta, Pushed(l, xs, left));
    db.Write(batch + [MetaPut(ns, k, meta)]);
    m := meta;
    r := Ok(meta.size);
  }

  // ---------- LPOP and RPOP ----------

  datatype PopReply = One(value: Option<Bytes>) | Many(values: seq<Bytes>)

  /** Two's complement wrap-around of one step past either end. */
  function WrapI64(n: int): i64
    requires -SIGN_BIT - 1 <= n <= SIGN_BIT
  {
    if n < -SIGN_BIT then n + U64_LIMIT else if n == SIGN_BIT then n - U64_LIMIT else n
  }

  /** What n pops from one end leave, and what they return, in the order they return it. */
  function Rest(l: seq<Bytes>, n: nat, left: bool): seq<Bytes>
    requires n <= |l|
  {
    if left then l[n..] else l[..|l| - n]
  }

  function Taken(l: seq<Bytes>, n: nat, left: bool): seq<Bytes>
    requires n <= |l|
  {
    if left then l[..n] else Reversed(l[|l| - n..])
  }

  /** What is popped and what is left make up the list again. */
  lemma TakenAndRest(l: seq<Bytes>, n: nat, left: bool)
    requires n <= |l|
    ensures l == if left then Taken(l, n, left) + Rest(l, n, left) else Rest(l, n, left) + Reversed(Taken(l, n, left))
  {
  }

  /** A stack: the last element pushed at an end is the first popped there. */
  lemma StackLaw(l: seq<Bytes>, xs: seq<Bytes>, left: bool)
    ensures var pushed := Pushed(l, xs, left);
            |xs| <= |pushed| && Taken(pushed, |xs|, left) == Reversed(xs) && Rest(pushed, |xs|, left) == l
  {
    var pushed := Pushed(l, xs, left);
    if left { assert pushed[..|xs|] == Reversed(xs); } else { assert pushed[|l|..] == xs; }
  }

  /** A queue: elements pushed at one end come out at the other in the order they went in. */
  lemma QueueLaw(xs: seq<Bytes>, left: bool)
    ensures |Pushed([], xs, left)| == |xs| && Taken(Pushed([], xs, left), |xs|, !left) == xs
  {
    var pushed := Pushed([], xs, left);
    assert pushed[0..] == pushed && pushed[..|xs|] == pushed;
  }

  /** The reply to a pop: an array when a count was given, otherwise the one element or nil. */
  function ReplyWith(taken: seq<Bytes>, counted: bool): PopReply {
    if counted then Many(taken) else One(if taken == [] then None else Some(taken[0]))
  }

  lemma RestSize(l: seq<Bytes>, n: nat, left: bool)
    requires n <= |l|
    ensures |Rest(l, n, left)| == |l| - n
  {
  }

  lemma NothingTaken(l: seq<Bytes>, left: bool)
    ensures Taken(l, 0, left) == []
  {
  }

  lemma TakenSize(l: seq<Bytes>, n: nat, left: bool)
    requires n <= |l|
    ensures |Taken(l, n, left)| == n
  {
  }

  lemma TakenStep(l: seq<Bytes>, n: nat, left: bool)
    requires n < |l|
    ensures Taken(l, n + 1, left) == Taken(l, n, left) + [if left then l[n] else l[|l| - 1 - n]]
    ensures var rest := Rest(l, n, left);
            && rest != [] && Rest(l, n + 1, left) == if left then rest[1..] else rest[..|rest| - 1]
  {
    if !left { assert l[|l| - n - 1..] == [l[|l| - 1 - n]] + l[|l| - n..]; }
  }

  /** The record and the batch when rest, whose first index is h, is still to be kept. */
  ghost predicate Popping(d: Disk, batch: WriteBatch, mk: Bytes, p: Bytes, m0: Metadata, m: Metadata, h: int,
                          rest: seq<Bytes>)
  {
    && m.flags == m0.flags && m.version == m0.version && m.expire == m0.expire
    && m.size == |rest| < SIGN_BIT && Spans(h, |rest|)
    && (rest != [] ==> m.head == h && m.tail == h + |rest| - 1)
    && Staged(d, batch, mk, p, Cells(h, rest))
  }

  lemma PoppingLeft(d: Disk, batch: WriteBatch, mk: Bytes, p: Bytes, m0: Metadata, m: Metadata, h: int,
                    rest: seq<Bytes>)
    requires rest != [] && Popping(d, batch, mk, p, m0, m, h, rest)
    ensures m.head == h && m.size > 0
    ensures Popping(d, batch + [Delete(CfSubkey, p + IndexCode(h))], mk, p, m0,
                    m.(head := WrapI64(h + 1), size := m.size - 1), h + 1, rest[1..])
  {
    hide Staged, Cells, IndexCode;
    StagedDelete(d, batch, mk, p, Cells(h, rest), IndexCode(h));
    PopFront(h, rest);
  }

  lemma PoppingRight(d: Disk, batch: WriteBatch, mk: Bytes, p: Bytes, m0: Metadata, m: Metadata, h: int,
                     rest: seq<Bytes>)
    requires rest != [] && Popping(d, batch, mk, p, m0, m, h, rest)
    ensures m.tail == h + |rest| - 1 && m.size > 0
    ensures Popping(d, batch + [Delete(CfSubkey, p + IndexCode(m.tail))], mk, p, m0,
                    m.(tail := WrapI64(m.tail - 1), size := m.size - 1), h, rest[..|rest| - 1])
  {
    hide Staged, Cells, IndexCode;
    StagedDelete(d, batch, mk, p, Cells(h, rest), IndexCode(m.tail));
    PopBack(h, rest);
  }

  lemma PoppingStart(d: Disk, ns: Bytes, k: Bytes, m: Metadata, l: seq<Bytes>)
    requires Shape(d, ns, k, m, l)
    ensures Popping(d, [], MetadataKey(k, ns), Stem(ns, k, m.version), m, m, m.head, l)
  {
    hide Staged, Cells, View, Stem, MetadataKey;
    StagedNothing(d, MetadataKey(k, ns), Stem(ns, k, m.version));
  }

  /** The stored element at a live position. */
  method ReadElement(db: StorageEngine, ns: Bytes, k: Bytes, version: u64, index: i64, ghost m: Metadata,
                     ghost l: seq<Bytes>)
    returns (v: Option<Bytes>)
    requires Shape(db.disk, ns, k, m, l) && m.version == version && m.head <= index < m.head + |l|
    ensures v == Some(l[index - m.head])
  {
    hide IndexCode, Stem, SubKey, Lays;
    SubKeyIsStem(ns, k, version, IndexCode(index));
    CellStored(db.disk.subkey, Stem(ns, k, version), m.head, l, index - m.head);
    v := db.Get(CfSubkey, SubKey(k, version, IndexCode(index), ns));
  }

  /** One pop of the loop: the element at that end, its deletion, and the record without it. */
  method PopOne(db: StorageEngine, ns: Bytes, k: Bytes, m: Metadata, left: bool, batch: WriteBatch, ghost m0: Metadata,
                ghost l: seq<Bytes>, ghost n: nat)
    returns (value: Bytes, batch': WriteBatch, m': Metadata)
    requires Shape(db.disk, ns, k, m0, l) && n < |l|
    requires Popping(db.disk, batch, MetadataKey(k, ns), Stem(ns, k, m0.version),
                     m0, m, HeadAfter(m0, n, left), Rest(l, n, left))
    ensures value == if left then l[n] else l[|l| - 1 - n]
    ensures Popping(db.disk, batch', MetadataKey(k, ns), Stem(ns, k, m0.version),
                    m0, m', HeadAfter(m0, n + 1, left), Rest(l, n + 1, left))
  {
    hide Popping, Stem, MetadataKey, SubKey, IndexCode, Lays, Taken;
    ghost var mk, p, h, rest := MetadataKey(k, ns), Stem(ns, k, m0.version), HeadAfter(m0, n, left), Rest(l, n, left);
    TakenStep(l, n, left);
    PoppingSame(db.disk, batch, mk, p, m0, m, h, rest);
    if left {
      PoppingLeft(db.disk, batch, mk, p, m0, m, h, rest);
    } else {
      PoppingRight(db.disk, batch, mk, p, m0, m, h, rest);
    }
    var index := if left then m.head else m.tail;
    var v := ReadElement(db, ns, k, m.version, index, m0, l);
    SubKeyIsStem(ns, k, m.version, IndexCode(index));
    value := v.value;
    batch' := batch + [Delete(CfSubkey, SubKey(k, m.version, IndexCode(index), ns))];
    m' := if left then m.(head := WrapI64(m.head + 1), size := m.size - 1)
          else m.(tail := WrapI64(m.tail - 1), size := m.size - 1);
  }

  lemma PoppingSame(d: Disk, batch: WriteBatch, mk: Bytes, p: Bytes, m0: Metadata, m: Metadata, h: int,
                    rest: seq<Bytes>)
    requires Popping(d, batch, mk, p, m0, m, h, rest)
    ensures m.version == m0.version
  {
  }

  /** The index of the first element left after n pops. */
  function HeadAfter(m0: Metadata, n: nat, left: bool): int { if left then m0.head + n else m0.head }

  method PopBatch(db: StorageEngine, ns: Bytes, k: Bytes, m0: Metadata, n: nat, left: bool, ghost l: seq<Bytes>)
    returns (batch: WriteBatch, m: Metadata, result: seq<Bytes>)
    requires Shape(db.disk, ns, k, m0, l) && n <= |l|
    ensures result == Taken(l, n, left)
    ensures Popping(db.disk, batch, MetadataKey(k, ns), Stem(ns, k, m0.version),
                    m0, m, HeadAfter(m0, n, left), Rest(l, n, left))
  {
    hide Popping, Stem, MetadataKey, Shape;
    batch, m, result := [], m0, [];
    PoppingStart(db.disk, ns, k, m0, l);
    assert Rest(l, 0, left) == l && Taken(l, 0, left) == [];
    hide Taken, Rest;
    for i := 0 to n
      invariant result == Taken(l, i, left)
      invariant Popping(db.disk, batch, MetadataKey(k, ns), Stem(ns, k, m0.version),
                        m0, m, HeadAfter(m0, i, left), Rest(l, i, left))
    {
      TakenStep(l, i, left);
      var value;
      value, batch, m := PopOne(db, ns, k, m, left, batch, m0, l, i);
      result := result + [value];
    }
  }

  /** Pops the elements and writes the record, back at 0 and -1 when nothing is left. */
  method PopSome(db: StorageEngine, ns: Bytes, k: Bytes, start: Metadata, n: nat, left: bool, ghost l: seq<Bytes>)
    returns (result: seq<Bytes>, ghost m: Metadata)
    requires Shape(db.disk, ns, k, start, l) && n <= |l| && start.Type() == Some(TList)
    modifies db
    ensures result == Taken(l, n, left)
    ensures Wrote(old(db.disk), db.disk, ns, k, start, m, Rest(l, n, left))
    ensures m.head == if n < |l| then HeadAfter(start, n, left) else 0
  {
    hide Stem, MetadataKey, Cells, Apply, MetaPut, Stored, Touches, Staged, Taken, Rest, Lays;
    var batch, meta;
    batch, meta, result := PopBatch(db, ns, k, start, n, left, l);
    if meta.size == 0 {
      meta := meta.(head := 0, tail := -1);
      NoCells(HeadAfter(start, n, left), 0);
      assert Rest(l, n, left) == [];
    }
    RestSize(l, n, left);
    CommitList(db.disk, batch, ns, k, start, meta, Rest(l, n, left));
    db.Write(batch + [MetaPut(ns, k, meta)]);
    m := meta;
  }

  /** LPOP and RPOP, without a count (None) or with one (None inside: not a number). A count
      of 0 is answered before the key is looked at. */
  method Pop(db: StorageEngine, ns: Bytes, k: Bytes, now: i64, count: Option<Option<nat>>, left: bool,
             ghost l: seq<Bytes>)
    returns (r: Result<PopReply>, ghost m: Metadata)
    requires Sees(db.disk, ns, k, now, l)
    modifies db
    ensures r.Err? ==> db.disk == old(db.disk)
    ensures count == Some(None) ==> r == Err(NotInteger)
    ensures count == Some(Some(0)) ==> r == Ok(Many([])) && db.disk == old(db.disk)
    ensures count != Some(None) && count != Some(Some(0)) ==>
              var meta := ListMeta(old(db.disk), ns, k, now);
              if meta.Err? then r == Err(meta.error)
              else
                var n := if count.None? then Min(1, |l|) else Min(count.value.value, |l|);
                var taken := Taken(l, n, left);
                && r == Ok(ReplyWith(taken, count.Some?))
                && (l == [] ==> db.disk == old(db.disk))
                && (l != [] ==>
                      meta.value.Some? && Wrote(old(db.disk), db.disk, ns, k, meta.value.value, m, Rest(l, n, left))
                                && m.head == if n < |l| then HeadAfter(meta.value.value, n, left) else 0)
  {
    hide Stem, MetadataKey, ListMeta, Lays, Stored, Touches, Taken, Rest, Wrote;
    m := NewMetadata(TList, 0);
    if count.Some? {
      if count.value.None? { return Err(NotInteger), m; }
      if count.value.value == 0 { return Ok(Many([])), m; }
    }
    var loaded := ListMeta(db.disk, ns, k, now);
    if loaded.Err? { return Err(loaded.error), m; }
    if loaded.value.None? || loaded.value.value.size == 0 {
      NothingTaken(l, left);
      return Ok(if count.None? then One(None) else Many([])), m;
    }
    var meta := loaded.value.value;
    var actual := if count.None? then 1 else Min(count.value.value, meta.size);
    var values;
    values, m := PopSome(db, ns, k, meta, actual, left, l);
    TakenSize(l, actual, left);
    r := Ok(if count.None? then One(Some(values[0])) else Many(values));
  }

  // ---------- LRANGE and LINDEX ----------

  const LIST_PAGE_SIZE: nat := 1024

  /** A position counted from the end when negative. */
  function FromEnd(i: int, n: nat): int { if i < 0 then i + n else i }

  function First(l: seq<Bytes>, start: int): int { if FromEnd(start, |l|) < 0 then 0 else FromEnd(start, |l|) }

  function Last(l: seq<Bytes>, stop: int): int { if FromEnd(stop, |l|) >= |l| then |l| - 1 else FromEnd(stop, |l|) }

  function Slice(l: seq<Bytes>, start: int, stop: int): seq<Bytes> {
    var s, e := First(l, start), Last(l, stop);
    if s > e then [] else l[s..e + 1]
  }

  /** The slice is exactly the elements whose position lies between the two bounds, both
      counted from the end when negative, in list order. */
  lemma SliceMeaning(l: seq<Bytes>, start: int, stop: int, i: nat)
    requires i < |l|
    ensures var s, e := First(l, start), Last(l, stop);
            && |Slice(l, start, stop)| == (if s > e then 0 else e - s + 1)
            && (FromEnd(start, |l|) <= i <= FromEnd(stop, |l|) <==> s <= i <= e)
            && (s <= i <= e ==> Slice(l, start, stop)[i - s] == l[i])
  {
  }

  /** Element i goes by two numbers, i and i - length; between two elements, under either
      name, lies the stretch from one to the other, and 0 to -1 is the whole list. */
  lemma SliceInside(l: seq<Bytes>, i: nat, j: nat)
    requires i <= j < |l|
    ensures Slice(l, i, j) == Slice(l, i - |l|, j - |l|) == l[i..j + 1]
    ensures Slice(l, 0, -1) == l
  {
  }

  /** LINDEX i is the one element of LRANGE i i, if there is one. */
  lemma IndexIsSlice(l: seq<Bytes>, i: int)
    ensures var at := FromEnd(i, |l|);
            Slice(l, i, i) == if 0 <= at < |l| then [l[at]] else []
  {
  }

  /** A page of the subkeys is the next stretch of the list. */
  lemma ListPage(d: Disk, ns: Bytes, k: Bytes, m: Metadata, l: seq<Bytes>, current: Bytes, q: nat)
    requires Shape(d, ns, k, m, l)
             && Positioned(Scan(d.subkey, Stem(ns, k, m.version)), Stem(ns, k, m.version), current, q)
    ensures var p := Stem(ns, k, m.version);
            var page := ForwardPage(d.subkey, p, current, LIST_PAGE_SIZE);
            && q + |page.items| <= |l|
            && (forall i :: 0 <= i < |page.items| ==> page.items[i] == (p + IndexCode(m.head + q + i), l[q + i]))
            && (page.next.None? ==> q + |page.items| == |l|)
            && (page.next.Some? ==>
                  page.items != [] && Positioned(Scan(d.subkey, p), p, page.next.value, q + |page.items|))
  {
    hide Less, SortedKeys, Scan, Stem, IndexCode, ForwardPage, Positioned, Entries, Lays;
    var f, p := d.subkey, Stem(ns, k, m.version);
    StemNonEmpty(ns, k, m.version);
    PageFrom(f, p, current, q, LIST_PAGE_SIZE);
    LaysScan(f, p, m.head, l);
    var page := ForwardPage(f, p, current, LIST_PAGE_SIZE);
    forall i | 0 <= i < |page.items| ensures page.items[i] == (p + IndexCode(m.head + q + i), l[q + i]) {
      EntriesSlice(f, Scan(f, p), q, q + |page.items|, i);
      CellStored(f, p, m.head, l, q + i);
    }
  }

  lemma LaysScan(f: Family, p: Bytes, head: int, l: seq<Bytes>)
    requires Lays(f, p, head, l)
    ensures Spans(head, |l|) && Scan(f, p) == IndexText(p, head, |l|)
  {
    hide Scan, View, Cells, IndexText;
    ListScan(f, p, head, l);
  }

  /** One page of LRANGE: elements before the range are passed over, the range is collected. */
  method CollectPage(ns: Bytes, k: Bytes, version: u64, items: seq<(Bytes, Bytes)>, startIdx: int, endIdx: int,
                     count: nat, result0: seq<Bytes>, ghost head: int, ghost l: seq<Bytes>, ghost q: nat)
    returns (result: seq<Bytes>, done: bool)
    requires ValidKey(k) && ValidNamespace(ns) && Spans(head, |l|) && q + |items| <= |l|
    requires forall i :: 0 <= i < |items| ==> items[i] == (Stem(ns, k, version) + IndexCode(head + q + i), l[q + i])
    requires 0 <= startIdx - head <= endIdx - head < |l| && count == endIdx - startIdx + 1
    requires result0 == Between(l, startIdx - head, q) && |result0| < count
    ensures done ==> result == l[startIdx - head..endIdx - head + 1]
    ensures !done ==> result == Between(l, startIdx - head, q + |items|) && |result| < count
  {
    hide Stem, SubKey, IndexCode, IndexOf, ParseSubKey;
    result, done := result0, false;
    for i := 0 to |items|
      invariant result == Between(l, startIdx - head, q + i) && |result| < count
    {
      SubKeyIsStem(ns, k, version, IndexCode(head + q + i));
      ParseSubKeyInverts(k, version, IndexCode(head + q + i), ns);
      IndexRoundTrip(head + q + i);
      var parsed := ParseSubKey(items[i].0, ns).value;
      var sub := parsed.2;
      var idx := IndexOf(sub[..8]);
      assert sub[..8] == sub;
      if idx < startIdx { continue; }
      if idx > endIdx { return result, true; }
      result := result + [items[i].1];
      if |result| >= count { return result, true; }
    }
  }

  lemma BetweenAll(l: seq<Bytes>, s: int, e: int)
    requires 0 <= s <= e < |l|
    ensures Between(l, s, 0) == [] && |Between(l, s, |l|)| >= e - s + 1
  {
  }

  /** The elements from position s up to position q. */
  function Between(l: seq<Bytes>, s: int, q: nat): seq<Bytes>
    requires 0 <= s <= |l| && q <= |l|
  {
    if q <= s then [] else l[s..q]
  }

  /** LRANGE: the slice, read page by page over the subkeys. */
  method Lrange(db: StorageEngine, ns: Bytes, k: Bytes, now: i64, start: Option<i64>, stop: Option<i64>,
                ghost l: seq<Bytes>)
    returns (r: Result<seq<Bytes>>)
    requires ValidKey(k) && ValidNamespace(ns) && Sees(db.disk, ns, k, now, l)
    ensures start.None? || stop.None? ==> r == Err(NotInteger)
    ensures start.Some? && stop.Some? ==>
              var meta := ListMeta(db.disk, ns, k, now);
              if meta.Err? then r == Err(meta.error) else r == Ok(Slice(l, start.value, stop.value))
  {
    hide Stem, ListMeta, Cells, View, Scan, ForwardPage, IndexCode, Positioned;
    if start.None? || stop.None? { return Err(NotInteger); }
    var loaded := ListMeta(db.disk, ns, k, now);
    if loaded.Err? { return Err(loaded.error); }
    if loaded.value.None? || loaded.value.value.size == 0 { return Ok([]); }
    var meta := loaded.value.value;
    var result := ReadSlice(db, ns, k, meta, start.value, stop.value, l);
    r := Ok(result);
  }

  method ReadSlice(db: StorageEngine, ns: Bytes, k: Bytes, meta: Metadata, start: i64, stop: i64, ghost l: seq<Bytes>)
    returns (r: seq<Bytes>)
    requires ValidKey(k) && ValidNamespace(ns) && Shape(db.disk, ns, k, meta, l) && l != []
    ensures r == Slice(l, start, stop)
  {
    hide Stem, Lays;
    var s := if start < 0 then start + meta.size else start;
    var e := if stop < 0 then stop + meta.size else stop;
    if s < 0 { s := 0; }
    if e >= meta.size { e := meta.size - 1; }
    if s > e { return []; }
    r := ScanRange(db, ns, k, meta, s, e, l);
  }

  /** The pages of LRANGE for positions s to e. */
  method ScanRange(db: StorageEngine, ns: Bytes, k: Bytes, meta: Metadata, s: int, e: int, ghost l: seq<Bytes>)
    returns (result: seq<Bytes>)
    requires ValidKey(k) && ValidNamespace(ns) && Shape(db.disk, ns, k, meta, l) && 0 <= s <= e < |l|
    ensures result == l[s..e + 1]
  {
    hide Stem, Lays, Scan, ForwardPage, IndexCode, Positioned, Between;
    BetweenAll(l, s, e);
    var startIdx, endIdx, count := meta.head + s, meta.head + e, e - s + 1;
    var prefix := Stem(ns, k, meta.version);
    var current: Bytes := [];
    result := [];
    ghost var q := 0;
    StartPositioned(db.disk.subkey, prefix);
    while true
      invariant q <= |l| && Positioned(Scan(db.disk.subkey, prefix), prefix, current, q)
      invariant result == Between(l, s, q) && |result| < count
      decreases |l| - q
    {
      ListPage(db.disk, ns, k, meta, l, current, q);
      var items, next := db.PrefixScanPage(CfSubkey, prefix, current, LIST_PAGE_SIZE);
      if items == [] { break; }
      assert items == ForwardPage(db.disk.subkey, prefix, current, LIST_PAGE_SIZE).items;
      var done;
      result, done := CollectPage(ns, k, meta.version, items, startIdx, endIdx, count, result, meta.head, l, q);
      if done { return; }
      q := q + |items|;
      match next {
        case Some(key) => current := key;
        case None => break;
      }
    }
  }

  /** LINDEX: the element at a position, counted from the end when negative. */
  method Lindex(db: StorageEngine, ns: Bytes, k: Bytes, now: i64, index: Option<i64>, ghost l: seq<Bytes>)
    returns (r: Result<Option<Bytes>>)
    requires Sees(db.disk, ns, k, now, l)
    ensures index.None? ==> r == Err(NotInteger)
    ensures index.Some? ==>
              var meta := ListMeta(db.disk, ns, k, now);
              var i := FromEnd(index.value, |l|);
              if meta.Err? then r == Err(meta.error)
              else r == Ok(if 0 <= i < |l| then Some(l[i]) else None)
  {
    hide Stem, ListMeta, Cells, View;
    if index.None? { return Err(NotInteger); }
    var loaded := ListMeta(db.disk, ns, k, now);
    if loaded.Err? { return Err(loaded.error); }
    if loaded.value.None? || loaded.value.value.size == 0 { return Ok(None); }
    var meta := loaded.value.value;
    var i := if index.value < 0 then index.value + meta.size else index.value;
    if i < 0 || i >= meta.size { return Ok(None); }
    var v := ReadElement(db, ns, k, meta.version, meta.head + i, meta, l);
    r := Ok(v);
  }

  // ---------- whole runs ----------

  datatype ListCmd =
    | PushCmd(now: i64, newVersion: u64, xs: seq<Bytes>, left: bool)
    | PopCmd(now: i64, count: Option<Option<nat>>, left: bool)

  /** How many elements a pop takes off a list. */
  function PopCount(count: Option<Option<nat>>, l: seq<Bytes>): nat {
    match count
    case None => Min(1, |l|)
    case Some(None) => 0
    case Some(Some(n)) => Min(n, |l|)
  }

  /** The sequence after one command. */
  function Effect(c: ListCmd, l: seq<Bytes>): seq<Bytes> {
    match c
    case PushCmd(_, _, xs, left) => Pushed(l, xs, left)
    case PopCmd(_, count, left) => Rest(l, PopCount(count, l), left)
  }

  datatype ListReply = Length(n: int) | Popped(reply: PopReply)

  /** The reply to one command, from the sequence it meets. */
  function Answer(c: ListCmd, l: seq<Bytes>): Result<ListReply> {
    match c
    case PushCmd(_, _, xs, left) => if xs == [] then Err(WrongArgCount) else Ok(Length(|l| + |xs|))
    case PopCmd(_, count, left) =>
      if count == Some(None) then Err(NotInteger)
      else
        var taken := Taken(l, PopCount(count, l), left);
        Ok(Popped(ReplyWith(taken, count.Some?)))
  }

  /** LPUSH works at position 0 and RPUSH at the last one, one element after another. */
  lemma PushEnds(l: seq<Bytes>, xs: seq<Bytes>, x: Bytes)
    ensures Pushed(l, xs + [x], true) == [x] + Pushed(l, xs, true)
    ensures Pushed(l, xs + [x], false) == Pushed(l, xs, false) + [x]
    ensures Pushed(l, [], true) == Pushed(l, [], false) == l
  {
  }

  lemma TakenAt(l: seq<Bytes>, n: nat, left: bool, i: nat)
    requires i < n <= |l|
    ensures |Taken(l, n, left)| == n && Taken(l, n, left)[i] == if left then l[i] else l[|l| - 1 - i]
  {
  }

  /** LPOP and RPOP without a count reply the element at that end, or nil. */
  lemma PopOneAnswer(l: seq<Bytes>, left: bool, now: i64)
    ensures Answer(PopCmd(now, None, left), l)
            == Ok(Popped(One(if l == [] then None else Some(if left then l[0] else l[|l| - 1]))))
  {
    hide Taken;
    if l == [] { NothingTaken(l, left); } else { TakenAt(l, 1, left, 0); }
  }

  /** With a count they reply the first elements from that end. */
  lemma PopManyAnswer(l: seq<Bytes>, n: nat, left: bool, now: i64, i: nat)
    ensures var r := Answer(PopCmd(now, Some(Some(n)), left), l);
            && r.Ok? && r.value.Popped? && r.value.reply.Many?
            && (i < |r.value.reply.values| <==> i < n && i < |l|)
            && (i < |r.value.reply.values| ==> r.value.reply.values[i] == if left then l[i] else l[|l| - 1 - i])
  {
    hide Taken;
    var m := Min(n, |l|);
    TakenSize(l, m, left);
    if i < m { TakenAt(l, m, left, i); }
  }

  function RunEffect(cmds: seq<ListCmd>, l: seq<Bytes>): seq<Bytes> {
    if cmds == [] then l else Effect(cmds[|cmds| - 1], RunEffect(cmds[..|cmds| - 1], l))
  }

  function PushCount(cmds: seq<ListCmd>): nat {
    if cmds == [] then 0
    else PushCount(cmds[..|cmds| - 1]) + if cmds[|cmds| - 1].PushCmd? then |cmds[|cmds| - 1].xs| else 0
  }

  /** A key that never expires: absent, or a list whose indices stay within the bound. */
  ghost predicate Slot(d: Disk, ns: Bytes, k: Bytes, slot: Option<Metadata>, l: seq<Bytes>, bound: nat) {
    hide Stored, GetMeta;
    match slot
    case None => GetMeta(d, ns, k) == None && l == []
    case Some(m) => Stored(d, ns, k, m, l) && m.expire == 0 && m.head + bound >= 0 && m.tail < bound
  }

  lemma SlotSees(d: Disk, ns: Bytes, k: Bytes, now: i64, slot: Option<Metadata>, l: seq<Bytes>, bound: nat)
    requires Slot(d, ns, k, slot, l, bound)
    ensures ListMeta(d, ns, k, now) == Ok(slot) && Sees(d, ns, k, now, l)
  {
    hide Stored, GetMeta;
    if slot.Some? { StoredIsSeen(d, ns, k, now, slot.value, l); }
  }

  lemma SlotRoom(d: Disk, ns: Bytes, k: Bytes, slot: Option<Metadata>, l: seq<Bytes>, bound: nat, newVersion: u64,
                 n: nat, left: bool)
    requires Slot(d, ns, k, slot, l, bound) && 2 * (bound + n) < SIGN_BIT
    ensures Room(StartList(slot, newVersion), n, left)
  {
    hide Lays, GetMeta, EncodeMetadata;
  }

  /** The new versions of the commands from position i on are unused. */
  ghost predicate Unused(d: Disk, ns: Bytes, k: Bytes, slot: Option<Metadata>, cmds: seq<ListCmd>, i: nat) {
    forall j :: i <= j < |cmds| && cmds[j].PushCmd? ==>
      Vacant(d, Stem(ns, k, cmds[j].newVersion)) && (slot.Some? ==> slot.value.version != cmds[j].newVersion)
  }

  ghost predicate DistinctVersions(cmds: seq<ListCmd>) {
    forall i, j :: 0 <= i < j < |cmds| && cmds[i].PushCmd? && cmds[j].PushCmd? ==>
      cmds[i].newVersion != cmds[j].newVersion
  }

  lemma UnusedKept(d: Disk, e: Disk, ns: Bytes, k: Bytes, slot: Option<Metadata>, start: Metadata, m: Metadata,
                   cmds: seq<ListCmd>, i: nat)
    requires ValidKey(k) && ValidNamespace(ns) && i < |cmds|
             && DistinctVersions(cmds) && Unused(d, ns, k, slot, cmds, i)
    requires m.version == start.version
    requires (slot.Some? && start == slot.value) || (cmds[i].PushCmd? && start.version == cmds[i].newVersion)
    requires Touches(d, e, MetadataKey(k, ns), Stem(ns, k, start.version))
    ensures Unused(e, ns, k, Some(m), cmds, i + 1)
  {
    hide Vacant, Touches, Stem, MetadataKey;
    forall j | i + 1 <= j < |cmds| && cmds[j].PushCmd?
      ensures Vacant(e, Stem(ns, k, cmds[j].newVersion)) && m.version != cmds[j].newVersion
    {
      VacantKept(d, e, ns, k, MetadataKey(k, ns), start.version, cmds[j].newVersion);
    }
  }

  /** What a command of a run leaves behind. */
  ghost predicate Ran(d: Disk, ns: Bytes, k: Bytes, cmds: seq<ListCmd>, i: nat, next: Option<Metadata>, l: seq<Bytes>,
                      bound: nat)
    requires i < |cmds|
  {
    && Slot(d, ns, k, next, Effect(cmds[i], l), if cmds[i].PushCmd? then bound + |cmds[i].xs| else bound)
    && Unused(d, ns, k, next, cmds, i + 1)
  }

  /** A command that changed nothing. */
  lemma RanIdle(d: Disk, ns: Bytes, k: Bytes, cmds: seq<ListCmd>, i: nat, slot: Option<Metadata>, l: seq<Bytes>,
                bound: nat)
    requires i < |cmds| && Slot(d, ns, k, slot, l, bound) && Unused(d, ns, k, slot, cmds, i) && Effect(cmds[i], l) == l
    ensures Ran(d, ns, k, cmds, i, slot, l, bound)
  {
    hide Stored, GetMeta, Vacant, Stem, Effect;
  }

  /** A command that wrote the list. */
  lemma RanWrite(d: Disk, e: Disk, ns: Bytes, k: Bytes, cmds: seq<ListCmd>, i: nat, slot: Option<Metadata>,
                 l: seq<Bytes>, bound: nat, start: Metadata, m: Metadata)
    requires ValidKey(k) && ValidNamespace(ns) && i < |cmds| && DistinctVersions(cmds)
    requires Slot(d, ns, k, slot, l, bound) && Unused(d, ns, k, slot, cmds, i)
    requires (slot.Some? && start == slot.value)
             || (cmds[i].PushCmd? && start == NewMetadata(TList, cmds[i].newVersion))
    requires Wrote(d, e, ns, k, start, m, Effect(cmds[i], l))
    requires var b := if cmds[i].PushCmd? then bound + |cmds[i].xs| else bound;
             m.head + b >= 0 && m.tail < b
    ensures Ran(e, ns, k, cmds, i, Some(m), l, bound)
  {
    hide Stored, GetMeta, Vacant, Stem, Effect, Touches, MetadataKey, DistinctVersions;
    UnusedKept(d, e, ns, k, slot, start, m, cmds, i);
  }

  method RunPush(db: StorageEngine, ns: Bytes, k: Bytes, cmds: seq<ListCmd>, i: nat, ghost slot: Option<Metadata>,
                 ghost l: seq<Bytes>, ghost bound: nat)
    returns (r: Result<ListReply>, ghost next: Option<Metadata>)
    requires ValidKey(k) && ValidNamespace(ns) && i < |cmds| && DistinctVersions(cmds)
    requires Slot(db.disk, ns, k, slot, l, bound) && Unused(db.disk, ns, k, slot, cmds, i)
    requires cmds[i].PushCmd? && 2 * (bound + |cmds[i].xs|) < SIGN_BIT
    modifies db
    ensures r == Answer(cmds[i], l) && Ran(db.disk, ns, k, cmds, i, next, l, bound)
  {
    hide Stored, Touches, Stem, MetadataKey, Vacant, Sees, ListMeta, Room, GetMeta, Ran, Wrote, DistinctVersions;
    ghost var d := db.disk;
    var PushCmd(now, v, xs, left) := cmds[i];
    SlotSees(d, ns, k, now, slot, l, bound);
    SlotRoom(d, ns, k, slot, l, bound, v, |xs|, left);
    var n; ghost var m;
    n, m := Push(db, ns, k, now, v, xs, left, l);
    if n.Ok? {
      if slot.Some? { StoredTail(d, ns, k, slot.value, l); }
      WroteTail(d, db.disk, ns, k, StartList(slot, v), m, Pushed(l, xs, left));
      RanWrite(d, db.disk, ns, k, cmds, i, slot, l, bound, StartList(slot, v), m);
      next := Some(m);
      r := Ok(Length(n.value));
    } else {
      NothingPushed(l, left);
      RanIdle(d, ns, k, cmds, i, slot, l, bound);
      next := slot;
      r := Err(n.error);
    }
  }

  method RunPop(db: StorageEngine, ns: Bytes, k: Bytes, cmds: seq<ListCmd>, i: nat, ghost slot: Option<Metadata>,
                ghost l: seq<Bytes>, ghost bound: nat)
    returns (r: Result<ListReply>, ghost next: Option<Metadata>)
    requires ValidKey(k) && ValidNamespace(ns) && i < |cmds| && DistinctVersions(cmds) && cmds[i].PopCmd?
    requires Slot(db.disk, ns, k, slot, l, bound) && Unused(db.disk, ns, k, slot, cmds, i)
    modifies db
    ensures r == Answer(cmds[i], l) && Ran(db.disk, ns, k, cmds, i, next, l, bound)
  {
    hide Stored, Touches, Stem, MetadataKey, Vacant, Sees, ListMeta, GetMeta, Ran, Wrote, DistinctVersions, Unused;
    ghost var d := db.disk;
    var PopCmd(now, count, left) := cmds[i];
    SlotSees(d, ns, k, now, slot, l, bound);
    var p; ghost var m;
    p, m := Pop(db, ns, k, now, count, left, l);
    r := if p.Ok? then Ok(Popped(p.value)) else Err(p.error);
    if l == [] || count == Some(None) || count == Some(Some(0)) {
      assert Effect(cmds[i], l) == l;
      RanIdle(d, ns, k, cmds, i, slot, l, bound);
      next := slot;
    } else {
      StoredTail(d, ns, k, slot.value, l);
      WroteTail(d, db.disk, ns, k, slot.value, m, Effect(cmds[i], l));
      RestSize(l, PopCount(count, l), left);
      RanWrite(d, db.disk, ns, k, cmds, i, slot, l, bound, slot.value, m);
      next := Some(m);
    }
  }

  lemma WroteTail(d: Disk, e: Disk, ns: Bytes, k: Bytes, start: Metadata, m: Metadata, l: seq<Bytes>)
    requires Wrote(d, e, ns, k, start, m, l)
    ensures m.tail == m.head + |l| - 1
  {
    hide Stored, Touches, Stem, MetadataKey;
    StoredTail(e, ns, k, m, l);
  }

  lemma StoredTail(d: Disk, ns: Bytes, k: Bytes, m: Metadata, l: seq<Bytes>)
    requires Stored(d, ns, k, m, l)
    ensures m.tail == m.head + |l| - 1
  {
    hide Lays, GetMeta, EncodeMetadata;
  }

  /** Every run of pushes and pops, with and without counts, from either end: the replies
      and the final list are those of the sequence operations one after another. */
  method RunList(db: StorageEngine, ns: Bytes, k: Bytes, cmds: seq<ListCmd>, ghost slot0: Option<Metadata>,
                 ghost l0: seq<Bytes>, ghost bound: nat)
    returns (replies: seq<Result<ListReply>>, ghost slot: Option<Metadata>)
    requires ValidKey(k) && ValidNamespace(ns) && DistinctVersions(cmds)
    requires Slot(db.disk, ns, k, slot0, l0, bound) && Unused(db.disk, ns, k, slot0, cmds, 0)
    requires 2 * (bound + PushCount(cmds)) < SIGN_BIT
    modifies db
    ensures |replies| == |cmds| && forall i :: 0 <= i < |cmds| ==>
              replies[i] == Answer(cmds[i], RunEffect(cmds[..i], l0))
    ensures Slot(db.disk, ns, k, slot, RunEffect(cmds, l0), bound + PushCount(cmds))
  {
    hide Slot, Unused, Effect, Answer, DistinctVersions, RunEffect, PushCount;
    replies, slot := [], slot0;
    NoCommands(l0);
    assert cmds[..0] == [];
    for i := 0 to |cmds|
      invariant |replies| == i && forall j :: 0 <= j < i ==> replies[j] == Answer(cmds[j], RunEffect(cmds[..j], l0))
      invariant Slot(db.disk, ns, k, slot, RunEffect(cmds[..i], l0), bound + PushCount(cmds[..i]))
      invariant Unused(db.disk, ns, k, slot, cmds, i)
    {
      RunStep(cmds, i, l0);
      PushCountGrows(cmds, i + 1);
      var r;
      if cmds[i].PushCmd? {
        r, slot := RunPush(db, ns, k, cmds, i, slot, RunEffect(cmds[..i], l0), bound + PushCount(cmds[..i]));
      } else {
        r, slot := RunPop(db, ns, k, cmds, i, slot, RunEffect(cmds[..i], l0), bound + PushCount(cmds[..i]));
      }
      replies := replies + [r];
    }
    assert cmds[..|cmds|] == cmds;
  }

  lemma NoCommands(l: seq<Bytes>)
    ensures RunEffect([], l) == l && PushCount([]) == 0
  {
  }

  lemma RunStep(cmds: seq<ListCmd>, i: nat, l: seq<Bytes>)
    requires i < |cmds|
    ensures RunEffect(cmds[..i + 1], l) == Effect(cmds[i], RunEffect(cmds[..i], l))
    ensures PushCount(cmds[..i + 1]) == PushCount(cmds[..i]) + if cmds[i].PushCmd? then |cmds[i].xs| else 0
  {
    hide Effect;
    assert cmds[..i + 1][..i] == cmds[..i];
  }

  lemma {:induction false} PushCountGrows(cmds: seq<ListCmd>, i: nat)
    requires i <= |cmds|
    ensures PushCount(cmds[..i]) <= PushCount(cmds)
  {
    if i == |cmds| {
      assert cmds[..i] == cmds;
    } else {
      PushCountGrows(cmds[..|cmds| - 1], i);
      assert cmds[..|cmds| - 1][..i] == cmds[..i];
    }
  }
}
