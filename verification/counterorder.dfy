/** Clients under shard locks run as if one by one, in every system: also when the record one
    key writes is the one from before namespaces that another key reads under another lock. */
module CounterOrders {
  import opened ByteStrings
  import opened OrderedStore
  import opened Storage
  import opened Encoding
  import opened Contexts
  import opened Counters

  // ---------- chains of keys ----------

  /** A key that reads another's record is longer by the namespace header. */
  lemma FeedsLonger(ns: Bytes, a: Bytes, b: Bytes)
    requires Feeds(ns, a, b)
    ensures |a| < |b|
  {
    MetadataKeyLength(a, ns);
    MetadataKeyLength(b, []);
  }

  lemma FeedsUnique(ns: Bytes, a: Bytes, a': Bytes, b: Bytes)
    requires ValidNamespace(ns) && ValidKey(b) && Feeds(ns, a, b) && Feeds(ns, a', b)
    ensures a == a'
  {
    FeedsLonger(ns, a, b);
    FeedsLonger(ns, a', b);
    hide MetadataKey;
    MetadataKeyInjective(a, a', ns);
  }

  /** A chain of such reads leads from key b down to key a. */
  ghost predicate Above(ns: Bytes, b: Bytes, a: Bytes)
    decreases |b|
  {
    exists x :: |x| < |b| && Feeds(ns, x, b) && (x == a || Above(ns, x, a))
  }

  lemma {:induction false} AboveLonger(ns: Bytes, b: Bytes, a: Bytes)
    requires Above(ns, b, a)
    ensures |a| < |b|
    decreases |b|
  {
    hide Feeds;
    var x :| |x| < |b| && Feeds(ns, x, b) && (x == a || Above(ns, x, a));
    if x != a { AboveLonger(ns, x, a); }
  }

  lemma FedIsAbove(ns: Bytes, y: Bytes, b: Bytes, a: Bytes)
    requires Feeds(ns, y, b) && (y == a || Above(ns, y, a))
    ensures Above(ns, b, a)
  {
    FeedsLonger(ns, y, b);
  }

  /** A write to key a is not seen by a read of key b. */
  ghost predicate Unseen(ns: Bytes, a: Bytes, b: Bytes) { a != b && !Feeds(ns, a, b) }

  /** Of two keys of which only one lies above k, and neither is k, neither sees the other. */
  lemma SplitUnseen(ns: Bytes, k: Bytes, high: Bytes, low: Bytes)
    requires ValidNamespace(ns) && ValidKey(high)
    requires Above(ns, high, k) && low != k && !Above(ns, low, k)
    ensures Unseen(ns, high, low) && Unseen(ns, low, high)
  {
    hide Feeds;
    if Feeds(ns, high, low) { FedIsAbove(ns, high, low, k); }
    if Feeds(ns, low, high) {
      var x :| |x| < |high| && Feeds(ns, x, high) && (x == k || Above(ns, x, k));
      FeedsUnique(ns, low, x, high);
    }
  }

  /** A key above k does not write what k reads, and one that is not above does not read it. */
  lemma MiddleUnseen(ns: Bytes, k: Bytes, other: Bytes)
    requires other != k
    ensures Above(ns, other, k) ==> Unseen(ns, other, k)
    ensures !Above(ns, other, k) ==> Unseen(ns, k, other)
  {
    hide Feeds, Above;
    if Feeds(ns, other, k) && Above(ns, other, k) {
      AboveLonger(ns, other, k);
      FeedsLonger(ns, other, k);
    }
    if Feeds(ns, k, other) { FedIsAbove(ns, k, other, k); }
  }

  // ---------- one command and what it reads ----------

  /** What a command writes, from what it has read. */
  function Payload(c: Client, read: Result<Option<Bytes>>): Option<Bytes> {
    if read.Err? then None
    else
      match Modify(c.op, read.value)
      case Err(_) => None
      case Ok((payload, _)) => Some(payload)
  }

  function ReplyTo(c: Client, read: Result<Option<Bytes>>): Result<int> {
    if read.Err? then Err(read.error)
    else
      match Modify(c.op, read.value)
      case Err(e) => Err(e)
      case Ok((_, reply)) => Ok(reply)
  }

  function WithPayload(d: Disk, ns: Bytes, k: Bytes, payload: Option<Bytes>): Disk {
    if payload.None? then d else WriteString(d, ns, k, payload.value)
  }

  function Reads(d: Disk, ns: Bytes, c: Client): Result<Option<Bytes>> { ReadString(d, ns, c.key, c.now) }

  lemma AtomicIs(d: Disk, ns: Bytes, c: Client)
    ensures var read := Reads(d, ns, c);
            Atomic(d, ns, c) == Outcome(WithPayload(d, ns, c.key, Payload(c, read)), ReplyTo(c, read))
  {
    hide ReadString, Modify, WriteString;
  }

  lemma ReadUnseen(d: Disk, ns: Bytes, k: Bytes, payload: Option<Bytes>, c: Client)
    requires ValidNamespace(ns) && ValidKey(k) && ValidKey(c.key) && Unseen(ns, k, c.key)
    ensures Reads(WithPayload(d, ns, k, payload), ns, c) == Reads(d, ns, c)
  {
    hide GetMeta, WriteString, MetadataKey, DecodeString, Feeds;
    if payload.Some? { WriteUnseen(d, ns, k, c.key, payload.value); }
  }

  lemma WritesCommute(d: Disk, ns: Bytes, a: Bytes, p: Option<Bytes>, b: Bytes, q: Option<Bytes>)
    requires ValidNamespace(ns) && ValidKey(a) && ValidKey(b) && a != b
    ensures WithPayload(WithPayload(d, ns, a, p), ns, b, q) == WithPayload(WithPayload(d, ns, b, q), ns, a, p)
  {
    hide EncodeString, MetadataKey;
    if MetadataKey(a, ns) == MetadataKey(b, ns) { MetadataKeyInjective(a, b, ns); }
  }

  /** Commands that do not see each other's writes may change places. */
  lemma Commute(d: Disk, ns: Bytes, x: Client, y: Client)
    requires ValidNamespace(ns) && ValidKey(x.key) && ValidKey(y.key)
    requires Unseen(ns, x.key, y.key) && Unseen(ns, y.key, x.key)
    ensures var dx, dy := Atomic(d, ns, x), Atomic(d, ns, y);
            && Atomic(dx.disk, ns, y) == Outcome(Atomic(dy.disk, ns, x).disk, dy.reply)
            && Atomic(dy.disk, ns, x).reply == dx.reply
  {
    hide Atomic, Reads, Payload, ReplyTo, WithPayload, Feeds;
    var dx, dy := Atomic(d, ns, x).disk, Atomic(d, ns, y).disk;
    AtomicIs(d, ns, x);
    AtomicIs(d, ns, y);
    AtomicIs(dx, ns, y);
    AtomicIs(dy, ns, x);
    var p, q := Payload(x, Reads(d, ns, x)), Payload(y, Reads(d, ns, y));
    ReadUnseen(d, ns, x.key, p, y);
    ReadUnseen(d, ns, y.key, q, x);
    WritesCommute(d, ns, x.key, p, y.key, q);
  }

  // ---------- sequences of clients ----------

  function After(sys: System, d: Disk, ts: seq<nat>): Disk
    requires Within(ts, |sys.clients|)
    decreases |ts|
  {
    if ts == [] then d else After(sys, Atomic(d, sys.ns, sys.clients[ts[0]]).disk, ts[1..])
  }

  /** The reply every client of the sequence gets. */
  function Replies(sys: System, d: Disk, ts: seq<nat>): map<nat, Result<int>>
    requires Within(ts, |sys.clients|)
    decreases |ts|
  {
    if ts == [] then map[]
    else
      var first := Atomic(d, sys.ns, sys.clients[ts[0]]);
      Replies(sys, first.disk, ts[1..])[ts[0] := first.reply]
  }

  /** Both orders leave the same store and give the same replies. */
  ghost predicate Same(sys: System, d: Disk, a: seq<nat>, b: seq<nat>)
    requires Within(a, |sys.clients|) && Within(b, |sys.clients|)
  {
    After(sys, d, a) == After(sys, d, b) && Replies(sys, d, a) == Replies(sys, d, b)
  }

  lemma {:induction false} Concat(sys: System, d: Disk, a: seq<nat>, b: seq<nat>)
    requires Within(a, |sys.clients|) && Within(b, |sys.clients|)
    ensures Within(a + b, |sys.clients|)
    ensures After(sys, d, a + b) == After(sys, After(sys, d, a), b)
    ensures Replies(sys, d, a + b) == Replies(sys, After(sys, d, a), b) + Replies(sys, d, a)
    decreases |a|
  {
    hide Atomic;
    if a == [] {
      assert a + b == b;
    } else {
      Concat(sys, Atomic(d, sys.ns, sys.clients[a[0]]).disk, a[1..], b);
      assert (a + b)[1..] == a[1..] + b;
    }
  }

  /** One client alone. */
  lemma Alone(sys: System, d: Disk, x: nat)
    requires x < |sys.clients|
    ensures var out := Atomic(d, sys.ns, sys.clients[x]);
            After(sys, d, [x]) == out.disk && Replies(sys, d, [x]) == map[x := out.reply]
  {
    hide Atomic;
    assert [x][1..] == [];
  }

  /** A client goes past others that do not see it and that it does not see. */
  lemma {:induction false} MovePast(sys: System, d: Disk, x: nat, us: seq<nat>)
    requires sys.Valid() && x < |sys.clients| && Within(us, |sys.clients|)
    requires forall u :: u in us ==> MutuallyUnseen(sys, x, u)
    ensures Same(sys, d, [x] + us, us + [x])
    decreases |us|
  {
    hide Atomic, MutuallyUnseen, System.Valid;
    if us == [] {
      assert [x] + us == us + [x];
    } else {
      var u, rest := us[0], us[1..];
      assert u in us;
      var du := Atomic(d, sys.ns, sys.clients[u]).disk;
      MovePast(sys, du, x, rest);
      SwapFront(sys, d, x, u, rest);
      assert (us + [x])[1..] == rest + [x];
      assert [x] + us == [x, u] + rest;
      assert ([u] + ([x] + rest))[1..] == [x] + rest;
      assert [u, x] + rest == [u] + ([x] + rest);
    }
  }

  ghost predicate MutuallyUnseen(sys: System, x: nat, y: nat) {
    && x < |sys.clients| && y < |sys.clients|
    && Unseen(sys.ns, sys.clients[x].key, sys.clients[y].key) && Unseen(sys.ns, sys.clients[y].key, sys.clients[x].key)
  }

  lemma SwapFront(sys: System, d: Disk, x: nat, u: nat, rest: seq<nat>)
    requires sys.Valid() && MutuallyUnseen(sys, x, u) && Within(rest, |sys.clients|)
    ensures Within([x, u] + rest, |sys.clients|) && Within([u, x] + rest, |sys.clients|)
    ensures Same(sys, d, [x, u] + rest, [u, x] + rest)
  {
    hide Atomic, Feeds, After, Replies;
    Commute(d, sys.ns, sys.clients[x], sys.clients[u]);
    assert x != u;
    TwoThen(sys, d, x, u, rest);
    TwoThen(sys, d, u, x, rest);
  }

  lemma TwoThen(sys: System, d: Disk, x: nat, y: nat, rest: seq<nat>)
    requires x < |sys.clients| && y < |sys.clients| && Within(rest, |sys.clients|)
    ensures Within([x, y] + rest, |sys.clients|)
    ensures var one := Atomic(d, sys.ns, sys.clients[x]);
            var two := Atomic(one.disk, sys.ns, sys.clients[y]);
            && After(sys, d, [x, y] + rest) == After(sys, two.disk, rest)
            && Replies(sys, d, [x, y] + rest) == Replies(sys, two.disk, rest)[y := two.reply][x := one.reply]
  {
    hide Atomic;
    var all := [x, y] + rest;
    assert all[1..] == [y] + rest && all[1..][1..] == rest && all[1..][0] == y;
    var one := Atomic(d, sys.ns, sys.clients[x]);
    assert After(sys, d, all) == After(sys, one.disk, all[1..]);
    assert Replies(sys, d, all) == Replies(sys, one.disk, all[1..])[x := one.reply];
  }

  // ---------- splitting a sequence at a key ----------

  ghost predicate IsAbove(sys: System, x: nat, k: Bytes)
    requires x < |sys.clients|
  {
    Above(sys.ns, sys.clients[x].key, k)
  }

  /** The clients whose keys lie above k, or those whose keys do not, in their order. */
  ghost function Pick(sys: System, k: Bytes, ts: seq<nat>, above: bool): (r: seq<nat>)
    requires Within(ts, |sys.clients|)
    ensures Within(r, |sys.clients|)
    ensures forall x :: x in r <==> x in ts && x < |sys.clients| && IsAbove(sys, x, k) == above
  {
    if ts == [] then []
    else (if IsAbove(sys, ts[0], k) == above then [ts[0]] else []) + Pick(sys, k, ts[1..], above)
  }

  lemma {:induction false} PickConcat(sys: System, k: Bytes, a: seq<nat>, b: seq<nat>, above: bool)
    requires Within(a, |sys.clients|) && Within(b, |sys.clients|)
    ensures Within(a + b, |sys.clients|)
    ensures Pick(sys, k, a + b, above) == Pick(sys, k, a, above) + Pick(sys, k, b, above)
  {
    hide IsAbove, Pick;
    if a == [] {
      assert a + b == b;
      PickNone(sys, k, above);
    } else {
      PickConcat(sys, k, a[1..], b, above);
      assert (a + b)[1..] == a[1..] + b && (a + b)[0] == a[0];
      PickHead(sys, k, a, above);
      PickHead(sys, k, a + b, above);
    }
  }

  lemma PickNone(sys: System, k: Bytes, above: bool)
    ensures Pick(sys, k, [], above) == []
  {
  }

  lemma PickHead(sys: System, k: Bytes, ts: seq<nat>, above: bool)
    requires Within(ts, |sys.clients|) && ts != []
    ensures Pick(sys, k, ts, above)
            == (if IsAbove(sys, ts[0], k) == above then [ts[0]] else []) + Pick(sys, k, ts[1..], above)
  {
    hide IsAbove;
  }

  lemma {:induction false} PickAll(sys: System, k: Bytes, ts: seq<nat>, above: bool)
    requires Within(ts, |sys.clients|) && forall x :: x in ts ==> x < |sys.clients| && IsAbove(sys, x, k) == above
    ensures Pick(sys, k, ts, above) == ts && Pick(sys, k, ts, !above) == []
  {
    hide IsAbove;
    if ts != [] {
      assert ts[0] in ts;
      PickAll(sys, k, ts[1..], above);
    }
  }

  ghost predicate NoneAt(sys: System, ts: seq<nat>, k: Bytes) {
    forall x :: x in ts ==> x < |sys.clients| && sys.clients[x].key != k
  }

  lemma PickedUnseen(sys: System, k: Bytes, high: nat, low: nat)
    requires sys.Valid() && high < |sys.clients| && low < |sys.clients|
    requires IsAbove(sys, high, k) && !IsAbove(sys, low, k) && sys.clients[low].key != k
    ensures MutuallyUnseen(sys, high, low) && MutuallyUnseen(sys, low, high)
  {
    hide Feeds, Above;
    SplitUnseen(sys.ns, k, sys.clients[high].key, sys.clients[low].key);
  }

  lemma Prepend(sys: System, d: Disk, x: nat, a: seq<nat>, b: seq<nat>)
    requires x < |sys.clients| && Within(a, |sys.clients|) && Within(b, |sys.clients|)
    requires Same(sys, Atomic(d, sys.ns, sys.clients[x]).disk, a, b)
    ensures Within([x] + a, |sys.clients|) && Within([x] + b, |sys.clients|)
    ensures Same(sys, d, [x] + a, [x] + b)
  {
    hide Atomic;
    assert ([x] + a)[1..] == a && ([x] + b)[1..] == b;
  }

  /** A client that is not above k goes after those that are. */
  lemma Sink(sys: System, d: Disk, k: Bytes, x: nat, ups: seq<nat>, downs: seq<nat>)
    requires sys.Valid() && x < |sys.clients| && !IsAbove(sys, x, k) && sys.clients[x].key != k
    requires Within(ups, |sys.clients|) && Within(downs, |sys.clients|)
    requires forall u :: u in ups ==> u < |sys.clients| && IsAbove(sys, u, k)
    ensures Within([x] + (ups + downs), |sys.clients|) && Within(ups + ([x] + downs), |sys.clients|)
    ensures Same(sys, d, [x] + (ups + downs), ups + ([x] + downs))
  {
    hide After, Replies, IsAbove, MutuallyUnseen, System.Valid;
    forall u | u in ups ensures MutuallyUnseen(sys, x, u) { PickedUnseen(sys, k, u, x); }
    MovePast(sys, d, x, ups);
    MoveInFront(sys, d, [x] + ups, ups + [x], downs);
    assert [x] + (ups + downs) == ([x] + ups) + downs;
    assert ups + ([x] + downs) == (ups + [x]) + downs;
  }

  lemma SameThrough(sys: System, d: Disk, a: seq<nat>, b: seq<nat>, c: seq<nat>)
    requires Within(a, |sys.clients|) && Within(b, |sys.clients|) && Within(c, |sys.clients|)
    requires Same(sys, d, a, b) && Same(sys, d, b, c)
    ensures Same(sys, d, a, c)
  {
    hide After, Replies;
  }

  /** Without clients of k itself, those above k may all go first. */
  lemma {:induction false} Partition(sys: System, d: Disk, k: Bytes, ts: seq<nat>)
    requires sys.Valid() && Within(ts, |sys.clients|) && NoneAt(sys, ts, k)
    ensures Within(Pick(sys, k, ts, true) + Pick(sys, k, ts, false), |sys.clients|)
    ensures Same(sys, d, ts, Pick(sys, k, ts, true) + Pick(sys, k, ts, false))
    decreases |ts|
  {
    hide Atomic, IsAbove, System.Valid, Same, Pick;
    if ts == [] {
      SameSelf(sys, d, k, ts);
    } else {
      var x, rest := ts[0], ts[1..];
      assert x in ts && sys.clients[x].key != k && ts == [x] + rest;
      PickFirst(sys, k, ts);
      Partition(sys, Atomic(d, sys.ns, sys.clients[x]).disk, k, rest);
      var ups, downs := Pick(sys, k, rest, true), Pick(sys, k, rest, false);
      Prepend(sys, d, x, rest, ups + downs);
      if !IsAbove(sys, x, k) {
        Sink(sys, d, k, x, ups, downs);
        SameThrough(sys, d, ts, [x] + (ups + downs), ups + ([x] + downs));
      }
    }
  }

  lemma SameSelf(sys: System, d: Disk, k: Bytes, ts: seq<nat>)
    requires ts == []
    ensures Pick(sys, k, ts, true) + Pick(sys, k, ts, false) == [] && Same(sys, d, ts, [])
  {
  }

  lemma PickFirst(sys: System, k: Bytes, ts: seq<nat>)
    requires Within(ts, |sys.clients|) && ts != []
    ensures var x, rest := ts[0], ts[1..];
            var ups, downs := Pick(sys, k, rest, true), Pick(sys, k, rest, false);
            Pick(sys, k, ts, true) + Pick(sys, k, ts, false)
            == if IsAbove(sys, x, k) then [x] + (ups + downs) else ups + ([x] + downs)
  {
    hide IsAbove;
  }

  lemma MoveInFront(sys: System, d: Disk, a: seq<nat>, b: seq<nat>, rest: seq<nat>)
    requires Within(a, |sys.clients|) && Within(b, |sys.clients|) && Within(rest, |sys.clients|) && Same(sys, d, a, b)
    ensures Within(a + rest, |sys.clients|) && Within(b + rest, |sys.clients|)
    ensures Same(sys, d, a + rest, b + rest)
  {
    hide After, Replies;
    Concat(sys, d, a, rest);
    Concat(sys, d, b, rest);
  }

  /** Clients whose writes a read does not see leave what it reads. */
  lemma {:induction false} RunUnseen(sys: System, d: Disk, ts: seq<nat>, c: Client)
    requires sys.Valid() && Within(ts, |sys.clients|) && ValidKey(c.key)
    requires forall x :: x in ts ==> x < |sys.clients| && Unseen(sys.ns, sys.clients[x].key, c.key)
    ensures Reads(After(sys, d, ts), sys.ns, c) == Reads(d, sys.ns, c)
    decreases |ts|
  {
    hide Atomic, Reads, Feeds;
    if ts != [] {
      var x := sys.clients[ts[0]];
      assert ts[0] in ts;
      AtomicIs(d, sys.ns, x);
      hide WithPayload, Payload;
      ReadUnseen(d, sys.ns, x.key, Payload(x, Reads(d, sys.ns, x)), c);
      RunUnseen(sys, Atomic(d, sys.ns, x).disk, ts[1..], c);
    }
  }

  /** A write that the clients do not see, to a key they do not write, may come before them. */
  lemma {:induction false} WritePast(sys: System, d: Disk, k: Bytes, p: Option<Bytes>, ts: seq<nat>)
    requires sys.Valid() && ValidKey(k) && Within(ts, |sys.clients|)
    requires forall x :: x in ts ==> x < |sys.clients| && Unseen(sys.ns, k, sys.clients[x].key)
    ensures var e := WithPayload(d, sys.ns, k, p);
            && After(sys, e, ts) == WithPayload(After(sys, d, ts), sys.ns, k, p)
            && Replies(sys, e, ts) == Replies(sys, d, ts)
    decreases |ts|
  {
    hide Atomic, Reads, Feeds, WithPayload, Payload, ReplyTo;
    if ts != [] {
      var x := sys.clients[ts[0]];
      assert ts[0] in ts;
      var e := WithPayload(d, sys.ns, k, p);
      AtomicIs(d, sys.ns, x);
      AtomicIs(e, sys.ns, x);
      ReadUnseen(d, sys.ns, k, p, x);
      WritesCommute(d, sys.ns, k, p, x.key, Payload(x, Reads(d, sys.ns, x)));
      WritePast(sys, Atomic(d, sys.ns, x).disk, k, p, ts[1..]);
    }
  }

  // ---------- inserting a client ----------

  lemma {:induction false} RepliesOf(sys: System, d: Disk, ts: seq<nat>)
    requires Within(ts, |sys.clients|)
    ensures forall x :: x in Replies(sys, d, ts) <==> x in ts
    decreases |ts|
  {
    hide Atomic;
    if ts != [] { RepliesOf(sys, Atomic(d, sys.ns, sys.clients[ts[0]]).disk, ts[1..]); }
  }

  /** Client i goes between those above its key and the others. */
  ghost function Between(sys: System, i: nat, seg: seq<nat>): (r: seq<nat>)
    requires i < |sys.clients| && Within(seg, |sys.clients|)
    ensures Within(r, |sys.clients|)
    ensures forall x :: x in r <==> x in seg || x == i
  {
    hide IsAbove;
    var k := sys.clients[i].key;
    Pick(sys, k, seg, true) + ([i] + Pick(sys, k, seg, false))
  }

  lemma LowUnseen(sys: System, i: nat, ts: seq<nat>)
    requires i < |sys.clients| && Within(ts, |sys.clients|) && NoneAt(sys, ts, sys.clients[i].key)
    ensures var k := sys.clients[i].key;
            && (forall x :: x in Pick(sys, k, ts, true) ==> x < |sys.clients| && Unseen(sys.ns, sys.clients[x].key, k))
            && (forall x :: x in Pick(sys, k, ts, false) ==> x < |sys.clients| && Unseen(sys.ns, k, sys.clients[x].key))
  {
    hide Unseen, Above;
    var k := sys.clients[i].key;
    forall x | x in ts ensures IsAbove(sys, x, k) ==> Unseen(sys.ns, sys.clients[x].key, k) {
      MiddleUnseen(sys.ns, k, sys.clients[x].key);
    }
    forall x | x in ts ensures !IsAbove(sys, x, k) ==> Unseen(sys.ns, k, sys.clients[x].key) {
      MiddleUnseen(sys.ns, k, sys.clients[x].key);
    }
  }

  lemma MergeOne(low: map<nat, Result<int>>, high: map<nat, Result<int>>, i: nat, r: Result<int>)
    requires i !in high
    ensures (low + map[i := r]) + high == (low + high)[i := r]
  {
  }

  /** A client runs after those whose writes it does not see and before those that do not see
      its own. */
  lemma RunBetween(sys: System, d: Disk, i: nat, ups: seq<nat>, downs: seq<nat>)
    requires sys.Valid() && i < |sys.clients| && i !in ups
    requires Within(ups, |sys.clients|) && Within(downs, |sys.clients|)
    requires forall x :: x in ups ==> x < |sys.clients| && Unseen(sys.ns, sys.clients[x].key, sys.clients[i].key)
    requires forall x :: x in downs ==> x < |sys.clients| && Unseen(sys.ns, sys.clients[i].key, sys.clients[x].key)
    ensures Within(ups + downs, |sys.clients|) && Within(ups + ([i] + downs), |sys.clients|)
    ensures var c, read := sys.clients[i], Reads(d, sys.ns, sys.clients[i]);
            && After(sys, d, ups + ([i] + downs))
               == WithPayload(After(sys, d, ups + downs), sys.ns, c.key, Payload(c, read))
            && Replies(sys, d, ups + ([i] + downs)) == Replies(sys, d, ups + downs)[i := ReplyTo(c, read)]
  {
    hide After, Replies, Atomic, Reads, Payload, ReplyTo, WithPayload, Unseen;
    var c := sys.clients[i];
    Concat(sys, d, ups, downs);
    Concat(sys, d, ups, [i] + downs);
    var du := After(sys, d, ups);
    Concat(sys, du, [i], downs);
    Alone(sys, du, i);
    RunUnseen(sys, d, ups, c);
    AtomicIs(du, sys.ns, c);
    WritePast(sys, du, c.key, Payload(c, Reads(d, sys.ns, c)), downs);
    RepliesOf(sys, d, ups);
    MergeOne(Replies(sys, du, downs), Replies(sys, d, ups), i, ReplyTo(c, Reads(d, sys.ns, c)));
  }

  /** A client that read before a stretch without clients of its key, and writes after it,
      might as well have run inside it. */
  lemma InsertBetween(sys: System, d: Disk, i: nat, seg: seq<nat>)
    requires sys.Valid() && i < |sys.clients| && Within(seg, |sys.clients|)
    requires NoneAt(sys, seg, sys.clients[i].key) && i !in seg
    ensures var c, read := sys.clients[i], Reads(d, sys.ns, sys.clients[i]);
            && After(sys, d, Between(sys, i, seg)) == WithPayload(After(sys, d, seg), sys.ns, c.key, Payload(c, read))
            && Replies(sys, d, Between(sys, i, seg)) == Replies(sys, d, seg)[i := ReplyTo(c, read)]
  {
    hide After, Replies, Reads, Payload, ReplyTo, WithPayload, IsAbove, NoneAt, Unseen, Pick;
    var k := sys.clients[i].key;
    LowUnseen(sys, i, seg);
    Partition(sys, d, k, seg);
    RunBetween(sys, d, i, Pick(sys, k, seg, true), Pick(sys, k, seg, false));
  }

  ghost function Inserted(sys: System, turns: seq<nat>, i: nat, p: nat): (r: seq<nat>)
    requires i < |sys.clients| && Within(turns, |sys.clients|) && p <= |turns|
    ensures Within(r, |sys.clients|)
    ensures forall x :: x in r <==> x in turns || x == i
  {
    hide Between;
    assert forall x :: x in turns <==> x in turns[..p] || x in turns[p..];
    turns[..p] + Between(sys, i, turns[p..])
  }

  /** What client j has read is what the one-by-one store holds after p clients, and none of
      the clients after them has its key. */
  ghost predicate ReadAt(sys: System, d: Disk, turns: seq<nat>, j: nat, read: Result<Option<Bytes>>, p: nat) {
    && j < |sys.clients| && Within(turns, |sys.clients|) && p <= |turns|
    && read == Reads(After(sys, d, turns[..p]), sys.ns, sys.clients[j])
    && NoneAt(sys, turns[p..], sys.clients[j].key)
  }

  lemma InsertOutcome(sys: System, d: Disk, turns: seq<nat>, i: nat, read: Result<Option<Bytes>>, p: nat)
    requires sys.Valid() && ReadAt(sys, d, turns, i, read, p) && i !in turns
    ensures var c, more := sys.clients[i], Inserted(sys, turns, i, p);
            && After(sys, d, more) == WithPayload(After(sys, d, turns), sys.ns, c.key, Payload(c, read))
            && Replies(sys, d, more) == Replies(sys, d, turns)[i := ReplyTo(c, read)]
  {
    hide After, Replies, Reads, Payload, ReplyTo, WithPayload, Between, NoneAt;
    var pre, seg := turns[..p], turns[p..];
    assert turns == pre + seg;
    var dp := After(sys, d, pre);
    InsertBetween(sys, dp, i, seg);
    Concat(sys, d, pre, seg);
    Concat(sys, d, pre, Between(sys, i, seg));
    RepliesOf(sys, d, pre);
  }

  // ---------- readers keep their place ----------

  ghost predicate Placed(sys: System, d: Disk, turns: seq<nat>, j: nat, read: Result<Option<Bytes>>) {
    exists p: nat :: ReadAt(sys, d, turns, j, read, p)
  }

  lemma NoneAtConcat(sys: System, a: seq<nat>, b: seq<nat>, k: Bytes)
    ensures NoneAt(sys, a + b, k) <==> NoneAt(sys, a, k) && NoneAt(sys, b, k)
  {
    assert forall x :: x in a + b <==> x in a || x in b;
  }

  /** A place before the insertion stays. */
  lemma PlaceBefore(sys: System, d: Disk, turns: seq<nat>, i: nat, p: nat, j: nat, read: Result<Option<Bytes>>, q: nat)
    requires i < |sys.clients| && p <= |turns| && q <= p && ReadAt(sys, d, turns, j, read, q)
    requires sys.clients[i].key != sys.clients[j].key
    ensures Placed(sys, d, Inserted(sys, turns, i, p), j, read)
  {
    hide After, Reads, Between;
    var more := Inserted(sys, turns, i, p);
    assert more[..q] == turns[..q];
    forall x | x in more[q..] ensures x < |sys.clients| && sys.clients[x].key != sys.clients[j].key {
      assert more[q..] == turns[q..p] + Between(sys, i, turns[p..]);
      if x != i {
        assert x in turns[q..p] || x in turns[p..];
        assert turns[q..] == turns[q..p] + turns[p..];
      }
    }
    assert ReadAt(sys, d, more, j, read, q);
  }

  /** A reader above the key sees those above it alone. */
  lemma ReadAbove(sys: System, d: Disk, k: Bytes, a: seq<nat>, j: nat)
    requires sys.Valid() && j < |sys.clients| && IsAbove(sys, j, k)
    requires Within(a, |sys.clients|) && NoneAt(sys, a, k)
    ensures var c := sys.clients[j];
            Reads(After(sys, d, Pick(sys, k, a, true)), sys.ns, c) == Reads(After(sys, d, a), sys.ns, c)
  {
    hide After, Reads, IsAbove, Unseen, Replies, Pick;
    var ups, downs := Pick(sys, k, a, true), Pick(sys, k, a, false);
    Partition(sys, d, k, a);
    Concat(sys, d, ups, downs);
    forall x | x in downs ensures x < |sys.clients| && Unseen(sys.ns, sys.clients[x].key, sys.clients[j].key) {
      assert x in a;
      PickedUnseen(sys, k, j, x);
    }
    RunUnseen(sys, After(sys, d, ups), downs, sys.clients[j]);
  }

  /** A reader above the key of the inserted client stands where those above end. */
  lemma PlaceAbove(sys: System, d: Disk, i: nat, a: seq<nat>, b: seq<nat>, j: nat)
    requires sys.Valid() && i < |sys.clients| && j < |sys.clients| && sys.clients[i].key != sys.clients[j].key
    requires Within(a, |sys.clients|) && Within(b, |sys.clients|)
    requires NoneAt(sys, a, sys.clients[i].key) && NoneAt(sys, b, sys.clients[j].key)
    requires IsAbove(sys, j, sys.clients[i].key)
    ensures Within(a + b, |sys.clients|)
    ensures Placed(sys, d, Between(sys, i, a + b), j, Reads(After(sys, d, a), sys.ns, sys.clients[j]))
  {
    hide After, Reads, IsAbove, Pick, System.Valid;
    var k, c := sys.clients[i].key, sys.clients[j];
    var ups := Pick(sys, k, a, true);
    ReadAbove(sys, d, k, a, j);
    PickConcat(sys, k, a, b, true);
    var all, rest := Between(sys, i, a + b), Pick(sys, k, b, true) + ([i] + Pick(sys, k, a + b, false));
    assert all == ups + rest;
    assert all[..|ups|] == ups && all[|ups|..] == rest;
    forall x | x in rest ensures x < |sys.clients| && sys.clients[x].key != c.key {
      if x in Pick(sys, k, b, true) {
        assert x in b;
      } else if x != i {
        assert x in Pick(sys, k, a + b, false);
        SameKeyAbove(sys, x, j, k);
      }
    }
    assert ReadAt(sys, d, all, j, Reads(After(sys, d, a), sys.ns, c), |ups|);
  }

  lemma SameKeyAbove(sys: System, x: nat, j: nat, k: Bytes)
    requires x < |sys.clients| && j < |sys.clients|
    ensures sys.clients[x].key == sys.clients[j].key ==> (IsAbove(sys, x, k) <==> IsAbove(sys, j, k))
  {
  }

  /** The order with client i inserted ends with the later clients that are not above it. */
  lemma BetweenFront(sys: System, i: nat, a: seq<nat>, b: seq<nat>)
    requires i < |sys.clients| && Within(a, |sys.clients|) && Within(b, |sys.clients|)
    ensures var k := sys.clients[i].key;
            var late := Pick(sys, k, b, true);
            && Within(a + b, |sys.clients|) && Within(a + late, |sys.clients|)
            && Between(sys, i, a + b) == Between(sys, i, a + late) + Pick(sys, k, b, false)
  {
    hide IsAbove, Pick;
    var k := sys.clients[i].key;
    var late := Pick(sys, k, b, true);
    PickConcat(sys, k, a, b, true);
    PickConcat(sys, k, a, b, false);
    PickConcat(sys, k, a, late, true);
    PickConcat(sys, k, a, late, false);
    PickAll(sys, k, late, true);
  }

  /** Any other reader sees neither those above nor the inserted client. */
  lemma PlaceBelow(sys: System, d: Disk, i: nat, a: seq<nat>, b: seq<nat>, j: nat)
    requires sys.Valid() && i < |sys.clients| && j < |sys.clients| && sys.clients[i].key != sys.clients[j].key
    requires Within(a, |sys.clients|) && Within(b, |sys.clients|) && i !in a && i !in b
    requires NoneAt(sys, a, sys.clients[i].key) && NoneAt(sys, b, sys.clients[i].key)
    requires NoneAt(sys, b, sys.clients[j].key) && !IsAbove(sys, j, sys.clients[i].key)
    ensures Within(a + b, |sys.clients|)
    ensures Placed(sys, d, Between(sys, i, a + b), j, Reads(After(sys, d, a), sys.ns, sys.clients[j]))
  {
    hide After, Reads, IsAbove, Pick, Between, System.Valid;
    var k, c := sys.clients[i].key, sys.clients[j];
    var late, tail := Pick(sys, k, b, true), Pick(sys, k, b, false);
    LateUnseen(sys, d, i, a, late, j);
    BetweenFront(sys, i, a, b);
    var all, front := Between(sys, i, a + b), Between(sys, i, a + late);
    assert all[..|front|] == front && all[|front|..] == tail;
    assert NoneAt(sys, tail, c.key);
    assert ReadAt(sys, d, all, j, Reads(After(sys, d, a), sys.ns, c), |front|);
  }

  lemma LateUnseen(sys: System, d: Disk, i: nat, a: seq<nat>, late: seq<nat>, j: nat)
    requires sys.Valid() && i < |sys.clients| && j < |sys.clients| && sys.clients[i].key != sys.clients[j].key
    requires Within(a, |sys.clients|) && Within(late, |sys.clients|) && i !in a && i !in late
    requires NoneAt(sys, a, sys.clients[i].key) && NoneAt(sys, late, sys.clients[i].key)
    requires !IsAbove(sys, j, sys.clients[i].key)
    requires forall x :: x in late ==> x < |sys.clients| && IsAbove(sys, x, sys.clients[i].key)
    ensures Within(a + late, |sys.clients|)
    ensures var c := sys.clients[j];
            Reads(After(sys, d, Between(sys, i, a + late)), sys.ns, c) == Reads(After(sys, d, a), sys.ns, c)
  {
    hide After, Reads, IsAbove, Unseen, Replies, Payload, WithPayload, ReplyTo, Between;
    var k, c := sys.clients[i].key, sys.clients[j];
    NoneAtConcat(sys, a, late, k);
    InsertBetween(sys, d, i, a + late);
    NotAboveUnseen(sys, i, j);
    ReadUnseen(After(sys, d, a + late), sys.ns, k, Payload(sys.clients[i], Reads(d, sys.ns, sys.clients[i])), c);
    Concat(sys, d, a, late);
    forall x | x in late ensures x < |sys.clients| && Unseen(sys.ns, sys.clients[x].key, c.key) {
      PickedUnseen(sys, k, x, j);
    }
    RunUnseen(sys, After(sys, d, a), late, c);
  }

  lemma NotAboveUnseen(sys: System, i: nat, j: nat)
    requires i < |sys.clients| && j < |sys.clients| && sys.clients[i].key != sys.clients[j].key
    requires !IsAbove(sys, j, sys.clients[i].key)
    ensures Unseen(sys.ns, sys.clients[i].key, sys.clients[j].key)
  {
    hide Unseen, Above;
    MiddleUnseen(sys.ns, sys.clients[i].key, sys.clients[j].key);
  }

  /** Every reader keeps a place when client i is inserted at its own. */
  lemma PlaceKept(sys: System, d: Disk, turns: seq<nat>, i: nat, readi: Result<Option<Bytes>>, p: nat,
                  j: nat, read: Result<Option<Bytes>>)
    requires sys.Valid() && ReadAt(sys, d, turns, i, readi, p) && i !in turns && Placed(sys, d, turns, j, read)
    requires j < |sys.clients| && sys.clients[i].key != sys.clients[j].key
    ensures Placed(sys, d, Inserted(sys, turns, i, p), j, read)
  {
    hide After, Reads, IsAbove, Between, NoneAt;
    var q: nat :| ReadAt(sys, d, turns, j, read, q);
    if q <= p {
      PlaceBefore(sys, d, turns, i, p, j, read, q);
    } else {
      var pre, a, b := turns[..p], turns[p..q], turns[q..];
      var dp := After(sys, d, pre);
      assert turns[p..] == a + b && turns[..q] == pre + a;
      Concat(sys, d, pre, a);
      NoneAtConcat(sys, a, b, sys.clients[i].key);
      assert i !in a && i !in b;
      if IsAbove(sys, j, sys.clients[i].key) {
        PlaceAbove(sys, dp, i, a, b, j);
      } else {
        PlaceBelow(sys, dp, i, a, b, j);
      }
      PlaceLater(sys, d, pre, Between(sys, i, a + b), j, read);
    }
  }

  lemma PlaceLater(sys: System, d: Disk, pre: seq<nat>, ts: seq<nat>, j: nat, read: Result<Option<Bytes>>)
    requires Within(pre, |sys.clients|) && Within(ts, |sys.clients|)
    requires Placed(sys, After(sys, d, pre), ts, j, read)
    ensures Placed(sys, d, pre + ts, j, read)
  {
    hide After, Reads, NoneAt;
    var p: nat :| ReadAt(sys, After(sys, d, pre), ts, j, read, p);
    var all := pre + ts;
    assert all[..|pre| + p] == pre + ts[..p] && all[|pre| + p..] == ts[p..];
    Concat(sys, d, pre, ts[..p]);
    assert ReadAt(sys, d, all, j, read, |pre| + p);
  }

  // ---------- every interleaving ----------

  lemma DistinctConcat(a: seq<nat>, b: seq<nat>)
    ensures Distinct(a + b) <==> Distinct(a) && Distinct(b) && forall x :: x in a ==> x !in b
  {
    var all := a + b;
    if Distinct(all) {
      forall i, j | 0 <= i < j < |a| ensures a[i] != a[j] { assert all[i] != all[j]; }
      forall i, j | 0 <= i < j < |b| ensures b[i] != b[j] { assert all[|a| + i] != all[|a| + j]; }
      forall i, j | 0 <= i < |a| && 0 <= j < |b| ensures a[i] != b[j] { assert all[i] != all[|a| + j]; }
    }
    if Distinct(a) && Distinct(b) && forall x :: x in a ==> x !in b {
      forall i, j | 0 <= i < j < |all| ensures all[i] != all[j] {
        if i < |a| { assert a[i] in a; }
        if j >= |a| { assert b[j - |a|] in b; }
      }
    }
  }

  lemma {:induction false} PickDistinct(sys: System, k: Bytes, ts: seq<nat>, above: bool)
    requires Within(ts, |sys.clients|) && Distinct(ts)
    ensures Distinct(Pick(sys, k, ts, above))
  {
    hide IsAbove, Distinct;
    if ts == [] {
      DistinctShortest();
    } else {
      var x, rest := ts[0], ts[1..];
      assert ts == [x] + rest;
      DistinctConcat([x], rest);
      PickDistinct(sys, k, rest, above);
      DistinctConcat([x], Pick(sys, k, rest, above));
      assert [] + Pick(sys, k, rest, above) == Pick(sys, k, rest, above);
    }
  }

  lemma DistinctShortest()
    ensures Distinct([]) && forall x :: Distinct([x])
  {
  }

  lemma InsertedDistinct(sys: System, turns: seq<nat>, i: nat, p: nat)
    requires i < |sys.clients| && Within(turns, |sys.clients|) && p <= |turns| && Distinct(turns) && i !in turns
    ensures Distinct(Inserted(sys, turns, i, p))
  {
    hide Distinct, Pick;
    var pre, seg, k := turns[..p], turns[p..], sys.clients[i].key;
    assert turns == pre + seg;
    DistinctConcat(pre, seg);
    var ups, downs := Pick(sys, k, seg, true), Pick(sys, k, seg, false);
    PickDistinct(sys, k, seg, true);
    PickDistinct(sys, k, seg, false);
    DistinctShortest();
    DistinctConcat([i], downs);
    DistinctConcat(ups, [i] + downs);
    DistinctConcat(pre, ups + ([i] + downs));
  }

  /** The clients that have run gave these replies. */
  ghost predicate Agree(s: State, replies: map<nat, Result<int>>) {
    forall i :: i in replies ==> i < |s.phases| && HasRun(s.phases[i]) && s.phases[i].reply == replies[i]
  }

  /** The clients that have run did so one by one in some order, and every client that has
      read has its place in that order. */
  ghost predicate Serial(sys: System, d: Disk, s: State, turns: seq<nat>) {
    && Order(sys, s, turns)
    && s.disk == After(sys, d, turns) && Agree(s, Replies(sys, d, turns))
    && forall j :: 0 <= j < |s.phases| && s.phases[j].Loaded? ==> Placed(sys, d, turns, j, s.phases[j].read)
  }

  /** An event that writes nothing leaves the store and what has been read and answered. */
  lemma QuietIs(sys: System, s: State, e: Event)
    requires sys.Enabled(s, e) && !e.Store?
    ensures var t, c := sys.Next(s, e), sys.clients[e.i];
            && t.disk == s.disk && |t.phases| == |s.phases|
            && (forall j :: 0 <= j < |s.phases| && j != e.i ==> t.phases[j] == s.phases[j])
            && (HasRun(s.phases[e.i]) ==> HasRun(t.phases[e.i]) && t.phases[e.i].reply == s.phases[e.i].reply)
            && (t.phases[e.i].Loaded? ==> t.phases[e.i].read == ReadString(s.disk, sys.ns, c.key, c.now))
  {
    hide ReadString, MetadataKey;
  }

  lemma SerialQuiet(sys: System, d: Disk, s: State, turns: seq<nat>, e: Event)
    requires Serial(sys, d, s, turns) && sys.Enabled(s, e) && !e.Store?
    ensures Serial(sys, d, sys.Next(s, e), turns)
  {
    hide ReadString, After, Replies, Placed, System.Next;
    OrderKept(sys, s, turns, e);
    hide Order;
    QuietIs(sys, s, e);
    if sys.Next(s, e).phases[e.i].Loaded? { JustRead(sys, d, turns, e.i); }
  }

  /** A client that has just read stands at the end. */
  lemma JustRead(sys: System, d: Disk, turns: seq<nat>, i: nat)
    requires i < |sys.clients| && Within(turns, |sys.clients|)
    ensures var c := sys.clients[i];
            Placed(sys, d, turns, i, ReadString(After(sys, d, turns), sys.ns, c.key, c.now))
  {
    hide ReadString, After;
    var c := sys.clients[i];
    assert turns[..|turns|] == turns && turns[|turns|..] == [];
    assert ReadAt(sys, d, turns, i, ReadString(After(sys, d, turns), sys.ns, c.key, c.now), |turns|);
  }

  /** The write of a client, from what it has read. */
  lemma StoreIs(sys: System, s: State, e: Event)
    requires sys.Enabled(s, e) && e.Store?
    ensures var c, read := sys.clients[e.i], s.phases[e.i].read;
            var t := sys.Next(s, e);
            && t.disk == WithPayload(s.disk, sys.ns, c.key, Payload(c, read))
            && t.phases == s.phases[e.i := Phase.Written(ReplyTo(c, read))]
  {
    hide Modify, WriteString;
  }

  lemma OrderInserted(sys: System, s: State, t: State, turns: seq<nat>, i: nat, p: nat)
    requires Order(sys, s, turns) && i < |s.phases| && s.phases[i].Loaded? && p <= |turns|
    requires exists r :: t.phases == s.phases[i := Phase.Written(r)]
    ensures i !in turns && Order(sys, t, Inserted(sys, turns, i, p))
  {
    hide Inserted, Distinct;
    assert i !in turns;
    InsertedDistinct(sys, turns, i, p);
  }

  lemma AgreeOneMore(s: State, t: State, replies: map<nat, Result<int>>, i: nat, r: Result<int>)
    requires Agree(s, replies) && i < |s.phases| && t.phases == s.phases[i := Phase.Written(r)]
    ensures Agree(t, replies[i := r])
  {
  }

  lemma SerialStore(sys: System, d: Disk, s: State, turns: seq<nat>, e: Event) returns (more: seq<nat>)
    requires sys.Valid() && Exclusive(sys, s) && Serial(sys, d, s, turns) && sys.Enabled(s, e) && e.Store?
    ensures Serial(sys, d, sys.Next(s, e), more)
  {
    var i, read, t := e.i, s.phases[e.i].read, sys.Next(s, e);
    hide ReadString, StoreNew, Modify;
    StoreIs(sys, s, e);
    hide After, Replies, Reads, Payload, ReplyTo, WithPayload, Inserted, System.Next, NoneAt, Order, System.Valid;
    var p: nat :| ReadAt(sys, d, turns, i, read, p);
    more := Inserted(sys, turns, i, p);
    OrderInserted(sys, s, t, turns, i, p);
    InsertOutcome(sys, d, turns, i, read, p);
    AgreeOneMore(s, t, Replies(sys, d, turns), i, ReplyTo(sys.clients[i], read));
    hide Agree, ReadAt;
    forall j | 0 <= j < |t.phases| && t.phases[j].Loaded? ensures Placed(sys, d, more, j, t.phases[j].read) {
      assert j != i && t.phases[j] == s.phases[j];
      SharedKey(sys, s, i, j);
      PlaceKept(sys, d, turns, i, read, p, j, s.phases[j].read);
    }
  }

  lemma {:induction false} SerialRun(sys: System, d: Disk, s: State, turns: seq<nat>, events: seq<Event>)
    returns (more: seq<nat>)
    requires sys.Valid() && Exclusive(sys, s) && Serial(sys, d, s, turns) && Legal(sys, s, events)
    ensures Exclusive(sys, Final(sys, s, events)) && Serial(sys, d, Final(sys, s, events), more)
    decreases |events|
  {
    hide Exclusive, Serial, System.Valid;
    if events == [] {
      more := turns;
    } else {
      var e := events[0];
      ExclusiveKept(sys, s, e);
      var next := turns;
      if e.Store? { next := SerialStore(sys, d, s, turns, e); } else { SerialQuiet(sys, d, s, turns, e); }
      more := SerialRun(sys, d, sys.Next(s, e), next, events[1..]);
    }
  }

  // ---------- the order as a one-by-one execution ----------

  lemma {:induction false} AfterIsOneByOne(sys: System, d: Disk, turns: seq<nat>)
    requires Within(turns, |sys.clients|)
    ensures After(sys, d, turns) == sys.OneByOne(d, turns)
  {
    hide Atomic, After;
    if turns == [] {
      NobodyRuns(sys, d);
    } else {
      var n := |turns| - 1;
      AfterIsOneByOne(sys, d, turns[..n]);
      assert turns == turns[..n] + [turns[n]];
      Concat(sys, d, turns[..n], [turns[n]]);
      Alone(sys, After(sys, d, turns[..n]), turns[n]);
    }
  }

  lemma NobodyRuns(sys: System, d: Disk)
    ensures After(sys, d, []) == d && Replies(sys, d, []) == map[]
  {
  }

  lemma ReplyIsAt(sys: System, d: Disk, turns: seq<nat>, n: nat)
    requires Within(turns, |sys.clients|) && Distinct(turns) && n < |turns|
    ensures turns[n] in Replies(sys, d, turns) && Replies(sys, d, turns)[turns[n]] == sys.ReplyAt(d, turns, n)
  {
    hide Atomic, After, Replies, System.OneByOne;
    var x, pre, post := turns[n], turns[..n], turns[n + 1..];
    assert turns == pre + ([x] + post);
    Concat(sys, d, pre, [x] + post);
    var dp := After(sys, d, pre);
    Concat(sys, dp, [x], post);
    Alone(sys, dp, x);
    RepliesOf(sys, d, pre);
    DistinctConcat(pre, [x] + post);
    AfterIsOneByOne(sys, d, pre);
  }

  lemma SerialIsLinear(sys: System, d: Disk, s: State, turns: seq<nat>)
    requires Serial(sys, d, s, turns)
    ensures Linear(sys, d, s, turns)
  {
    hide After, Replies, System.OneByOne, System.ReplyAt, Placed;
    AfterIsOneByOne(sys, d, turns);
    forall n | 0 <= n < |turns|
      ensures HasRun(s.phases[turns[n]]) && s.phases[turns[n]].reply == sys.ReplyAt(d, turns, n)
    {
      assert turns[n] in turns;
      ReplyIsAt(sys, d, turns, n);
    }
  }

  /** Every interleaving of any number of clients, in any system and under any assignment of
      keys to locks, is some one-by-one execution of the clients that have run so far: in
      some order of them, running them alone leaves this store and gives these replies. */
  lemma Serializable(sys: System, s: State, events: seq<Event>) returns (turns: seq<nat>)
    requires sys.Valid() && Initial(sys, s) && Legal(sys, s, events)
    ensures var t := Final(sys, s, events);
            && Exclusive(sys, t) && Linear(sys, s.disk, t, turns)
            && ((forall i :: 0 <= i < |t.phases| ==> t.phases[i].Finished?) ==>
                  forall i :: 0 <= i < |sys.clients| ==> i in turns)
  {
    hide Legal, Final, System.Valid;
    NobodyRuns(sys, s.disk);
    DistinctShortest();
    turns := SerialRun(sys, s.disk, s, [], events);
    SerialIsLinear(sys, s.disk, Final(sys, s, events), turns);
  }
}
