/** INCR, DECR and APPEND: read-modify-write on one string under a shard lock, run by any
    number of clients at once. */
module Counters {
  import opened ByteStrings
  import opened OrderedStore
  import opened Storage
  import opened Encoding
  import opened Contexts
  import opened Decimals

  // ---------- one command ----------

  datatype Op = Incr | Decr | Append(suffix: Bytes)

  function ReadString(d: Disk, ns: Bytes, k: Bytes, now: i64): Result<Option<Bytes>> {
    match GetMeta(d, ns, k)
    case None => Ok(None)
    case Some(v) =>
      match DecodeString(v)
      case None => Err(BadEncoding)
      case Some((flags, expire, payload)) =>
        if flags % 16 != 1 then Err(WrongType)
        else if 0 < expire <= now then Ok(None)
        else Ok(Some(payload))
  }

  /** A write leaves a string without expiry under the key's own namespace. */
  function WriteString(d: Disk, ns: Bytes, k: Bytes, payload: Bytes): Disk {
    d.(metadata := d.metadata[MetadataKey(k, ns) := EncodeString(BuildFlags(TString), 0, payload)])
  }

  function Current(cur: Option<Bytes>): Option<i64> {
    match cur
    case None => Some(0)
    case Some(v) => ParseI64(v)
  }

  /** The new payload and the reply, from what was read. */
  function Modify(op: Op, cur: Option<Bytes>): Result<(Bytes, int)> {
    match op
    case Append(suffix) =>
      var s := (if cur.None? then [] else cur.value) + suffix;
      Ok((s, |s|))
    case _ =>
      match Current(cur)
      case None => Err(NotInteger)
      case Some(n) =>
        var sum := if op.Incr? then n + 1 else n - 1;
        if -SIGN_BIT <= sum < SIGN_BIT then Ok((IntText(sum), sum)) else Err(OutOfRange)
  }

  datatype Client = Client(key: Bytes, op: Op, now: i64)

  datatype Outcome = Outcome(disk: Disk, reply: Result<int>)

  /** The command done in one go. */
  function Atomic(d: Disk, ns: Bytes, c: Client): Outcome {
    match ReadString(d, ns, c.key, c.now)
    case Err(e) => Outcome(d, Err(e))
    case Ok(cur) => StoreNew(d, ns, c, cur)
  }

  function StoreNew(d: Disk, ns: Bytes, c: Client, cur: Option<Bytes>): Outcome {
    match Modify(c.op, cur)
    case Err(e) => Outcome(d, Err(e))
    case Ok((payload, reply)) => Outcome(WriteString(d, ns, c.key, payload), Ok(reply))
  }

  /** What a read of a stored string gives: another type is refused, an expired string is
      absent, otherwise its payload. */
  lemma ReadStringCases(d: Disk, ns: Bytes, k: Bytes, now: i64, t: DataType, expire: i64, payload: Bytes)
    requires GetMeta(d, ns, k) == Some(EncodeString(BuildFlags(t), expire, payload))
    ensures ReadString(d, ns, k, now) == if t != TString then Err(WrongType)
                                         else if expire > 0 && now >= expire then Ok(None)
                                         else Ok(Some(payload))
  {
    hide EncodeString, DecodeString, GetMeta;
    StringRoundTrip(BuildFlags(t), expire, payload);
  }

  /** The text a key holds; an absent or expired one holds none. */
  function TextOf(cur: Option<Bytes>): Bytes { if cur.None? then [] else cur.value }

  /** What a later read finds after a write: the payload, without expiry. */
  lemma ReadBack(d: Disk, ns: Bytes, k: Bytes, payload: Bytes, now: i64)
    ensures ReadString(WriteString(d, ns, k, payload), ns, k, now) == Ok(Some(payload))
  {
    hide EncodeString, DecodeString, MetadataKey, ReadString;
    GetMetaAfterPut(d, ns, k, EncodeString(BuildFlags(TString), 0, payload));
    ReadStringCases(WriteString(d, ns, k, payload), ns, k, now, TString, 0, payload);
  }

  /** APPEND: afterwards the key holds the old text and behind it the suffix, for good, and
      the reply is the length of that; a key that cannot be read stays as it is. */
  lemma AppendMeaning(d: Disk, ns: Bytes, c: Client, later: i64)
    requires c.op.Append?
    ensures var before, out := ReadString(d, ns, c.key, c.now), Atomic(d, ns, c);
            if before.Err? then out == Outcome(d, Err(before.error))
            else
              var text := TextOf(before.value) + c.op.suffix;
              out.reply == Ok(|text|) && ReadString(out.disk, ns, c.key, later) == Ok(Some(text))
  {
    hide ReadString, WriteString;
    var before := ReadString(d, ns, c.key, c.now);
    if before.Ok? { ReadBack(d, ns, c.key, TextOf(before.value) + c.op.suffix, later); }
  }

  function Bumped(op: Op, n: int): int { if op.Incr? then n + 1 else n - 1 }

  /** INCR and DECR: the number read, 0 for an absent key, goes up or down by one, is stored as
      text and is the reply; text that is no number and a number at the end of the range are
      refused and left. */
  lemma CountMeaning(d: Disk, ns: Bytes, c: Client, later: i64)
    requires !c.op.Append?
    ensures var before, out := ReadString(d, ns, c.key, c.now), Atomic(d, ns, c);
            if before.Err? then out == Outcome(d, Err(before.error))
            else
              var n := if before.value.None? then Some(0) else ParseI64(before.value.value);
              if n.None? then out == Outcome(d, Err(NotInteger))
              else
                var sum := Bumped(c.op, n.value);
                if sum < -SIGN_BIT || sum >= SIGN_BIT then out == Outcome(d, Err(OutOfRange))
                else
                  && out.reply == Ok(sum)
                  && ReadString(out.disk, ns, c.key, later) == Ok(Some(IntText(sum)))
                  && ParseI64(IntText(sum)) == Some(sum)
  {
    hide ReadString, WriteString, ParseI64, IntText;
    var before := ReadString(d, ns, c.key, c.now);
    if before.Ok? {
      var n := Current(before.value);
      if n.Some? {
        var sum := Bumped(c.op, n.value);
        IntTextRoundTrip(sum);
        ReadBack(d, ns, c.key, IntText(sum), later);
      }
    }
  }

  /** INCR, DECR and APPEND as the code runs them while it holds the lock. */
  method Run(db: StorageEngine, ns: Bytes, c: Client) returns (r: Result<int>)
    modifies db
    ensures Outcome(db.disk, r) == Atomic(old(db.disk), ns, c)
  {
    hide ReadString, ParseI64, IntText, EncodeString, MetadataKey;
    var read := ReadString(db.disk, ns, c.key, c.now);
    if read.Err? { return Err(read.error); }
    var payload: Bytes, reply: int;
    if c.op.Append? {
      payload := (if read.value.None? then [] else read.value.value) + c.op.suffix;
      reply := |payload|;
    } else {
      var n: Option<i64> := if read.value.None? then Some(0) else ParseI64(read.value.value);
      if n.None? { return Err(NotInteger); }
      reply := if c.op.Incr? then n.value + 1 else n.value - 1;
      if reply < -SIGN_BIT || reply >= SIGN_BIT { return Err(OutOfRange); }
      payload := IntText(reply);
    }
    db.Put(CfMetadata, MetadataKey(c.key, ns), EncodeString(BuildFlags(TString), 0, payload));
    r := Ok(reply);
  }

  // ---------- which keys a write reaches ----------

  /** The record of key a is the one from before namespaces that key b reads when it has none
      of its own. */
  ghost predicate Feeds(ns: Bytes, a: Bytes, b: Bytes) { ns != [] && MetadataKey(a, ns) == MetadataKey(b, []) }

  /** A write to key a is not seen by a read of key b: b is another key, and has a record of
      its own or another one behind it. */
  lemma WriteUnseen(d: Disk, ns: Bytes, a: Bytes, b: Bytes, payload: Bytes)
    requires ValidNamespace(ns) && ValidKey(a) && ValidKey(b) && a != b
    requires MetadataKey(b, ns) in d.metadata || !Feeds(ns, a, b)
    ensures GetMeta(WriteString(d, ns, a, payload), ns, b) == GetMeta(d, ns, b)
  {
    hide EncodeString, MetadataKey;
    if MetadataKey(a, ns) == MetadataKey(b, ns) { MetadataKeyInjective(a, b, ns); }
  }

  // ---------- many clients ----------

  /** Where a client is: before its lock, inside it, with what it has read, after its
      write, or finished. */
  datatype Phase =
    | Waiting | Locked | Loaded(read: Result<Option<Bytes>>)
    | Written(reply: Result<int>) | Finished(reply: Result<int>)

  predicate Within(turns: seq<nat>, n: nat) { forall a :: 0 <= a < |turns| ==> turns[a] < n }

  ghost predicate Distinct(turns: seq<nat>) { forall a, b :: 0 <= a < b < |turns| ==> turns[a] != turns[b] }

  predicate Inside(p: Phase) { p.Locked? || p.Loaded? || p.Written? }

  predicate HasRun(p: Phase) { p.Written? || p.Finished? }

  /** The server: the store, one lock per shard and who holds it, and every client's phase. */
  datatype State = State(disk: Disk, owner: map<nat, nat>, phases: seq<Phase>)

  datatype Event = Acquire(i: nat) | Load(i: nat) | Store(i: nat) | Release(i: nat)

  /** A system of clients: what each wants, and the shard of every key. */
  datatype System = System(ns: Bytes, clients: seq<Client>, shard: Bytes -> nat) {
    function ShardOf(i: nat): nat
      requires i < |clients|
    {
      shard(MetadataKey(clients[i].key, ns)) % KEY_LOCK_SHARDS
    }

    /** What an event needs: a client in the right phase, and for a lock that it is free. */
    predicate Enabled(s: State, e: Event) {
      && |s.phases| == |clients| && e.i < |clients|
      && match e
         case Acquire(i) => s.phases[i].Waiting? && ShardOf(i) !in s.owner
         case Load(i) => s.phases[i].Locked?
         case Store(i) => s.phases[i].Loaded?
         case Release(i) => s.phases[i].Written?
    }

    function Next(s: State, e: Event): State
      requires Enabled(s, e)
    {
      match e
      case Acquire(i) => State(s.disk, s.owner[ShardOf(i) := i], s.phases[i := Locked])
      case Load(i) =>
        State(s.disk, s.owner, s.phases[i := Loaded(ReadString(s.disk, ns, clients[i].key, clients[i].now))])
      case Store(i) =>
        var read := s.phases[i].read;
        if read.Err? then State(s.disk, s.owner, s.phases[i := Written(Err(read.error))])
        else
          var out := StoreNew(s.disk, ns, clients[i], read.value);
          State(out.disk, s.owner, s.phases[i := Written(out.reply)])
      case Release(i) => State(s.disk, s.owner - {ShardOf(i)}, s.phases[i := Finished(s.phases[i].reply)])
    }

    /** A write by client i reaches the record from before namespaces that client j reads
        when it has none of its own. */
    ghost predicate Aliases(i: nat, j: nat)
      requires i < |clients| && j < |clients|
    {
      Feeds(ns, clients[i].key, clients[j].key)
    }

    ghost predicate Valid() { ValidNamespace(ns) && forall i :: 0 <= i < |clients| ==> ValidKey(clients[i].key) }

    /** Clients that can reach each other's records share a lock. */
    ghost predicate Sound() {
      && Valid()
      && (forall i, j :: 0 <= i < |clients| && 0 <= j < |clients| && Aliases(i, j) ==> ShardOf(i) == ShardOf(j))
    }

    /** The store after the clients in the list have run one after another. */
    function OneByOne(d: Disk, turns: seq<nat>): Disk
      requires Within(turns, |clients|)
    {
      if turns == [] then d
      else
        var n := |turns| - 1;
        Atomic(OneByOne(d, turns[..n]), ns, clients[turns[n]]).disk
    }

    /** The reply of the client at a position of the list. */
    function ReplyAt(d: Disk, turns: seq<nat>, n: nat): Result<int>
      requires n < |turns| && Within(turns, |clients|)
    {
      Atomic(OneByOne(d, turns[..n]), ns, clients[turns[n]]).reply
    }
  }

  const KEY_LOCK_SHARDS: nat := 1024

  // ---------- the invariant of every interleaving ----------

  /** A lock is held by exactly the client inside it. */
  ghost predicate Exclusive(sys: System, s: State) {
    && |s.phases| == |sys.clients|
    && (forall i :: 0 <= i < |s.phases| && Inside(s.phases[i]) ==>
          sys.ShardOf(i) in s.owner && s.owner[sys.ShardOf(i)] == i)
    && (forall h :: h in s.owner ==>
          s.owner[h] < |s.phases| && Inside(s.phases[s.owner[h]]) && sys.ShardOf(s.owner[h]) == h)
  }

  /** turns lists, once each, the clients that have run. */
  ghost predicate Order(sys: System, s: State, turns: seq<nat>) {
    && |s.phases| == |sys.clients|
    && Within(turns, |sys.clients|)
    && Distinct(turns)
    && (forall i :: 0 <= i < |s.phases| ==> (HasRun(s.phases[i]) <==> i in turns))
  }

  /** What a client inside has read is still what the store holds. */
  ghost predicate UpToDate(sys: System, s: State) {
    && |s.phases| == |sys.clients|
    && forall i :: 0 <= i < |s.phases| && s.phases[i].Loaded? ==>
         s.phases[i].read == ReadString(s.disk, sys.ns, sys.clients[i].key, sys.clients[i].now)
  }

  /** The store and the replies are those of the clients running one by one in that order. */
  ghost predicate Linear(sys: System, d0: Disk, s: State, turns: seq<nat>) {
    && Order(sys, s, turns)
    && s.disk == sys.OneByOne(d0, turns)
    && forall n :: 0 <= n < |turns| ==> s.phases[turns[n]].reply == sys.ReplyAt(d0, turns, n)
  }

  ghost predicate Inv(sys: System, d0: Disk, s: State, turns: seq<nat>) {
    Exclusive(sys, s) && UpToDate(sys, s) && Linear(sys, d0, s, turns)
  }

  function Turns(turns: seq<nat>, e: Event): seq<nat> { if e.Store? then turns + [e.i] else turns }

  lemma ExclusiveKept(sys: System, s: State, e: Event)
    requires Exclusive(sys, s) && sys.Enabled(s, e)
    ensures Exclusive(sys, sys.Next(s, e))
  {
    hide ReadString, StoreNew, MetadataKey;
  }

  /** A write to one key is not seen by a read of another. */
  lemma WriteApart(sys: System, d: Disk, i: nat, j: nat, payload: Bytes)
    requires sys.Valid() && i < |sys.clients| && j < |sys.clients| && sys.clients[i].key != sys.clients[j].key
    requires Apart(sys, d, i, j)
    ensures var k, other := sys.clients[i].key, sys.clients[j].key;
            GetMeta(WriteString(d, sys.ns, k, payload), sys.ns, other) == GetMeta(d, sys.ns, other)
  {
    hide GetMeta, WriteString, MetadataKey, Feeds;
    WriteUnseen(d, sys.ns, sys.clients[i].key, sys.clients[j].key, payload);
  }

  /** Client j has a record of its own, or none that client i's write reaches. */
  ghost predicate Apart(sys: System, d: Disk, i: nat, j: nat)
    requires i < |sys.clients| && j < |sys.clients|
  {
    MetadataKey(sys.clients[j].key, sys.ns) in d.metadata || !sys.Aliases(i, j)
  }

  /** Without a namespace, or with keys under 2^24 bytes, no client reaches another's record. */
  lemma ShortKeysSound(sys: System)
    requires ValidNamespace(sys.ns)
    requires forall i :: 0 <= i < |sys.clients| ==>
               ValidKey(sys.clients[i].key) && (sys.ns != [] ==> |sys.clients[i].key| < 0x100_0000)
    ensures sys.Sound()
    ensures forall i, j :: 0 <= i < |sys.clients| && 0 <= j < |sys.clients| ==> !sys.Aliases(i, j)
  {
    hide MetadataKey, ValidKey;
    forall i, j | 0 <= i < |sys.clients| && 0 <= j < |sys.clients| && sys.ns != []
      ensures MetadataKey(sys.clients[i].key, sys.ns) != MetadataKey(sys.clients[j].key, [])
    {
      LegacyApart(sys.ns, sys.clients[i].key, sys.clients[j].key);
    }
  }

  lemma LegacyApart(ns: Bytes, k: Bytes, other: Bytes)
    requires ns != [] && ValidNamespace(ns) && |other| < 0x100_0000
    ensures MetadataKey(k, ns) != MetadataKey(other, [])
  {
    ShortLegacyKeysApart(ns, other, []);
    assert MetadataKey(other, []) + [] == MetadataKey(other, []);
  }

  lemma SharedKey(sys: System, s: State, i: nat, j: nat)
    requires Exclusive(sys, s) && i < |s.phases| && j < |s.phases| && i != j
    requires Inside(s.phases[i]) && Inside(s.phases[j])
    ensures sys.clients[i].key != sys.clients[j].key && sys.ShardOf(i) != sys.ShardOf(j)
  {
  }

  lemma UpToDateKept(sys: System, s: State, e: Event)
    requires sys.Sound() && Exclusive(sys, s) && UpToDate(sys, s) && sys.Enabled(s, e)
    ensures UpToDate(sys, sys.Next(s, e))
  {
    hide ReadString, Modify;
    var t := sys.Next(s, e);
    if e.Store? && t.disk != s.disk {
      forall j | 0 <= j < |t.phases| && t.phases[j].Loaded?
        ensures t.phases[j].read == ReadString(t.disk, sys.ns, sys.clients[j].key, sys.clients[j].now)
      {
        assert j != e.i && s.phases[j].Loaded?;
        SharedKey(sys, s, e.i, j);
        StoreApart(sys, s.disk, e.i, j, s.phases[e.i].read.value);
      }
    }
  }

  lemma StoreApart(sys: System, d: Disk, i: nat, j: nat, cur: Option<Bytes>)
    requires sys.Sound() && i < |sys.clients| && j < |sys.clients| && sys.clients[i].key != sys.clients[j].key
    requires Apart(sys, d, i, j)
    ensures var c := sys.clients[j];
            ReadString(StoreNew(d, sys.ns, sys.clients[i], cur).disk, sys.ns, c.key, c.now)
            == ReadString(d, sys.ns, c.key, c.now)
  {
    hide Modify, GetMeta, WriteString, DecodeString;
    var made := Modify(sys.clients[i].op, cur);
    if made.Ok? { WriteApart(sys, d, i, j, made.value.0); }
  }

  lemma OrderKept(sys: System, s: State, turns: seq<nat>, e: Event)
    requires Order(sys, s, turns) && sys.Enabled(s, e)
    ensures Order(sys, sys.Next(s, e), Turns(turns, e))
  {
    hide ReadString, StoreNew;
    var t, longer := sys.Next(s, e), Turns(turns, e);
    assert e.Store? ==> e.i !in turns;
    forall a, b | 0 <= a < b < |longer| ensures longer[a] != longer[b] {
      if a < |turns| { assert longer[a] == turns[a] && turns[a] in turns; }
    }
    forall i | 0 <= i < |t.phases| ensures HasRun(t.phases[i]) <==> i in longer {
      if i in turns { assert i in longer; }
    }
  }

  /** A store step is the whole command at that moment. */
  lemma StoreIsAtomic(sys: System, s: State, e: Event)
    requires UpToDate(sys, s) && sys.Enabled(s, e) && e.Store?
    ensures var t := sys.Next(s, e);
            t.phases[e.i].Written? && Outcome(t.disk, t.phases[e.i].reply) == Atomic(s.disk, sys.ns, sys.clients[e.i])
  {
    hide ReadString, StoreNew;
  }

  lemma RepliesKept(sys: System, d0: Disk, s: State, t: State, turns: seq<nat>)
    requires Linear(sys, d0, s, turns) && Order(sys, t, turns)
    requires forall i :: 0 <= i < |s.phases| && HasRun(s.phases[i]) ==> t.phases[i].reply == s.phases[i].reply
    ensures forall n :: 0 <= n < |turns| ==> t.phases[turns[n]].reply == sys.ReplyAt(d0, turns, n)
  {
    hide System.ReplyAt;
    forall n | 0 <= n < |turns| ensures t.phases[turns[n]].reply == sys.ReplyAt(d0, turns, n) {
      assert turns[n] in turns;
    }
  }

  lemma LinearStore(sys: System, d0: Disk, s: State, turns: seq<nat>, e: Event)
    requires UpToDate(sys, s) && Linear(sys, d0, s, turns) && sys.Enabled(s, e) && e.Store?
    ensures Linear(sys, d0, sys.Next(s, e), turns + [e.i])
  {
    hide Atomic, System.Next, UpToDate;
    OrderKept(sys, s, turns, e);
    StoreIsAtomic(sys, s, e);
    StorePhases(sys, s, e);
    var t, longer := sys.Next(s, e), turns + [e.i];
    assert longer[..|turns|] == turns;
    forall n | 0 <= n < |longer| ensures t.phases[longer[n]].reply == sys.ReplyAt(d0, longer, n) {
      if n < |turns| {
        assert longer[n] == turns[n] && turns[n] in turns && longer[..n] == turns[..n];
      }
    }
  }

  lemma StorePhases(sys: System, s: State, e: Event)
    requires sys.Enabled(s, e) && e.Store?
    ensures var t := sys.Next(s, e);
            |t.phases| == |s.phases| && forall i :: 0 <= i < |s.phases| && i != e.i ==> t.phases[i] == s.phases[i]
  {
    hide StoreNew;
  }

  lemma LinearQuiet(sys: System, d0: Disk, s: State, turns: seq<nat>, e: Event)
    requires Linear(sys, d0, s, turns) && sys.Enabled(s, e) && !e.Store?
    ensures Linear(sys, d0, sys.Next(s, e), turns)
  {
    hide ReadString, System.OneByOne, System.ReplyAt;
    OrderKept(sys, s, turns, e);
    RepliesKept(sys, d0, s, sys.Next(s, e), turns);
  }

  lemma LinearKept(sys: System, d0: Disk, s: State, turns: seq<nat>, e: Event)
    requires UpToDate(sys, s) && Linear(sys, d0, s, turns) && sys.Enabled(s, e)
    ensures Linear(sys, d0, sys.Next(s, e), Turns(turns, e))
  {
    hide Linear, UpToDate, System.Next, System.Enabled;
    if e.Store? { LinearStore(sys, d0, s, turns, e); } else { LinearQuiet(sys, d0, s, turns, e); }
  }

  /** Every event may happen at this point of a run. */
  ghost predicate Legal(sys: System, s: State, events: seq<Event>)
    decreases |events|
  {
    events == [] || (sys.Enabled(s, events[0]) && Legal(sys, sys.Next(s, events[0]), events[1..]))
  }

  ghost function Final(sys: System, s: State, events: seq<Event>): State
    requires Legal(sys, s, events)
    decreases |events|
  {
    if events == [] then s else Final(sys, sys.Next(s, events[0]), events[1..])
  }

  ghost function FinalTurns(turns: seq<nat>, events: seq<Event>): seq<nat>
    decreases |events|
  {
    if events == [] then turns else FinalTurns(Turns(turns, events[0]), events[1..])
  }

  lemma {:induction false} InvKept(sys: System, d0: Disk, s: State, turns: seq<nat>, events: seq<Event>)
    requires sys.Sound() && Inv(sys, d0, s, turns) && Legal(sys, s, events)
    ensures Inv(sys, d0, Final(sys, s, events), FinalTurns(turns, events))
    decreases |events|
  {
    if events != [] {
      hide Exclusive, UpToDate, Linear;
      var e := events[0];
      ExclusiveKept(sys, s, e);
      UpToDateKept(sys, s, e);
      LinearKept(sys, d0, s, turns, e);
      InvKept(sys, d0, sys.Next(s, e), Turns(turns, e), events[1..]);
    }
  }

  /** All clients before their lock, no lock held. */
  ghost predicate Initial(sys: System, s: State) {
    && s.owner == map[] && |s.phases| == |sys.clients| && forall i :: 0 <= i < |s.phases| ==> s.phases[i].Waiting?
  }

  /** Every interleaving of any number of clients is some one-by-one execution: there is an
      order of the clients that have run so far in which running them alone leaves this
      store and gives these replies, and it is the order of their writes. */
  lemma Linearizable(sys: System, s: State, events: seq<Event>) returns (turns: seq<nat>)
    requires sys.Sound() && Initial(sys, s) && Legal(sys, s, events)
    ensures var t := Final(sys, s, events);
            && turns == FinalTurns([], events) && Exclusive(sys, t) && Linear(sys, s.disk, t, turns)
            && ((forall i :: 0 <= i < |t.phases| ==> t.phases[i].Finished?) ==>
                  forall i :: 0 <= i < |sys.clients| ==> i in turns)
  {
    turns := FinalTurns([], events);
    hide Legal, Final;
    InvKept(sys, s.disk, s, [], events);
  }
}
