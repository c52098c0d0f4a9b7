/** What INCR and DECR add up to when any number of clients run them at once. */
module CounterSums {
  import opened ByteStrings
  import opened OrderedStore
  import opened Storage
  import opened Encoding
  import opened Contexts
  import opened Decimals
  import opened Counters
  import opened CounterOrders

  /** The number a key holds, when it holds one and does not expire; an absent key is 0. */
  function NumberAt(d: Disk, ns: Bytes, k: Bytes): Option<i64> {
    match GetMeta(d, ns, k)
    case None => Some(0)
    case Some(v) =>
      match DecodeString(v)
      case Some((flags, expire, payload)) => if flags % 16 == 1 && expire == 0 then ParseI64(payload) else None
      case None => None
  }

  /** What the successful INCRs and DECRs of a key add up to. */
  function Net(sys: System, d: Disk, k: Bytes, turns: seq<nat>): int
    requires Within(turns, |sys.clients|)
  {
    if turns == [] then 0
    else
      var n := |turns| - 1;
      Net(sys, d, k, turns[..n]) + Delta(sys.clients[turns[n]], k, sys.ReplyAt(d, turns, n))
  }

  /** One INCR or DECR: one up or down and the new number as reply, refused only at the end
      of the 64-bit range. */
  lemma CountOnce(d: Disk, ns: Bytes, c: Client, n: i64)
    requires NumberAt(d, ns, c.key) == Some(n) && !c.op.Append?
    ensures var out := Atomic(d, ns, c);
            var sum := if c.op.Incr? then n + 1 else n - 1;
            if -SIGN_BIT <= sum < SIGN_BIT then out.reply == Ok(sum) && NumberAt(out.disk, ns, c.key) == Some(sum)
            else out == Outcome(d, Err(OutOfRange))
  {
    hide ParseI64, IntText, EncodeString, DecodeString, MetadataKey;
    var sum := if c.op.Incr? then n + 1 else n - 1;
    IntTextRoundTrip(sum);
    StringRoundTrip(BuildFlags(TString), 0, IntText(sum));
  }

  /** The key holds the number, and no client reaches it from under another key. */
  ghost predicate Stands(sys: System, d: Disk, who: nat, n: int)
    requires who < |sys.clients|
  {
    && -SIGN_BIT <= n < SIGN_BIT && NumberAt(d, sys.ns, sys.clients[who].key) == Some(n)
    && OwnNumber(sys, d, who)
  }

  /** The key has a record of its own, or no client writes the one from before namespaces. */
  ghost predicate OwnNumber(sys: System, d: Disk, who: nat)
    requires who < |sys.clients|
  {
    forall i :: 0 <= i < |sys.clients| ==> Apart(sys, d, i, who)
  }

  /** A command takes no record away. */
  lemma ApartKept(sys: System, d: Disk, i: nat, j: nat, who: nat)
    requires i < |sys.clients| && j < |sys.clients| && who < |sys.clients| && Apart(sys, d, j, who)
    ensures Apart(sys, Atomic(d, sys.ns, sys.clients[i]).disk, j, who)
  {
    hide ReadString, Modify, MetadataKey, EncodeString;
  }

  lemma OtherKeyKept(sys: System, d: Disk, i: nat, j: nat)
    requires sys.Valid() && i < |sys.clients| && j < |sys.clients| && sys.clients[i].key != sys.clients[j].key
    requires Apart(sys, d, i, j)
    ensures NumberAt(Atomic(d, sys.ns, sys.clients[i]).disk, sys.ns, sys.clients[j].key)
            == NumberAt(d, sys.ns, sys.clients[j].key)
  {
    hide Modify, ReadString, GetMeta, WriteString, DecodeString, ParseI64;
    var read := ReadString(d, sys.ns, sys.clients[i].key, sys.clients[i].now);
    if read.Ok? {
      var made := Modify(sys.clients[i].op, read.value);
      if made.Ok? { WriteApart(sys, d, i, j, made.value.0); }
    }
  }

  /** An INCR of a key of 2^24 + 254 bytes in the one-byte namespace "\0" raises the number
      another key reads there from before namespaces. */
  lemma AliasedIncr(k: Bytes, now: i64, n: i64)
    requires |k| == 0x100_0000 + 254 && n < SIGN_BIT - 1
    ensures var other: Bytes := [0, 254] + k;
            var record := EncodeString(BuildFlags(TString), 0, IntText(n));
            var d := Disk(map[MetadataKey(other, []) := record], map[], map[]);
            var e := Atomic(d, [0], Client(k, Incr, now)).disk;
            k != other && NumberAt(d, [0], other) == Some(n) && NumberAt(e, [0], other) == Some(n + 1)
  {
    var other: Bytes := [0, 254] + k;
    var record := EncodeString(BuildFlags(TString), 0, IntText(n));
    var d := Disk(map[MetadataKey(other, []) := record], map[], map[]);
    LongKeysAlias(k);
    MetadataKeyLength(k, [0]);
    MetadataKeyLength(other, [0]);
    hide MetadataKey, EncodeString, DecodeString, IntText, ParseI64;
    IntTextRoundTrip(n);
    StringRoundTrip(BuildFlags(TString), 0, IntText(n));
    assert NumberAt(d, [0], k) == Some(n);
    CountOnce(d, [0], Client(k, Incr, now), n);
  }

  /** The clients that have run on client who's key were all counting. */
  ghost predicate Counting(sys: System, turns: seq<nat>, who: nat)
    requires who < |sys.clients|
  {
    && Within(turns, |sys.clients|)
    && forall n :: 0 <= n < |turns| && sys.clients[turns[n]].key == sys.clients[who].key ==>
         !sys.clients[turns[n]].op.Append?
  }

  /** What one run adds to the number of a key. */
  function Delta(c: Client, k: Bytes, reply: Result<int>): int {
    if c.key == k && reply.Ok? then (if c.op.Incr? then 1 else -1) else 0
  }

  lemma CountStep(sys: System, d: Disk, i: nat, who: nat, n: int)
    requires sys.Valid() && i < |sys.clients| && who < |sys.clients|
    requires sys.clients[i].key == sys.clients[who].key ==> !sys.clients[i].op.Append?
    requires Stands(sys, d, who, n)
    ensures var out := Atomic(d, sys.ns, sys.clients[i]);
            Stands(sys, out.disk, who, n + Delta(sys.clients[i], sys.clients[who].key, out.reply))
  {
    hide NumberAt, Atomic, Apart;
    forall j | 0 <= j < |sys.clients| ensures Apart(sys, Atomic(d, sys.ns, sys.clients[i]).disk, j, who) {
      ApartKept(sys, d, i, j, who);
    }
    if sys.clients[i].key == sys.clients[who].key {
      CountOnce(d, sys.ns, sys.clients[i], n);
    } else {
      OtherKeyKept(sys, d, i, who);
    }
  }

  lemma NoTurns(sys: System, d: Disk, k: Bytes)
    ensures Net(sys, d, k, []) == 0 && Wanted(sys, k, []) == 0 && sys.OneByOne(d, []) == d
  {
  }

  lemma TurnStep(sys: System, d: Disk, who: nat, turns: seq<nat>)
    requires turns != [] && who < |sys.clients| && Counting(sys, turns, who)
    ensures var n := |turns| - 1;
            var init, i := turns[..n], turns[n];
            var out := Atomic(sys.OneByOne(d, init), sys.ns, sys.clients[i]);
            && Counting(sys, init, who) && i < |sys.clients|
            && (sys.clients[i].key == sys.clients[who].key ==> !sys.clients[i].op.Append?)
            && sys.OneByOne(d, turns) == out.disk
            && Net(sys, d, sys.clients[who].key, turns)
               == Net(sys, d, sys.clients[who].key, init) + Delta(sys.clients[i], sys.clients[who].key, out.reply)
  {
    hide Atomic;
  }

  lemma {:induction false} CountAll(sys: System, d: Disk, who: nat, turns: seq<nat>, n: int)
    requires sys.Valid() && who < |sys.clients| && Counting(sys, turns, who)
    requires Stands(sys, d, who, n)
    ensures Within(turns, |sys.clients|)
    ensures Stands(sys, sys.OneByOne(d, turns), who, n + Net(sys, d, sys.clients[who].key, turns))
  {
    hide Stands, Atomic, Net, System.OneByOne, Delta, System.Valid;
    if turns == [] {
      NoTurns(sys, d, sys.clients[who].key);
    } else {
      var last := |turns| - 1;
      TurnStep(sys, d, who, turns);
      CountAll(sys, d, who, turns[..last], n);
      CountStep(sys, sys.OneByOne(d, turns[..last]), turns[last], who,
                n + Net(sys, d, sys.clients[who].key, turns[..last]));
    }
  }

  /** No update is lost: after any interleaving the number a counting client's key holds is
      the initial one plus the successful INCRs minus the successful DECRs. */
  lemma NoLostUpdate(sys: System, s: State, events: seq<Event>, who: nat, n: i64) returns (turns: seq<nat>)
    requires sys.Valid() && Initial(sys, s) && Legal(sys, s, events) && who < |sys.clients|
    requires forall i :: 0 <= i < |sys.clients| && sys.clients[i].key == sys.clients[who].key ==>
               !sys.clients[i].op.Append?
    requires Stands(sys, s.disk, who, n)
    ensures var t := Final(sys, s, events);
            && Linear(sys, s.disk, t, turns)
            && NumberAt(t.disk, sys.ns, sys.clients[who].key) == Some(n + Net(sys, s.disk, sys.clients[who].key, turns))
  {
    hide NumberAt, Net, Legal, Final, Exclusive, Initial, Linear, Stands, System.Valid;
    turns := Serializable(sys, s, events);
    var t := Final(sys, s, events);
    LinearCounts(sys, s.disk, t, turns, who);
    CountAll(sys, s.disk, who, turns, n);
    StandsIs(sys, t.disk, who, n + Net(sys, s.disk, sys.clients[who].key, turns));
  }

  lemma LinearCounts(sys: System, d: Disk, t: State, turns: seq<nat>, who: nat)
    requires who < |sys.clients| && Linear(sys, d, t, turns)
    requires forall i :: 0 <= i < |sys.clients| && sys.clients[i].key == sys.clients[who].key ==>
               !sys.clients[i].op.Append?
    ensures Counting(sys, turns, who) && t.disk == sys.OneByOne(d, turns)
  {
    hide System.OneByOne, System.ReplyAt;
  }

  // ---------- where an update can be lost ----------

  /** The number of the key is accounted for by the clients of the key, in this order. */
  ghost predicate Accounted(sys: System, d: Disk, t: State, turns: seq<nat>, who: nat, n: int)
    requires who < |sys.clients| && Within(turns, |sys.clients|)
  {
    var k := sys.clients[who].key;
    NumberAt(t.disk, sys.ns, k).Some? && NumberAt(t.disk, sys.ns, k).value == n + Net(sys, d, k, turns)
  }

  /** If the events can happen and this order explains them, the number is accounted for. */
  ghost predicate Explained(sys: System, s: State, who: nat, n: int, events: seq<Event>, turns: seq<nat>)
    requires who < |sys.clients|
  {
    Legal(sys, s, events) && Linear(sys, s.disk, Final(sys, s, events), turns) ==>
      Accounted(sys, s.disk, Final(sys, s, events), turns, who, n)
  }

  ghost predicate NeverLost(sys: System, s: State, who: nat, n: int)
    requires who < |sys.clients|
  {
    forall events, turns :: Explained(sys, s, who, n, events, turns)
  }

  /** Client i up to its write, before anyone else has begun. */
  function AloneEvents(i: nat): seq<Event> { [Acquire(i), Load(i), Store(i)] }

  lemma RunsAlone(sys: System, s: State, i: nat)
    requires Initial(sys, s) && i < |sys.clients|
    ensures Legal(sys, s, AloneEvents(i))
    ensures var t, out := Final(sys, s, AloneEvents(i)), Atomic(s.disk, sys.ns, sys.clients[i]);
            t.disk == out.disk && t.phases == s.phases[i := Phase.Written(out.reply)]
  {
    hide ReadString, StoreNew, MetadataKey;
    var e := AloneEvents(i);
    var s1 := sys.Next(s, e[0]);
    var s2 := sys.Next(s1, e[1]);
    var s3 := sys.Next(s2, e[2]);
    assert e[1..][1..] == [Store(i)] && e[1..] == [Load(i), Store(i)] && [Store(i)][1..] == [];
    assert Legal(sys, s3, []) && Legal(sys, s2, [Store(i)]) && Legal(sys, s1, [Load(i), Store(i)]);
    assert Final(sys, s2, [Store(i)]) == s3;
    assert Final(sys, s1, [Load(i), Store(i)]) == s3;
  }

  lemma OnlyTurn(sys: System, d: Disk, s: State, t: State, turns: seq<nat>, i: nat, r: Result<int>)
    requires Initial(sys, s) && i < |s.phases| && t.phases == s.phases[i := Phase.Written(r)]
    requires Linear(sys, d, t, turns)
    ensures turns == [i]
  {
    hide System.OneByOne, System.ReplyAt;
    forall a | 0 <= a < |turns| ensures turns[a] == i { assert turns[a] in turns; }
    assert i in turns;
    assert turns[0] == turns[|turns| - 1];
    assert |turns| == 1;
  }

  /** Both keys read the one record. */
  lemma AliasedKeys(sys: System, d: Disk, i: nat, who: nat)
    requires i < |sys.clients| && who < |sys.clients| && !Apart(sys, d, i, who)
    ensures sys.clients[i].key != sys.clients[who].key
    ensures GetMeta(d, sys.ns, sys.clients[who].key).Some? ==>
              GetMeta(d, sys.ns, sys.clients[i].key) == GetMeta(d, sys.ns, sys.clients[who].key)
  {
    FeedsLonger(sys.ns, sys.clients[i].key, sys.clients[who].key);
    hide MetadataKey;
  }

  /** And they still do when the first has written it. */
  lemma StillAliased(sys: System, d: Disk, i: nat, who: nat)
    requires sys.Valid() && i < |sys.clients| && who < |sys.clients| && !Apart(sys, d, i, who)
    requires GetMeta(d, sys.ns, sys.clients[who].key).Some?
    ensures var e := Atomic(d, sys.ns, sys.clients[i]).disk;
            !Apart(sys, e, i, who) && GetMeta(e, sys.ns, sys.clients[who].key).Some?
  {
    AliasedKeys(sys, d, i, who);
    var a, b := sys.clients[i].key, sys.clients[who].key;
    hide ReadString, Modify, MetadataKey, EncodeString;
    if MetadataKey(a, sys.ns) == MetadataKey(b, sys.ns) { MetadataKeyInjective(a, b, sys.ns); }
  }

  /** An INCR or DECR of a key that writes what another key reads loses that key's count. */
  lemma AliasLoses(sys: System, s: State, i: nat, who: nat, n: int)
    requires sys.Valid() && Initial(sys, s) && i < |sys.clients| && who < |sys.clients|
    requires !sys.clients[i].op.Append? && !Apart(sys, s.disk, i, who)
    requires GetMeta(s.disk, sys.ns, sys.clients[who].key).Some?
    requires -SIGN_BIT < n < SIGN_BIT - 1 && NumberAt(s.disk, sys.ns, sys.clients[who].key) == Some(n)
    ensures !NeverLost(sys, s, who, n)
  {
    var k, c, events := sys.clients[who].key, sys.clients[i], AloneEvents(i);
    var out := Atomic(s.disk, sys.ns, c);
    hide GetMeta, DecodeString, ParseI64, Atomic, Legal, Final, Linear, Apart, System.Valid, AloneEvents;
    AliasedKeys(sys, s.disk, i, who);
    CountOnce(s.disk, sys.ns, c, n);
    StillAliased(sys, s.disk, i, who);
    AliasedKeys(sys, out.disk, i, who);
    RunsAlone(sys, s, i);
    var turns := Serializable(sys, s, events);
    var t := Final(sys, s, events);
    OnlyTurn(sys, s.disk, s, t, turns, i, out.reply);
    OneNet(sys, s.disk, k, i);
    LinearWithin(sys, s.disk, t, turns);
    assert !Explained(sys, s, who, n, events, turns);
  }

  lemma LinearWithin(sys: System, d: Disk, t: State, turns: seq<nat>)
    requires Linear(sys, d, t, turns)
    ensures Within(turns, |sys.clients|)
  {
  }

  lemma OneNet(sys: System, d: Disk, k: Bytes, i: nat)
    requires i < |sys.clients| && sys.clients[i].key != k
    ensures Net(sys, d, k, [i]) == 0
  {
    hide Atomic;
    assert [i][..0] == [];
  }

  /** The clients of the counter, and those that write what it reads, are counting. */
  ghost predicate AllCounting(sys: System, who: nat)
    requires who < |sys.clients|
  {
    forall i :: 0 <= i < |sys.clients| && (sys.clients[i].key == sys.clients[who].key || sys.Aliases(i, who)) ==>
      !sys.clients[i].op.Append?
  }

  /** An update of a counter can be lost exactly in those systems in which the counter has no
      record of its own and a client writes the one from before namespaces that it reads. */
  lemma LostExactly(sys: System, s: State, who: nat, n: int)
    requires sys.Valid() && Initial(sys, s) && who < |sys.clients| && AllCounting(sys, who)
    requires GetMeta(s.disk, sys.ns, sys.clients[who].key).Some?
    requires -SIGN_BIT < n < SIGN_BIT - 1 && NumberAt(s.disk, sys.ns, sys.clients[who].key) == Some(n)
    ensures NeverLost(sys, s, who, n) <==> OwnNumber(sys, s.disk, who)
  {
    hide NumberAt, GetMeta, Initial, System.Valid, Explained;
    if OwnNumber(sys, s.disk, who) {
      forall events, turns ensures Explained(sys, s, who, n, events, turns) {
        NothingLost(sys, s, who, n, events, turns);
      }
    } else {
      var i :| 0 <= i < |sys.clients| && !Apart(sys, s.disk, i, who);
      AliasLoses(sys, s, i, who, n);
    }
  }

  lemma NothingLost(sys: System, s: State, who: nat, n: int, events: seq<Event>, turns: seq<nat>)
    requires sys.Valid() && who < |sys.clients| && AllCounting(sys, who) && Stands(sys, s.disk, who, n)
    ensures Explained(sys, s, who, n, events, turns)
  {
    hide NumberAt, Legal, Final, Linear, Net, Stands, System.Valid;
    if Legal(sys, s, events) && Linear(sys, s.disk, Final(sys, s, events), turns) {
      var t := Final(sys, s, events);
      LinearCounts(sys, s.disk, t, turns, who);
      CountAll(sys, s.disk, who, turns, n);
      StandsIs(sys, t.disk, who, n + Net(sys, s.disk, sys.clients[who].key, turns));
    }
  }

  lemma StandsIs(sys: System, d: Disk, who: nat, n: int)
    requires who < |sys.clients| && Stands(sys, d, who, n)
    ensures NumberAt(d, sys.ns, sys.clients[who].key).Some? && NumberAt(d, sys.ns, sys.clients[who].key).value == n
  {
  }

  /** What the INCRs and DECRs of a key among the clients that have run ask for. */
  function Wanted(sys: System, k: Bytes, turns: seq<nat>): int
    requires Within(turns, |sys.clients|)
  {
    if turns == [] then 0
    else
      var n := |turns| - 1;
      Wanted(sys, k, turns[..n]) + Delta(sys.clients[turns[n]], k, Ok(0))
  }

  lemma {:induction false} WantedSmall(sys: System, k: Bytes, turns: seq<nat>)
    requires Within(turns, |sys.clients|)
    ensures -|turns| <= Wanted(sys, k, turns) <= |turns|
  {
    if turns != [] { WantedSmall(sys, k, turns[..|turns| - 1]); }
  }

  /** Away from the ends of the range every INCR and DECR succeeds, and its reply is the
      number at its turn: the initial one and everything asked for up to and with it. */
  lemma {:induction false} CountsExactly(sys: System, d: Disk, who: nat, turns: seq<nat>, n: i64, a: nat)
    requires sys.Valid() && who < |sys.clients| && Counting(sys, turns, who) && a <= |turns|
    requires Stands(sys, d, who, n)
    requires n + |turns| < SIGN_BIT && n - |turns| >= -SIGN_BIT
    ensures Within(turns, |sys.clients|)
    ensures var k := sys.clients[who].key;
            && Stands(sys, sys.OneByOne(d, turns[..a]), who, n + Wanted(sys, k, turns[..a]))
            && (a < |turns| && sys.clients[turns[a]].key == k ==>
                  sys.ReplyAt(d, turns, a) == Ok(n + Wanted(sys, k, turns[..a + 1])))
    decreases a
  {
    hide Stands, Atomic, Wanted, System.OneByOne, System.ReplyAt, System.Valid, Delta;
    var k := sys.clients[who].key;
    if a == 0 {
      assert turns[..0] == [];
      NoTurns(sys, d, k);
    } else {
      CountsExactly(sys, d, who, turns, n, a - 1);
      OnTurn(sys, d, k, turns, a - 1);
      RunsOnTurn(sys, sys.OneByOne(d, turns[..a - 1]), turns[a - 1], who, n + Wanted(sys, k, turns[..a - 1]));
    }
    if a < |turns| {
      OnTurn(sys, d, k, turns, a);
      RunsOnTurn(sys, sys.OneByOne(d, turns[..a]), turns[a], who, n + Wanted(sys, k, turns[..a]));
    }
  }

  /** What the turn at a position does to the store, the reply and the sum. */
  lemma OnTurn(sys: System, d: Disk, k: Bytes, turns: seq<nat>, a: nat)
    requires Within(turns, |sys.clients|) && a < |turns|
    ensures var out := Atomic(sys.OneByOne(d, turns[..a]), sys.ns, sys.clients[turns[a]]);
            && sys.OneByOne(d, turns[..a + 1]) == out.disk && sys.ReplyAt(d, turns, a) == out.reply
            && Wanted(sys, k, turns[..a + 1]) == Wanted(sys, k, turns[..a]) + Delta(sys.clients[turns[a]], k, Ok(0))
            && -|turns| <= Wanted(sys, k, turns[..a + 1]) <= |turns|
  {
    hide Atomic, Delta;
    assert turns[..a + 1][..a] == turns[..a];
    WantedSmall(sys, k, turns[..a + 1]);
  }

  lemma RunsOnTurn(sys: System, d: Disk, i: nat, who: nat, m: int)
    requires sys.Valid() && i < |sys.clients| && who < |sys.clients|
    requires sys.clients[i].key == sys.clients[who].key ==> !sys.clients[i].op.Append?
    requires Stands(sys, d, who, m)
    ensures var sum := m + Delta(sys.clients[i], sys.clients[who].key, Ok(0));
            var out := Atomic(d, sys.ns, sys.clients[i]);
            -SIGN_BIT <= sum < SIGN_BIT ==>
              && Stands(sys, out.disk, who, sum)
              && (sys.clients[i].key == sys.clients[who].key ==> out.reply == Ok(sum))
  {
    hide NumberAt, Atomic, Apart;
    forall j | 0 <= j < |sys.clients| ensures Apart(sys, Atomic(d, sys.ns, sys.clients[i]).disk, j, who) {
      ApartKept(sys, d, i, j, who);
    }
    if sys.clients[i].key == sys.clients[who].key {
      CountOnce(d, sys.ns, sys.clients[i], m);
    } else {
      OtherKeyKept(sys, d, i, who);
    }
  }

  lemma {:induction false} DistinctShort(turns: seq<nat>, n: nat)
    requires Within(turns, n) && Distinct(turns)
    ensures |turns| <= n
  {
    assert turns == [] || turns[0] < n;
    if n > 0 {
      if n - 1 in turns {
        var a :| 0 <= a < |turns| && turns[a] == n - 1;
        DistinctShort(turns[..a] + turns[a + 1..], n - 1);
      } else {
        assert forall a :: 0 <= a < |turns| ==> turns[a] in turns;
        DistinctShort(turns, n - 1);
      }
    }
  }

  /** With room for all clients, every interleaving ends with the initial number plus the
      INCRs minus the DECRs that have run, and each reply is the number at that client's turn. */
  lemma CountersAddUp(sys: System, s: State, events: seq<Event>, who: nat, n: i64) returns (turns: seq<nat>)
    requires sys.Valid() && Initial(sys, s) && Legal(sys, s, events) && who < |sys.clients|
    requires forall i :: 0 <= i < |sys.clients| && sys.clients[i].key == sys.clients[who].key ==>
               !sys.clients[i].op.Append?
    requires Stands(sys, s.disk, who, n)
    requires n + |sys.clients| < SIGN_BIT && n - |sys.clients| >= -SIGN_BIT
    ensures var t, k := Final(sys, s, events), sys.clients[who].key;
            && Linear(sys, s.disk, t, turns)
            && NumberAt(t.disk, sys.ns, k) == Some(n + Wanted(sys, k, turns))
            && forall a :: 0 <= a < |turns| && sys.clients[turns[a]].key == k ==>
                 HasRun(t.phases[turns[a]]) && t.phases[turns[a]].reply == Ok(n + Wanted(sys, k, turns[..a + 1]))
  {
    hide NumberAt, Wanted, Legal, Final, Exclusive, Initial, Linear;
    turns := Serializable(sys, s, events);
    AddsUp(sys, s.disk, Final(sys, s, events), turns, who, n);
  }

  lemma AddsUp(sys: System, d: Disk, t: State, turns: seq<nat>, who: nat, n: i64)
    requires sys.Valid() && who < |sys.clients| && Linear(sys, d, t, turns)
    requires forall i :: 0 <= i < |sys.clients| && sys.clients[i].key == sys.clients[who].key ==>
               !sys.clients[i].op.Append?
    requires Stands(sys, d, who, n)
    requires n + |sys.clients| < SIGN_BIT && n - |sys.clients| >= -SIGN_BIT
    ensures Within(turns, |sys.clients|) && |t.phases| == |sys.clients|
    ensures forall a :: 0 <= a < |turns| ==> HasRun(t.phases[turns[a]])
    ensures var k := sys.clients[who].key;
            && NumberAt(t.disk, sys.ns, k) == Some(n + Wanted(sys, k, turns))
            && forall a :: 0 <= a < |turns| && sys.clients[turns[a]].key == k ==>
                 t.phases[turns[a]].reply == Ok(n + Wanted(sys, k, turns[..a + 1]))
  {
    hide NumberAt, Wanted, System.OneByOne, System.ReplyAt, System.Valid, Linear, Stands, Distinct;
    LinearFacts(sys, d, t, turns);
    DistinctShort(turns, |sys.clients|);
    hide HasRun, Within;
    LinearCounts(sys, d, t, turns, who);
    CountsExactly(sys, d, who, turns, n, |turns|);
    assert turns[..|turns|] == turns;
    StandsIs(sys, t.disk, who, n + Wanted(sys, sys.clients[who].key, turns));
    forall a | 0 <= a < |turns| && sys.clients[turns[a]].key == sys.clients[who].key
      ensures sys.ReplyAt(d, turns, a) == Ok(n + Wanted(sys, sys.clients[who].key, turns[..a + 1]))
    {
      CountsExactly(sys, d, who, turns, n, a);
    }
  }

  lemma LinearFacts(sys: System, d: Disk, t: State, turns: seq<nat>)
    requires Linear(sys, d, t, turns)
    ensures Within(turns, |sys.clients|) && Distinct(turns) && |t.phases| == |sys.clients|
    ensures forall a :: 0 <= a < |turns| ==>
              && turns[a] < |t.phases| && HasRun(t.phases[turns[a]])
              && t.phases[turns[a]].reply == sys.ReplyAt(d, turns, a)
  {
    hide System.OneByOne, System.ReplyAt, HasRun, Distinct;
    forall a | 0 <= a < |turns| ensures HasRun(t.phases[turns[a]]) { assert turns[a] in turns; }
  }

  // ---------- texts ----------

  /** The text a key holds, when it holds one and does not expire; an absent key holds none. */
  function TextAt(d: Disk, ns: Bytes, k: Bytes): Option<Bytes> {
    match GetMeta(d, ns, k)
    case None => Some([])
    case Some(v) =>
      match DecodeString(v)
      case Some((flags, expire, payload)) => if flags % 16 == 1 && expire == 0 then Some(payload) else None
      case None => None
  }

  /** That is what a read at any time gives. */
  lemma TextIsRead(d: Disk, ns: Bytes, k: Bytes, now: i64)
    requires TextAt(d, ns, k).Some?
    ensures ReadString(d, ns, k, now).Ok? && TextOf(ReadString(d, ns, k, now).value) == TextAt(d, ns, k).value
  {
    hide GetMeta, DecodeString;
  }

  /** The suffixes that the clients of a key append, one after another. */
  function Suffixes(sys: System, k: Bytes, turns: seq<nat>): Bytes
    requires Within(turns, |sys.clients|)
  {
    if turns == [] then []
    else
      var n := |turns| - 1;
      Suffixes(sys, k, turns[..n]) + SuffixOf(sys.clients[turns[n]], k)
  }

  function SuffixOf(c: Client, k: Bytes): Bytes { if c.key == k && c.op.Append? then c.op.suffix else [] }

  lemma AppendOnce(d: Disk, ns: Bytes, c: Client, text: Bytes)
    requires TextAt(d, ns, c.key) == Some(text) && c.op.Append?
    ensures var out := Atomic(d, ns, c);
            out.reply == Ok(|text + c.op.suffix|) && TextAt(out.disk, ns, c.key) == Some(text + c.op.suffix)
  {
    hide EncodeString, DecodeString, MetadataKey, ReadString;
    TextIsRead(d, ns, c.key, c.now);
    StringRoundTrip(BuildFlags(TString), 0, text + c.op.suffix);
  }

  lemma OtherTextKept(sys: System, d: Disk, i: nat, j: nat)
    requires sys.Valid() && i < |sys.clients| && j < |sys.clients| && sys.clients[i].key != sys.clients[j].key
    requires Apart(sys, d, i, j)
    ensures TextAt(Atomic(d, sys.ns, sys.clients[i]).disk, sys.ns, sys.clients[j].key)
            == TextAt(d, sys.ns, sys.clients[j].key)
  {
    hide Modify, ReadString, GetMeta, WriteString, DecodeString;
    var read := ReadString(d, sys.ns, sys.clients[i].key, sys.clients[i].now);
    if read.Ok? {
      var made := Modify(sys.clients[i].op, read.value);
      if made.Ok? { WriteApart(sys, d, i, j, made.value.0); }
    }
  }

  /** The key holds the text, and no client reaches it from under another key. */
  ghost predicate HoldsText(sys: System, d: Disk, who: nat, text: Bytes)
    requires who < |sys.clients|
  {
    TextAt(d, sys.ns, sys.clients[who].key) == Some(text) && OwnNumber(sys, d, who)
  }

  /** The clients of the key all append. */
  ghost predicate Appending(sys: System, who: nat)
    requires who < |sys.clients|
  {
    forall i :: 0 <= i < |sys.clients| && sys.clients[i].key == sys.clients[who].key ==> sys.clients[i].op.Append?
  }

  lemma AppendStep(sys: System, d: Disk, i: nat, who: nat, text: Bytes)
    requires sys.Valid() && i < |sys.clients| && who < |sys.clients| && Appending(sys, who)
    requires HoldsText(sys, d, who, text)
    ensures var out, more := Atomic(d, sys.ns, sys.clients[i]), text + SuffixOf(sys.clients[i], sys.clients[who].key);
            && HoldsText(sys, out.disk, who, more)
            && (sys.clients[i].key == sys.clients[who].key ==> out.reply == Ok(|more|))
  {
    hide TextAt, Atomic, Apart, System.Valid;
    forall j | 0 <= j < |sys.clients| ensures Apart(sys, Atomic(d, sys.ns, sys.clients[i]).disk, j, who) {
      ApartKept(sys, d, i, j, who);
    }
    if sys.clients[i].key == sys.clients[who].key {
      AppendOnce(d, sys.ns, sys.clients[i], text);
    } else {
      OtherTextKept(sys, d, i, who);
      assert text + [] == text;
    }
  }

  lemma TextTurn(sys: System, d: Disk, k: Bytes, turns: seq<nat>, a: nat)
    requires Within(turns, |sys.clients|) && a < |turns|
    ensures var out := Atomic(sys.OneByOne(d, turns[..a]), sys.ns, sys.clients[turns[a]]);
            && sys.OneByOne(d, turns[..a + 1]) == out.disk && sys.ReplyAt(d, turns, a) == out.reply
            && Suffixes(sys, k, turns[..a + 1]) == Suffixes(sys, k, turns[..a]) + SuffixOf(sys.clients[turns[a]], k)
  {
    hide Atomic, SuffixOf;
    assert turns[..a + 1][..a] == turns[..a];
  }

  lemma NoText(sys: System, d: Disk, k: Bytes)
    ensures sys.OneByOne(d, []) == d && Suffixes(sys, k, []) == []
  {
  }

  lemma {:induction false} AppendsAll(sys: System, d: Disk, who: nat, turns: seq<nat>, text: Bytes, a: nat)
    requires sys.Valid() && who < |sys.clients| && Appending(sys, who) && HoldsText(sys, d, who, text)
    requires Within(turns, |sys.clients|) && a <= |turns|
    ensures var k := sys.clients[who].key;
            && HoldsText(sys, sys.OneByOne(d, turns[..a]), who, text + Suffixes(sys, k, turns[..a]))
            && (a < |turns| && sys.clients[turns[a]].key == k ==>
                  sys.ReplyAt(d, turns, a) == Ok(|text + Suffixes(sys, k, turns[..a + 1])|))
    decreases a
  {
    hide HoldsText, Atomic, Suffixes, System.OneByOne, System.ReplyAt, System.Valid, SuffixOf, Appending;
    var k := sys.clients[who].key;
    if a == 0 {
      assert turns[..0] == [];
      NoText(sys, d, k);
      assert text + [] == text;
    } else {
      AppendsAll(sys, d, who, turns, text, a - 1);
      TextTurn(sys, d, k, turns, a - 1);
      AppendStep(sys, sys.OneByOne(d, turns[..a - 1]), turns[a - 1], who, text + Suffixes(sys, k, turns[..a - 1]));
      Joined(text, Suffixes(sys, k, turns[..a - 1]), SuffixOf(sys.clients[turns[a - 1]], k));
    }
    if a < |turns| {
      TextTurn(sys, d, k, turns, a);
      AppendStep(sys, sys.OneByOne(d, turns[..a]), turns[a], who, text + Suffixes(sys, k, turns[..a]));
      Joined(text, Suffixes(sys, k, turns[..a]), SuffixOf(sys.clients[turns[a]], k));
    }
  }

  lemma Joined(a: Bytes, b: Bytes, c: Bytes)
    ensures (a + b) + c == a + (b + c)
  {
  }

  /** No suffix is lost: after any interleaving a key that clients append to holds its initial
      text and behind it the suffixes of those that have run, in one order of them, and each
      reply is the length at that client's turn. */
  lemma NoLostSuffix(sys: System, s: State, events: seq<Event>, who: nat, text: Bytes) returns (turns: seq<nat>)
    requires sys.Valid() && Initial(sys, s) && Legal(sys, s, events) && who < |sys.clients|
    requires Appending(sys, who) && HoldsText(sys, s.disk, who, text)
    ensures var t, k := Final(sys, s, events), sys.clients[who].key;
            && Linear(sys, s.disk, t, turns)
            && TextAt(t.disk, sys.ns, k) == Some(text + Suffixes(sys, k, turns))
            && forall a :: 0 <= a < |turns| && sys.clients[turns[a]].key == k ==>
                 HasRun(t.phases[turns[a]])
                 && t.phases[turns[a]].reply == Ok(|text + Suffixes(sys, k, turns[..a + 1])|)
  {
    hide TextAt, Suffixes, Legal, Final, Exclusive, Initial, Linear, HoldsText, Appending, System.Valid;
    turns := Serializable(sys, s, events);
    SuffixesKept(sys, s.disk, Final(sys, s, events), turns, who, text);
  }

  lemma SuffixesKept(sys: System, d: Disk, t: State, turns: seq<nat>, who: nat, text: Bytes)
    requires sys.Valid() && who < |sys.clients| && Linear(sys, d, t, turns)
    requires Appending(sys, who) && HoldsText(sys, d, who, text)
    ensures Within(turns, |sys.clients|) && |t.phases| == |sys.clients|
    ensures var k := sys.clients[who].key;
            && TextAt(t.disk, sys.ns, k) == Some(text + Suffixes(sys, k, turns))
            && forall a :: 0 <= a < |turns| && sys.clients[turns[a]].key == k ==>
                 HasRun(t.phases[turns[a]])
                 && t.phases[turns[a]].reply == Ok(|text + Suffixes(sys, k, turns[..a + 1])|)
  {
    hide TextAt, Suffixes, System.OneByOne, System.ReplyAt, System.Valid, Appending, Distinct, OwnNumber;
    AppendsAll(sys, d, who, turns, text, |turns|);
    assert turns[..|turns|] == turns;
    forall a | 0 <= a < |turns| && sys.clients[turns[a]].key == sys.clients[who].key
      ensures HasRun(t.phases[turns[a]])
              && t.phases[turns[a]].reply == Ok(|text + Suffixes(sys, sys.clients[who].key, turns[..a + 1])|)
    {
      assert turns[a] in turns;
      AppendsAll(sys, d, who, turns, text, a);
    }
  }
}
