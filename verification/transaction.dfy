/** MULTI, EXEC, DISCARD and WATCH on one connection, while other clients write between
    any two steps of the server. */
module Transactions {
  import opened ByteStrings
  import opened OrderedStore
  import opened Storage
  import opened Contexts
  import opened RespProtocol

  type Input = seq<Bytes>

  datatype Kind = Blank | Multi | Discard | Watch | Exec | Plain

  function Upper(s: Bytes): (r: Bytes)
    ensures |r| == |s|
  {
    seq(|s|, i requires 0 <= i < |s| => if 97 <= s[i] <= 122 then s[i] - 32 else s[i])
  }

  const MULTI: Bytes := [77, 85, 76, 84, 73]
  const DISCARD: Bytes := [68, 73, 83, 67, 65, 82, 68]
  const WATCH: Bytes := [87, 65, 84, 67, 72]
  const EXEC: Bytes := [69, 88, 69, 67]

  /** Command names are matched without regard to case; no arguments at all is no command. */
  function KindOf(input: Input): Kind {
    if input == [] then Blank
    else
      var name := Upper(input[0]);
      if name == MULTI then Multi
      else if name == DISCARD then Discard
      else if name == WATCH then Watch
      else if name == EXEC then Exec
      else Plain
  }

  /** The same letters, each in either case. */
  predicate SameLetters(s: Bytes, t: Bytes) {
    |s| == |t| && forall i :: 0 <= i < |s| ==> s[i] == t[i] || CaseOf(s[i], t[i]) || CaseOf(t[i], s[i])
  }

  /** A capital letter and its small one. */
  predicate CaseOf(capital: byte, small: byte) { 'A' as int <= capital <= 'Z' as int && small == capital + 32 }

  /** Transaction commands are known by their names in any case. */
  lemma NamesInAnyCase(input: Input)
    requires input != []
    ensures KindOf(input) == Multi <==> SameLetters(input[0], MULTI)
    ensures KindOf(input) == Discard <==> SameLetters(input[0], DISCARD)
    ensures KindOf(input) == Watch <==> SameLetters(input[0], WATCH)
    ensures KindOf(input) == Exec <==> SameLetters(input[0], EXEC)
  {
    hide Upper, SameLetters;
    UpperIs(input[0], MULTI);
    UpperIs(input[0], DISCARD);
    UpperIs(input[0], WATCH);
    UpperIs(input[0], EXEC);
  }

  lemma UpperIs(s: Bytes, name: Bytes)
    requires forall i :: 0 <= i < |name| ==> 'A' as int <= name[i] <= 'Z' as int
    ensures Upper(s) == name <==> SameLetters(s, name)
  {
    if Upper(s) == name {
      forall i | 0 <= i < |s| ensures s[i] == name[i] || CaseOf(s[i], name[i]) || CaseOf(name[i], s[i]) {
        assert Upper(s)[i] == name[i];
      }
    }
    if SameLetters(s, name) { assert Upper(s) == name; }
  }

  /** The outside of a connection: what a command does, and what other clients do to the
      store before each moment at which this connection touches it. */
  datatype World = World(ns: Bytes, run: (Disk, Input) -> (Disk, Resp), others: (nat, Disk) -> Disk)

  /** A command this connection executed. */
  datatype Job = Job(input: Input, before: Disk, after: Disk)

  /** The jobs execute the inputs one after another, each once, with others in between. */
  ghost predicate Executes(w: World, tick: nat, disk: Disk, inputs: seq<Input>, jobs: seq<Job>) {
    && |jobs| == |inputs|
    && forall i :: 0 <= i < |jobs| ==>
         && jobs[i].input == inputs[i]
         && jobs[i].before == w.others(tick + i, DiskAfter(disk, jobs[..i]))
         && jobs[i].after == w.run(jobs[i].before, inputs[i]).0
  }

  ghost function DiskAfter(disk: Disk, jobs: seq<Job>): Disk {
    if jobs == [] then disk else jobs[|jobs| - 1].after
  }

  type Snapshot = seq<(Bytes, Option<Bytes>)>

  /** Every watched key still has the metadata it had. */
  ghost predicate Unchanged(d: Disk, ns: Bytes, watched: Snapshot) {
    forall i :: 0 <= i < |watched| ==> GetMeta(d, ns, watched[i].0) == watched[i].1
  }

  function SnapshotOf(d: Disk, ns: Bytes, keys: seq<Bytes>): (r: Snapshot)
    ensures |r| == |keys| && forall i :: 0 <= i < |keys| ==> r[i] == (keys[i], GetMeta(d, ns, keys[i]))
  {
    seq(|keys|, i requires 0 <= i < |keys| => (keys[i], GetMeta(d, ns, keys[i])))
  }

  const OK: Resp := SimpleString([79, 75])
  const QUEUED: Resp := SimpleString([81, 85, 69, 85, 69, 68])

  /** What the client reads: open tells whether a MULTI was in force, held whether the
      watched keys were unchanged, jobs are the commands executed. */
  ghost predicate Replied(w: World, input: Input, open: bool, held: bool, jobs: seq<Job>, reply: Resp) {
    match KindOf(input)
    case Blank => reply.Error?
    case Multi => if open then reply.Error? else reply == OK
    case Discard => if open then reply == OK else reply.Error?
    case Watch => if open then reply.Error? else reply == OK
    case Exec =>
      if !open then reply.Error?
      else if !held then reply.Null?
      else && reply.Array? && |reply.items| == |jobs|
           && forall k :: 0 <= k < |jobs| ==> reply.items[k] == w.run(jobs[k].before, jobs[k].input).1
    case Plain =>
      if open then reply == QUEUED else |jobs| == 1 && reply == w.run(jobs[0].before, input).1
  }

  class Session {
    var inMulti: bool
    var queued: seq<Input>
    var watched: Snapshot

    constructor ()
      ensures !inMulti && queued == [] && watched == []
    {
      inMulti, queued, watched := false, [], [];
    }

    method Reset()
      modifies this
      ensures !inMulti && queued == [] && watched == []
    {
      inMulti, queued, watched := false, [], [];
    }

    /** One input of the connection. seen is the store as a WATCH or the check of an EXEC
        met it; jobs are the commands executed. */
    method Handle(db: StorageEngine, w: World, tick: nat, input: Input)
      returns (reply: Resp, next: nat, ghost seen: Disk, ghost jobs: seq<Job>)
      modifies this, db
      ensures seen == w.others(tick, old(db.disk))
      ensures Replied(w, input, old(inMulti), Unchanged(seen, w.ns, old(watched)), jobs, reply)
      ensures inMulti == if KindOf(input) == Multi then true
                         else if KindOf(input) == Discard || KindOf(input) == Exec then false
                         else old(inMulti)
      ensures queued == if old(inMulti) && (KindOf(input) == Discard || KindOf(input) == Exec) then []
                        else if old(inMulti) && KindOf(input) == Plain then old(queued) + [input]
                        else old(queued)
      ensures watched == if old(inMulti) && (KindOf(input) == Discard || KindOf(input) == Exec) then []
                         else if !old(inMulti) && KindOf(input) == Watch then SnapshotOf(seen, w.ns, input[1..])
                         else old(watched)
      ensures var looks := || (KindOf(input) == Exec && old(inMulti) && old(watched) != [])
                           || (KindOf(input) == Watch && !old(inMulti));
              var base := if looks then seen else old(db.disk);
              var held := Unchanged(seen, w.ns, old(watched));
              var todo := if KindOf(input) == Exec && old(inMulti) && held then old(queued)
                          else if KindOf(input) == Plain && !old(inMulti) then [input]
                          else [];
              Executes(w, if looks then tick + 1 else tick, base, todo, jobs) && db.disk == DiskAfter(base, jobs)
    {
      hide Executes, DiskAfter, Unchanged, SnapshotOf;
      next, seen, jobs := tick, w.others(tick, db.disk), [];
      NoJobs(w, tick, db.disk);
      NoJobs(w, tick + 1, seen);
      NothingWatched(seen, w.ns);
      var kind := KindOf(input);
      if kind == Blank {
        reply := Error([]);
      } else if kind == Multi {
        if inMulti { reply := Error([]); } else { inMulti := true; reply := OK; }
      } else if kind == Discard {
        if !inMulti { reply := Error([]); } else { Reset(); reply := OK; }
      } else if kind == Watch {
        if inMulti {
          reply := Error([]);
        } else {
          db.disk, next := w.others(tick, db.disk), tick + 1;
          watched := WatchKeys(db, w.ns, input[1..]);
          reply := OK;
        }
      } else if kind == Exec {
        if !inMulti {
          reply := Error([]);
        } else {
          if watched != [] {
            db.disk, next := w.others(tick, db.disk), tick + 1;
            var changed := WatchedChanged(db, w.ns, watched);
            if changed {
              Reset();
              return Null, next, seen, [];
            }
          }
          var queue := queued;
          Reset();
          var replies;
          replies, next, jobs := ExecuteQueue(db, w, next, queue);
          reply := Array(replies);
        }
      } else if inMulti {
        queued := queued + [input];
        reply := QUEUED;
      } else {
        var replies;
        replies, next, jobs := ExecuteQueue(db, w, next, [input]);
        reply := replies[0];
      }
    }
  }

  /** watch_keys: the metadata of each key as it is now. */
  method WatchKeys(db: StorageEngine, ns: Bytes, keys: seq<Bytes>) returns (r: Snapshot)
    ensures r == SnapshotOf(db.disk, ns, keys)
  {
    hide GetMeta;
    r := [];
    for i := 0 to |keys|
      invariant r == SnapshotOf(db.disk, ns, keys[..i])
    {
      r := r + [(keys[i], GetMeta(db.disk, ns, keys[i]))];
    }
    assert keys[..|keys|] == keys;
  }

  method WatchedChanged(db: StorageEngine, ns: Bytes, watched: Snapshot) returns (changed: bool)
    ensures changed <==> !Unchanged(db.disk, ns, watched)
  {
    hide GetMeta;
    for i := 0 to |watched|
      invariant forall j :: 0 <= j < i ==> GetMeta(db.disk, ns, watched[j].0) == watched[j].1
    {
      if GetMeta(db.disk, ns, watched[i].0) != watched[i].1 { return true; }
    }
    changed := false;
  }

  lemma NothingWatched(d: Disk, ns: Bytes)
    ensures Unchanged(d, ns, [])
  {
  }

  lemma NoJobs(w: World, tick: nat, disk: Disk)
    ensures Executes(w, tick, disk, [], []) && DiskAfter(disk, []) == disk
  {
  }

  lemma OneMoreJob(w: World, tick: nat, disk: Disk, inputs: seq<Input>, jobs: seq<Job>, input: Input)
    requires Executes(w, tick, disk, inputs, jobs)
    ensures var before := w.others(tick + |jobs|, DiskAfter(disk, jobs));
            var job := Job(input, before, w.run(before, input).0);
            && Executes(w, tick, disk, inputs + [input], jobs + [job])
            && DiskAfter(disk, jobs + [job]) == job.after
  {
    var before := w.others(tick + |jobs|, DiskAfter(disk, jobs));
    var more := jobs + [Job(input, before, w.run(before, input).0)];
    forall i | 0 <= i < |more|
      ensures && more[i].input == (inputs + [input])[i]
              && more[i].before == w.others(tick + i, DiskAfter(disk, more[..i]))
              && more[i].after == w.run(more[i].before, (inputs + [input])[i]).0
    {
      assert more[..i] == jobs[..i];
      if i == |jobs| { assert jobs[..i] == jobs; }
    }
  }

  /** execute_queue: one job per command, other clients' writes before each. */
  method ExecuteQueue(db: StorageEngine, w: World, tick: nat, queue: seq<Input>)
    returns (replies: seq<Resp>, next: nat, ghost jobs: seq<Job>)
    modifies db
    ensures Executes(w, tick, old(db.disk), queue, jobs)
    ensures |jobs| == |queue| && forall i :: 0 <= i < |jobs| ==> jobs[i].input == queue[i]
    ensures |replies| == |queue| && forall i :: 0 <= i < |replies| ==> replies[i] == w.run(jobs[i].before, queue[i]).1
    ensures db.disk == DiskAfter(old(db.disk), jobs) && next == tick + |queue|
  {
    hide Executes, DiskAfter;
    replies, next, jobs := [], tick, [];
    NoJobs(w, tick, db.disk);
    for i := 0 to |queue|
      invariant |replies| == i == |jobs| && next == tick + i && forall j :: 0 <= j < i ==> jobs[j].input == queue[j]
      invariant Executes(w, tick, old(db.disk), queue[..i], jobs)
      invariant forall j :: 0 <= j < i ==> replies[j] == w.run(jobs[j].before, queue[j]).1
      invariant db.disk == DiskAfter(old(db.disk), jobs)
    {
      OneMoreJob(w, tick, old(db.disk), queue[..i], jobs, queue[i]);
      assert queue[..i + 1] == queue[..i] + [queue[i]];
      var before := w.others(next, db.disk);
      var (after, reply) := w.run(before, queue[i]);
      jobs := jobs + [Job(queue[i], before, after)];
      db.disk := after;
      replies, next := replies + [reply], next + 1;
    }
    assert queue[..|queue|] == queue;
  }

  // ---------- what a whole sequence of inputs means ----------

  /** Ends a transaction that is open. */
  predicate Ends(input: Input) { KindOf(input) == Exec || KindOf(input) == Discard }

  /** The position of the MULTI that is in force after the inputs: the first one since the
      last EXEC or DISCARD. */
  function Open(inputs: seq<Input>): (r: Option<nat>)
    ensures r.Some? ==> r.value < |inputs| && KindOf(inputs[r.value]) == Multi
  {
    if inputs == [] then None
    else
      var n := |inputs| - 1;
      var prev := Open(inputs[..n]);
      if Ends(inputs[n]) then None
      else if prev.None? && KindOf(inputs[n]) == Multi then Some(n)
      else prev
  }

  /** The input at i was followed by an EXEC or DISCARD. */
  ghost predicate EndedAfter(inputs: seq<Input>, i: nat) {
    exists e :: i < e < |inputs| && Ends(inputs[e])
  }

  lemma EndedStep(inputs: seq<Input>, i: nat)
    requires inputs != []
    ensures var n := |inputs| - 1;
            EndedAfter(inputs, i) <==> EndedAfter(inputs[..n], i) || (i < n && Ends(inputs[n]))
  {
    hide Ends;
    var n := |inputs| - 1;
    var init := inputs[..n];
    if e :| i < e < n && Ends(init[e]) { assert Ends(inputs[e]); }
    if e :| i < e < |inputs| && Ends(inputs[e]) {
      if e < n { assert Ends(init[e]); }
    }
  }

  /** No transaction is open exactly when every MULTI has been ended. */
  lemma {:induction false} OpenNone(inputs: seq<Input>)
    ensures Open(inputs).None?
            <==> forall i :: 0 <= i < |inputs| && KindOf(inputs[i]) == Multi ==> EndedAfter(inputs, i)
  {
    hide KindOf, EndedAfter;
    if inputs != [] {
      var n := |inputs| - 1;
      var init := inputs[..n];
      OpenNone(init);
      forall i | 0 <= i < |inputs| { EndedStep(inputs, i); }
      NotYetEnded(inputs, n);
      NotYetEnded(init, n);
      assert forall i :: 0 <= i < n ==> init[i] == inputs[i];
    }
  }

  lemma NotYetEnded(inputs: seq<Input>, i: nat)
    requires i + 1 >= |inputs|
    ensures !EndedAfter(inputs, i)
  {
  }

  /** The open transaction began at j exactly when the MULTI at j has not been ended and
      every MULTI before it has been ended before it. */
  lemma {:induction false} OpenMeaning(inputs: seq<Input>, j: nat)
    requires j < |inputs| && KindOf(inputs[j]) == Multi
    ensures Open(inputs) == Some(j)
            <==> && !EndedAfter(inputs, j)
                 && forall i :: 0 <= i < j && KindOf(inputs[i]) == Multi ==> EndedAfter(inputs[..j], i)
  {
    hide KindOf, EndedAfter;
    var n := |inputs| - 1;
    var init := inputs[..n];
    EndedStep(inputs, j);
    if j == n {
      OpenNone(init);
      NotYetEnded(init, n);
      assert forall i :: 0 <= i < n ==> init[i] == inputs[i];
    } else {
      OpenMeaning(init, j);
      assert init[..j] == inputs[..j];
      assert forall i :: 0 <= i < n ==> init[i] == inputs[i];
    }
  }

  /** The plain commands among the inputs from a position on, in order. */
  function PlainsFrom(inputs: seq<Input>, from: nat): seq<Input>
    requires from <= |inputs|
  {
    if |inputs| == from then []
    else
      var n := |inputs| - 1;
      PlainsFrom(inputs[..n], from) + if KindOf(inputs[n]) == Plain then [inputs[n]] else []
  }

  /** What is waiting to be executed. */
  function QueueOf(inputs: seq<Input>): seq<Input> {
    if Open(inputs).None? then [] else PlainsFrom(inputs, Open(inputs).value + 1)
  }

  /** The WATCH in force: the last one outside MULTI since a transaction last ended. */
  function LastWatch(inputs: seq<Input>): (r: Option<nat>)
    ensures r.Some? ==> r.value < |inputs| && KindOf(inputs[r.value]) == Watch
  {
    if inputs == [] then None
    else
      var n := |inputs| - 1;
      if Open(inputs[..n]).Some? && Ends(inputs[n]) then None
      else if Open(inputs[..n]).None? && KindOf(inputs[n]) == Watch then Some(n)
      else LastWatch(inputs[..n])
  }

  /** The WATCH at j is in force exactly when it stood outside MULTI, every later WATCH stood
      inside one, and every later EXEC or DISCARD met no open MULTI. */
  lemma {:induction false} LastWatchMeaning(inputs: seq<Input>, j: nat)
    requires j < |inputs| && KindOf(inputs[j]) == Watch
    ensures LastWatch(inputs) == Some(j)
            <==> && Open(inputs[..j]).None?
                 && forall i :: j < i < |inputs| ==>
                      && (KindOf(inputs[i]) == Watch ==> Open(inputs[..i]).Some?)
                      && (Ends(inputs[i]) ==> Open(inputs[..i]).None?)
  {
    hide KindOf, Open;
    var n := |inputs| - 1;
    var init := inputs[..n];
    if j < n {
      LastWatchMeaning(init, j);
      assert forall i :: 0 <= i < n ==> init[i] == inputs[i] && init[..i] == inputs[..i];
    }
  }

  /** An EXEC or DISCARD leaves no transaction open and nothing queued; it lifts the watch
      exactly when a transaction was open, for outside one it is refused. */
  lemma EndCleans(inputs: seq<Input>)
    requires inputs != [] && Ends(inputs[|inputs| - 1])
    ensures Open(inputs).None? && QueueOf(inputs) == []
    ensures var init := inputs[..|inputs| - 1];
            LastWatch(inputs).None? <==> Open(init).Some? || LastWatch(init).None?
  {
    hide Open;
    OpenStep(inputs, |inputs| - 1);
    assert inputs[..|inputs|] == inputs;
  }

  /** WATCH k and then an EXEC without MULTI: the watch is still in force. */
  lemma WatchOutlivesExec(k: Bytes)
    ensures LastWatch([[WATCH, k], [EXEC]]) == Some(0) && Open([[WATCH, k], [EXEC]]).None?
  {
    var first: seq<Input> := [[WATCH, k]];
    var both: seq<Input> := [[WATCH, k], [EXEC]];
    assert both[..1] == first && first[..0] == [];
    assert Upper(WATCH) == WATCH && Upper(EXEC) == EXEC;
    assert KindOf([WATCH, k]) == Watch && KindOf([EXEC]) == Exec;
  }

  /** One input as it happened: the store before and after it, the store as its watch or
      its check met it, and the commands it executed. */
  datatype Moment = Moment(start: Disk, seen: Disk, jobs: seq<Job>, finish: Disk)

  /** The watched keys have the same metadata at the check of input i as when they were watched. */
  ghost predicate WatchHolds(w: World, inputs: seq<Input>, trace: seq<Moment>, i: nat)
    requires i < |inputs| && i < |trace|
  {
    var at := LastWatch(inputs[..i]);
    at.None? ||
    forall k :: k in inputs[at.value][1..] ==> GetMeta(trace[i].seen, w.ns, k) == GetMeta(trace[at.value].seen, w.ns, k)
  }

  /** The commands that input i has to execute, told from the inputs before it. */
  ghost function Due(w: World, inputs: seq<Input>, trace: seq<Moment>, i: nat): seq<Input>
    requires i < |inputs| && i < |trace|
  {
    match KindOf(inputs[i])
    case Plain => if Open(inputs[..i]).None? then [inputs[i]] else []
    case Exec => if WatchHolds(w, inputs, trace, i) then QueueOf(inputs[..i]) else []
    case _ => []
  }

  /** Input i looks at the store before it executes anything: a WATCH outside MULTI, and an
      EXEC that has watched keys to check. */
  predicate Looks(inputs: seq<Input>, i: nat)
    requires i < |inputs|
  {
    var open, at := Open(inputs[..i]), LastWatch(inputs[..i]);
    || (KindOf(inputs[i]) == Watch && open.None?)
    || (KindOf(inputs[i]) == Exec && open.Some? && at.Some? && |inputs[at.value]| > 1)
  }

  /** Input i executed what was due, from the store it looked at if it did, and nothing else
      touched the store but other clients. */
  ghost predicate Happened(w: World, inputs: seq<Input>, trace: seq<Moment>, i: nat)
    requires i < |inputs| && i < |trace|
  {
    var m, looks := trace[i], Looks(inputs, i);
    var base := if looks then m.seen else m.start;
    && (i > 0 ==> m.start == trace[i - 1].finish)
    && m.finish == DiskAfter(base, m.jobs)
    && exists tick: nat :: && m.seen == w.others(tick, m.start)
                           && Executes(w, if looks then tick + 1 else tick, base, Due(w, inputs, trace, i), m.jobs)
  }

  /** Input i was answered as the inputs before it and the state of the watched keys demand. */
  ghost predicate Answered(w: World, inputs: seq<Input>, trace: seq<Moment>, i: nat, reply: Resp)
    requires i < |inputs| && i < |trace|
  {
    Replied(w, inputs[i], Open(inputs[..i]).Some?, WatchHolds(w, inputs, trace, i), trace[i].jobs, reply)
  }

  ghost function WatchedBy(w: World, inputs: seq<Input>, trace: seq<Moment>): Snapshot
    requires |trace| == |inputs|
  {
    var at := LastWatch(inputs);
    if at.None? then [] else SnapshotOf(trace[at.value].seen, w.ns, inputs[at.value][1..])
  }

  lemma UnchangedIsHeld(w: World, inputs: seq<Input>, trace: seq<Moment>, i: nat)
    requires i < |inputs| && i < |trace|
    ensures Unchanged(trace[i].seen, w.ns, WatchedBy(w, inputs[..i], trace[..i])) <==> WatchHolds(w, inputs, trace, i)
  {
    hide GetMeta, LastWatch;
    var at := LastWatch(inputs[..i]);
    if at.Some? {
      assert trace[..i][at.value] == trace[at.value] && inputs[..i][at.value] == inputs[at.value];
      var keys := inputs[at.value][1..];
      if Unchanged(trace[i].seen, w.ns, WatchedBy(w, inputs[..i], trace[..i])) {
        forall k | k in keys ensures GetMeta(trace[i].seen, w.ns, k) == GetMeta(trace[at.value].seen, w.ns, k) {
          var j :| 0 <= j < |keys| && keys[j] == k;
        }
      }
      if WatchHolds(w, inputs, trace, i) {
        forall j | 0 <= j < |keys|
          ensures GetMeta(trace[i].seen, w.ns, keys[j]) == GetMeta(trace[at.value].seen, w.ns, keys[j])
        {
          assert keys[j] in keys;
        }
      }
    }
  }

  lemma OpenStep(inputs: seq<Input>, i: nat)
    requires i < |inputs|
    ensures var prev := Open(inputs[..i]);
            Open(inputs[..i + 1]) == if Ends(inputs[i]) then None
                                     else if prev.None? && KindOf(inputs[i]) == Multi then Some(i)
                                     else prev
    ensures QueueOf(inputs[..i + 1]) ==
            if Open(inputs[..i]).Some? && Ends(inputs[i]) then []
            else if Open(inputs[..i]).Some? && KindOf(inputs[i]) == Plain then QueueOf(inputs[..i]) + [inputs[i]]
            else QueueOf(inputs[..i])
  {
    hide KindOf;
    assert inputs[..i + 1][..i] == inputs[..i];
  }

  lemma WatchStep(w: World, inputs: seq<Input>, trace: seq<Moment>, i: nat)
    requires i < |inputs| && |trace| == i + 1
    ensures WatchedBy(w, inputs[..i + 1], trace) ==
            if Open(inputs[..i]).Some? && Ends(inputs[i]) then []
            else if Open(inputs[..i]).None? && KindOf(inputs[i]) == Watch
            then SnapshotOf(trace[i].seen, w.ns, inputs[i][1..])
            else WatchedBy(w, inputs[..i], trace[..i])
  {
    hide KindOf, GetMeta, Open;
    assert inputs[..i + 1][..i] == inputs[..i];
    var at := LastWatch(inputs[..i]);
    if at.Some? {
      assert trace[..i][at.value] == trace[at.value] && inputs[..i][at.value] == inputs[..i + 1][at.value];
    }
  }

  lemma HappenedKept(w: World, inputs: seq<Input>, trace: seq<Moment>, m: Moment, j: nat)
    requires j < |trace| && |trace| < |inputs| && Happened(w, inputs, trace, j)
    ensures Happened(w, inputs, trace + [m], j)
    ensures forall r :: Answered(w, inputs, trace, j, r) ==> Answered(w, inputs, trace + [m], j, r)
  {
    hide GetMeta, KindOf, Open, QueueOf, Executes, Replied, Looks, DiskAfter;
    var longer := trace + [m];
    assert longer[j] == trace[j];
    var at := LastWatch(inputs[..j]);
    if at.Some? { assert longer[at.value] == trace[at.value]; }
    assert WatchHolds(w, inputs, longer, j) <==> WatchHolds(w, inputs, trace, j);
    if j > 0 { assert longer[j - 1] == trace[j - 1]; }
  }

  /** The state a connection is in is what its inputs say. */
  ghost predicate Follows(w: World, inputs: seq<Input>, trace: seq<Moment>, inMulti: bool, queued: seq<Input>,
                          watched: Snapshot)
  {
    && |trace| == |inputs|
    && inMulti == Open(inputs).Some? && queued == QueueOf(inputs) && watched == WatchedBy(w, inputs, trace)
  }

  lemma FollowsStart(w: World)
    ensures Follows(w, [], [], false, [], [])
  {
  }

  lemma Due0(w: World, inputs: seq<Input>, trace: seq<Moment>, i: nat)
    requires i < |inputs| && |trace| == i + 1
    ensures var open, watched := Open(inputs[..i]).Some?, WatchedBy(w, inputs[..i], trace[..i]);
            Due(w, inputs, trace, i) ==
            if KindOf(inputs[i]) == Exec && open && Unchanged(trace[i].seen, w.ns, watched) then QueueOf(inputs[..i])
            else if KindOf(inputs[i]) == Plain && !open then [inputs[i]]
            else []
  {
    hide GetMeta, KindOf, Open, LastWatch, Unchanged, WatchHolds;
    UnchangedIsHeld(w, inputs, trace, i);
  }

  /** For every sequence of inputs and anything other clients do in between: outside MULTI
      the queue is empty, nothing queued runs before its EXEC, an EXEC runs the commands
      queued since its MULTI once each in order exactly if the keys of the WATCH in force
      have the metadata they had when watched, and every input is answered accordingly. */
  method RunSession(db: StorageEngine, w: World, inputs: seq<Input>)
    returns (s: Session, replies: seq<Resp>, ghost trace: seq<Moment>)
    modifies db
    ensures |replies| == |inputs| && |trace| == |inputs|
    ensures Follows(w, inputs, trace, s.inMulti, s.queued, s.watched)
    ensures forall i :: 0 <= i < |inputs| ==>
              Happened(w, inputs, trace, i) && Answered(w, inputs, trace, i, replies[i])
    ensures db.disk == if trace == [] then old(db.disk) else trace[|trace| - 1].finish
  {
    hide Follows, Happened, Answered, Replied, KindOf, Unchanged, SnapshotOf, Executes;
    s := new Session();
    replies, trace := [], [];
    var tick := 0;
    FollowsStart(w);
    for i := 0 to |inputs|
      invariant fresh(s) && |replies| == i && |trace| == i
      invariant Follows(w, inputs[..i], trace, s.inMulti, s.queued, s.watched)
      invariant forall j :: 0 <= j < i ==> Happened(w, inputs, trace, j) && Answered(w, inputs, trace, j, replies[j])
      invariant db.disk == if trace == [] then old(db.disk) else trace[i - 1].finish
    {
      ghost var start, before := db.disk, s.inMulti;
      ghost var q, p, at := s.queued, s.watched, tick;
      ghost var seen, jobs;
      var reply;
      reply, tick, seen, jobs := s.Handle(db, w, tick, inputs[i]);
      ghost var m := Moment(start, seen, jobs, db.disk);
      OneInput(w, inputs, trace, m, i, at, before, q, p, s.inMulti, s.queued, s.watched, reply);
      forall j | 0 <= j < i
        ensures Happened(w, inputs, trace + [m], j) && Answered(w, inputs, trace + [m], j, replies[j])
      {
        HappenedKept(w, inputs, trace, m, j);
      }
      replies, trace := replies + [reply], trace + [m];
    }
    assert inputs[..|inputs|] == inputs;
  }

  lemma LooksIs(w: World, inputs: seq<Input>, trace: seq<Moment>, i: nat)
    requires i < |inputs| && |trace| == i + 1
    ensures var open, watched := Open(inputs[..i]).Some?, WatchedBy(w, inputs[..i], trace[..i]);
            Looks(inputs, i) <==> || (KindOf(inputs[i]) == Exec && open && watched != [])
                                  || (KindOf(inputs[i]) == Watch && !open)
  {
    hide GetMeta, KindOf, Open, LastWatch;
    var at := LastWatch(inputs[..i]);
    if at.Some? {
      assert inputs[..i][at.value] == inputs[at.value];
      WatchHasName(inputs[at.value]);
      assert |WatchedBy(w, inputs[..i], trace[..i])| == |inputs[at.value]| - 1;
    }
  }

  lemma WatchHasName(input: Input)
    requires KindOf(input) == Watch
    ensures input != []
  {
  }

  lemma OneInput(w: World, inputs: seq<Input>, trace: seq<Moment>, m: Moment, i: nat, tick: nat,
                 inMulti: bool, queued: seq<Input>, watched: Snapshot,
                 inMulti': bool, queued': seq<Input>, watched': Snapshot, reply: Resp)
    requires i < |inputs| && |trace| == i && Follows(w, inputs[..i], trace, inMulti, queued, watched)
    requires m.seen == w.others(tick, m.start) && (i > 0 ==> m.start == trace[i - 1].finish)
    requires inMulti' == if KindOf(inputs[i]) == Multi then true else if Ends(inputs[i]) then false else inMulti
    requires queued' == if inMulti && Ends(inputs[i]) then []
                        else if inMulti && KindOf(inputs[i]) == Plain then queued + [inputs[i]]
                        else queued
    requires watched' == if inMulti && Ends(inputs[i]) then []
                         else if !inMulti && KindOf(inputs[i]) == Watch then SnapshotOf(m.seen, w.ns, inputs[i][1..])
                         else watched
    requires var looks := || (KindOf(inputs[i]) == Exec && inMulti && watched != [])
                          || (KindOf(inputs[i]) == Watch && !inMulti);
             var base := if looks then m.seen else m.start;
             var todo := if KindOf(inputs[i]) == Exec && inMulti && Unchanged(m.seen, w.ns, watched) then queued
                         else if KindOf(inputs[i]) == Plain && !inMulti then [inputs[i]]
                         else [];
             && Executes(w, if looks then tick + 1 else tick, base, todo, m.jobs)
             && m.finish == DiskAfter(base, m.jobs)
    requires Replied(w, inputs[i], inMulti, Unchanged(m.seen, w.ns, watched), m.jobs, reply)
    ensures Follows(w, inputs[..i + 1], trace + [m], inMulti', queued', watched')
    ensures Happened(w, inputs, trace + [m], i) && Answered(w, inputs, trace + [m], i, reply)
  {
    hide GetMeta, KindOf, Open, QueueOf, LastWatch, WatchedBy, Unchanged;
    hide Due, SnapshotOf, Executes, Replied, WatchHolds, Looks, DiskAfter;
    var longer := trace + [m];
    assert longer[..i] == trace && longer[i] == m;
    OpenStep(inputs, i);
    WatchStep(w, inputs, longer, i);
    Due0(w, inputs, longer, i);
    UnchangedIsHeld(w, inputs, longer, i);
    LooksIs(w, inputs, longer, i);
    assert i > 0 ==> longer[i - 1] == trace[i - 1];
  }

  // ---------- each input runs at most once ----------

  /** The positions of the plain commands from a position on. */
  function PositionsFrom(inputs: seq<Input>, from: nat): (r: seq<nat>)
    requires from <= |inputs|
    ensures forall i :: 0 <= i < |r| ==> from <= r[i] < |inputs| && KindOf(inputs[r[i]]) == Plain
    ensures forall i, j :: 0 <= i < j < |r| ==> r[i] < r[j]
  {
    if |inputs| == from then []
    else
      var n := |inputs| - 1;
      PositionsFrom(inputs[..n], from) + if KindOf(inputs[n]) == Plain then [n] else []
  }

  /** The queue holds exactly the plain commands after the open MULTI, in their order. */
  lemma {:induction false} QueueIsPositions(inputs: seq<Input>, from: nat)
    requires from <= |inputs|
    ensures var at := PositionsFrom(inputs, from);
            && |PlainsFrom(inputs, from)| == |at|
            && (forall i :: 0 <= i < |at| ==> PlainsFrom(inputs, from)[i] == inputs[at[i]])
            && (forall p :: from <= p < |inputs| && KindOf(inputs[p]) == Plain ==> p in at)
  {
    hide KindOf;
    if |inputs| > from { QueueIsPositions(inputs[..|inputs| - 1], from); }
  }

  /** The positions whose commands input i may execute. */
  function MayRun(inputs: seq<Input>, i: nat): seq<nat>
    requires i < |inputs|
  {
    var open := Open(inputs[..i]);
    match KindOf(inputs[i])
    case Plain => if open.None? then [i] else []
    case Exec => if open.None? then [] else PositionsFrom(inputs[..i], open.value + 1)
    case _ => []
  }

  lemma {:induction false} OpenUntilEnd(inputs: seq<Input>, p: nat)
    requires Open(inputs).Some? && Open(inputs).value < p < |inputs|
    ensures Open(inputs[..p]).Some? && !Ends(inputs[p])
  {
    hide KindOf;
    var n := |inputs| - 1;
    if p < n {
      OpenUntilEnd(inputs[..n], p);
      assert inputs[..n][..p] == inputs[..p];
    }
  }

  lemma MayRunOnce(inputs: seq<Input>, i: nat, j: nat, p: nat)
    requires i < j < |inputs| && p in MayRun(inputs, i)
    ensures p !in MayRun(inputs, j)
  {
    hide KindOf, Open, PositionsFrom;
    assert inputs[..j][..i] == inputs[..i] && inputs[..j][i] == inputs[i];
    if p in MayRun(inputs, j) {
      assert KindOf(inputs[j]) == Exec && Open(inputs[..j]).value < p <= i;
      OpenUntilEnd(inputs[..j], i);
    }
  }

  /** What is due is nothing, or the inputs at the positions that may run. */
  lemma DueIsMayRun(w: World, inputs: seq<Input>, trace: seq<Moment>, i: nat)
    requires i < |inputs| && i < |trace| && Due(w, inputs, trace, i) != []
    ensures |Due(w, inputs, trace, i)| == |MayRun(inputs, i)|
    ensures forall k :: 0 <= k < |MayRun(inputs, i)| ==> Due(w, inputs, trace, i)[k] == inputs[MayRun(inputs, i)[k]]
  {
    hide KindOf, Open, PositionsFrom, PlainsFrom, WatchHolds;
    var open := Open(inputs[..i]);
    if KindOf(inputs[i]) == Exec && open.Some? { QueueIsPositions(inputs[..i], open.value + 1); }
  }

  /** The positions of the inputs whose commands input i executed. */
  ghost function RanAt(inputs: seq<Input>, trace: seq<Moment>, i: nat): seq<nat>
    requires i < |inputs| && i < |trace|
  {
    if trace[i].jobs == [] then [] else MayRun(inputs, i)
  }

  /** Every job of the trace is the plain command sent at its own position, at the latest
      by the input that executed it. */
  lemma JobPositions(w: World, inputs: seq<Input>, trace: seq<Moment>, i: nat)
    requires i < |inputs| && |trace| == |inputs| && Happened(w, inputs, trace, i)
    ensures |RanAt(inputs, trace, i)| == |trace[i].jobs|
    ensures forall k :: 0 <= k < |trace[i].jobs| ==>
              var p := RanAt(inputs, trace, i)[k];
              p <= i && KindOf(inputs[p]) == Plain && trace[i].jobs[k].input == inputs[p]
    ensures forall k, l :: 0 <= k < l < |trace[i].jobs| ==> RanAt(inputs, trace, i)[k] < RanAt(inputs, trace, i)[l]
  {
    hide KindOf, Open, PositionsFrom, WatchHolds, Due;
    if trace[i].jobs != [] { DueIsMayRun(w, inputs, trace, i); }
  }

  /** No command is ever executed twice, within one input or by two. */
  lemma RunsOnce(w: World, inputs: seq<Input>, trace: seq<Moment>, i: nat, k: nat, j: nat, l: nat)
    requires i < |inputs| && j < |inputs| && |trace| == |inputs|
    requires Happened(w, inputs, trace, i) && Happened(w, inputs, trace, j)
    requires k < |trace[i].jobs| && l < |trace[j].jobs| && (i, k) != (j, l)
    ensures |RanAt(inputs, trace, i)| == |trace[i].jobs| && |RanAt(inputs, trace, j)| == |trace[j].jobs|
    ensures RanAt(inputs, trace, i)[k] != RanAt(inputs, trace, j)[l]
  {
    hide MayRun, Happened, KindOf;
    JobPositions(w, inputs, trace, i);
    JobPositions(w, inputs, trace, j);
    if i < j {
      MayRunOnce(inputs, i, j, MayRun(inputs, i)[k]);
    } else if j < i {
      MayRunOnce(inputs, j, i, MayRun(inputs, j)[l]);
    }
  }
}
