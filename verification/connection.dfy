/** The read loop of a connection: commands are cut off the front of a buffer that grows
    by whatever pieces the network delivers. */
module Connections {
  import opened ByteStrings
  import opened RespProtocol
  import opened RespStreams

  datatype NextStep = Wait | Dead | Command(args: seq<Bytes>, used: nat)

  function ArgOf(v: Resp): Bytes {
    match v
    case BulkString(Some(b)) => b
    case SimpleString(s) => s
    case _ => []
  }

  function ArgsOf(items: seq<Resp>): (r: seq<Bytes>)
    ensures |r| == |items| && forall i :: 0 <= i < |r| ==> r[i] == ArgOf(items[i])
  {
    seq(|items|, i requires 0 <= i < |items| => ArgOf(items[i]))
  }

  /** The arguments of a value that is a command; integers, errors, nulls and the like are none. */
  function CommandOf(v: Resp): Option<seq<Bytes>> {
    match v
    case Array(items) => Some(ArgsOf(items))
    case BulkString(Some(b)) => Some([b])
    case SimpleString(s) => Some([s])
    case _ => None
  }

  /** parse_cmd: the command at the front of the buffer, if there is one. */
  function NextCommand(t: TextRules, buf: Bytes): (r: NextStep)
    ensures r.Command? ==> 3 <= r.used <= |buf|
  {
    match ParseOne(t, buf)
    case NeedMore => Wait
    case Crash => Dead
    case Got(v, used) =>
      match CommandOf(v)
      case None => Wait
      case Some(args) => Command(args, used)
  }

  /** What a buffer gives up: its commands in order, and the bytes left waiting. A panic in
      the parser ends the connection and drops the buffer. */
  datatype Drained = Drained(commands: seq<seq<Bytes>>, left: Bytes, alive: bool)

  function Drain(t: TextRules, buf: Bytes): Drained
    decreases |buf|
  {
    match NextCommand(t, buf)
    case Wait => Drained([], buf, true)
    case Dead => Drained([], [], false)
    case Command(args, used) =>
      var d := Drain(t, buf[used..]);
      Drained([args] + d.commands, d.left, d.alive)
  }

  lemma NextStable(t: TextRules, buf: Bytes, more: Bytes)
    requires !NextCommand(t, buf).Wait?
    ensures NextCommand(t, buf + more) == NextCommand(t, buf)
  {
    hide ParseOne;
    ParseStable(t, buf, more);
  }

  /** First one buffer's commands, then the next one's; nothing after a crash. */
  function Then(d: Drained, e: Drained): Drained {
    if d.alive then Drained(d.commands + e.commands, e.left, e.alive) else d
  }

  lemma DrainOne(t: TextRules, buf: Bytes)
    requires NextCommand(t, buf).Command?
    ensures var next := NextCommand(t, buf);
            Drain(t, buf) == Then(Drained([next.args], [], true), Drain(t, buf[next.used..]))
  {
    hide NextCommand;
  }

  lemma DrainStops(t: TextRules, buf: Bytes)
    ensures NextCommand(t, buf).Wait? ==> Drain(t, buf) == Drained([], buf, true)
    ensures NextCommand(t, buf).Dead? ==> Drain(t, buf) == Drained([], [], false)
  {
    hide NextCommand;
  }

  lemma ThenThen(c: Drained, d: Drained, e: Drained)
    ensures Then(Then(c, d), e) == Then(c, Then(d, e))
  {
    assert (c.commands + d.commands) + e.commands == c.commands + (d.commands + e.commands);
  }

  lemma ThenStart(buf: Bytes, e: Drained)
    ensures Then(Drained([], buf, true), e) == e
  {
    assert [] + e.commands == e.commands;
  }

  /** Bytes that arrive later only add commands after the ones already cut off. */
  lemma {:induction false} DrainMore(t: TextRules, a: Bytes, b: Bytes)
    ensures var d := Drain(t, a);
            Drain(t, a + b) == Then(d, Drain(t, d.left + b))
    decreases |a|
  {
    hide NextCommand, Drain;
    var next := NextCommand(t, a);
    DrainStops(t, a);
    if next.Wait? {
      ThenStart(a, Drain(t, a + b));
    } else {
      NextStable(t, a, b);
      DrainStops(t, a + b);
      if next.Command? {
        var rest := a[next.used..];
        DrainOne(t, a);
        DrainOne(t, a + b);
        assert (a + b)[next.used..] == rest + b;
        DrainMore(t, rest, b);
        ThenThen(Drained([next.args], [], true), Drain(t, rest), Drain(t, Drain(t, rest).left + b));
      }
    }
  }

  /** A complete value that is no command blocks the connection: nothing that is sent
      after it is ever executed. */
  lemma StuckForever(t: TextRules, buf: Bytes, more: Bytes)
    requires ParseOne(t, buf).Got? && CommandOf(ParseOne(t, buf).value).None?
    ensures Drain(t, buf + more) == Drained([], buf + more, true)
  {
    hide ParseOne;
    ParseStable(t, buf, more);
  }

  // ---------- the loop ----------

  ghost function Concat(pieces: seq<Bytes>): Bytes {
    if pieces == [] then [] else Concat(pieces[..|pieces| - 1]) + pieces[|pieces| - 1]
  }

  /** The reads before the first empty one, which is how the end of the stream shows. */
  function UntilEof(pieces: seq<Bytes>): seq<Bytes> {
    if pieces == [] || pieces[0] == [] then [] else [pieces[0]] + UntilEof(pieces[1..])
  }

  class Connection {
    var buf: Bytes
    var alive: bool

    constructor ()
      ensures buf == [] && alive
    {
      buf, alive := [], true;
    }

    /** Cuts off every complete command. */
    method TakeCommands(t: TextRules) returns (commands: seq<seq<Bytes>>)
      requires alive
      modifies this
      ensures Drained(commands, buf, alive) == Drain(t, old(buf))
    {
      hide NextCommand;
      commands := [];
      ghost var whole := Drain(t, buf);
      assert [] + whole.commands == whole.commands;
      while true
        invariant alive
        invariant var d := Drain(t, buf);
                  whole == Drained(commands + d.commands, d.left, d.alive)
        decreases |buf|
      {
        match NextCommand(t, buf) {
          case Wait => assert commands + [] == commands; return;
          case Dead =>
            assert commands + [] == commands;
            buf, alive := [], false;
            return;
          case Command(args, used) =>
            ghost var d := Drain(t, buf[used..]);
            assert commands + ([args] + d.commands) == (commands + [args]) + d.commands;
            commands := commands + [args];
            buf := buf[used..];
        }
      }
    }

    /** The read loop over the pieces the network delivers, up to the end of the stream:
        the commands are those of the whole stream, however it was cut. */
    method Serve(t: TextRules, pieces: seq<Bytes>) returns (commands: seq<seq<Bytes>>)
      requires alive && buf == []
      modifies this
      ensures Drained(commands, buf, alive) == Drain(t, Concat(UntilEof(pieces)))
    {
      hide NextCommand, Drain, Concat;
      commands := [];
      Nothing(t);
      EofStart(pieces);
      for i := 0 to |pieces|
        invariant alive && i <= |UntilEof(pieces)| && UntilEof(pieces)[..i] == pieces[..i]
        invariant Drained(commands, buf, alive) == Drain(t, Concat(pieces[..i]))
      {
        EofStep(pieces, i);
        if pieces[i] == [] { return; }
        ConcatStep(pieces, i);
        DrainMore(t, Concat(pieces[..i]), pieces[i]);
        buf := buf + pieces[i];
        var more := TakeCommands(t);
        commands := commands + more;
        if !alive {
          DeadStays(t, UntilEof(pieces), i + 1);
          return;
        }
      }
      EofEnd(pieces);
    }
  }

  lemma Nothing(t: TextRules)
    ensures Concat([]) == [] && Drain(t, []) == Drained([], [], true)
  {
  }

  lemma EofStart(pieces: seq<Bytes>)
    ensures UntilEof(pieces)[..0] == pieces[..0] == []
  {
  }

  /** The reads before an empty one are kept; the first empty one ends the stream. */
  lemma {:induction false} EofStep(pieces: seq<Bytes>, i: nat)
    requires i < |pieces| && i <= |UntilEof(pieces)| && UntilEof(pieces)[..i] == pieces[..i]
    ensures if pieces[i] == [] then UntilEof(pieces) == pieces[..i]
            else i + 1 <= |UntilEof(pieces)| && UntilEof(pieces)[..i + 1] == pieces[..i + 1]
  {
    if i > 0 {
      var rest := UntilEof(pieces[1..]);
      assert UntilEof(pieces)[..i][0] == pieces[..i][0];
      assert pieces[0] != [];
      assert UntilEof(pieces)[..i] == [pieces[0]] + rest[..i - 1];
      assert pieces[..i] == [pieces[0]] + pieces[1..][..i - 1];
      assert rest[..i - 1] == UntilEof(pieces)[..i][1..] == pieces[..i][1..] == pieces[1..][..i - 1];
      EofStep(pieces[1..], i - 1);
      assert pieces[..i + 1] == [pieces[0]] + pieces[1..][..i];
      if pieces[i] != [] { assert UntilEof(pieces)[..i + 1] == [pieces[0]] + rest[..i]; }
    }
  }

  lemma {:induction false} EofEnd(pieces: seq<Bytes>)
    requires |UntilEof(pieces)| >= |pieces| && UntilEof(pieces)[..|pieces|] == pieces[..|pieces|]
    ensures UntilEof(pieces) == pieces[..|pieces|]
  {
    EofShort(pieces);
  }

  lemma {:induction false} EofShort(pieces: seq<Bytes>)
    ensures |UntilEof(pieces)| <= |pieces|
  {
    if pieces != [] { EofShort(pieces[1..]); }
  }

  lemma ConcatStep(pieces: seq<Bytes>, i: nat)
    requires i < |pieces|
    ensures Concat(pieces[..i + 1]) == Concat(pieces[..i]) + pieces[i]
  {
    assert pieces[..i + 1][..i] == pieces[..i];
  }

  /** After a crash the rest of the stream changes nothing. */
  lemma {:induction false} DeadStays(t: TextRules, pieces: seq<Bytes>, i: nat)
    requires i <= |pieces| && !Drain(t, Concat(pieces[..i])).alive
    ensures Drain(t, Concat(pieces)) == Drain(t, Concat(pieces[..i]))
    decreases |pieces| - i
  {
    hide Drain, Concat;
    if i == |pieces| {
      assert pieces[..i] == pieces;
    } else {
      ConcatStep(pieces, i);
      DrainMore(t, Concat(pieces[..i]), pieces[i]);
      DeadStays(t, pieces, i + 1);
    }
  }

  // ---------- clients ----------

  function AsBulk(args: seq<Bytes>): (r: seq<Resp>)
    ensures |r| == |args| && forall i :: 0 <= i < |r| ==> r[i] == BulkString(Some(args[i]))
  {
    seq(|args|, i requires 0 <= i < |args| => BulkString(Some(args[i])))
  }

  /** What a client sends for its commands: each an array of bulk strings. */
  ghost function Sent(t: TextRules, commands: seq<seq<Bytes>>): Bytes {
    if commands == [] then [] else Print(t, Array(AsBulk(commands[0]))) + Sent(t, commands[1..])
  }

  ghost predicate Sendable(args: seq<Bytes>) {
    |args| < SIGN_BIT && forall i :: 0 <= i < |args| ==> |args[i]| < SIGN_BIT
  }

  lemma OneCommand(t: TextRules, args: seq<Bytes>, rest: Bytes)
    requires Sendable(args)
    ensures NextCommand(t, Print(t, Array(AsBulk(args))) + rest) == Command(args, |Print(t, Array(AsBulk(args)))|)
  {
    hide ParseOne, Print;
    var v := Array(AsBulk(args));
    assert Faithful(t, v) by {
      forall i | 0 <= i < |args| ensures Faithful(t, v.items[i]) {}
    }
    RoundTrip(t, v, rest);
    assert ArgsOf(AsBulk(args)) == args;
  }

  /** Other forms of a command: a text or a bulk string alone is a command of that one word;
      in an array a text is a word, and what is no text is an empty word. */
  lemma OtherForms(t: TextRules, w: Bytes, n: i64, rest: Bytes)
    requires NoCrlf(w) && t.lossy(w) == w && |w| < SIGN_BIT
    ensures NextCommand(t, Print(t, SimpleString(w)) + rest) == Command([w], |Print(t, SimpleString(w))|)
    ensures NextCommand(t, Print(t, BulkString(Some(w))) + rest) == Command([w], |Print(t, BulkString(Some(w)))|)
    ensures var mixed := Array([SimpleString(w), BulkString(None), Integer(n)]);
            NextCommand(t, Print(t, mixed) + rest) == Command([w, [], []], |Print(t, mixed)|)
    ensures NextCommand(t, Print(t, Integer(n)) + rest) == Wait
  {
    hide ParseOne, Print;
    var mixed := Array([SimpleString(w), BulkString(None), Integer(n)]);
    RoundTrip(t, SimpleString(w), rest);
    RoundTrip(t, BulkString(Some(w)), rest);
    RoundTrip(t, Integer(n), rest);
    assert Faithful(t, mixed) by {
      forall i | 0 <= i < 3 ensures Faithful(t, mixed.items[i]) {}
    }
    RoundTrip(t, mixed, rest);
    assert ArgsOf(mixed.items) == [w, [], []];
  }

  /** The server executes exactly the commands a client sent, in order, with nothing left over. */
  lemma {:induction false} ServesWhatWasSent(t: TextRules, commands: seq<seq<Bytes>>)
    requires forall i :: 0 <= i < |commands| ==> Sendable(commands[i])
    ensures Drain(t, Sent(t, commands)) == Drained(commands, [], true)
  {
    hide Print, NextCommand;
    if commands == [] {
      assert NextCommand(t, []).Wait? by { Nothing(t); NothingNext(t); }
    } else {
      var rest := Sent(t, commands[1..]);
      OneCommand(t, commands[0], rest);
      ServesWhatWasSent(t, commands[1..]);
      var wire := Print(t, Array(AsBulk(commands[0])));
      assert (wire + rest)[|wire|..] == rest;
      assert commands == [commands[0]] + commands[1..];
    }
  }

  lemma NothingNext(t: TextRules)
    ensures NextCommand(t, []) == Wait
  {
  }

  /** However the network cuts up what a client sent, the commands come out as sent. */
  method ServeClient(t: TextRules, pieces: seq<Bytes>, ghost commands: seq<seq<Bytes>>) returns (got: seq<seq<Bytes>>)
    requires forall i :: 0 <= i < |commands| ==> Sendable(commands[i])
    requires Concat(UntilEof(pieces)) == Sent(t, commands)
    ensures got == commands
  {
    hide Drain, Concat, UntilEof, Sent, Sendable;
    ServesWhatWasSent(t, commands);
    var c := new Connection();
    got := c.Serve(t, pieces);
  }
}
