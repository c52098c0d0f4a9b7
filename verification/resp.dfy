/** The RESP parser and printer: what a value looks like on the wire, and what can be
    read back from any prefix or extension of it. */
module RespProtocol {
  import opened ByteStrings
  import opened Decimals

  datatype Resp =
    | SimpleString(s: Bytes)
    | Error(s: Bytes)
    | Integer(n: i64)
    | BulkString(bulk: Option<Bytes>)
    | Array(items: seq<Resp>)
    | Null
    | Boolean(b: bool)
    | Double(bits: u64)
    | Map(pairs: seq<Entry>)
    | Set(items: seq<Resp>)

  datatype Entry = Entry(key: Resp, value: Resp)

  /** Text conversions of the language runtime: lossy UTF-8 decoding, and reading and
      printing floating-point numbers. */
  datatype TextRules = TextRules(lossy: Bytes -> Bytes, readDouble: Bytes -> Option<u64>, printDouble: u64 -> Bytes)

  /** NeedMore is the parser's None: incomplete or malformed. Crash is the panic on a
      vector capacity that a negative count turns into. */
  datatype Parsed<+T> = NeedMore | Crash | Got(value: T, used: nat)

  const CRLF: Bytes := [13, 10]

  predicate CrlfAt(data: Bytes, i: nat) { i + 1 < |data| && data[i] == 13 && data[i + 1] == 10 }

  function FindCrlf(data: Bytes): (r: Option<nat>)
    ensures r.Some? ==> CrlfAt(data, r.value) && forall j :: 0 <= j < r.value ==> !CrlfAt(data, j)
    ensures r.None? ==> forall j :: 0 <= j ==> !CrlfAt(data, j)
  {
    FindFrom(data, 0)
  }

  function FindFrom(data: Bytes, i: nat): (r: Option<nat>)
    requires i <= |data| && forall j :: 0 <= j < i ==> !CrlfAt(data, j)
    ensures r.Some? ==> CrlfAt(data, r.value) && forall j :: 0 <= j < r.value ==> !CrlfAt(data, j)
    ensures r.None? ==> forall j :: 0 <= j ==> !CrlfAt(data, j)
    decreases |data| - i
  {
    if i == |data| then None else if CrlfAt(data, i) then Some(i) else FindFrom(data, i + 1)
  }

  const TAGS: Bytes := [43, 45, 58, 36, 42, 95, 35, 44, 37, 126]

  /** The header line after the type byte, and the bytes it takes with its end. */
  function Line(data: Bytes): (r: Option<(Bytes, nat)>)
    requires data != [] && data[0] != 13
    ensures r.Some? ==> 3 <= r.value.1 <= |data|
  {
    match FindCrlf(data)
    case None => None
    case Some(pos) => Some((data[1..pos], pos + 2))
  }

  // ---------- parsing ----------

  function ParseOne(t: TextRules, data: Bytes): (r: Parsed<Resp>)
    ensures r.Got? ==> 3 <= r.used <= |data|
    decreases |data|, 1
  {
    if data == [] || data[0] !in TAGS then NeedMore
    else
      match Line(data)
      case None => NeedMore
      case Some((line, n)) =>
        if data[0] == 42 || data[0] == 37 || data[0] == 126 then ParseGroup(t, data, line, n)
        else ParseScalar(t, data, line, n)
  }

  /** The values that hold no other value. */
  function ParseScalar(t: TextRules, data: Bytes, line: Bytes, n: nat): (r: Parsed<Resp>)
    requires data != [] && 3 <= n <= |data|
    ensures r.Got? ==> 3 <= r.used <= |data|
  {
    if data[0] == 43 then Got(SimpleString(t.lossy(line)), n)
    else if data[0] == 45 then Got(Error(t.lossy(line)), n)
    else if data[0] == 58 then
      (match ParseI64(line) case None => NeedMore case Some(i) => Got(Integer(i), n))
    else if data[0] == 36 then
      (match ParseI64(line)
       case None => NeedMore
       case Some(len) =>
         if len < 0 then Got(BulkString(None), n)
         else if |data| < n + len + 2 then NeedMore
         else Got(BulkString(Some(data[n..n + len])), n + len + 2))
    else if data[0] == 95 then Got(Null, n)
    else if data[0] == 35 then
      (if line == [116] then Got(Boolean(true), n) else if line == [102] then Got(Boolean(false), n) else NeedMore)
    else
      match t.readDouble(line) case None => NeedMore case Some(f) => Got(Double(f), n)
  }

  /** Arrays, maps and sets: a count, then that many values one after another. */
  function ParseGroup(t: TextRules, data: Bytes, line: Bytes, n: nat): (r: Parsed<Resp>)
    requires data != [] && 3 <= n <= |data|
    ensures r.Got? ==> 3 <= r.used <= |data|
    decreases |data|, 0
  {
    match ParseI64(line)
    case None => NeedMore
    case Some(count) =>
      if count < 0 then (if data[0] == 42 then Got(Null, n) else Crash)
      else if data[0] == 37 then
        match ParseItems(t, data[n..], 2 * count)
        case Got(items, used) => Got(Map(PairUp(items)), n + used)
        case NeedMore => NeedMore
        case Crash => Crash
      else
        match ParseItems(t, data[n..], count)
        case Got(items, used) => Got(if data[0] == 42 then Array(items) else Set(items), n + used)
        case NeedMore => NeedMore
        case Crash => Crash
  }

  function ParseItems(t: TextRules, data: Bytes, count: nat): (r: Parsed<seq<Resp>>)
    ensures r.Got? ==> r.used <= |data| && |r.value| == count
    decreases |data|, 2
  {
    if count == 0 then Got([], 0)
    else
      match ParseOne(t, data)
      case NeedMore => NeedMore
      case Crash => Crash
      case Got(v, used) => Before([v], used, ParseItems(t, data[used..], count - 1))
  }

  /** A result with values already read in front of it. */
  function Before(items: seq<Resp>, used: nat, rest: Parsed<seq<Resp>>): Parsed<seq<Resp>> {
    match rest
    case Got(more, n) => Got(items + more, used + n)
    case NeedMore => NeedMore
    case Crash => Crash
  }

  function PairUp(items: seq<Resp>): seq<Entry>
    requires |items| % 2 == 0
  {
    if items == [] then [] else [Entry(items[0], items[1])] + PairUp(items[2..])
  }

  function Flat(pairs: seq<Entry>): (r: seq<Resp>)
    ensures |r| == 2 * |pairs|
  {
    if pairs == [] then [] else [pairs[0].key, pairs[0].value] + Flat(pairs[1..])
  }

  lemma {:induction false} PairUpFlat(pairs: seq<Entry>)
    ensures PairUp(Flat(pairs)) == pairs
  {
    if pairs != [] {
      PairUpFlat(pairs[1..]);
      assert Flat(pairs)[2..] == Flat(pairs[1..]);
      assert pairs == [pairs[0]] + pairs[1..];
    }
  }

  // ---------- printing ----------

  /** The wire form of a value up to the values inside it. */
  function Header(t: TextRules, v: Resp): (r: Bytes)
    ensures r != [] && r[0] in TAGS
  {
    match v
    case SimpleString(s) => [43] + s + CRLF
    case Error(s) => [45] + s + CRLF
    case Integer(n) => [58] + IntText(n) + CRLF
    case BulkString(None) => [36] + IntText(-1) + CRLF
    case BulkString(Some(b)) => [36] + IntText(|b|) + CRLF + b + CRLF
    case Array(items) => [42] + IntText(|items|) + CRLF
    case Null => [95] + CRLF
    case Boolean(b) => [35] + [if b then 116 else 102] + CRLF
    case Double(f) => [44] + t.printDouble(f) + CRLF
    case Map(pairs) => [37] + IntText(|pairs|) + CRLF
    case Set(items) => [126] + IntText(|items|) + CRLF
  }

  function Print(t: TextRules, v: Resp): (r: Bytes)
    ensures r != [] && r[0] in TAGS
    decreases v
  {
    match v
    case Array(items) => Header(t, v) + PrintAll(t, items)
    case Map(pairs) => Header(t, v) + PrintPairs(t, pairs)
    case Set(items) => Header(t, v) + PrintAll(t, items)
    case _ => Header(t, v)
  }

  /** The type bytes of RESP 3, and the scalar forms behind them. */
  lemma WireForms(t: TextRules, v: Resp)
    ensures Print(t, v)[0] == (match v
                               case SimpleString(_) => '+' case Error(_) => '-' case Integer(_) => ':'
                               case BulkString(_) => '$' case Array(_) => '*' case Null => '_'
                               case Boolean(_) => '#' case Double(_) => ','
                               case Map(_) => '%' case Set(_) => '~') as int
    ensures Print(t, Boolean(true)) == ['#' as int, 't' as int, 13, 10]
    ensures Print(t, Boolean(false)) == ['#' as int, 'f' as int, 13, 10]
    ensures Print(t, BulkString(None)) == ['$' as int, '-' as int, '1' as int, 13, 10]
    ensures Print(t, Null) == ['_' as int, 13, 10]
  {
    assert IntText(-1) == [45, 49];
  }

  /** The counts in front: of bytes for a bulk string, of values for arrays and sets, of pairs
      for maps. */
  lemma WireCounts(t: TextRules, b: Bytes, items: seq<Resp>, pairs: seq<Entry>)
    ensures Header(t, BulkString(Some(b))) == ['$' as int] + IntText(|b|) + [13, 10] + b + [13, 10]
    ensures Header(t, Array(items)) == ['*' as int] + IntText(|items|) + [13, 10]
    ensures Header(t, Set(items)) == ['~' as int] + IntText(|items|) + [13, 10]
    ensures Header(t, Map(pairs)) == ['%' as int] + IntText(|pairs|) + [13, 10]
    ensures Print(t, Array([])) == ['*' as int, '0' as int, 13, 10]
    ensures Print(t, Map([])) == ['%' as int, '0' as int, 13, 10]
  {
    hide PrintAll, PrintPairs, IntText;
    IntTextCanonical(0);
    NothingPrinted(t);
  }

  lemma NothingPrinted(t: TextRules)
    ensures PrintAll(t, []) == [] && PrintPairs(t, []) == []
  {
  }

  function PrintAll(t: TextRules, items: seq<Resp>): Bytes
    decreases items
  {
    if items == [] then [] else Print(t, items[0]) + PrintAll(t, items[1..])
  }

  function PrintPairs(t: TextRules, pairs: seq<Entry>): Bytes
    decreases pairs
  {
    if pairs == [] then [] else PrintEntry(t, pairs[0]) + PrintPairs(t, pairs[1..])
  }

  function PrintEntry(t: TextRules, e: Entry): Bytes
    decreases e
  {
    Print(t, e.key) + Print(t, e.value)
  }

  // ---------- round trip ----------

  ghost predicate NoCrlf(s: Bytes) { forall i: nat :: !CrlfAt(s, i) }

  /** What the language runtime promises: decoding makes no line end, printed numbers hold none. */
  ghost predicate Sane(t: TextRules) {
    (forall s :: NoCrlf(s) ==> NoCrlf(t.lossy(s))) && (forall f :: NoCrlf(t.printDouble(f)))
  }

  ghost predicate Fits(n: nat) { n < SIGN_BIT }

  /** The wire form says everything about the value: its texts hold no line end and survive
      decoding, its numbers reread as themselves, its lengths fit 64 bits. */
  ghost predicate Faithful(t: TextRules, v: Resp)
    decreases v
  {
    match v
    case SimpleString(s) => NoCrlf(s) && t.lossy(s) == s
    case Error(s) => NoCrlf(s) && t.lossy(s) == s
    case BulkString(Some(b)) => Fits(|b|)
    case Array(items) => Fits(|items|) && forall i :: 0 <= i < |items| ==> Faithful(t, items[i])
    case Set(items) => Fits(|items|) && forall i :: 0 <= i < |items| ==> Faithful(t, items[i])
    case Map(pairs) =>
      Fits(|pairs|) && forall i :: 0 <= i < |pairs| ==> Faithful(t, pairs[i].key) && Faithful(t, pairs[i].value)
    case Double(f) => NoCrlf(t.printDouble(f)) && t.readDouble(t.printDouble(f)) == Some(f)
    case _ => true
  }

  /** The first line end of a printed header is the one the printer put there, exactly
      when the text holds none of its own. */
  lemma LineOf(tag: byte, text: Bytes, rest: Bytes)
    requires tag != 13
    ensures var data := [tag] + text + CRLF + rest;
            && Line(data).Some?
            && (NoCrlf(text) ==> Line(data) == Some((text, |text| + 3)))
            && NoCrlf(Line(data).value.0)
  {
    var data := [tag] + text + CRLF + rest;
    var n := 1 + |text|;
    assert CrlfAt(data, n);
    var pos := FindCrlf(data).value;
    if NoCrlf(text) {
      if pos < n {
        assert CrlfAt(data, pos);
        if pos + 1 < n {
          assert CrlfAt(text, pos - 1);
        }
      }
      assert data[1..n] == text;
    }
    var line := data[1..pos];
    forall i: nat ensures !CrlfAt(line, i) {
      if CrlfAt(line, i) { assert CrlfAt(data, i + 1); }
    }
  }

  lemma PlainText(s: Bytes)
    requires forall i :: 0 <= i < |s| ==> s[i] != 13
    ensures NoCrlf(s)
  {
  }

  lemma CountLine(tag: byte, n: int, rest: Bytes)
    requires tag != 13
    ensures var data := [tag] + IntText(n) + CRLF + rest;
            && Line(data) == Some((IntText(n), |IntText(n)| + 3))
            && ParseI64(IntText(n)) == InRange(n)
            && data[|IntText(n)| + 3..] == rest
  {
    PlainText(IntText(n));
    LineOf(tag, IntText(n), rest);
    IntTextRoundTrip(n);
  }

  /** Scalars: the value comes back exactly when its text is faithful. */
  lemma ScalarRoundTrip(t: TextRules, v: Resp, rest: Bytes)
    requires !v.Array? && !v.Map? && !v.Set?
    ensures Faithful(t, v) ==> ParseOne(t, Print(t, v) + rest) == Got(v, |Print(t, v)|)
    ensures var r := ParseOne(t, Print(t, v) + rest);
            Sane(t) && r.Got? && r.value == v ==> Faithful(t, v)
  {
    hide Line, ParseI64, IntText, NoCrlf, InRange, ParseGroup;
    var data := Print(t, v) + rest;
    match v {
      case SimpleString(s) =>
        assert data == [43] + s + CRLF + rest;
        LineOf(43, s, rest);
        ParseTag(t, data);
      case Error(s) =>
        assert data == [45] + s + CRLF + rest;
        LineOf(45, s, rest);
        ParseTag(t, data);
      case Integer(n) =>
        assert data == [58] + IntText(n) + CRLF + rest;
        CountLine(58, n, rest);
        ParseTag(t, data);
        IntInRange(n);
      case BulkString(None) =>
        assert data == [36] + IntText(-1) + CRLF + rest;
        CountLine(36, -1, rest);
        ParseTag(t, data);
        IntInRange(-1);
      case BulkString(Some(b)) =>
        BulkRoundTrip(t, b, rest);
      case Null =>
        assert data == [95] + [] + CRLF + rest;
        PlainText([]);
        LineOf(95, [], rest);
        ParseTag(t, data);
      case Boolean(b) =>
        var word := [if b then 116 else 102];
        assert data == [35] + word + CRLF + rest;
        PlainText(word);
        LineOf(35, word, rest);
        ParseTag(t, data);
      case Double(f) =>
        DoubleRoundTrip(t, f, rest);
    }
  }

  lemma DoubleRoundTrip(t: TextRules, f: u64, rest: Bytes)
    ensures var r := ParseOne(t, Print(t, Double(f)) + rest);
            && (Faithful(t, Double(f)) ==> r == Got(Double(f), |Print(t, Double(f))|))
            && (Sane(t) && r.Got? && r.value == Double(f) ==> Faithful(t, Double(f)))
  {
    hide Line, ParseI64, NoCrlf, ParseGroup;
    var data := Print(t, Double(f)) + rest;
    assert data == [44] + t.printDouble(f) + CRLF + rest;
    LineOf(44, t.printDouble(f), rest);
    ParseTag(t, data);
  }

  lemma IntInRange(n: i64)
    ensures InRange(n) == Some(n)
  {
  }

  lemma ParseTag(t: TextRules, data: Bytes)
    requires data != [] && data[0] in TAGS && Line(data).Some?
    ensures var (line, n) := Line(data).value;
            ParseOne(t, data) == if data[0] == 42 || data[0] == 37 || data[0] == 126 then ParseGroup(t, data, line, n)
                                 else ParseScalar(t, data, line, n)
  {
  }

  lemma BulkRoundTrip(t: TextRules, b: Bytes, rest: Bytes)
    ensures var v := BulkString(Some(b));
            var r := ParseOne(t, Print(t, v) + rest);
            if Fits(|b|) then r == Got(v, |Print(t, v)|) else r == NeedMore
  {
    hide Line, ParseI64, IntText, NoCrlf, ParseGroup;
    var v := BulkString(Some(b));
    var data := Print(t, v) + rest;
    var tail := b + CRLF + rest;
    assert data == [36] + IntText(|b|) + CRLF + tail;
    CountLine(36, |b|, tail);
    ParseTag(t, data);
    var n := |IntText(|b|)| + 3;
    assert data[n..] == tail;
    if Fits(|b|) { assert data[n..n + |b|] == tail[..|b|] == b; }
  }

  /** Reading a value off the front of what is left to read. */
  lemma ItemsStep(t: TextRules, data: Bytes, v: Resp, used: nat, count: nat)
    requires ParseOne(t, data) == Got(v, used)
    ensures ParseItems(t, data, count + 1) == Before([v], used, ParseItems(t, data[used..], count))
  {
  }

  lemma ItemsHead(t: TextRules, data: Bytes, count: nat)
    requires ParseItems(t, data, count + 1).Got?
    ensures ParseOne(t, data).Got? && ParseItems(t, data, count + 1).value[0] == ParseOne(t, data).value
  {
  }

  /** A group whose header is printed parses as its count says. */
  lemma GroupHeader(t: TextRules, tag: byte, count: nat, body: Bytes)
    requires tag == 42 || tag == 37 || tag == 126
    ensures var data := [tag] + IntText(count) + CRLF + body;
            && (Fits(count) ==>
                  var items := ParseItems(t, body, if tag == 37 then 2 * count else count);
                  ParseOne(t, data) ==
                  match items
                  case Got(vs, used) =>
                    Got(if tag == 37 then Map(PairUp(vs)) else if tag == 42 then Array(vs) else Set(vs),
                        |IntText(count)| + 3 + used)
                  case NeedMore => NeedMore
                  case Crash => Crash)
            && (!Fits(count) ==> ParseOne(t, data) == NeedMore)
  {
    hide Line, ParseI64, IntText, ParseScalar, ParseItems, PairUp;
    var data := [tag] + IntText(count) + CRLF + body;
    CountLine(tag, count, body);
    ParseTag(t, data);
  }

  ghost predicate AllFaithful(t: TextRules, items: seq<Resp>) {
    forall i :: 0 <= i < |items| ==> Faithful(t, items[i])
  }

  lemma {:induction false} AllFaithfulStep(t: TextRules, items: seq<Resp>)
    requires items != []
    ensures AllFaithful(t, items) <==> Faithful(t, items[0]) && AllFaithful(t, items[1..])
  {
    if Faithful(t, items[0]) && AllFaithful(t, items[1..]) {
      forall i | 0 <= i < |items| ensures Faithful(t, items[i]) {
        if i > 0 { assert items[i] == items[1..][i - 1]; }
      }
    }
    if AllFaithful(t, items) {
      forall i | 0 <= i < |items| - 1 ensures Faithful(t, items[1..][i]) {
        assert items[1..][i] == items[i + 1];
      }
    }
  }

  /** Nested values are smaller. */
  ghost function Size(v: Resp): nat
    decreases v
  {
    match v
    case Array(items) => 1 + SizeAll(items)
    case Set(items) => 1 + SizeAll(items)
    case Map(pairs) => 1 + SizePairs(pairs)
    case _ => 0
  }

  ghost function SizeAll(items: seq<Resp>): nat
    decreases items
  {
    if items == [] then 0 else 1 + Size(items[0]) + SizeAll(items[1..])
  }

  ghost function SizeEntry(e: Entry): nat
    decreases e
  {
    1 + Size(e.key) + Size(e.value)
  }

  ghost function SizePairs(pairs: seq<Entry>): nat
    decreases pairs
  {
    if pairs == [] then 0 else 1 + SizeEntry(pairs[0]) + SizePairs(pairs[1..])
  }

  /** r reads the printed value as it should. */
  ghost predicate ReadsValue(t: TextRules, v: Resp, r: Parsed<Resp>) {
    && (Faithful(t, v) ==> r == Got(v, |Print(t, v)|))
    && (Sane(t) && r.Got? && r.value == v ==> Faithful(t, v))
  }

  /** r reads the printed values as it should. */
  ghost predicate ReadsItems(t: TextRules, items: seq<Resp>, len: nat, r: Parsed<seq<Resp>>) {
    && (AllFaithful(t, items) ==> r == Got(items, len))
    && (Sane(t) && r.Got? && r.value == items ==> AllFaithful(t, items))
  }

  lemma ListForm(t: TextRules, v: Resp)
    requires v.Array? || v.Set?
    ensures Print(t, v) == [if v.Array? then 42 else 126] + IntText(|v.items|) + CRLF + PrintAll(t, v.items)
    ensures Faithful(t, v) <==> Fits(|v.items|) && AllFaithful(t, v.items)
  {
    hide IntText, PrintAll;
  }

  lemma ListRoundTrip(t: TextRules, v: Resp, rest: Bytes)
    requires v.Array? || v.Set?
    requires ReadsItems(t, v.items, |PrintAll(t, v.items)|, ParseItems(t, PrintAll(t, v.items) + rest, |v.items|))
    ensures ReadsValue(t, v, ParseOne(t, Print(t, v) + rest))
  {
    hide ParseOne, ParseItems, IntText, Sane, PrintAll, PairUp, Print, Faithful, AllFaithful, Header;
    var tag := if v.Array? then 42 else 126;
    var body := PrintAll(t, v.items);
    ListForm(t, v);
    assert Print(t, v) + rest == [tag] + IntText(|v.items|) + CRLF + (body + rest);
    GroupHeader(t, tag, |v.items|, body + rest);
  }

  lemma MapRoundTrip(t: TextRules, pairs: seq<Entry>, rest: Bytes)
    requires ReadsPairs(t, pairs, |PrintPairs(t, pairs)|, ParseItems(t, PrintPairs(t, pairs) + rest, 2 * |pairs|))
    ensures ReadsValue(t, Map(pairs), ParseOne(t, Print(t, Map(pairs)) + rest))
  {
    hide ParseOne, ParseItems, IntText, Sane, PrintPairs, PairUp;
    assert Print(t, Map(pairs)) + rest == [37] + IntText(|pairs|) + CRLF + (PrintPairs(t, pairs) + rest);
    GroupHeader(t, 37, |pairs|, PrintPairs(t, pairs) + rest);
    PairUpFlat(pairs);
  }

  lemma {:induction false} ReadsAsPrinted(t: TextRules, v: Resp, rest: Bytes)
    ensures ReadsValue(t, v, ParseOne(t, Print(t, v) + rest))
    decreases Size(v)
  {
    hide ParseOne, ParseItems, Print, PrintAll, PrintPairs, Faithful, Sane, ReadsItems, ReadsPairs;
    match v {
      case Array(items) =>
        ItemsRoundTrip(t, items, rest);
        ListRoundTrip(t, v, rest);
      case Set(items) =>
        ItemsRoundTrip(t, items, rest);
        ListRoundTrip(t, v, rest);
      case Map(pairs) =>
        PairsRoundTrip(t, pairs, rest);
        MapRoundTrip(t, pairs, rest);
      case _ =>
        ScalarRoundTrip(t, v, rest);
    }
  }

  /** Printing a value at any depth and parsing it, with anything after it, gives back the
      value and its exact length if the value is faithful, and only then gives it back. */
  lemma RoundTrip(t: TextRules, v: Resp, rest: Bytes)
    ensures var r := ParseOne(t, Print(t, v) + rest);
            && (Faithful(t, v) ==> r == Got(v, |Print(t, v)|))
            && (Sane(t) ==> (Faithful(t, v) <==> r.Got? && r.value == v))
  {
    hide ParseOne, Print, Faithful, Sane;
    ReadsAsPrinted(t, v, rest);
  }

  lemma NoItems(t: TextRules, rest: Bytes)
    ensures ReadsItems(t, [], |PrintAll(t, [])|, ParseItems(t, PrintAll(t, []) + rest, 0))
  {
    hide Faithful, Sane;
  }

  lemma ReadsOne(t: TextRules, items: seq<Resp>, rest: Bytes)
    requires items != []
    requires var tail := PrintAll(t, items[1..]) + rest;
             && ReadsValue(t, items[0], ParseOne(t, Print(t, items[0]) + tail))
             && ReadsItems(t, items[1..], |PrintAll(t, items[1..])|, ParseItems(t, tail, |items| - 1))
    ensures ReadsItems(t, items, |PrintAll(t, items)|, ParseItems(t, PrintAll(t, items) + rest, |items|))
  {
    hide Print, Faithful, ParseOne, ParseItems, Sane, AllFaithful;
    var tail := PrintAll(t, items[1..]) + rest;
    var data := PrintAll(t, items) + rest;
    var first := Print(t, items[0]);
    assert data == first + tail && data[|first|..] == tail;
    assert items == [items[0]] + items[1..];
    AllFaithfulStep(t, items);
    if ParseItems(t, data, |items|).Got? { ItemsHead(t, data, |items| - 1); }
    if Faithful(t, items[0]) { ItemsStep(t, data, items[0], |first|, |items| - 1); }
  }

  lemma {:induction false} ItemsRoundTrip(t: TextRules, items: seq<Resp>, rest: Bytes)
    ensures ReadsItems(t, items, |PrintAll(t, items)|, ParseItems(t, PrintAll(t, items) + rest, |items|))
    decreases SizeAll(items)
  {
    hide Print, Faithful, ParseOne, ParseItems, Sane, AllFaithful, ReadsItems, ReadsValue, PrintAll;
    if items == [] {
      NoItems(t, rest);
    } else {
      ReadsAsPrinted(t, items[0], PrintAll(t, items[1..]) + rest);
      ItemsRoundTrip(t, items[1..], rest);
      ReadsOne(t, items, rest);
    }
  }

  lemma BeforeBefore(a: seq<Resp>, m: nat, b: seq<Resp>, n: nat, rest: Parsed<seq<Resp>>)
    ensures Before(a, m, Before(b, n, rest)) == Before(a + b, m + n, rest)
  {
    if rest.Got? { assert a + (b + rest.value) == (a + b) + rest.value; }
  }

  ghost predicate PairsFaithful(t: TextRules, pairs: seq<Entry>) {
    forall i :: 0 <= i < |pairs| ==> Faithful(t, pairs[i].key) && Faithful(t, pairs[i].value)
  }

  lemma {:induction false} EntryRoundTrip(t: TextRules, e: Entry, rest: Bytes, count: nat)
    ensures var data := PrintEntry(t, e) + rest;
            var r := ParseItems(t, data, count + 2);
            && (Faithful(t, e.key) && Faithful(t, e.value) ==>
                  r == Before([e.key, e.value], |PrintEntry(t, e)|, ParseItems(t, rest, count)))
            && (Sane(t) && r.Got? && r.value[0] == e.key && r.value[1] == e.value ==>
                  Faithful(t, e.key) && Faithful(t, e.value))
    decreases SizeEntry(e), 0
  {
    hide Print, Faithful, ParseOne, ParseItems, Sane;
    var k, v := Print(t, e.key), Print(t, e.value);
    var data := PrintEntry(t, e) + rest;
    assert data == k + (v + rest) && data[|k|..] == v + rest && (v + rest)[|v|..] == rest;
    ReadsAsPrinted(t, e.key, v + rest);
    ReadsAsPrinted(t, e.value, rest);
    if ParseItems(t, data, count + 2).Got? { ItemsHead(t, data, count + 1); }
    if Faithful(t, e.key) {
      ItemsStep(t, data, e.key, |k|, count + 1);
      if ParseItems(t, v + rest, count + 1).Got? { ItemsHead(t, v + rest, count); }
      if Faithful(t, e.value) {
        ItemsStep(t, v + rest, e.value, |v|, count);
        BeforeBefore([e.key], |k|, [e.value], |v|, ParseItems(t, rest, count));
        assert [e.key] + [e.value] == [e.key, e.value];
      }
    }
  }

  lemma PairsFaithfulStep(t: TextRules, pairs: seq<Entry>)
    requires pairs != []
    ensures PairsFaithful(t, pairs)
            <==> Faithful(t, pairs[0].key) && Faithful(t, pairs[0].value) && PairsFaithful(t, pairs[1..])
  {
    hide Faithful;
    if Faithful(t, pairs[0].key) && Faithful(t, pairs[0].value) && PairsFaithful(t, pairs[1..]) {
      forall i | 0 <= i < |pairs| ensures Faithful(t, pairs[i].key) && Faithful(t, pairs[i].value) {
        if i > 0 { assert pairs[i] == pairs[1..][i - 1]; }
      }
    }
    if PairsFaithful(t, pairs) {
      forall i | 0 <= i < |pairs| - 1 ensures Faithful(t, pairs[1..][i].key) && Faithful(t, pairs[1..][i].value) {
        assert pairs[1..][i] == pairs[i + 1];
      }
    }
  }

  /** r reads the printed pairs as it should. */
  ghost predicate ReadsPairs(t: TextRules, pairs: seq<Entry>, len: nat, r: Parsed<seq<Resp>>) {
    && (r.Got? ==> |r.value| == 2 * |pairs|)
    && (PairsFaithful(t, pairs) ==> r == Got(Flat(pairs), len))
    && (Sane(t) && r.Got? && PairUp(r.value) == pairs ==> PairsFaithful(t, pairs))
  }

  lemma ReadsOneMore(t: TextRules, pairs: seq<Entry>, m: nat, len: nat, r: Parsed<seq<Resp>>, more: Parsed<seq<Resp>>)
    requires pairs != [] && ReadsPairs(t, pairs[1..], len, more)
    requires Faithful(t, pairs[0].key) && Faithful(t, pairs[0].value)
    requires r == Before([pairs[0].key, pairs[0].value], m, more)
    ensures ReadsPairs(t, pairs, m + len, r)
  {
    hide Faithful, Sane, PairsFaithful;
    PairsFaithfulStep(t, pairs);
    if r.Got? { assert r.value[2..] == more.value; }
  }

  lemma ReadsBadPair(t: TextRules, pairs: seq<Entry>, len: nat, r: Parsed<seq<Resp>>)
    requires pairs != [] && !(Faithful(t, pairs[0].key) && Faithful(t, pairs[0].value))
    requires r.Got? ==> |r.value| == 2 * |pairs|
    requires !(Sane(t) && r.Got? && r.value[0] == pairs[0].key && r.value[1] == pairs[0].value)
    ensures ReadsPairs(t, pairs, len, r)
  {
    hide Faithful, Sane, PairsFaithful;
    PairsFaithfulStep(t, pairs);
  }

  /** r reads a printed entry and then more values as it should. */
  ghost predicate ReadsEntry(t: TextRules, e: Entry, m: nat, r: Parsed<seq<Resp>>, more: Parsed<seq<Resp>>) {
    if Faithful(t, e.key) && Faithful(t, e.value) then r == Before([e.key, e.value], m, more)
    else r.Got? && |r.value| >= 2 && r.value[0] == e.key && r.value[1] == e.value ==> !Sane(t)
  }

  lemma ReadsStep(t: TextRules, pairs: seq<Entry>, m: nat, len: nat, r: Parsed<seq<Resp>>, more: Parsed<seq<Resp>>)
    requires pairs != [] && ReadsPairs(t, pairs[1..], len, more) && ReadsEntry(t, pairs[0], m, r, more)
    requires r.Got? ==> |r.value| == 2 * |pairs|
    ensures ReadsPairs(t, pairs, m + len, r)
  {
    hide Faithful, Sane, PairsFaithful, ReadsPairs;
    if Faithful(t, pairs[0].key) && Faithful(t, pairs[0].value) {
      ReadsOneMore(t, pairs, m, len, r, more);
    } else {
      ReadsBadPair(t, pairs, m + len, r);
    }
  }

  lemma EntryReads(t: TextRules, e: Entry, rest: Bytes, count: nat)
    ensures ReadsEntry(t, e, |PrintEntry(t, e)|, ParseItems(t, PrintEntry(t, e) + rest, count + 2),
                       ParseItems(t, rest, count))
    decreases SizeEntry(e), 1
  {
    hide Faithful, Sane, PrintEntry, Print, ParseItems;
    EntryRoundTrip(t, e, rest, count);
  }

  lemma PrintPairsStep(t: TextRules, pairs: seq<Entry>, rest: Bytes)
    requires pairs != []
    ensures PrintPairs(t, pairs) + rest == PrintEntry(t, pairs[0]) + (PrintPairs(t, pairs[1..]) + rest)
    ensures |PrintPairs(t, pairs)| == |PrintEntry(t, pairs[0])| + |PrintPairs(t, pairs[1..])|
  {
    hide PrintEntry;
  }

  lemma NoPairs(t: TextRules, rest: Bytes)
    ensures ReadsPairs(t, [], |PrintPairs(t, [])|, ParseItems(t, PrintPairs(t, []) + rest, 0))
  {
    hide Sane, Faithful;
  }

  lemma {:induction false} PairsRoundTrip(t: TextRules, pairs: seq<Entry>, rest: Bytes)
    ensures ReadsPairs(t, pairs, |PrintPairs(t, pairs)|, ParseItems(t, PrintPairs(t, pairs) + rest, 2 * |pairs|))
    decreases SizePairs(pairs)
  {
    hide Print, PrintEntry, PrintPairs, Faithful, ParseItems, Sane, PairUp, PairsFaithful, ReadsPairs, ReadsEntry;
    if pairs == [] {
      NoPairs(t, rest);
    } else {
      var tail := PrintPairs(t, pairs[1..]) + rest;
      var n := 2 * |pairs[1..]|;
      PrintPairsStep(t, pairs, rest);
      EntryReads(t, pairs[0], tail, n);
      PairsRoundTrip(t, pairs[1..], rest);
      ReadsStep(t, pairs, |PrintEntry(t, pairs[0])|, |PrintPairs(t, pairs[1..])|,
                ParseItems(t, PrintPairs(t, pairs) + rest, n + 2), ParseItems(t, tail, n));
    }
  }
}
