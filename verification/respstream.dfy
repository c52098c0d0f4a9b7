/** Reading RESP values from a byte stream: a value is decided by exactly the bytes it
    consumes, and the parser and printer loops compute what the protocol says. */
module RespStreams {
  import opened ByteStrings
  import opened Decimals
  import opened RespProtocol

  // ---------- a result depends only on the bytes it consumes ----------

  /** The bytes that decided the result on data are the same in other. */
  ghost predicate SameBytes<T>(data: Bytes, other: Bytes, r: Parsed<T>) {
    match r
    case Got(_, used) => used <= |data| && used <= |other| && other[..used] == data[..used]
    case Crash => data <= other
    case NeedMore => false
  }

  lemma LineLocal(data: Bytes, other: Bytes)
    requires data != [] && data[0] != 13 && Line(data).Some?
    requires var n := Line(data).value.1;
             n <= |other| && other[..n] == data[..n]
    ensures other != [] && other[0] == data[0] && Line(other) == Line(data)
  {
    var n := Line(data).value.1;
    var pos := FindCrlf(data).value;
    assert forall i :: 0 <= i < n ==> other[i] == other[..n][i] == data[..n][i] == data[i];
    assert CrlfAt(other, pos);
    forall j | 0 <= j < pos ensures !CrlfAt(other, j) {
      assert !CrlfAt(data, j);
    }
    assert other[1..pos] == data[1..pos];
  }

  lemma ScalarLocal(t: TextRules, data: Bytes, other: Bytes, line: Bytes, n: nat)
    requires data != [] && other != [] && 3 <= n <= |data| && n <= |other| && data[0] == other[0]
    requires ParseScalar(t, data, line, n).Got? && SameBytes(data, other, ParseScalar(t, data, line, n))
    ensures ParseScalar(t, other, line, n) == ParseScalar(t, data, line, n)
  {
    hide ParseI64;
    if data[0] == 36 {
      var used := ParseScalar(t, data, line, n).used;
      var len := ParseI64(line).value;
      if len >= 0 {
        assert other[n..n + len] == other[..used][n..n + len] == data[..used][n..n + len] == data[n..n + len];
      }
    }
  }

  lemma NoScalarCrash(t: TextRules, data: Bytes, line: Bytes, n: nat)
    requires data != [] && 3 <= n <= |data|
    ensures !ParseScalar(t, data, line, n).Crash?
  {
    hide ParseI64;
  }

  lemma SliceSame(data: Bytes, other: Bytes, n: nat, used: nat)
    requires n + used <= |data| && n + used <= |other| && other[..n + used] == data[..n + used]
    ensures other[..n] == data[..n] && other[n..][..used] == data[n..][..used]
  {
    assert other[..n] == other[..n + used][..n];
    assert data[..n] == data[..n + used][..n];
    assert other[n..][..used] == other[..n + used][n..];
    assert data[n..][..used] == data[..n + used][n..];
  }

  lemma PrefixSlice(data: Bytes, other: Bytes, n: nat)
    requires data <= other && n <= |data|
    ensures other[..n] == data[..n] && data[n..] <= other[n..]
  {
    assert data == other[..|data|];
  }

  /** Parsing gives the same result on every stream that starts with the bytes it consumed. */
  lemma {:induction false} ParseLocal(t: TextRules, data: Bytes, other: Bytes)
    requires SameBytes(data, other, ParseOne(t, data))
    ensures ParseOne(t, other) == ParseOne(t, data)
    decreases |data|, 1
  {
    hide Line, ParseScalar, ParseGroup;
    var r := ParseOne(t, data);
    var (line, n) := Line(data).value;
    var group := data[0] == 42 || data[0] == 37 || data[0] == 126;
    if r.Got? {
      if group { GroupUsed(t, data, line, n); } else { ScalarUsed(t, data, line, n); }
      SliceSame(data, other, n, r.used - n);
    } else {
      PrefixSlice(data, other, n);
    }
    LineLocal(data, other);
    if group {
      GroupLocal(t, data, other, line, n);
    } else {
      NoScalarCrash(t, data, line, n);
      ScalarLocal(t, data, other, line, n);
    }
  }

  lemma ScalarUsed(t: TextRules, data: Bytes, line: Bytes, n: nat)
    requires data != [] && 3 <= n <= |data| && ParseScalar(t, data, line, n).Got?
    ensures ParseScalar(t, data, line, n).used >= n
  {
    hide ParseI64;
  }

  lemma GroupUsed(t: TextRules, data: Bytes, line: Bytes, n: nat)
    requires data != [] && 3 <= n <= |data| && ParseGroup(t, data, line, n).Got?
    ensures ParseGroup(t, data, line, n).used >= n
  {
    hide ParseI64, ParseItems, PairUp;
  }

  lemma {:induction false} GroupLocal(t: TextRules, data: Bytes, other: Bytes, line: Bytes, n: nat)
    requires data != [] && other != [] && 3 <= n <= |data| && n <= |other| && data[0] == other[0]
    requires SameBytes(data, other, ParseGroup(t, data, line, n))
    ensures ParseGroup(t, other, line, n) == ParseGroup(t, data, line, n)
    decreases |data|, 0
  {
    hide ParseI64, ParseItems, PairUp;
    var count: int := ParseI64(line).value;
    if count >= 0 {
      var many := if data[0] == 37 then 2 * count else count;
      var items := ParseItems(t, data[n..], many);
      if items.Got? { SliceSame(data, other, n, items.used); } else { PrefixSlice(data, other, n); }
      ItemsLocal(t, data[n..], other[n..], many);
    }
  }

  lemma {:induction false} ItemsLocal(t: TextRules, data: Bytes, other: Bytes, count: nat)
    requires SameBytes(data, other, ParseItems(t, data, count))
    ensures ParseItems(t, other, count) == ParseItems(t, data, count)
    decreases |data|, 2
  {
    hide ParseOne;
    if count > 0 {
      var r := ParseItems(t, data, count);
      var one := ParseOne(t, data);
      if one.Crash? {
        ParseLocal(t, data, other);
      } else {
        var used := one.used;
        var more := ParseItems(t, data[used..], count - 1);
        if r.Got? { SliceSame(data, other, used, more.used); } else { PrefixSlice(data, other, used); }
        ParseLocal(t, data, other);
        ItemsLocal(t, data[used..], other[used..], count - 1);
      }
    }
  }

  /** Bytes that arrive later never change a result already reached. */
  lemma ParseStable(t: TextRules, data: Bytes, more: Bytes)
    requires !ParseOne(t, data).NeedMore?
    ensures ParseOne(t, data + more) == ParseOne(t, data)
  {
    hide ParseOne;
    var r := ParseOne(t, data);
    if r.Got? { assert (data + more)[..r.used] == data[..r.used]; }
    ParseLocal(t, data, data + more);
  }

  /** A value is never recognised before its last byte has arrived: every strict prefix of
      a printed value asks for more, and the whole of it, with anything after, gives it back. */
  lemma PrefixesNeedMore(t: TextRules, v: Resp, n: nat)
    requires Faithful(t, v) && n < |Print(t, v)|
    ensures ParseOne(t, Print(t, v)[..n]) == NeedMore
  {
    hide ParseOne, Print, Faithful;
    var whole := Print(t, v);
    ReadsAsPrinted(t, v, []);
    assert whole + [] == whole;
    if !ParseOne(t, whole[..n]).NeedMore? {
      ParseStable(t, whole[..n], whole[n..]);
      assert whole[..n] + whole[n..] == whole;
    }
  }

  // ---------- the loops of the parser and the printer ----------

  /** The parser: groups read their values in a loop that adds up the bytes consumed. */
  method Parse(t: TextRules, data: Bytes) returns (r: Parsed<Resp>)
    ensures r == ParseOne(t, data)
    decreases |data|, 1
  {
    hide ParseI64, Line, ParseScalar, ParseItems, PairUp;
    if data == [] || data[0] !in TAGS { return NeedMore; }
    match Line(data) {
      case None => r := NeedMore;
      case Some((line, n)) =>
        if data[0] == 42 || data[0] == 37 || data[0] == 126 {
          var count := ParseI64(line);
          if count.None? { return NeedMore; }
          if count.value < 0 { return if data[0] == 42 then Got(Null, n) else Crash; }
          if data[0] == 37 {
            r := ParseMapLoop(t, data, n, count.value);
          } else {
            var items := ParseLoop(t, data, n, count.value);
            match items {
              case Got(vs, used) => r := Got(if data[0] == 42 then Array(vs) else Set(vs), n + used);
              case NeedMore => r := NeedMore;
              case Crash => r := Crash;
            }
          }
        } else {
          r := ParseScalar(t, data, line, n);
        }
    }
  }

  lemma LoopStep(t: TextRules, data: Bytes, whole: Parsed<seq<Resp>>, items: seq<Resp>, used: nat, v: Resp, n: nat,
                 left: nat)
    requires ParseOne(t, data) == Got(v, n)
    requires whole == Before(items, used, ParseItems(t, data, left + 1))
    ensures whole == Before(items + [v], used + n, ParseItems(t, data[n..], left))
  {
    hide ParseOne;
    BeforeBefore(items, used, [v], n, ParseItems(t, data[n..], left));
  }

  lemma LoopStops(t: TextRules, data: Bytes, items: seq<Resp>, used: nat, left: nat)
    requires left > 0 && !ParseOne(t, data).Got?
    ensures Before(items, used, ParseItems(t, data, left))
            == if ParseOne(t, data).NeedMore? then NeedMore else Crash
  {
  }

  lemma LoopBegins(t: TextRules, data: Bytes, count: nat)
    ensures ParseItems(t, data, count) == Before([], 0, ParseItems(t, data, count))
  {
    hide ParseItems;
    var r := ParseItems(t, data, count);
    if r.Got? { assert [] + r.value == r.value; }
  }

  lemma LoopEnds(t: TextRules, data: Bytes, items: seq<Resp>, used: nat)
    ensures Before(items, used, ParseItems(t, data, 0)) == Got(items, used)
  {
    assert items + [] == items;
  }

  method ParseLoop(t: TextRules, data: Bytes, start: nat, count: nat) returns (r: Parsed<seq<Resp>>)
    requires 3 <= start <= |data|
    ensures r == ParseItems(t, data[start..], count)
    decreases |data|, 0
  {
    hide ParseOne, ParseItems, Before;
    var items: seq<Resp> := [];
    var consumed := start;
    LoopBegins(t, data[start..], count);
    for i := 0 to count
      invariant start <= consumed <= |data| && |items| == i
      invariant ParseItems(t, data[start..], count)
                == Before(items, consumed - start, ParseItems(t, data[consumed..], count - i))
    {
      var one := Parse(t, data[consumed..]);
      match one {
        case NeedMore => LoopStops(t, data[consumed..], items, consumed - start, count - i); return NeedMore;
        case Crash => LoopStops(t, data[consumed..], items, consumed - start, count - i); return Crash;
        case Got(v, used) =>
          LoopStep(t, data[consumed..], ParseItems(t, data[start..], count),
                   items, consumed - start, v, used, count - i - 1);
          assert data[consumed..][used..] == data[consumed + used..];
          items := items + [v];
          consumed := consumed + used;
      }
    }
    LoopEnds(t, data[consumed..], items, consumed - start);
    r := Got(items, consumed - start);
  }

  lemma {:induction false} FlatSnoc(pairs: seq<Entry>, e: Entry)
    ensures Flat(pairs + [e]) == Flat(pairs) + [e.key, e.value]
  {
    if pairs == [] {
      assert [e][1..] == [];
      assert Flat([e]) == [e.key, e.value];
    } else {
      FlatSnoc(pairs[1..], e);
      assert (pairs + [e])[1..] == pairs[1..] + [e];
    }
  }

  method ParseMapLoop(t: TextRules, data: Bytes, start: nat, count: nat) returns (r: Parsed<Resp>)
    requires 3 <= start <= |data|
    ensures r == match ParseItems(t, data[start..], 2 * count)
                 case Got(items, used) => Got(Map(PairUp(items)), start + used)
                 case NeedMore => NeedMore
                 case Crash => Crash
    decreases |data|, 0
  {
    hide ParseOne, ParseItems, Before, Flat, PairUp;
    var pairs: seq<Entry> := [];
    var consumed := start;
    ghost var whole := ParseItems(t, data[start..], 2 * count);
    NoFlat();
    LoopBegins(t, data[start..], 2 * count);
    for i := 0 to count
      invariant start <= consumed <= |data|
      invariant whole == Before(Flat(pairs), consumed - start, ParseItems(t, data[consumed..], 2 * (count - i)))
    {
      ghost var left := 2 * (count - i);
      var one := Parse(t, data[consumed..]);
      if !one.Got? {
        LoopStops(t, data[consumed..], Flat(pairs), consumed - start, left);
        return if one.NeedMore? then NeedMore else Crash;
      }
      LoopStep(t, data[consumed..], whole, Flat(pairs), consumed - start, one.value, one.used, left - 1);
      assert data[consumed..][one.used..] == data[consumed + one.used..];
      consumed := consumed + one.used;
      var two := Parse(t, data[consumed..]);
      if !two.Got? {
        LoopStops(t, data[consumed..], Flat(pairs) + [one.value], consumed - start, left - 1);
        return if two.NeedMore? then NeedMore else Crash;
      }
      LoopStep(t, data[consumed..], whole, Flat(pairs) + [one.value], consumed - start, two.value, two.used, left - 2);
      assert data[consumed..][two.used..] == data[consumed + two.used..];
      consumed := consumed + two.used;
      FlatSnoc(pairs, Entry(one.value, two.value));
      assert Flat(pairs) + [one.value] + [two.value] == Flat(pairs) + [one.value, two.value];
      pairs := pairs + [Entry(one.value, two.value)];
    }
    LoopEnds(t, data[consumed..], Flat(pairs), consumed - start);
    PairUpFlat(pairs);
    r := Got(Map(pairs), consumed);
  }

  lemma NoFlat()
    ensures Flat([]) == []
  {
  }

  lemma {:induction false} PrintAllSnoc(t: TextRules, items: seq<Resp>, v: Resp)
    ensures PrintAll(t, items + [v]) == PrintAll(t, items) + Print(t, v)
  {
    hide Print;
    if items == [] {
      assert [v][1..] == [];
      assert PrintAll(t, [v]) == Print(t, v) + [];
    } else {
      PrintAllSnoc(t, items[1..], v);
      assert (items + [v])[1..] == items[1..] + [v];
    }
  }

  lemma {:induction false} PrintPairsSnoc(t: TextRules, pairs: seq<Entry>, e: Entry)
    ensures PrintPairs(t, pairs + [e]) == PrintPairs(t, pairs) + PrintEntry(t, e)
  {
    hide PrintEntry;
    if pairs == [] {
      assert [e][1..] == [];
      assert PrintPairs(t, [e]) == PrintEntry(t, e) + [];
    } else {
      PrintPairsSnoc(t, pairs[1..], e);
      assert (pairs + [e])[1..] == pairs[1..] + [e];
    }
  }

  /** serialize_into: appends the wire form of a value to a buffer. */
  method PrintInto(t: TextRules, v: Resp, buf: Bytes) returns (r: Bytes)
    ensures r == buf + Print(t, v)
    decreases v
  {
    hide Header, PrintAll, PrintPairs;
    r := buf + Header(t, v);
    match v {
      case Array(items) => r := PrintItemsInto(t, items, r);
      case Set(items) => r := PrintItemsInto(t, items, r);
      case Map(pairs) => r := PrintPairsInto(t, pairs, r);
      case _ =>
    }
  }

  method PrintItemsInto(t: TextRules, items: seq<Resp>, buf: Bytes) returns (r: Bytes)
    ensures r == buf + PrintAll(t, items)
    decreases items
  {
    hide Print;
    r := buf;
    assert PrintAll(t, items[..0]) == [];
    for i := 0 to |items|
      invariant r == buf + PrintAll(t, items[..i])
    {
      assert items[..i + 1] == items[..i] + [items[i]];
      PrintAllSnoc(t, items[..i], items[i]);
      r := PrintInto(t, items[i], r);
    }
    assert items[..|items|] == items;
  }

  method PrintPairsInto(t: TextRules, pairs: seq<Entry>, buf: Bytes) returns (r: Bytes)
    ensures r == buf + PrintPairs(t, pairs)
    decreases pairs
  {
    hide Print, PrintEntry;
    r := buf;
    assert PrintPairs(t, pairs[..0]) == [];
    for i := 0 to |pairs|
      invariant r == buf + PrintPairs(t, pairs[..i])
    {
      assert pairs[..i + 1] == pairs[..i] + [pairs[i]];
      PrintPairsSnoc(t, pairs[..i], pairs[i]);
      r := PrintEntryInto(t, pairs[i], r);
    }
    assert pairs[..|pairs|] == pairs;
  }

  method PrintEntryInto(t: TextRules, e: Entry, buf: Bytes) returns (r: Bytes)
    ensures r == buf + PrintEntry(t, e)
    decreases e
  {
    hide Print;
    r := PrintInto(t, e.key, buf);
    r := PrintInto(t, e.value, r);
  }
}
