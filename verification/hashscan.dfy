/** HSCAN: the cursor text, one page, and what a whole iteration returns while the
    hash is being changed between its pages. */
module HashScans {
  import opened ByteStrings
  import opened OrderedStore
  import opened Contexts

  // ---------- cursors ----------

  function HexDigit(n: nat): (c: byte)
    requires n < 16
  {
    if n < 10 then 48 + n else 87 + n
  }

  function DigitValue(c: byte): (n: Option<nat>)
    ensures n.Some? ==> n.value < 16
  {
    if 48 <= c <= 57 then Some(c - 48)
    else if 97 <= c <= 102 then Some(c - 87)
    else if 65 <= c <= 70 then Some(c - 55)
    else None
  }

  /** Two characters of a cursor: hexadecimal digits in either case, or a plus sign and one digit. */
  function HexPair(a: byte, b: byte): Option<byte> {
    match (DigitValue(a), DigitValue(b))
    case (_, None) => None
    case (Some(x), Some(y)) => Some(16 * x + y)
    case (None, Some(y)) => if a == 43 then Some(y) else None
  }

  /** Digits in either case, and a plus sign in front of a lone one, as integers are read. */
  lemma HexForms(c: byte, n: nat)
    requires n < 16
    ensures DigitValue(c).Some?
            <==> 'a' as int <= c <= 'f' as int || 'A' as int <= c <= 'F' as int || '0' as int <= c <= '9' as int
    ensures n >= 10 ==> DigitValue('a' as int + n - 10) == DigitValue('A' as int + n - 10) == Some(n)
    ensures n < 10 ==> DigitValue('0' as int + n) == Some(n)
    ensures DigitValue(c).None? ==> HexPair(c, HexDigit(n)) == if c == '+' as int then Some(n) else None
  {
  }

  function HexText(key: Bytes): (s: Bytes)
    ensures |s| == 2 * |key|
  {
    if key == [] then [] else [HexDigit(key[0] / 16), HexDigit(key[0] % 16)] + HexText(key[1..])
  }

  /** What a cursor decodes to: a key, nothing, or a slice that cuts a character in two. */
  datatype CursorKey = Key(key: Bytes) | Malformed | Splits

  /** A byte that continues a UTF-8 character. */
  predicate Continues(b: byte) { 0x80 <= b < 0xC0 }

  /** Two bytes at a time; the first pair that is no hexadecimal pair ends the decoding, and
      a pair that ends inside a character cannot be cut out at all. */
  function HexBytes(s: Bytes): CursorKey
    requires |s| % 2 == 0
  {
    if s == [] then Key([])
    else if |s| > 2 && Continues(s[2]) then Splits
    else
      match HexPair(s[0], s[1])
      case None => Malformed
      case Some(b) =>
        match HexBytes(s[2..])
        case Key(rest) => Key([b] + rest)
        case Malformed => Malformed
        case Splits => Splits
  }

  /** The text "0" stands for the empty key, the start and the end of an iteration. */
  const ZERO: Bytes := [48]

  function EncodeCursor(key: Bytes): Bytes { if key == [] then ZERO else HexText(key) }

  function DecodeCursor(s: Bytes): CursorKey {
    if s == [] || s == ZERO then Key([])
    else if |s| % 2 != 0 then Malformed
    else HexBytes(s)
  }

  lemma HexPairInverts(b: byte)
    ensures HexPair(HexDigit(b / 16), HexDigit(b % 16)) == Some(b)
  {
    assert DigitValue(HexDigit(b / 16)) == Some(b / 16);
    assert DigitValue(HexDigit(b % 16)) == Some(b % 16);
  }

  lemma {:induction false} HexRoundTrip(key: Bytes)
    ensures HexBytes(HexText(key)) == Key(key)
  {
    hide HexPair, HexDigit;
    if key != [] {
      HexRoundTrip(key[1..]);
      HexIsAscii(key);
      var s := HexText(key);
      assert s[2..] == HexText(key[1..]);
      HexPairInverts(key[0]);
      assert key == [key[0]] + key[1..];
    }
  }

  lemma {:induction false} HexIsAscii(key: Bytes)
    ensures Ascii(HexText(key))
  {
    if key != [] {
      HexIsAscii(key[1..]);
      var s := HexText(key);
      assert s[2..] == HexText(key[1..]);
      assert forall i :: 2 <= i < |s| ==> s[i] == s[2..][i - 2];
    }
  }

  /** A cursor reads back as the key it was made from, and only the empty key gives "0". */
  lemma CursorRoundTrip(key: Bytes)
    ensures DecodeCursor(EncodeCursor(key)) == Key(key) && ValidUtf8(EncodeCursor(key))
    ensures EncodeCursor(key) == ZERO <==> key == []
  {
    HexRoundTrip(key);
    HexIsAscii(key);
    AsciiIsUtf8(EncodeCursor(key));
    if key != [] { assert |EncodeCursor(key)| == 2 * |key|; }
  }

  // ---------- which cursors are text ----------

  predicate Ascii(s: Bytes) { forall i :: 0 <= i < |s| ==> s[i] < 0x80 }

  /** The length of the UTF-8 character at the front, 0 when there is none (RFC 3629, section 4). */
  function CharLength(s: Bytes): (n: nat)
    ensures n <= |s|
  {
    if s == [] then 0
    else if s[0] < 0x80 then 1
    else if 0xC2 <= s[0] < 0xE0 then (if |s| >= 2 && Continues(s[1]) then 2 else 0)
    else if 0xE0 <= s[0] < 0xF0 then
      (if && |s| >= 3 && Continues(s[1]) && Continues(s[2])
          && (s[0] == 0xE0 ==> s[1] >= 0xA0) && (s[0] == 0xED ==> s[1] < 0xA0)
       then 3 else 0)
    else if 0xF0 <= s[0] < 0xF5 then
      (if && |s| >= 4 && Continues(s[1]) && Continues(s[2]) && Continues(s[3])
          && (s[0] == 0xF0 ==> s[1] >= 0x90) && (s[0] == 0xF4 ==> s[1] < 0x90)
       then 4 else 0)
    else 0
  }

  predicate ValidUtf8(s: Bytes) {
    s == [] || (CharLength(s) > 0 && ValidUtf8(s[CharLength(s)..]))
  }

  /** The code points that stand for characters: all but the surrogates. */
  predicate IsCharacter(c: nat) { c < 0xD800 || 0xE000 <= c < 0x11_0000 }

  /** The bytes of one character (RFC 3629, section 3). */
  function Utf8(c: nat): (b: Bytes)
    requires IsCharacter(c)
    ensures b != []
  {
    if c < 0x80 then [c]
    else if c < 0x800 then [0xC0 + c / 64, 0x80 + c % 64]
    else if c < 0x1_0000 then [0xE0 + c / 4096, 0x80 + c / 64 % 64, 0x80 + c % 64]
    else [0xF0 + c / 262144, 0x80 + c / 4096 % 64, 0x80 + c / 64 % 64, 0x80 + c % 64]
  }

  lemma CharAtFront(c: nat, rest: Bytes)
    requires IsCharacter(c)
    ensures CharLength(Utf8(c) + rest) == |Utf8(c)|
  {
  }

  /** What a byte of a character carries above its marker. */
  function Part(b: int, marker: int): int { b - marker }

  lemma Packed(a: nat, b: nat, c: nat)
    requires b < 64 && c < 64
    ensures var n := 4096 * a + 64 * b + c; n / 4096 == a && n / 64 % 64 == b && n % 64 == c
    ensures (64 * b + c) / 64 == b && (64 * b + c) % 64 == c
  {
    assert (4096 * a + 64 * b + c) / 64 == 64 * a + b;
  }

  lemma PackedFour(a: nat, b: nat, c: nat, d: nat)
    requires b < 64 && c < 64 && d < 64
    ensures var n := 262144 * a + 4096 * b + 64 * c + d;
            n / 262144 == a && n / 4096 % 64 == b && n / 64 % 64 == c && n % 64 == d
  {
    var n := 262144 * a + 4096 * b + 64 * c + d;
    assert n == 4096 * (64 * a + b) + 64 * c + d;
    Packed(64 * a + b, c, d);
    Packed(0, a % 64, b);
    assert n / 262144 == a;
  }

  lemma TwoIsChar(s: Bytes) returns (c: nat)
    requires CharLength(s) == 2
    ensures IsCharacter(c) && Utf8(c) == s[..2]
  {
    Packed(0, Part(s[0], 0xC0), Part(s[1], 0x80));
    c := 64 * Part(s[0], 0xC0) + Part(s[1], 0x80);
  }

  lemma ThreeIsChar(s: Bytes) returns (c: nat)
    requires CharLength(s) == 3
    ensures IsCharacter(c) && Utf8(c) == s[..3]
  {
    Packed(Part(s[0], 0xE0), Part(s[1], 0x80), Part(s[2], 0x80));
    c := 4096 * Part(s[0], 0xE0) + 64 * Part(s[1], 0x80) + Part(s[2], 0x80);
  }

  lemma FourIsChar(s: Bytes) returns (c: nat)
    requires CharLength(s) == 4
    ensures IsCharacter(c) && Utf8(c) == s[..4]
  {
    PackedFour(Part(s[0], 0xF0), Part(s[1], 0x80), Part(s[2], 0x80), Part(s[3], 0x80));
    c := 262144 * Part(s[0], 0xF0) + 4096 * Part(s[1], 0x80) + 64 * Part(s[2], 0x80) + Part(s[3], 0x80);
  }

  lemma FrontIsChar(s: Bytes) returns (c: nat)
    requires CharLength(s) > 0
    ensures IsCharacter(c) && Utf8(c) == s[..CharLength(s)]
  {
    var n := CharLength(s);
    if n == 1 {
      c := s[0];
    } else {
      hide Utf8, IsCharacter;
      if n == 2 { c := TwoIsChar(s); } else if n == 3 { c := ThreeIsChar(s); } else { c := FourIsChar(s); }
    }
  }

  function Utf8Text(cs: seq<nat>): Bytes
    requires forall i :: 0 <= i < |cs| ==> IsCharacter(cs[i])
  {
    if cs == [] then [] else Utf8(cs[0]) + Utf8Text(cs[1..])
  }

  /** Valid text is the bytes of some characters one after another, and nothing else is. */
  lemma {:induction false} TextIsValid(cs: seq<nat>)
    requires forall i :: 0 <= i < |cs| ==> IsCharacter(cs[i])
    ensures ValidUtf8(Utf8Text(cs))
  {
    hide Utf8, CharLength;
    if cs != [] {
      var rest := Utf8Text(cs[1..]);
      TextIsValid(cs[1..]);
      CharAtFront(cs[0], rest);
      assert (Utf8(cs[0]) + rest)[|Utf8(cs[0])|..] == rest;
    }
  }

  lemma {:induction false} ValidIsText(s: Bytes) returns (cs: seq<nat>)
    requires ValidUtf8(s)
    ensures (forall i :: 0 <= i < |cs| ==> IsCharacter(cs[i])) && s == Utf8Text(cs)
    decreases |s|
  {
    hide Utf8, CharLength;
    if s == [] {
      cs := [];
    } else {
      var n := CharLength(s);
      var c := FrontIsChar(s);
      var rest := ValidIsText(s[n..]);
      cs := [c] + rest;
      assert cs[1..] == rest && s == s[..n] + s[n..];
    }
  }

  lemma {:induction false} AsciiIsUtf8(s: Bytes)
    requires Ascii(s)
    ensures ValidUtf8(s)
  {
    if s != [] { AsciiIsUtf8(s[1..]); }
  }

  /** Hexadecimal pairs lead up to a pair that ends inside a character. */
  predicate CutAt(s: Bytes, j: nat) {
    2 * j + 2 < |s| && HexBytes(s[..2 * j]).Key? && Continues(s[2 * j + 2])
  }

  lemma PairsBefore(s: Bytes, j: nat)
    requires |s| > 2 && !Continues(s[2]) && j > 0
    ensures CutAt(s, j) <==> HexPair(s[0], s[1]).Some? && CutAt(s[2..], j - 1)
  {
    hide HexPair;
    if 2 * j + 2 < |s| {
      var front := s[..2 * j];
      assert front[2..] == s[2..][..2 * (j - 1)];
      assert HexBytes(front).Key? <==> HexPair(s[0], s[1]).Some? && HexBytes(front[2..]).Key?;
    }
  }

  /** The decoding of a cursor fails on a slice exactly when some pair ends inside a character
      and every pair before it is hexadecimal. */
  lemma {:induction false} SplitsExactly(s: Bytes)
    requires |s| % 2 == 0
    ensures HexBytes(s) == Splits <==> exists j: nat :: CutAt(s, j)
  {
    hide HexPair, CutAt;
    if |s| <= 2 {
      SplitsShort(s);
    } else if Continues(s[2]) {
      assert CutAt(s, 0) by { assert s[..2 * 0] == []; CutFirst(s); }
    } else {
      SplitsExactly(s[2..]);
      if HexBytes(s) == Splits {
        var j: nat :| CutAt(s[2..], j);
        PairsBefore(s, j + 1);
      }
      if j: nat :| CutAt(s, j) {
        CutFirst(s);
        PairsBefore(s, j);
      }
    }
  }

  lemma CutFirst(s: Bytes)
    requires |s| > 2
    ensures CutAt(s, 0) <==> Continues(s[2])
  {
    assert s[..2 * 0] == [];
  }

  lemma SplitsShort(s: Bytes)
    requires |s| % 2 == 0 && |s| <= 2
    ensures HexBytes(s) != Splits && forall j: nat :: !CutAt(s, j)
  {
    hide HexPair;
    if s != [] { assert s[2..] == []; }
  }

  /** The cursor "aéb": its first two bytes end inside the second character. */
  lemma CursorCutsCharacter()
    ensures var s: Bytes := [0x61, 0xC3, 0xA9, 0x62];
            ValidUtf8(s) && DecodeCursor(s) == Splits
  {
    var s: Bytes := [0x61, 0xC3, 0xA9, 0x62];
    assert s[1..] == [0xC3, 0xA9, 0x62] && [0xC3, 0xA9, 0x62][2..] == [0x62] && [0x62][1..] == [];
  }

  // ---------- one page over the fields of a hash ----------

  type Hash = map<Bytes, Bytes>

  /** The fields an iteration that has reached a field (None: nothing yet) still has ahead. */
  ghost function Ahead(h: Hash, after: Option<Bytes>): set<Bytes> {
    set x | x in h && (after.Some? ==> Less(after.value, x))
  }

  ghost function PageFields(h: Hash, after: Option<Bytes>, count: nat): (r: seq<Bytes>)
    ensures forall x :: x in r ==> x in h
  {
    hide Less, SortedKeys;
    var s := SortedKeys(Ahead(h, after));
    var r := s[..Min(PageSize(count), |s|)];
    assert forall x :: x in r ==> x in s;
    r
  }

  /** Where a scan stands: after a field, or done. */
  datatype Place = At(after: Option<Bytes>) | Done

  ghost function PagePlace(h: Hash, after: Option<Bytes>, count: nat): Place {
    var s := SortedKeys(Ahead(h, after));
    if |s| <= PageSize(count) then Done else At(Some(s[PageSize(count) - 1]))
  }

  /** The start key that stands for a place inside the entries under p. */
  function StartAt(p: Bytes, after: Option<Bytes>): Bytes {
    if after.None? then [] else p + after.value
  }

  lemma RunIsAhead(f: Family, p: Bytes, after: Option<Bytes>)
    requires p != []
    ensures ForwardRun(f, p, StartAt(p, after)) == Prefixed(p, SortedKeys(Ahead(View(f, p), after)))
  {
    hide Less, SortedKeys, ForwardRun, View;
    var start, fields := StartAt(p, after), SortedKeys(Ahead(View(f, p), after));
    var run, keys := ForwardRun(f, p, start), Prefixed(p, fields);
    if after.Some? { PrefixAtMost(p, start); }
    ForwardRunComplete(f, p, start);
    forall i, j | 0 <= i < j < |keys| ensures Less(keys[i], keys[j]) {
      LessUnderPrefix(p, fields[i], fields[j]);
    }
    forall k ensures k in keys <==> k in run {
      AheadUnderPrefix(f, p, after, k);
    }
    AscendingUnique(keys, run);
  }

  lemma AheadUnderPrefix(f: Family, p: Bytes, after: Option<Bytes>, k: Bytes)
    requires p != []
    ensures k in Prefixed(p, SortedKeys(Ahead(View(f, p), after))) <==> k in Remaining(f, p, StartAt(p, after))
  {
    hide Less, SortedKeys, View;
    var fields := SortedKeys(Ahead(View(f, p), after));
    var keys := Prefixed(p, fields);
    if k in keys {
      var i :| 0 <= i < |keys| && keys[i] == k;
      assert fields[i] in fields;
      if after.Some? { LessUnderPrefix(p, after.value, fields[i]); }
    }
    if k in Remaining(f, p, StartAt(p, after)) {
      var x := k[|p|..];
      assert k == p + x;
      if after.Some? { LessUnderPrefix(p, after.value, x); }
      assert x in fields;
      var i :| 0 <= i < |fields| && fields[i] == x;
      assert keys[i] == k;
    }
  }

  ghost function Pairs(h: Hash, fields: seq<Bytes>): (r: seq<(Bytes, Bytes)>)
    requires forall x :: x in fields ==> x in h
    ensures |r| == |fields| && forall i :: 0 <= i < |r| ==> r[i] == (fields[i], h[fields[i]])
  {
    seq(|fields|, i requires 0 <= i < |fields| => (fields[i], h[fields[i]]))
  }

  /** The store's page from a place is the page of fields from that place, and its
      next key is the key of the last field returned. */
  lemma PageIsFields(f: Family, p: Bytes, after: Option<Bytes>, count: nat)
    requires p != []
    ensures var h := View(f, p);
            var page := ForwardPage(f, p, StartAt(p, after), count);
            var fields := PageFields(h, after, count);
            && |page.items| == |fields|
            && (forall i :: 0 <= i < |fields| ==> page.items[i] == (p + fields[i], h[fields[i]]))
            && (page.next.Some? ==> p <= page.next.value)
            && (PagePlace(h, after, count) == if page.next.None? then Done else At(Some(page.next.value[|p|..])))
  {
    hide Less, SortedKeys, ForwardRun, View;
    RunIsAhead(f, p, after);
    var s := SortedKeys(Ahead(View(f, p), after));
    var run := ForwardRun(f, p, StartAt(p, after));
    var n := PageSize(count);
    if |run| > n { assert run[n - 1] == p + s[n - 1]; }
  }

  // ---------- whole iterations ----------

  datatype Scanned = Scanned(place: Place, got: seq<(Bytes, Bytes)>)

  /** An iteration from the beginning: round i reads the page of the given size from the
      hash as it is by then. After the end nothing more is read. */
  ghost function ScanRun(rounds: seq<(Hash, nat)>): Scanned {
    if rounds == [] then Scanned(At(None), [])
    else
      var n := |rounds| - 1;
      var prev := ScanRun(rounds[..n]);
      if prev.place.Done? then prev
      else
        var (h, count) := rounds[n];
        Scanned(PagePlace(h, prev.place.after, count), prev.got + Pairs(h, PageFields(h, prev.place.after, count)))
  }

  function Names(entries: seq<(Bytes, Bytes)>): (r: seq<Bytes>)
    ensures |r| == |entries| && forall i :: 0 <= i < |r| ==> r[i] == entries[i].0
  {
    seq(|entries|, i requires 0 <= i < |entries| => entries[i].0)
  }

  ghost predicate InEvery(x: Bytes, rounds: seq<(Hash, nat)>) {
    forall i :: 0 <= i < |rounds| ==> x in rounds[i].0
  }

  /** Some round read this entry out of the hash it saw. */
  ghost predicate SeenIn(e: (Bytes, Bytes), rounds: seq<(Hash, nat)>) {
    exists i :: 0 <= i < |rounds| && e.0 in rounds[i].0 && rounds[i].0[e.0] == e.1
  }

  /** The fields returned so far end at the place reached, and nothing that was there
      all along has been passed over. */
  ghost predicate Kept(rounds: seq<(Hash, nat)>, s: Scanned) {
    var names := Names(s.got);
    && Ascending(names)
    && (forall e :: e in s.got ==> SeenIn(e, rounds))
    && (s.place.At? ==>
          && (s.place.after.None? <==> names == [])
          && (names != [] ==> s.place.after == Some(names[|names| - 1])))
    && forall x :: InEvery(x, rounds) && !(s.place.At? && (s.place.after.Some? ==> Less(s.place.after.value, x))) ==>
         x in names
  }

  /** One page: ascending, all ahead of the place, and complete up to the new place. */
  lemma PageFacts(h: Hash, after: Option<Bytes>, count: nat)
    ensures var fields := PageFields(h, after, count);
            var place := PagePlace(h, after, count);
            && Ascending(fields)
            && (forall x :: x in fields ==> x in Ahead(h, after))
            && (place.At? ==> fields != [] && place.after == Some(fields[|fields| - 1]))
            && (forall x :: x in Ahead(h, after) && x !in fields ==> place.At? && Less(place.after.value, x))
  {
    hide Less, SortedKeys;
    var s := SortedKeys(Ahead(h, after));
    var fields := PageFields(h, after, count);
    forall x | x in Ahead(h, after) && x !in fields
      ensures PagePlace(h, after, count).At? && Less(PagePlace(h, after, count).after.value, x)
    {
      assert x in s;
      var i :| 0 <= i < |s| && s[i] == x;
      assert forall j :: 0 <= j < |fields| ==> fields[j] == s[j] && fields[j] in fields;
      assert Less(s[PageSize(count) - 1], s[i]);
    }
  }

  lemma NamesConcat(a: seq<(Bytes, Bytes)>, b: seq<(Bytes, Bytes)>)
    ensures Names(a + b) == Names(a) + Names(b)
  {
  }

  lemma AscendingJoin(a: seq<Bytes>, b: seq<Bytes>)
    requires Ascending(a) && Ascending(b)
    requires a != [] ==> forall x :: x in b ==> Less(a[|a| - 1], x)
    ensures Ascending(a + b)
  {
    hide Less;
    var c := a + b;
    forall i, j | 0 <= i < j < |c| ensures Less(c[i], c[j]) {
      if i < |a| <= j {
        var x := b[j - |a|];
        assert x in b;
        assert i == |a| - 1 || Less(a[i], a[|a| - 1]);
        if i < |a| - 1 { LessTransitive(a[i], a[|a| - 1], x); }
      }
    }
  }

  lemma SeenExtends(e: (Bytes, Bytes), rounds: seq<(Hash, nat)>, n: nat)
    requires n <= |rounds| && SeenIn(e, rounds[..n])
    ensures SeenIn(e, rounds)
  {
    var i :| 0 <= i < n && e.0 in rounds[..n][i].0 && rounds[..n][i].0[e.0] == e.1;
    assert rounds[i] == rounds[..n][i];
  }

  lemma SoundStep(rounds: seq<(Hash, nat)>, prev: Scanned)
    requires rounds != [] && prev.place.At? && Kept(rounds[..|rounds| - 1], prev)
    ensures var (h, count) := rounds[|rounds| - 1];
            forall e :: e in prev.got + Pairs(h, PageFields(h, prev.place.after, count)) ==> SeenIn(e, rounds)
  {
    hide Less, SortedKeys, PageFields;
    var n := |rounds| - 1;
    var (h, count) := rounds[n];
    var more := Pairs(h, PageFields(h, prev.place.after, count));
    forall e | e in prev.got + more ensures SeenIn(e, rounds) {
      if e in prev.got {
        SeenExtends(e, rounds, n);
      } else {
        var i :| 0 <= i < |more| && more[i] == e;
        assert e.0 in rounds[n].0 && rounds[n].0[e.0] == e.1;
      }
    }
  }

  lemma CompleteStep(rounds: seq<(Hash, nat)>, prev: Scanned, x: Bytes)
    requires rounds != [] && prev.place.At? && Kept(rounds[..|rounds| - 1], prev) && InEvery(x, rounds)
    ensures var (h, count) := rounds[|rounds| - 1];
            var place := PagePlace(h, prev.place.after, count);
            || (place.At? && (place.after.Some? ==> Less(place.after.value, x)))
            || x in Names(prev.got) + PageFields(h, prev.place.after, count)
  {
    hide Less, SortedKeys, PageFields, PagePlace;
    var n := |rounds| - 1;
    var (h, count) := rounds[n];
    assert InEvery(x, rounds[..n]);
    assert x in rounds[n].0;
    PageFacts(h, prev.place.after, count);
  }

  lemma KeptStep(rounds: seq<(Hash, nat)>, prev: Scanned)
    requires rounds != [] && prev.place.At? && Kept(rounds[..|rounds| - 1], prev)
    ensures var (h, count) := rounds[|rounds| - 1];
            Kept(rounds, Scanned(PagePlace(h, prev.place.after, count),
                                 prev.got + Pairs(h, PageFields(h, prev.place.after, count))))
  {
    hide Less, SortedKeys, PageFields, PagePlace, SeenIn, InEvery;
    var (h, count) := rounds[|rounds| - 1];
    var fields := PageFields(h, prev.place.after, count);
    PageFacts(h, prev.place.after, count);
    NamesConcat(prev.got, Pairs(h, fields));
    assert Names(Pairs(h, fields)) == fields;
    AscendingJoin(Names(prev.got), fields);
    SoundStep(rounds, prev);
    forall x | InEvery(x, rounds) { CompleteStep(rounds, prev, x); }
  }

  lemma KeptPast(rounds: seq<(Hash, nat)>, s: Scanned)
    requires rounds != [] && s.place.Done? && Kept(rounds[..|rounds| - 1], s)
    ensures Kept(rounds, s)
  {
    hide Less;
    var n := |rounds| - 1;
    forall e | e in s.got ensures SeenIn(e, rounds) { SeenExtends(e, rounds, n); }
    forall x | InEvery(x, rounds) ensures InEvery(x, rounds[..n]) {}
  }

  lemma {:induction false} ScanKept(rounds: seq<(Hash, nat)>)
    ensures Kept(rounds, ScanRun(rounds))
  {
    hide Kept;
    if rounds == [] {
      ScanStart();
    } else {
      var init := rounds[..|rounds| - 1];
      ScanKept(init);
      if ScanRun(init).place.Done? {
        KeptPast(rounds, ScanRun(init));
      } else {
        KeptStep(rounds, ScanRun(init));
      }
    }
  }

  lemma ScanStart()
    ensures Kept([], Scanned(At(None), []))
  {
  }

  /** The guarantee of a whole iteration, whatever is written between its pages: no field
      comes back twice, everything returned was in the hash with that value when its page
      was read, and a field that is there throughout is returned. */
  lemma ScanGuarantee(rounds: seq<(Hash, nat)>)
    requires ScanRun(rounds).place.Done?
    ensures var got := ScanRun(rounds).got;
            && (forall i, j :: 0 <= i < j < |got| ==> got[i].0 != got[j].0)
            && (forall e :: e in got ==> SeenIn(e, rounds))
            && (forall x :: InEvery(x, rounds) ==> exists i :: 0 <= i < |got| && got[i].0 == x)
  {
    hide Less, ScanRun, SeenIn, InEvery;
    ScanKept(rounds);
    var got := ScanRun(rounds).got;
    var names := Names(got);
    forall i, j | 0 <= i < j < |got| ensures got[i].0 != got[j].0 {
      assert Less(names[i], names[j]);
      LessIrreflexive(names[i]);
    }
    forall x | InEvery(x, rounds) ensures exists i :: 0 <= i < |got| && got[i].0 == x {
      assert x in names;
      var i :| 0 <= i < |names| && names[i] == x;
      assert got[i].0 == x;
    }
  }

  // ---------- the iteration ends ----------

  /** From round s on no field is added. */
  ghost predicate StopsGrowing(rounds: seq<(Hash, nat)>, s: nat) {
    forall i :: s <= i < |rounds| - 1 ==> rounds[i + 1].0.Keys <= rounds[i].0.Keys
  }

  lemma AheadShrinks(h: Hash, h': Hash, after: Option<Bytes>, count: nat)
    requires PagePlace(h, after, count).At? && h'.Keys <= h.Keys
    ensures |Ahead(h', PagePlace(h, after, count).after)| < |Ahead(h, after)|
  {
    hide Less, SortedKeys, PageFields, PagePlace;
    PageFacts(h, after, count);
    var place := PagePlace(h, after, count);
    var x := place.after.value;
    assert x in PageFields(h, after, count);
    var small, big := Ahead(h', place.after), Ahead(h, after);
    forall y | y in small ensures y in big {
      if after.Some? { LessTransitive(after.value, x, y); }
    }
    LessIrreflexive(x);
    assert x in big && x !in small;
    SubsetSize(small, big - {x});
  }

  /** While an iteration is not over, every round after the last growth has used up a field. */
  lemma {:induction false} FieldsLeft(rounds: seq<(Hash, nat)>, s: nat)
    requires s < |rounds| && StopsGrowing(rounds, s)
    ensures var n := |rounds| - 1;
            var prev := ScanRun(rounds[..n]);
            prev.place.At? ==> |Ahead(rounds[n].0, prev.place.after)| + (n - s) <= |rounds[s].0|
    decreases |rounds|
  {
    hide Less, Ahead, PagePlace, PageFields;
    var n := |rounds| - 1;
    var before := rounds[..n];
    var prev := ScanRun(before);
    if prev.place.At? {
      if n == s {
        AheadOf(rounds[n].0, prev.place.after);
      } else {
        FieldsLeft(before, s);
        assert before[..n - 1] == rounds[..n - 1];
        var last := ScanRun(rounds[..n - 1]);
        AheadShrinks(rounds[n - 1].0, rounds[n].0, last.place.after, rounds[n - 1].1);
      }
    }
  }

  lemma AheadOf(h: Hash, after: Option<Bytes>)
    ensures |Ahead(h, after)| <= |h|
  {
    SubsetSize(Ahead(h, after), h.Keys);
    assert |h.Keys| == |h|;
  }

  /** Once the hash stops growing, an iteration ends after at most as many further pages
      as the hash then has fields, whatever page sizes are asked for. */
  lemma ScanEnds(rounds: seq<(Hash, nat)>, s: nat)
    requires s < |rounds| && StopsGrowing(rounds, s)
    requires |rounds| - s > |rounds[s].0|
    ensures ScanRun(rounds).place.Done?
  {
    hide Less, SortedKeys, PageFields, StopsGrowing;
    FieldsLeft(rounds, s);
    var n := |rounds| - 1;
    var prev := ScanRun(rounds[..n]);
    if prev.place.At? {
      var (h, count) := rounds[n];
      assert |SortedKeys(Ahead(h, prev.place.after))| <= PageSize(count);
    }
  }
}
