/** Streams: an append-only log of field lists under strictly increasing entry IDs. */
module Streams {
  import opened ByteStrings
  import opened OrderedStore
  import opened Storage
  import opened Encoding
  import opened Contexts
  import opened Decimals

  // ---------- entry IDs ----------

  datatype EntryId = EntryId(ms: u64, num: u64)

  const MAX_U64: u64 := 0xFFFF_FFFF_FFFF_FFFF

  predicate IdLess(a: EntryId, b: EntryId) { a.ms < b.ms || (a.ms == b.ms && a.num < b.num) }

  predicate IdAtMost(a: EntryId, b: EntryId) { a == b || IdLess(a, b) }

  function IdCode(id: EntryId): (b: Bytes)
    ensures |b| == 16
  {
    EncodeU64(id.ms) + EncodeU64(id.num)
  }

  function IdOf(b: Bytes): EntryId
    requires |b| >= 16
  {
    EntryId(DecodeU64(b[..8]), DecodeU64(b[8..16]))
  }

  lemma IdRoundTrip(id: EntryId)
    ensures IdOf(IdCode(id)) == id
  {
    hide EncodeU64, DecodeU64;
    U64RoundTrip(id.ms);
    U64RoundTrip(id.num);
    var b := IdCode(id);
    assert b[..8] == EncodeU64(id.ms) && b[8..16] == EncodeU64(id.num);
  }

  /** Byte order of encoded IDs is the order of IDs. */
  lemma IdOrder(a: EntryId, b: EntryId)
    ensures Less(IdCode(a), IdCode(b)) <==> IdLess(a, b)
  {
    hide EncodeU64, Less;
    U64Order(a.ms, b.ms);
    U64Order(a.num, b.num);
    LessFixedWidth(EncodeU64(a.ms), EncodeU64(a.num), EncodeU64(b.ms), EncodeU64(b.num));
  }

  /** An unsigned 64-bit integer read from text: an optional plus sign, then digits. */
  function ParseU64(s: Bytes): Option<u64> {
    var digits := if s != [] && s[0] == 43 then s[1..] else s;
    if digits == [] || !AllDigits(digits) then None
    else if DigitsValue(digits) < U64_LIMIT then Some(DigitsValue(digits))
    else None
  }

  lemma ParseU64Digits(n: u64)
    ensures ParseU64(Digits(n)) == Some(n)
  {
    hide Digits, DigitsValue;
    DigitsRoundTrip(n);
    assert IsDigit(Digits(n)[0]);
  }

  function FindDash(s: Bytes): (r: Option<nat>)
    ensures r.Some? ==> r.value < |s| && s[r.value] == 45 && 45 !in s[..r.value]
    ensures r.None? ==> 45 !in s
  {
    if s == [] then None
    else if s[0] == 45 then Some(0)
    else
      var r := FindDash(s[1..]);
      if r.None? then None
      else
        assert s[..r.value + 1] == [s[0]] + s[1..][..r.value];
        Some(r.value + 1)
  }

  /** A complete ID: "-" and "+" are the least and the greatest, otherwise ms-seq. */
  function ParseId(s: Bytes): Option<EntryId> {
    if s == [45] then Some(EntryId(0, 0))
    else if s == [43] then Some(EntryId(MAX_U64, MAX_U64))
    else
      match FindDash(s)
      case None => None
      case Some(i) =>
        match (ParseU64(s[..i]), ParseU64(s[i + 1..]))
        case (Some(ms), Some(num)) => Some(EntryId(ms, num))
        case (_, _) => None
  }

  function FormatId(id: EntryId): Bytes { Digits(id.ms) + [45] + Digits(id.num) }

  /** The ID in a reply names the entry it was given for. */
  lemma FormatIdRoundTrip(id: EntryId)
    ensures ParseId(FormatId(id)) == Some(id)
  {
    hide Digits, ParseU64;
    var s, n := FormatId(id), |Digits(id.ms)|;
    ParseU64Digits(id.ms);
    ParseU64Digits(id.num);
    assert s[n] == 45 && s[..n] == Digits(id.ms) && s[n + 1..] == Digits(id.num);
    var i := FindDash(s).value;
    assert |s| >= 3 && i <= n;
  }

  /** A bound of XRANGE: also "ms-", the first ID of that millisecond. */
  function ParseBound(s: Bytes): Option<EntryId> {
    if |s| > 1 && s[|s| - 1] == 45 then
      (match ParseU64(s[..|s| - 1]) case None => None case Some(ms) => Some(EntryId(ms, 0)))
    else ParseId(s)
  }

  // ---------- new IDs ----------

  datatype IdSpec = Clock | Millis(ms: Option<u64>) | Explicit(id: Option<EntryId>)

  /** "*", "ms-*" or a complete ID. */
  function SpecOf(s: Bytes): IdSpec {
    if s == [42] then Clock
    else if |s| >= 2 && s[|s| - 2..] == [45, 42] then Millis(ParseU64(s[..|s| - 2]))
    else Explicit(ParseId(s))
  }

  /** The next ID at or after a millisecond: the sequence number goes up, wrapping at 2^64,
      when the millisecond is not past the last one. */
  function NextAt(ms: u64, last: EntryId): EntryId {
    if ms > last.ms then EntryId(ms, 0) else EntryId(last.ms, (last.num + 1) % U64_LIMIT)
  }

  /** It is the least ID above the last one that is not before the millisecond, unless the
      sequence number wraps. */
  lemma NextAtLeast(ms: u64, last: EntryId, x: EntryId)
    requires ms > last.ms || last.num < MAX_U64
    ensures var id := NextAt(ms, last);
            && IdLess(last, id) && id.ms >= ms
            && (IdLess(last, x) && x.ms >= ms ==> IdAtMost(id, x))
  {
  }

  /** The forms of an ID argument: "*", a millisecond and "-*", and a complete ID. */
  lemma SpecForms(ms: u64, id: EntryId)
    ensures SpecOf([42]) == Clock
    ensures SpecOf(Digits(ms) + [45, 42]) == Millis(Some(ms))
    ensures SpecOf(FormatId(id)) == Explicit(Some(id))
  {
    hide Digits, ParseU64, ParseId;
    var s := Digits(ms) + [45, 42];
    ParseU64Digits(ms);
    assert s[|s| - 2..] == [45, 42] && s[..|s| - 2] == Digits(ms);
    FormatIdRoundTrip(id);
    var t := FormatId(id);
    assert t[|t| - 1] == Digits(id.num)[|Digits(id.num)| - 1];
    assert IsDigit(t[|t| - 1]);
  }

  /** generate_id. */
  function NewId(s: Bytes, last: EntryId, size: nat, clock: u64): Result<EntryId> {
    match SpecOf(s)
    case Clock => Ok(NextAt(clock, last))
    case Millis(None) => Err(InvalidId)
    case Millis(Some(ms)) => Ok(NextAt(ms, last))
    case Explicit(None) => Err(InvalidId)
    case Explicit(Some(id)) => if size > 0 && IdAtMost(id, last) then Err(InvalidId) else Ok(id)
  }

  /** A complete ID is taken as it is, unless the stream has entries and it is not above the
      last one. */
  lemma ExplicitIds(id: EntryId, last: EntryId, size: nat, clock: u64)
    ensures NewId(FormatId(id), last, size, clock)
            == if size == 0 || IdLess(last, id) then Ok(id) else Err(InvalidId)
  {
    hide SpecOf, FormatId;
    SpecForms(0, id);
  }

  /** A generated sequence number would pass 2^64 - 1. */
  predicate Wraps(s: Bytes, last: EntryId, clock: u64) {
    && last.num == MAX_U64
    && match SpecOf(s)
       case Clock => clock <= last.ms
       case Millis(ms) => ms.Some? && ms.value <= last.ms
       case Explicit(_) => false
  }

  /** Whatever the clock does, a new ID is above the last one exactly when the generated
      sequence number does not wrap; an explicit ID is refused otherwise. */
  lemma NewIdIsGreater(s: Bytes, last: EntryId, size: nat, clock: u64)
    requires size > 0 && NewId(s, last, size, clock).Ok?
    ensures IdLess(last, NewId(s, last, size, clock).value) <==> !Wraps(s, last, clock)
  {
    hide SpecOf;
  }

  /** After the ID 5-18446744073709551615, the ID 5-* is 5-0. */
  lemma NewIdWraps(clock: u64)
    ensures NewId([53, 45, 42], EntryId(5, MAX_U64), 1, clock) == Ok(EntryId(5, 0))
  {
    var s: Bytes := [53, 45, 42];
    assert s[1..] == [45, 42] && s[..1] == [53] && [53][..0] == [];
    assert DigitsValue([53]) == 5;
    assert ParseU64([53]) == Some(5);
    assert SpecOf(s) == Millis(Some(5));
  }

  // ---------- field lists ----------

  type Fields = seq<(Bytes, Bytes)>

  function EncodeFields(fields: Fields): Bytes {
    if fields == [] then []
    else EncodeFields(fields[..|fields| - 1]) + EncodePair(fields[|fields| - 1])
  }

  function EncodePair(f: (Bytes, Bytes)): Bytes { LengthPrefix(f.0) + f.0 + LengthPrefix(f.1) + f.1 }

  /** One field off the front: four bytes of length, the name, four bytes of length, the value. */
  function TakePair(data: Bytes): Option<((Bytes, Bytes), Bytes)> {
    match TakeField(data)
    case None => None
    case Some((name, rest)) =>
      match TakeField(rest)
      case None => None
      case Some((value, tail)) => Some(((name, value), tail))
  }

  lemma TakePairShrinks(data: Bytes)
    requires TakePair(data).Some?
    ensures |TakePair(data).value.1| < |data|
  {
  }

  function DecodeFields(data: Bytes): Option<Fields>
    decreases |data|
  {
    if data == [] then Some([])
    else
      match TakePair(data)
      case None => None
      case Some((f, rest)) =>
        TakePairShrinks(data);
        match DecodeFields(rest)
        case None => None
        case Some(more) => Some([f] + more)
  }

  ghost predicate ShortFields(fields: Fields) {
    forall i :: 0 <= i < |fields| ==> |fields[i].0| < U32_LIMIT && |fields[i].1| < U32_LIMIT
  }

  lemma TakePairInverts(f: (Bytes, Bytes), rest: Bytes)
    requires |f.0| < U32_LIMIT && |f.1| < U32_LIMIT
    ensures TakePair(EncodePair(f) + rest) == Some((f, rest))
  {
    hide TakeField, LengthPrefix;
    var tail := LengthPrefix(f.1) + f.1 + rest;
    assert EncodePair(f) + rest == LengthPrefix(f.0) + f.0 + tail;
    TakeFieldInverts(f.0, tail);
    TakeFieldInverts(f.1, rest);
  }

  function FrontEncoded(fields: Fields): Bytes {
    if fields == [] then [] else EncodePair(fields[0]) + FrontEncoded(fields[1..])
  }

  lemma {:induction false} FrontSnoc(fields: Fields, f: (Bytes, Bytes))
    ensures FrontEncoded(fields + [f]) == FrontEncoded(fields) + EncodePair(f)
  {
    hide EncodePair;
    if fields == [] {
      assert [f][1..] == [];
      assert FrontEncoded([f]) == EncodePair(f) + [];
    } else {
      FrontSnoc(fields[1..], f);
      assert (fields + [f])[1..] == fields[1..] + [f];
    }
  }

  lemma {:induction false} EncodedFront(fields: Fields)
    ensures EncodeFields(fields) == FrontEncoded(fields)
  {
    hide EncodePair;
    if fields != [] {
      var n := |fields| - 1;
      EncodedFront(fields[..n]);
      FrontSnoc(fields[..n], fields[n]);
      assert fields[..n] + [fields[n]] == fields;
    }
  }

  lemma {:induction false} DecodeFront(fields: Fields)
    requires ShortFields(fields)
    ensures DecodeFields(FrontEncoded(fields)) == Some(fields)
  {
    if fields != [] {
      hide EncodePair, TakePair;
      DecodeFront(fields[1..]);
      TakePairInverts(fields[0], FrontEncoded(fields[1..]));
      PairNotEmpty(fields[0]);
      assert fields == [fields[0]] + fields[1..];
    }
  }

  lemma PairNotEmpty(f: (Bytes, Bytes))
    ensures |EncodePair(f)| >= 8
  {
  }

  /** A field list decodes to itself when its names and values are under 2^32 bytes. */
  lemma FieldsRoundTrip(fields: Fields)
    requires ShortFields(fields)
    ensures DecodeFields(EncodeFields(fields)) == Some(fields)
  {
    hide DecodeFields, EncodeFields, FrontEncoded;
    EncodedFront(fields);
    DecodeFront(fields);
  }

  method EncodeFieldList(fields: Fields) returns (buf: Bytes)
    ensures buf == EncodeFields(fields)
  {
    hide LengthPrefix;
    buf := [];
    for i := 0 to |fields|
      invariant buf == EncodeFields(fields[..i])
    {
      assert fields[..i + 1][..i] == fields[..i];
      buf := buf + LengthPrefix(fields[i].0) + fields[i].0 + LengthPrefix(fields[i].1) + fields[i].1;
    }
    assert fields[..|fields|] == fields;
  }

  method DecodeFieldList(data: Bytes) returns (r: Option<Fields>)
    ensures r == DecodeFields(data)
  {
    hide TakePair;
    var result: Fields, rest := [], data;
    if DecodeFields(data).Some? { assert [] + DecodeFields(data).value == DecodeFields(data).value; }
    while rest != []
      invariant match DecodeFields(rest)
                case None => DecodeFields(data) == None
                case Some(more) => DecodeFields(data) == Some(result + more)
      decreases |rest|
    {
      match TakePair(rest) {
        case None => return None;
        case Some((f, tail)) =>
          TakePairShrinks(rest);
          if DecodeFields(tail).Some? {
            assert result + ([f] + DecodeFields(tail).value) == (result + [f]) + DecodeFields(tail).value;
          }
          result, rest := result + [f], tail;
      }
    }
    assert result + [] == result;
    r := Some(result);
  }

  // ---------- the record ----------

  datatype StreamMeta = StreamMeta(flags: byte, expire: i64, version: u64, size: u64, last: EntryId)

  function NewStream(version: u64): StreamMeta { StreamMeta(BuildFlags(TStream), 0, version, 0, EntryId(0, 0)) }

  function EncodeStream(m: StreamMeta): (b: Bytes)
    ensures |b| == 41 && b[0] == m.flags
  {
    [m.flags] + EncodeI64(m.expire) + EncodeU64(m.version) + EncodeU64(m.size)
    + EncodeU64(m.last.ms) + EncodeU64(m.last.num)
  }

  function DecodeStream(b: Bytes): Option<StreamMeta> {
    if |b| < 41 then None
    else Some(StreamMeta(b[0], DecodeI64(b[1..9]), DecodeU64(b[9..17]), DecodeU64(b[17..25]),
                         EntryId(DecodeU64(b[25..33]), DecodeU64(b[33..41]))))
  }

  lemma StreamRoundTrip(m: StreamMeta)
    ensures DecodeStream(EncodeStream(m)) == Some(m)
  {
    hide EncodeI64, DecodeI64, EncodeU64, DecodeU64;
    I64RoundTrip(m.expire);
    U64RoundTrip(m.version);
    U64RoundTrip(m.size);
    U64RoundTrip(m.last.ms);
    U64RoundTrip(m.last.num);
    var b := EncodeStream(m);
    assert b[1..9] == EncodeI64(m.expire) && b[9..17] == EncodeU64(m.version) && b[17..25] == EncodeU64(m.size);
    assert b[25..33] == EncodeU64(m.last.ms) && b[33..41] == EncodeU64(m.last.num);
  }

  predicate Lapsed(expire: i64, now: i64) { 0 < expire <= now }

  /** The stream a command sees. A record in the common form, shorter than a stream's own,
      carries no last ID. */
  function StreamOf(d: Disk, ns: Bytes, k: Bytes, now: i64): Result<Option<StreamMeta>> {
    match GetMeta(d, ns, k)
    case None => Ok(None)
    case Some(v) =>
      if v == [] then Err(BadEncoding)
      else if TypeOfFlags(v[0]) == Some(TString) then Err(WrongType)
      else
        match DecodeStream(v)
        case Some(m) =>
          if TypeOfFlags(m.flags) != Some(TStream) then Err(WrongType)
          else if Lapsed(m.expire, now) then Ok(None)
          else Ok(Some(m))
        case None =>
          match DecodeMetadata(v)
          case None => Err(BadEncoding)
          case Some(m) =>
            if m.Type() != Some(TStream) then Err(WrongType)
            else if m.Expired(now) then Ok(None)
            else Ok(Some(StreamMeta(m.flags, m.expire, m.version, m.size, EntryId(0, 0))))
  }

  // ---------- the log ----------

  type Log = seq<(EntryId, Fields)>

  ghost predicate Increasing(log: Log) { forall i, j :: 0 <= i < j < |log| ==> IdLess(log[i].0, log[j].0) }

  function LastId(log: Log): EntryId { if log == [] then EntryId(0, 0) else log[|log| - 1].0 }

  /** The entries of a log as they are stored. */
  ghost function Cells(log: Log): map<Bytes, Bytes> {
    if log == [] then map[]
    else
      var n := |log| - 1;
      Cells(log[..n])[IdCode(log[n].0) := EncodeFields(log[n].1)]
  }

  function IdCodes(log: Log): (r: seq<Bytes>)
    ensures |r| == |log| && forall i :: 0 <= i < |r| ==> r[i] == IdCode(log[i].0)
  {
    seq(|log|, i requires 0 <= i < |log| => IdCode(log[i].0))
  }

  lemma {:induction false} CellsAt(log: Log)
    requires Increasing(log)
    ensures forall c :: c in Cells(log) <==> c in IdCodes(log)
    ensures forall i :: 0 <= i < |log| ==>
              IdCode(log[i].0) in Cells(log) && Cells(log)[IdCode(log[i].0)] == EncodeFields(log[i].1)
  {
    hide IdCode, EncodeFields;
    if log != [] {
      var n := |log| - 1;
      CellsAt(log[..n]);
      assert IdCodes(log) == IdCodes(log[..n]) + [IdCode(log[n].0)];
      forall i | 0 <= i < n ensures IdCode(log[i].0) != IdCode(log[n].0) {
        IdRoundTrip(log[i].0);
        IdRoundTrip(log[n].0);
      }
      forall i | 0 <= i < |log|
        ensures IdCode(log[i].0) in Cells(log) && Cells(log)[IdCode(log[i].0)] == EncodeFields(log[i].1)
      {
        if i < n { assert log[..n][i] == log[i]; }
      }
    }
  }

  ghost predicate Lays(f: Family, p: Bytes, log: Log) { View(f, p) == Cells(log) }

  lemma CodesAscend(log: Log)
    requires Increasing(log)
    ensures Ascending(IdCodes(log))
  {
    hide Less, IdCode;
    forall i, j | 0 <= i < j < |log| ensures Less(IdCodes(log)[i], IdCodes(log)[j]) {
      IdOrder(log[i].0, log[j].0);
    }
  }

  /** A scan of the subkeys meets the entries in log order. */
  lemma LogScan(f: Family, p: Bytes, log: Log)
    requires Lays(f, p, log) && Increasing(log)
    ensures Scan(f, p) == Prefixed(p, IdCodes(log))
  {
    hide Less, SortedKeys, Scan, View, Cells, IdCodes, Prefixed;
    CellsAt(log);
    CodesAscend(log);
    ScanIsView(f, p);
    AscendingUnique(IdCodes(log), SortedKeys(View(f, p).Keys));
  }

  lemma EntryStored(f: Family, p: Bytes, log: Log, i: nat)
    requires Lays(f, p, log) && Increasing(log) && i < |log|
    ensures p + IdCode(log[i].0) in f && f[p + IdCode(log[i].0)] == EncodeFields(log[i].1)
  {
    hide View, Cells, IdCode, EncodeFields;
    CellsAt(log);
    assert IdCode(log[i].0) in View(f, p);
  }

  // ---------- XADD ----------

  /** The record and the entries of a stream: size counts the log and the last ID is its last. */
  ghost predicate Shape(d: Disk, ns: Bytes, k: Bytes, m: StreamMeta, log: Log) {
    m.size == |log| && m.last == LastId(log) && Lays(d.subkey, Stem(ns, k, m.version), log)
  }

  ghost predicate Sees(d: Disk, ns: Bytes, k: Bytes, now: i64, log: Log) {
    match StreamOf(d, ns, k, now)
    case Err(_) => true
    case Ok(None) => log == []
    case Ok(Some(m)) => Shape(d, ns, k, m, log)
  }

  ghost predicate Stored(d: Disk, ns: Bytes, k: Bytes, m: StreamMeta, log: Log) {
    && GetMeta(d, ns, k) == Some(EncodeStream(m)) && TypeOfFlags(m.flags) == Some(TStream)
    && Shape(d, ns, k, m, log)
  }

  lemma StoredIsSeen(d: Disk, ns: Bytes, k: Bytes, now: i64, m: StreamMeta, log: Log)
    requires Stored(d, ns, k, m, log)
    ensures StreamOf(d, ns, k, now) == Ok(if Lapsed(m.expire, now) then None else Some(m))
    ensures !Lapsed(m.expire, now) ==> Sees(d, ns, k, now, log)
  {
    hide EncodeStream, DecodeStream, GetMeta, Shape;
    StreamRoundTrip(m);
  }

  /** A record of another type is refused, an expired stream is absent. */
  lemma StreamOfCases(d: Disk, ns: Bytes, k: Bytes, now: i64, m: StreamMeta)
    requires TypeOfFlags(m.flags).Some? && GetMeta(d, ns, k) == Some(EncodeStream(m))
    ensures StreamOf(d, ns, k, now) == if TypeOfFlags(m.flags) != Some(TStream) then Err(WrongType)
                                       else if m.expire > 0 && now >= m.expire then Ok(None)
                                       else Ok(Some(m))
  {
    hide EncodeStream, DecodeStream, GetMeta;
    StreamRoundTrip(m);
    StreamFlags(m);
  }

  /** A stream's record in the common form, as EXPIRE leaves it, has the last ID 0-0. */
  lemma StreamOfCommon(d: Disk, ns: Bytes, k: Bytes, now: i64, m: Metadata)
    requires m.Type().Some? && GetMeta(d, ns, k) == Some(EncodeMetadata(m))
    ensures StreamOf(d, ns, k, now)
            == if m.Type() != Some(TStream) then Err(WrongType)
               else if m.expire > 0 && now >= m.expire then Ok(None)
               else Ok(Some(StreamMeta(m.flags, m.expire, m.version, m.size, EntryId(0, 0))))
  {
    hide DecodeMetadata, GetMeta, EncodeI64, EncodeU64, DecodeI64, DecodeU64;
    MetadataRoundTrip(m);
    EncodedFlags(m);
  }

  lemma StreamFlags(m: StreamMeta)
    ensures EncodeStream(m) != [] && EncodeStream(m)[0] == m.flags
  {
    hide EncodeI64, EncodeU64;
  }

  function StartStream(meta: Option<StreamMeta>, newVersion: u64): StreamMeta {
    match meta
    case Some(m) => m
    case None => NewStream(newVersion)
  }

  lemma StartShape(d: Disk, ns: Bytes, k: Bytes, now: i64, log: Log, newVersion: u64)
    requires Sees(d, ns, k, now, log) && Vacant(d, Stem(ns, k, newVersion))
    ensures var meta := StreamOf(d, ns, k, now);
            meta.Ok? ==> var m := StartStream(meta.value, newVersion);
                         Shape(d, ns, k, m, log) && TypeOfFlags(m.flags) == Some(TStream)
  {
    hide Stem, View, DecodeStream, GetMeta, DecodeMetadata;
  }

  lemma CellsGrow(log: Log, id: EntryId, fields: Fields)
    ensures Cells(log + [(id, fields)]) == Cells(log)[IdCode(id) := EncodeFields(fields)]
  {
    hide IdCode, EncodeFields;
    assert (log + [(id, fields)])[..|log|] == log;
  }

  lemma LogGrows(log: Log, id: EntryId, fields: Fields)
    requires Increasing(log)
    ensures Increasing(log + [(id, fields)]) <==> (log != [] ==> IdLess(LastId(log), id))
  {
    var longer := log + [(id, fields)];
    if log != [] ==> IdLess(LastId(log), id) {
      forall i, j | 0 <= i < j < |longer| ensures IdLess(longer[i].0, longer[j].0) {
        if j == |log| { assert i == |log| - 1 || IdLess(log[i].0, log[|log| - 1].0); }
      }
    }
    if Increasing(longer) && log != [] { assert IdLess(longer[|log| - 1].0, longer[|log|].0); }
  }

  /** The log after one XADD. */
  function AfterXadd(log: Log, spec: Bytes, clock: u64, args: seq<Bytes>): Log {
    match Appended(log, spec, clock, args)
    case Ok(id) => log + [(id, FieldsOf(args))]
    case Err(_) => log
  }

  /** The ID that an XADD on this log gets, or why it is refused. */
  function Appended(log: Log, spec: Bytes, clock: u64, args: seq<Bytes>): (r: Result<EntryId>)
    ensures r.Ok? ==> |args| % 2 == 0
  {
    if |args| < 2 || |args| % 2 != 0 then Err(WrongArgCount) else NewId(spec, LastId(log), |log|, clock)
  }

  function FieldsOf(args: seq<Bytes>): (r: Fields)
    ensures |args| % 2 == 0 ==> |r| == |args| / 2
  {
    seq(|args| / 2, i requires 0 <= i < |args| / 2 => (args[2 * i], args[2 * i + 1]))
  }

  /** The entry an XADD appends holds the arguments two by two, each field before its value. */
  lemma XaddFields(log: Log, spec: Bytes, clock: u64, args: seq<Bytes>, i: nat)
    requires Appended(log, spec, clock, args).Ok? && i < |args| / 2
    ensures var after := AfterXadd(log, spec, clock, args);
            && |after| == |log| + 1 && after[..|log|] == log
            && |after[|log|].1| == |args| / 2
            && after[|log|].1[i] == (args[2 * i], args[2 * i + 1])
  {
    hide Appended;
  }

  lemma CommitEntry(d: Disk, ns: Bytes, k: Bytes, m: StreamMeta, log: Log, id: EntryId, fields: Fields)
    requires Shape(d, ns, k, m, log) && |log| + 1 < U64_LIMIT && TypeOfFlags(m.flags) == Some(TStream)
    ensures var p, m' := Stem(ns, k, m.version), m.(size := m.size + 1, last := id);
            var e := Apply(d, [Put(CfSubkey, p + IdCode(id), EncodeFields(fields)),
                               Put(CfMetadata, MetadataKey(k, ns), EncodeStream(m'))]);
            && Committed(d, e, ns, k, p, EncodeStream(m'), Cells(log)[IdCode(id) := EncodeFields(fields)])
            && Stored(e, ns, k, m', log + [(id, fields)])
  {
    hide Stem, MetadataKey, View, Staged, Apply, Cells, IdCode, EncodeFields, EncodeStream, GetMeta, Touches;
    var p, m' := Stem(ns, k, m.version), m.(size := m.size + 1, last := id);
    var mk := MetadataKey(k, ns);
    var put := Put(CfSubkey, p + IdCode(id), EncodeFields(fields));
    StagedNothing(d, mk, p);
    StagedPut(d, [], mk, p, Cells(log), IdCode(id), EncodeFields(fields));
    assert [] + [put] == [put];
    StagedCommit(d, [put], ns, k, p, EncodeStream(m'), Cells(log)[IdCode(id) := EncodeFields(fields)]);
    assert [put] + [Put(CfMetadata, mk, EncodeStream(m'))] == [put, Put(CfMetadata, mk, EncodeStream(m'))];
    CellsGrow(log, id, fields);
  }

  /** XADD key id field value ...: the entry is appended to the log and stored under its ID,
      size and last ID follow, and the ID is the reply. A refused ID changes nothing. */
  method Xadd(db: StorageEngine, ns: Bytes, k: Bytes, now: i64, clock: u64, newVersion: u64, spec: Bytes,
              args: seq<Bytes>, ghost log: Log)
    returns (r: Result<Bytes>, ghost m: StreamMeta)
    requires Sees(db.disk, ns, k, now, log) && Vacant(db.disk, Stem(ns, k, newVersion))
    requires |log| + 1 < U64_LIMIT
    modifies db
    ensures r.Err? ==> db.disk == old(db.disk)
    ensures var meta := StreamOf(old(db.disk), ns, k, now);
            var id := Appended(log, spec, clock, args);
            if |args| < 2 || |args| % 2 != 0 then r == Err(WrongArgCount)
            else if meta.Err? then r == Err(meta.error)
            else if id.Err? then r == Err(id.error)
            else
              var start := StartStream(meta.value, newVersion);
              && r == Ok(FormatId(id.value))
              && m == start.(size := |log| + 1, last := id.value)
              && Committed(old(db.disk), db.disk, ns, k, Stem(ns, k, start.version), EncodeStream(m),
                           Cells(log)[IdCode(id.value) := EncodeFields(FieldsOf(args))])
              && Stored(db.disk, ns, k, m, AfterXadd(log, spec, clock, args))
  {
    hide Stem, MetadataKey, StreamOf, Sees, Vacant, Apply, Stored, Touches, IdCode, EncodeFields;
    hide EncodeStream, SubKey, Lays, SpecOf, FormatId, Committed, Cells, Wraps, NewId;
    m := NewStream(newVersion);
    if |args| < 2 || |args| % 2 != 0 { return Err(WrongArgCount), m; }
    var loaded := StreamOf(db.disk, ns, k, now);
    if loaded.Err? { return Err(loaded.error), m; }
    var meta := StartStream(loaded.value, newVersion);
    StartShape(db.disk, ns, k, now, log, newVersion);
    var newId := NewId(spec, meta.last, meta.size, clock);
    if newId.Err? { return Err(newId.error), m; }
    var id := newId.value;
    var fields := FieldsOf(args);
    var value := EncodeFieldList(fields);
    SubKeyIsStem(ns, k, meta.version, IdCode(id));
    CommitEntry(db.disk, ns, k, meta, log, id, fields);
    var batch := [Put(CfSubkey, SubKey(k, meta.version, IdCode(id), ns), value)];
    meta := meta.(size := meta.size + 1, last := id);
    batch := batch + [Put(CfMetadata, MetadataKey(k, ns), EncodeStream(meta))];
    assert batch == [batch[0], batch[1]];
    db.Write(batch);
    m := meta;
    r := Ok(FormatId(id));
  }

  // ---------- XRANGE and XREAD ----------

  const STREAM_PAGE_LIMIT: nat := 1000

  ghost predicate ShortLog(log: Log) { forall i :: 0 <= i < |log| ==> ShortFields(log[i].1) }

  /** A page of the subkeys is the next stretch of the log, still encoded. */
  lemma LogPage(d: Disk, ns: Bytes, k: Bytes, m: StreamMeta, log: Log, current: Bytes, q: nat)
    requires Shape(d, ns, k, m, log) && Increasing(log)
             && Positioned(Scan(d.subkey, Stem(ns, k, m.version)), Stem(ns, k, m.version), current, q)
    ensures var p := Stem(ns, k, m.version);
            var page := ForwardPage(d.subkey, p, current, STREAM_PAGE_LIMIT);
            && q + |page.items| <= |log|
            && (forall i :: 0 <= i < |page.items| ==>
                  page.items[i] == (p + IdCode(log[q + i].0), EncodeFields(log[q + i].1)))
            && (page.next.None? ==> q + |page.items| == |log|)
            && (page.next.Some? ==>
                  page.items != [] && Positioned(Scan(d.subkey, p), p, page.next.value, q + |page.items|))
  {
    hide Less, SortedKeys, Scan, Stem, IdCode, EncodeFields, ForwardPage, Positioned, Entries, Lays;
    var f, p := d.subkey, Stem(ns, k, m.version);
    StemNonEmpty(ns, k, m.version);
    PageFrom(f, p, current, q, STREAM_PAGE_LIMIT);
    LogScan(f, p, log);
    var page := ForwardPage(f, p, current, STREAM_PAGE_LIMIT);
    forall i | 0 <= i < |page.items| ensures page.items[i] == (p + IdCode(log[q + i].0), EncodeFields(log[q + i].1)) {
      EntriesSlice(f, Scan(f, p), q, q + |page.items|, i);
      EntryStored(f, p, log, q + i);
    }
  }

  /** iter_entries_page: the entries of one page, IDs and fields decoded. */
  method ReadPage(db: StorageEngine, ns: Bytes, k: Bytes, m: StreamMeta, current: Bytes, ghost log: Log, ghost q: nat)
    returns (entries: Log, next: Option<Bytes>)
    requires ValidKey(k) && ValidNamespace(ns) && ShortLog(log) && Shape(db.disk, ns, k, m, log) && Increasing(log)
    requires Positioned(Scan(db.disk.subkey, Stem(ns, k, m.version)), Stem(ns, k, m.version), current, q)
    ensures q + |entries| <= |log| && entries == log[q..q + |entries|]
    ensures next.None? ==> q + |entries| == |log|
    ensures next.Some? ==> entries != []
                           && Positioned(Scan(db.disk.subkey, Stem(ns, k, m.version)),
                                         Stem(ns, k, m.version), next.value, q + |entries|)
  {
    hide Stem, SubKey, IdCode, IdOf, ParseSubKey, EncodeFields, DecodeFields;
    hide Scan, Positioned, ForwardPage, Shape, ShortFields;
    ghost var p := Stem(ns, k, m.version);
    LogPage(db.disk, ns, k, m, log, current, q);
    var items;
    items, next := db.PrefixScanPage(CfSubkey, Stem(ns, k, m.version), current, STREAM_PAGE_LIMIT);
    assert items == ForwardPage(db.disk.subkey, p, current, STREAM_PAGE_LIMIT).items;
    entries := [];
    for i := 0 to |items|
      invariant |entries| == i && entries == log[q..q + i]
    {
      ghost var (id, fields) := log[q + i];
      SubKeyIsStem(ns, k, m.version, IdCode(id));
      ParseSubKeyInverts(k, m.version, IdCode(id), ns);
      IdRoundTrip(id);
      FieldsRoundTrip(fields);
      var sub := ParseSubKey(items[i].0, ns).value.2;
      var decoded := DecodeFieldList(items[i].1);
      entries := entries + [(IdOf(sub), decoded.value)];
    }
  }

  /** The entries between two IDs, in order. */
  function Keep(log: Log, start: EntryId, end: EntryId): Log {
    if log == [] then []
    else
      var n := |log| - 1;
      Keep(log[..n], start, end) + if IdAtMost(start, log[n].0) && IdAtMost(log[n].0, end) then [log[n]] else []
  }

  /** The entries kept are those not below start and not above end, in their order. */
  lemma {:induction false} KeepMeaning(log: Log, start: EntryId, end: EntryId) returns (at: seq<nat>)
    ensures |at| == |Keep(log, start, end)|
    ensures forall j :: 0 <= j < |at| ==> at[j] < |log| && Keep(log, start, end)[j] == log[at[j]]
    ensures forall i, j :: 0 <= i < j < |at| ==> at[i] < at[j]
    ensures forall i :: 0 <= i < |log| ==> (i in at <==> !IdLess(log[i].0, start) && !IdLess(end, log[i].0))
  {
    if log == [] {
      at := [];
    } else {
      var n := |log| - 1;
      at := KeepMeaning(log[..n], start, end);
      IdsCompare(start, log[n].0);
      IdsCompare(log[n].0, end);
      hide IdLess, IdAtMost;
      if IdAtMost(start, log[n].0) && IdAtMost(log[n].0, end) { at := at + [n]; }
    }
  }

  lemma IdsCompare(a: EntryId, b: EntryId)
    ensures IdAtMost(a, b) <==> !IdLess(b, a)
  {
  }

  /** XRANGE k - + is the whole log. */
  lemma {:induction false} BoundsCoverAll(log: Log)
    ensures ParseBound([45]).Some? && ParseBound([43]).Some?
    ensures Keep(log, ParseBound([45]).value, ParseBound([43]).value) == log
  {
    if log != [] {
      var n := |log| - 1;
      BoundsCoverAll(log[..n]);
      assert log == log[..n] + [log[n]];
    }
  }

  /** A start bound of a millisecond and "-" keeps exactly the entries from that millisecond on. */
  lemma {:induction false} MillisBound(log: Log, ms: u64, x: (EntryId, Fields))
    ensures ParseBound(Digits(ms) + [45]).Some?
    ensures x in Keep(log, ParseBound(Digits(ms) + [45]).value, ParseBound([43]).value)
            <==> x in log && x.0.ms >= ms
  {
    hide Digits, ParseU64;
    var s := Digits(ms) + [45];
    ParseU64Digits(ms);
    assert |s| > 1 && s[|s| - 1] == 45 && s[..|s| - 1] == Digits(ms);
    assert ParseBound(s) == Some(EntryId(ms, 0));
    if log != [] {
      var n := |log| - 1;
      MillisBound(log[..n], ms, x);
      assert log == log[..n] + [log[n]];
    }
  }

  /** At most count entries; a count of 0 wraps around to no limit. */
  function Limited(log: Log, count: Option<nat>): Log {
    match count
    case None => log
    case Some(c) => if c == 0 then log else log[..Min(c, |log|)]
  }

  /** COUNT keeps the first entries. */
  lemma LimitedMeaning(log: Log, c: nat, i: nat)
    ensures Limited(log, None) == Limited(log, Some(0)) == log
    ensures c > 0 ==> (i < |Limited(log, Some(c))| <==> i < c && i < |log|)
    ensures c > 0 && i < |Limited(log, Some(c))| ==> Limited(log, Some(c))[i] == log[i]
  {
  }

  lemma {:induction false} KeepPast(log: Log, start: EntryId, end: EntryId, n: nat)
    requires Increasing(log) && n < |log| && IdLess(end, log[n].0)
    ensures Keep(log, start, end) == Keep(log[..n], start, end)
  {
    var last := |log| - 1;
    if last > n {
      assert log[..last][..n] == log[..n] && log[..last][n] == log[n];
      KeepPast(log[..last], start, end, n);
      assert IdLess(log[n].0, log[last].0);
    } else {
      assert log[..last] == log[..n];
    }
  }

  lemma {:induction false} KeepGrows(log: Log, start: EntryId, end: EntryId, n: nat)
    requires n <= |log|
    ensures Keep(log[..n], start, end) <= Keep(log, start, end) && |Keep(log[..n], start, end)| <= n
  {
    if n == |log| {
      assert log[..n] == log;
      KeepShort(log, start, end);
    } else {
      var last := |log| - 1;
      assert log[..last][..n] == log[..n];
      KeepGrows(log[..last], start, end, n);
    }
  }

  lemma {:induction false} KeepShort(log: Log, start: EntryId, end: EntryId)
    ensures |Keep(log, start, end)| <= |log|
  {
    if log != [] { KeepShort(log[..|log| - 1], start, end); }
  }

  lemma KeepStep(log: Log, start: EntryId, end: EntryId, i: nat)
    requires i < |log|
    ensures Keep(log[..i + 1], start, end)
            == Keep(log[..i], start, end)
               + if IdAtMost(start, log[i].0) && IdAtMost(log[i].0, end) then [log[i]] else []
    ensures |Keep(log[..i], start, end)| <= i
  {
    assert log[..i + 1][..i] == log[..i];
    KeepShort(log[..i], start, end);
  }

  /** Where the reader stands after the first q entries: what it kept, and what is left of
      the count, which is not used up. */
  ghost predicate Reading(log: Log, start: EntryId, end: EntryId, count: Option<nat>, q: nat, result: Log,
                          remaining: Option<nat>)
    requires q <= |log|
  {
    && result == Keep(log[..q], start, end) && |result| <= q
    && match count
       case None => remaining == None
       case Some(c) =>
         remaining == Some(if |result| <= c then c - |result| else c - |result| + U64_LIMIT) && (c > 0 ==> |result| < c)
  }

  lemma ReadingStart(log: Log, start: EntryId, end: EntryId, count: Option<nat>)
    requires count.Some? ==> count.value < U64_LIMIT
    ensures Reading(log, start, end, count, 0, [], count)
  {
    assert log[..0] == [];
  }

  /** One less, wrapping below 0. */
  function OneLess(n: nat): nat { if n == 0 then U64_LIMIT - 1 else n - 1 }

  lemma ReadingSkip(log: Log, start: EntryId, end: EntryId, count: Option<nat>, q: nat, result: Log,
                    remaining: Option<nat>)
    requires q < |log| && Reading(log, start, end, count, q, result, remaining)
    requires IdLess(log[q].0, start)
    ensures Reading(log, start, end, count, q + 1, result, remaining)
  {
    hide Keep;
    KeepStep(log, start, end, q);
  }

  lemma ReadingStop(log: Log, start: EntryId, end: EntryId, count: Option<nat>, q: nat, result: Log,
                    remaining: Option<nat>)
    requires q < |log| && Increasing(log) && Reading(log, start, end, count, q, result, remaining)
    requires IdLess(end, log[q].0)
    ensures result == Limited(Keep(log, start, end), count)
  {
    hide Keep, Increasing;
    KeepPast(log, start, end, q);
  }

  lemma ReadingTake(log: Log, start: EntryId, end: EntryId, count: Option<nat>, q: nat, result: Log,
                    remaining: Option<nat>)
    requires q < |log| < U64_LIMIT && (count.Some? ==> count.value < U64_LIMIT)
    requires Reading(log, start, end, count, q, result, remaining)
    requires !IdLess(log[q].0, start) && !IdLess(end, log[q].0)
    ensures var more := result + [log[q]];
            var left := if remaining.None? then None else Some(OneLess(remaining.value));
            if left == Some(0) then more == Limited(Keep(log, start, end), count)
            else Reading(log, start, end, count, q + 1, more, left)
  {
    hide Keep;
    KeepStep(log, start, end, q);
    KeepGrows(log, start, end, q + 1);
  }

  /** One page of XRANGE. */
  method RangePage(entries: Log, start: EntryId, end: EntryId, result0: Log, remaining0: Option<nat>, ghost log: Log,
                   ghost count: Option<nat>, ghost q: nat)
    returns (result: Log, remaining: Option<nat>, done: bool)
    requires Increasing(log) && |log| < U64_LIMIT && (count.Some? ==> count.value < U64_LIMIT)
    requires q + |entries| <= |log| && entries == log[q..q + |entries|]
    requires Reading(log, start, end, count, q, result0, remaining0)
    ensures done ==> result == Limited(Keep(log, start, end), count)
    ensures !done ==> Reading(log, start, end, count, q + |entries|, result, remaining)
  {
    hide Reading, Keep, Limited, Increasing, OneLess, IdLess;
    result, remaining, done := result0, remaining0, false;
    for i := 0 to |entries|
      invariant Reading(log, start, end, count, q + i, result, remaining)
    {
      var (id, fields) := entries[i];
      assert (id, fields) == log[q + i];
      if IdLess(id, start) {
        ReadingSkip(log, start, end, count, q + i, result, remaining);
        continue;
      }
      if IdLess(end, id) {
        ReadingStop(log, start, end, count, q + i, result, remaining);
        return result, remaining, true;
      }
      ReadingTake(log, start, end, count, q + i, result, remaining);
      result := result + [(id, fields)];
      if remaining.Some? {
        remaining := Some(OneLess(remaining.value));
        if remaining.value == 0 { return result, remaining, true; }
      }
    }
  }

  lemma ReadingEnd(log: Log, start: EntryId, end: EntryId, count: Option<nat>, result: Log, remaining: Option<nat>)
    requires Reading(log, start, end, count, |log|, result, remaining)
    ensures result == Limited(Keep(log, start, end), count)
  {
    assert log[..|log|] == log;
  }

  /** The pages of XRANGE over a live stream. */
  method ReadRange(db: StorageEngine, ns: Bytes, k: Bytes, m: StreamMeta, start: EntryId, end: EntryId,
                   count: Option<nat>, ghost log: Log)
    returns (result: Log)
    requires ValidKey(k) && ValidNamespace(ns) && ShortLog(log) && Shape(db.disk, ns, k, m, log) && Increasing(log)
    requires count.Some? ==> count.value < U64_LIMIT
    ensures result == Limited(Keep(log, start, end), count)
  {
    hide Reading, Keep, Limited, Scan, Positioned, Stem, ShortLog;
    ghost var p := Stem(ns, k, m.version);
    var current: Bytes, remaining := [], count;
    result := [];
    ghost var q := 0;
    ReadingStart(log, start, end, count);
    StartPositioned(db.disk.subkey, p);
    assert |log| < U64_LIMIT && Increasing(log);
    hide Shape, Increasing;
    while true
      invariant q <= |log| && Positioned(Scan(db.disk.subkey, p), p, current, q)
      invariant Reading(log, start, end, count, q, result, remaining)
      decreases |log| - q
    {
      var entries, next := ReadPage(db, ns, k, m, current, log, q);
      if entries == [] { break; }
      var done;
      result, remaining, done := RangePage(entries, start, end, result, remaining, log, count, q);
      if done { return; }
      q := q + |entries|;
      match next {
        case Some(key) => current := key;
        case None => break;
      }
    }
    ReadingEnd(log, start, end, count, result, remaining);
  }

  /** XRANGE key start end [COUNT n]: bounds and count are checked before the key. */
  method Xrange(db: StorageEngine, ns: Bytes, k: Bytes, now: i64, start: Bytes, end: Bytes, count: Option<Option<u64>>,
                ghost log: Log)
    returns (r: Result<Log>)
    requires ValidKey(k) && ValidNamespace(ns) && ShortLog(log) && Sees(db.disk, ns, k, now, log) && Increasing(log)
    ensures var meta := StreamOf(db.disk, ns, k, now);
            if ParseBound(start).None? || ParseBound(end).None? then r == Err(InvalidId)
            else if count == Some(None) then r == Err(NotInteger)
            else if meta.Err? then r == Err(meta.error)
            else r == Ok(Limited(Keep(log, ParseBound(start).value, ParseBound(end).value),
                                 if count.None? then None else Some(count.value.value)))
  {
    hide StreamOf, ParseBound, ShortLog, Shape, Stem;
    var s, e := ParseBound(start), ParseBound(end);
    if s.None? || e.None? { return Err(InvalidId); }
    if count.Some? && count.value.None? { return Err(NotInteger); }
    var loaded := StreamOf(db.disk, ns, k, now);
    if loaded.Err? { return Err(loaded.error); }
    if loaded.value.None? { return Ok([]); }
    var limit: Option<nat> := if count.None? then None else Some(count.value.value);
    var result := ReadRange(db, ns, k, loaded.value.value, s.value, e.value, limit, log);
    r := Ok(result);
  }

  /** The entries after an ID. */
  function After(log: Log, start: EntryId): Log {
    if log == [] then []
    else
      var n := |log| - 1;
      After(log[..n], start) + if IdLess(start, log[n].0) then [log[n]] else []
  }

  /** XREAD from the ID of an entry gives the entries behind it, without the entry itself; in
      general it gives the tail of the log whose IDs are greater. */
  lemma {:induction false} AfterIsTail(log: Log, start: EntryId) returns (q: nat)
    requires Increasing(log)
    ensures q <= |log| && After(log, start) == log[q..]
    ensures forall i :: 0 <= i < |log| ==> (i < q <==> log[i].0 == start || IdLess(log[i].0, start))
  {
    if log == [] {
      q := 0;
    } else {
      var n := |log| - 1;
      q := AfterIsTail(log[..n], start);
      assert forall i :: 0 <= i < n ==> log[..n][i] == log[i] && IdLess(log[i].0, log[n].0);
      if !IdLess(start, log[n].0) {
        assert q == n;
        q := n + 1;
      }
    }
  }

  lemma AfterEntry(log: Log, i: nat)
    requires Increasing(log) && i < |log|
    ensures After(log, log[i].0) == log[i + 1..]
  {
    hide After;
    var q := AfterIsTail(log, log[i].0);
    assert i + 1 < |log| ==> IdLess(log[i].0, log[i + 1].0);
  }

  /** The pages of XREAD for one stream. */
  method ReadAfter(db: StorageEngine, ns: Bytes, k: Bytes, m: StreamMeta, start: EntryId, ghost log: Log)
    returns (result: Log)
    requires ValidKey(k) && ValidNamespace(ns) && ShortLog(log) && Shape(db.disk, ns, k, m, log) && Increasing(log)
    ensures result == After(log, start)
  {
    hide Scan, Positioned, Stem, ShortLog, Shape, Increasing, IdLess;
    ghost var p := Stem(ns, k, m.version);
    var current: Bytes := [];
    result := [];
    ghost var q := 0;
    StartPositioned(db.disk.subkey, p);
    assert log[..0] == [];
    while true
      invariant q <= |log| && Positioned(Scan(db.disk.subkey, p), p, current, q)
      invariant result == After(log[..q], start)
      decreases |log| - q
    {
      var entries, next := ReadPage(db, ns, k, m, current, log, q);
      if entries == [] { break; }
      for i := 0 to |entries|
        invariant result == After(log[..q + i], start)
      {
        assert log[..q + i + 1][..q + i] == log[..q + i] && entries[i] == log[q + i];
        if IdLess(start, entries[i].0) { result := result + [entries[i]]; }
      }
      q := q + |entries|;
      match next {
        case Some(key) => current := key;
        case None => break;
      }
    }
    assert log[..|log|] == log;
  }

  /** What XREAD returns for one key: nothing when it is absent or has nothing newer. */
  function Newer(k: Bytes, log: Log, start: EntryId): seq<(Bytes, Log)> {
    if After(log, start) == [] then [] else [(k, After(log, start))]
  }

  function AllNewer(keys: seq<Bytes>, logs: seq<Log>, starts: seq<Option<EntryId>>): seq<(Bytes, Log)>
    requires |keys| == |logs| == |starts| && forall i :: 0 <= i < |starts| ==> starts[i].Some?
  {
    if keys == [] then []
    else
      var n := |keys| - 1;
      AllNewer(keys[..n], logs[..n], starts[..n]) + Newer(keys[n], logs[n], starts[n].value)
  }

  /** The reply lists the keys at these positions, ascending, each with its newer entries, and
      those are all the keys that have any. */
  ghost predicate ListsNewer(keys: seq<Bytes>, logs: seq<Log>, starts: seq<Option<EntryId>>,
                             reply: seq<(Bytes, Log)>, at: seq<nat>)
    requires |keys| == |logs| == |starts| && forall i :: 0 <= i < |starts| ==> starts[i].Some?
  {
    && |at| == |reply|
    && (forall j :: 0 <= j < |at| ==>
          at[j] < |keys| && reply[j] == (keys[at[j]], After(logs[at[j]], starts[at[j]].value)))
    && (forall i, j :: 0 <= i < j < |at| ==> at[i] < at[j])
    && (forall i :: 0 <= i < |keys| ==> (i in at <==> After(logs[i], starts[i].value) != []))
  }

  lemma ListsOneMore(keys: seq<Bytes>, logs: seq<Log>, starts: seq<Option<EntryId>>,
                     reply: seq<(Bytes, Log)>, at: seq<nat>)
    requires |keys| == |logs| == |starts| && keys != [] && forall i :: 0 <= i < |starts| ==> starts[i].Some?
    requires var n := |keys| - 1; ListsNewer(keys[..n], logs[..n], starts[..n], reply, at)
    ensures var n := |keys| - 1;
            var newer := After(logs[n], starts[n].value);
            if newer == [] then ListsNewer(keys, logs, starts, reply, at)
            else ListsNewer(keys, logs, starts, reply + [(keys[n], newer)], at + [n])
  {
    hide After;
  }

  /** XREAD replies the keys that have newer entries, each with them, in the order given. */
  lemma {:induction false} AllNewerOrder(keys: seq<Bytes>, logs: seq<Log>, starts: seq<Option<EntryId>>)
    returns (at: seq<nat>)
    requires |keys| == |logs| == |starts| && forall i :: 0 <= i < |starts| ==> starts[i].Some?
    ensures ListsNewer(keys, logs, starts, AllNewer(keys, logs, starts), at)
  {
    if keys == [] {
      at := [];
    } else {
      hide After, ListsNewer;
      var n := |keys| - 1;
      at := AllNewerOrder(keys[..n], logs[..n], starts[..n]);
      ListsOneMore(keys, logs, starts, AllNewer(keys[..n], logs[..n], starts[..n]), at);
      if After(logs[n], starts[n].value) != [] { at := at + [n]; }
    }
  }

  function ParseIds(ids: seq<Bytes>): (r: seq<Option<EntryId>>)
    ensures |r| == |ids| && forall i :: 0 <= i < |r| ==> r[i] == ParseId(ids[i])
  {
    seq(|ids|, i requires 0 <= i < |ids| => ParseId(ids[i]))
  }

  /** One key of an XREAD has a well-formed ID and no record of another kind. */
  predicate Readable(d: Disk, ns: Bytes, now: i64, k: Bytes, id: Bytes) {
    ParseId(id).Some? && StreamOf(d, ns, k, now).Ok?
  }

  /** The ID is looked at before the record. */
  function WhyNot(d: Disk, ns: Bytes, now: i64, k: Bytes, id: Bytes): KvError
    requires !Readable(d, ns, now, k, id)
  {
    if ParseId(id).None? then InvalidId else StreamOf(d, ns, k, now).error
  }

  /** XREAD STREAMS key ... id ...: for each key the entries after its ID, over any number of
      pages; the first key that cannot be read refuses the command. */
  method Xread(db: StorageEngine, ns: Bytes, now: i64, keys: seq<Bytes>, ids: seq<Bytes>, ghost logs: seq<Log>)
    returns (r: Result<seq<(Bytes, Log)>>)
    requires |keys| == |ids| == |logs| && ValidNamespace(ns)
    requires forall i :: 0 <= i < |keys| ==>
               ValidKey(keys[i]) && ShortLog(logs[i]) && Increasing(logs[i]) && Sees(db.disk, ns, keys[i], now, logs[i])
    ensures r.Ok? <==> forall i :: 0 <= i < |keys| ==> Readable(db.disk, ns, now, keys[i], ids[i])
    ensures r.Err? ==> exists i :: && 0 <= i < |keys| && !Readable(db.disk, ns, now, keys[i], ids[i])
                                   && (forall j :: 0 <= j < i ==> Readable(db.disk, ns, now, keys[j], ids[j]))
                                   && r == Err(WhyNot(db.disk, ns, now, keys[i], ids[i]))
    ensures r.Ok? ==> r.value == AllNewer(keys, logs, ParseIds(ids))
  {
    hide StreamOf, ParseId, ShortLog, Shape, Stem, Newer, AllNewer, After, Increasing;
    var streams: seq<(Bytes, Log)> := [];
    assert ParseIds(ids)[..0] == [] && keys[..0] == [] && logs[..0] == [];
    NoneNewer();
    for i := 0 to |keys|
      invariant forall j :: 0 <= j < i ==> Readable(db.disk, ns, now, keys[j], ids[j])
      invariant streams == AllNewer(keys[..i], logs[..i], ParseIds(ids)[..i])
    {
      var start := ParseId(ids[i]);
      if start.None? { return Err(InvalidId); }
      var loaded := StreamOf(db.disk, ns, keys[i], now);
      if loaded.Err? { return Err(loaded.error); }
      AllNewerStep(keys, logs, ParseIds(ids), i);
      if loaded.value.Some? {
        var entries := ReadAfter(db, ns, keys[i], loaded.value.value, start.value, logs[i]);
        NewerIs(keys[i], logs[i], start.value);
        if entries != [] { streams := streams + [(keys[i], entries)]; }
      } else {
        NewerIs(keys[i], logs[i], start.value);
        NothingAfter(start.value);
      }
    }
    assert ParseIds(ids)[..|keys|] == ParseIds(ids) && keys[..|keys|] == keys && logs[..|keys|] == logs;
    r := Ok(streams);
  }

  lemma NothingAfter(start: EntryId)
    ensures After([], start) == []
  {
  }

  lemma NoneNewer()
    ensures AllNewer([], [], []) == []
  {
  }

  lemma NewerIs(k: Bytes, log: Log, start: EntryId)
    ensures Newer(k, log, start) == if After(log, start) == [] then [] else [(k, After(log, start))]
  {
  }

  lemma AllNewerStep(keys: seq<Bytes>, logs: seq<Log>, starts: seq<Option<EntryId>>, i: nat)
    requires |keys| == |logs| == |starts| && i < |keys| && forall j :: 0 <= j <= i ==> starts[j].Some?
    ensures AllNewer(keys[..i + 1], logs[..i + 1], starts[..i + 1])
            == AllNewer(keys[..i], logs[..i], starts[..i]) + Newer(keys[i], logs[i], starts[i].value)
  {
    hide Newer;
    assert keys[..i + 1][..i] == keys[..i] && logs[..i + 1][..i] == logs[..i] && starts[..i + 1][..i] == starts[..i];
  }

  // ---------- whole runs ----------

  /** One XADD: the clock in milliseconds is free to go backwards between commands. */
  datatype XaddCmd = XaddCmd(now: i64, clock: u64, newVersion: u64, spec: Bytes, args: seq<Bytes>)

  function RunLog(cmds: seq<XaddCmd>, log: Log): Log {
    if cmds == [] then log
    else
      var c := cmds[|cmds| - 1];
      AfterXadd(RunLog(cmds[..|cmds| - 1], log), c.spec, c.clock, c.args)
  }

  ghost predicate Slot(d: Disk, ns: Bytes, k: Bytes, slot: Option<StreamMeta>, log: Log) {
    hide Stored, GetMeta;
    match slot
    case None => GetMeta(d, ns, k) == None && log == []
    case Some(m) => Stored(d, ns, k, m, log) && m.expire == 0
  }

  lemma SlotSees(d: Disk, ns: Bytes, k: Bytes, now: i64, slot: Option<StreamMeta>, log: Log)
    requires Slot(d, ns, k, slot, log)
    ensures StreamOf(d, ns, k, now) == Ok(slot) && Sees(d, ns, k, now, log)
  {
    hide Stored, GetMeta;
    if slot.Some? { StoredIsSeen(d, ns, k, now, slot.value, log); }
  }

  /** The new versions of the commands from position i on are unused. */
  ghost predicate Unused(d: Disk, ns: Bytes, k: Bytes, slot: Option<StreamMeta>, cmds: seq<XaddCmd>, i: nat) {
    forall j :: i <= j < |cmds| ==>
      Vacant(d, Stem(ns, k, cmds[j].newVersion)) && (slot.Some? ==> slot.value.version != cmds[j].newVersion)
  }

  ghost predicate DistinctVersions(cmds: seq<XaddCmd>) {
    forall i, j :: 0 <= i < j < |cmds| ==> cmds[i].newVersion != cmds[j].newVersion
  }

  lemma UnusedKept(d: Disk, e: Disk, ns: Bytes, k: Bytes, slot: Option<StreamMeta>, m: StreamMeta, cmds: seq<XaddCmd>,
                   i: nat)
    requires ValidKey(k) && ValidNamespace(ns) && i < |cmds|
             && DistinctVersions(cmds) && Unused(d, ns, k, slot, cmds, i)
    requires m.version == if slot.Some? then slot.value.version else cmds[i].newVersion
    requires Touches(d, e, MetadataKey(k, ns), Stem(ns, k, m.version))
    ensures Unused(e, ns, k, Some(m), cmds, i + 1)
  {
    hide Vacant, Touches, Stem, MetadataKey;
    forall j | i + 1 <= j < |cmds|
      ensures Vacant(e, Stem(ns, k, cmds[j].newVersion)) && m.version != cmds[j].newVersion
    {
      VacantKept(d, e, ns, k, MetadataKey(k, ns), m.version, cmds[j].newVersion);
    }
  }

  ghost predicate Ran(d: Disk, ns: Bytes, k: Bytes, cmds: seq<XaddCmd>, i: nat, next: Option<StreamMeta>, log: Log) {
    Slot(d, ns, k, next, log) && Unused(d, ns, k, next, cmds, i)
  }

  /** The reply to a command: the text of the ID its entry got, or why it was refused. */
  function Answer(c: XaddCmd, log: Log): Result<Bytes> {
    match Appended(log, c.spec, c.clock, c.args)
    case Ok(id) => Ok(FormatId(id))
    case Err(e) => Err(e)
  }

  method RunOne(db: StorageEngine, ns: Bytes, k: Bytes, cmds: seq<XaddCmd>, i: nat, ghost slot: Option<StreamMeta>,
                ghost log: Log)
    returns (r: Result<Bytes>, ghost next: Option<StreamMeta>)
    requires ValidKey(k) && ValidNamespace(ns) && i < |cmds| && DistinctVersions(cmds)
    requires Ran(db.disk, ns, k, cmds, i, slot, log)
    requires |log| + 1 < U64_LIMIT
    modifies db
    ensures r == Answer(cmds[i], log)
    ensures Ran(db.disk, ns, k, cmds, i + 1, next, AfterXadd(log, cmds[i].spec, cmds[i].clock, cmds[i].args))
  {
    hide Stored, Touches, Stem, MetadataKey, Vacant, Sees, StreamOf, GetMeta;
    hide DistinctVersions, NewId, FormatId, Wraps, Cells, View, EncodeStream;
    ghost var d, c := db.disk, cmds[i];
    SlotSees(d, ns, k, c.now, slot, log);
    ghost var m;
    r, m := Xadd(db, ns, k, cmds[i].now, cmds[i].clock, cmds[i].newVersion, cmds[i].spec, cmds[i].args, log);
    next := slot;
    if r.Ok? {
      UnusedKept(d, db.disk, ns, k, slot, m, cmds, i);
      next := Some(m);
    }
  }

  /** Every run of XADD with any mix of "*", "ms-*" and explicit IDs and any clock: the
      stored log is the accepted entries in order, size is their number, the last ID is that
      of the last one, and each reply is the ID the entry got or the reason it was refused. */
  method RunXadd(db: StorageEngine, ns: Bytes, k: Bytes, cmds: seq<XaddCmd>, ghost slot0: Option<StreamMeta>,
                 ghost log0: Log)
    returns (replies: seq<Result<Bytes>>, ghost slot: Option<StreamMeta>)
    requires ValidKey(k) && ValidNamespace(ns) && DistinctVersions(cmds)
    requires Slot(db.disk, ns, k, slot0, log0) && Unused(db.disk, ns, k, slot0, cmds, 0)
    requires forall i :: 0 <= i < |cmds| ==>
               |RunLog(cmds[..i], log0)| + 1 < U64_LIMIT
    modifies db
    ensures |replies| == |cmds| && forall i :: 0 <= i < |cmds| ==>
              replies[i] == Answer(cmds[i], RunLog(cmds[..i], log0))
    ensures var log := RunLog(cmds, log0);
            && Slot(db.disk, ns, k, slot, log)
            && (slot.Some? ==> slot.value.size == |log| && slot.value.last == LastId(log))
  {
    hide Slot, Unused, Answer, DistinctVersions, AfterXadd, Wraps, LastId, RunLog;
    replies, slot := [], slot0;
    RunNothing(log0);
    assert cmds[..0] == [];
    for i := 0 to |cmds|
      invariant |replies| == i && forall j :: 0 <= j < i ==> replies[j] == Answer(cmds[j], RunLog(cmds[..j], log0))
      invariant Ran(db.disk, ns, k, cmds, i, slot, RunLog(cmds[..i], log0))
    {
      RunStep(cmds, i, log0);
      var r;
      r, slot := RunOne(db, ns, k, cmds, i, slot, RunLog(cmds[..i], log0));
      replies := replies + [r];
    }
    assert cmds[..|cmds|] == cmds;
    SlotShape(db.disk, ns, k, slot, RunLog(cmds, log0));
  }

  /** The command at i is accepted and its generated sequence number wraps. */
  predicate WrapsAt(cmds: seq<XaddCmd>, i: nat, log: Log)
    requires i < |cmds|
  {
    var c, before := cmds[i], RunLog(cmds[..i], log);
    Appended(before, c.spec, c.clock, c.args).Ok? && Wraps(c.spec, LastId(before), c.clock)
  }

  /** One XADD keeps the IDs increasing exactly when it does not wrap. */
  lemma XaddIncreases(log: Log, c: XaddCmd)
    requires Increasing(log)
    ensures Increasing(AfterXadd(log, c.spec, c.clock, c.args))
            <==> !(Appended(log, c.spec, c.clock, c.args).Ok? && Wraps(c.spec, LastId(log), c.clock))
  {
    hide NewId, FieldsOf, Increasing;
    var id := Appended(log, c.spec, c.clock, c.args);
    if id.Ok? {
      LogGrows(log, id.value, FieldsOf(c.args));
      if log != [] { NewIdIsGreater(c.spec, LastId(log), |log|, c.clock); }
    }
  }

  /** The IDs of a run strictly increase if and only if no accepted command of it wraps. */
  lemma {:induction false} RunIncreases(cmds: seq<XaddCmd>, log: Log)
    requires Increasing(log)
    ensures Increasing(RunLog(cmds, log)) <==> forall i :: 0 <= i < |cmds| ==> !WrapsAt(cmds, i, log)
  {
    hide Increasing, Wraps, Appended, AfterXadd;
    if cmds != [] {
      var n := |cmds| - 1;
      var init := cmds[..n];
      RunIncreases(init, log);
      forall i | 0 <= i < n ensures WrapsAt(init, i, log) <==> WrapsAt(cmds, i, log) {
        assert init[..i] == cmds[..i];
      }
      if Increasing(RunLog(init, log)) {
        XaddIncreases(RunLog(init, log), cmds[n]);
        assert Increasing(RunLog(cmds, log)) <==> !WrapsAt(cmds, n, log);
      } else {
        LongerLog(RunLog(init, log), cmds[n]);
      }
    }
  }

  lemma LongerLog(log: Log, c: XaddCmd)
    requires !Increasing(log)
    ensures !Increasing(AfterXadd(log, c.spec, c.clock, c.args))
  {
    hide Appended, FieldsOf;
    var longer := AfterXadd(log, c.spec, c.clock, c.args);
    var i, j :| 0 <= i < j < |log| && !IdLess(log[i].0, log[j].0);
    assert longer[i] == log[i] && longer[j] == log[j];
  }

  lemma RunNothing(log: Log)
    ensures RunLog([], log) == log
  {
  }

  lemma RunStep(cmds: seq<XaddCmd>, i: nat, log: Log)
    requires i < |cmds|
    ensures RunLog(cmds[..i + 1], log) == AfterXadd(RunLog(cmds[..i], log), cmds[i].spec, cmds[i].clock, cmds[i].args)
  {
    hide AfterXadd;
    assert cmds[..i + 1][..i] == cmds[..i];
  }

  lemma SlotShape(d: Disk, ns: Bytes, k: Bytes, slot: Option<StreamMeta>, log: Log)
    requires Slot(d, ns, k, slot, log)
    ensures slot.Some? ==> slot.value.size == |log| && slot.value.last == LastId(log)
  {
    hide GetMeta, EncodeStream, View, Cells, Stem;
  }
}
