/** Key and metadata layouts: length-prefixed metadata keys with an optional
    namespace, versioned subkeys, and the metadata and string value formats. */
module Encoding {
  import opened ByteStrings

  datatype DataType = TString | THash | TList | TSet | TZSet | TStream | TBitmap {
    function Code(): (c: byte)
      ensures TypeOfCode(c) == Some(this)
    {
      match this
      case TString => 1
      case THash => 2
      case TList => 3
      case TSet => 4
      case TZSet => 5
      case TBitmap => 6
      case TStream => 8
    }
  }

  function TypeOfCode(code: byte): Option<DataType> {
    match code
    case 1 => Some(TString)
    case 2 => Some(THash)
    case 3 => Some(TList)
    case 4 => Some(TSet)
    case 5 => Some(TZSet)
    case 6 => Some(TBitmap)
    case 8 => Some(TStream)
    case _ => None
  }

  /** Encoding version 1 in the high four bits, the data type in the low four. */
  function BuildFlags(t: DataType): (f: byte)
    ensures TypeOfFlags(f) == Some(t)
  {
    16 + t.Code()
  }

  /** The first byte of a record of each type. */
  lemma FlagBytes()
    ensures BuildFlags(TString) == 0x11 && BuildFlags(THash) == 0x12 && BuildFlags(TList) == 0x13
    ensures BuildFlags(TSet) == 0x14 && BuildFlags(TZSet) == 0x15 && BuildFlags(TBitmap) == 0x16
    ensures BuildFlags(TStream) == 0x18
  {
  }

  function TypeOfFlags(flags: byte): Option<DataType> { TypeOfCode(flags % 16) }

  datatype Metadata = Metadata(flags: byte, expire: i64, version: u64, size: u64, head: i64, tail: i64) {
    function Type(): Option<DataType> { TypeOfFlags(flags) }

    predicate Expired(now: i64) { 0 < expire <= now }
  }

  function NewMetadata(t: DataType, version: u64): (m: Metadata)
    ensures m.Type() == Some(t) && m.size == 0
  {
    Metadata(BuildFlags(t), 0, version, 0, 0, -1)
  }

  // ---------- keys ----------

  /** The four-byte length: a key of 2^32 bytes or more would wrap. */
  function LengthPrefix(k: Bytes): (b: Bytes)
    ensures |b| == 4
  {
    BigEndian(|k| % U32_LIMIT, 4)
  }

  /** What all keys of a namespace start with; nothing for the empty namespace. */
  function NamespacePrefix(ns: Bytes): Bytes {
    if ns == [] then [] else [|ns| % 256] + ns
  }

  function MetadataKey(k: Bytes, ns: Bytes): Bytes {
    NamespacePrefix(ns) + (LengthPrefix(k) + k)
  }

  function SubKey(k: Bytes, version: u64, sub: Bytes, ns: Bytes): Bytes {
    MetadataKey(k, ns) + EncodeU64(version) + sub
  }

  /** What follows the namespace header, if the header is the expected one. */
  function SkipNamespace(data: Bytes, ns: Bytes): Option<Bytes> {
    if ns == [] then Some(data)
    else if |data| < 1 + |ns| + 4 then None
    else if data[0] != |ns| || data[1..1 + |ns|] != ns then None
    else Some(data[1 + |ns|..])
  }

  /** A field behind its four-byte length, and what follows it. */
  function TakeField(data: Bytes): Option<(Bytes, Bytes)> {
    if |data| < 4 then None
    else
      var len := FromBigEndian(data[..4]);
      if |data| < 4 + len then None else Some((data[4..4 + len], data[4 + len..]))
  }

  function ParseMetadataKey(data: Bytes, ns: Bytes): Option<Bytes> {
    match SkipNamespace(data, ns)
    case None => None
    case Some(rest) =>
      match TakeField(rest)
      case None => None
      case Some((k, _)) => Some(k)
  }

  function ParseSubKey(data: Bytes, ns: Bytes): Option<(Bytes, u64, Bytes)> {
    match SkipNamespace(data, ns)
    case None => None
    case Some(rest) =>
      match TakeField(rest)
      case None => None
      case Some((k, tail)) => if |tail| < 8 then None else Some((k, DecodeU64(tail[..8]), tail[8..]))
  }

  ghost predicate ValidKey(k: Bytes) { |k| < U32_LIMIT }

  ghost predicate ValidNamespace(ns: Bytes) { |ns| <= 255 }

  lemma LengthPrefixReads(k: Bytes)
    requires ValidKey(k)
    ensures FromBigEndian(LengthPrefix(k)) == |k|
  {
    hide BigEndian, FromBigEndian;
    Pow256Values();
    assert |k| % U32_LIMIT == |k|;
    BigEndianRoundTrip(|k|, 4);
  }

  /** A length-prefixed field reads back, whatever follows it. */
  lemma TakeFieldInverts(k: Bytes, rest: Bytes)
    requires ValidKey(k)
    ensures TakeField(LengthPrefix(k) + k + rest) == Some((k, rest))
  {
    hide LengthPrefix, FromBigEndian;
    LengthPrefixReads(k);
    var data := LengthPrefix(k) + k + rest;
    assert data[..4] == LengthPrefix(k);
    assert data[4..4 + |k|] == k;
    assert data[4 + |k|..] == rest;
  }

  lemma SkipNamespaceInverts(ns: Bytes, rest: Bytes)
    requires ValidNamespace(ns) && |rest| >= 4
    ensures SkipNamespace(NamespacePrefix(ns) + rest, ns) == Some(rest)
  {
    if ns != [] {
      var data := NamespacePrefix(ns) + rest;
      assert data[1..1 + |ns|] == ns;
    } else {
      assert NamespacePrefix(ns) + rest == rest;
    }
  }

  /** parse_metadata_key inverts metadata_key, whatever follows the key. */
  lemma ParseMetadataKeyInverts(k: Bytes, ns: Bytes, rest: Bytes)
    requires ValidKey(k) && ValidNamespace(ns)
    ensures ParseMetadataKey(MetadataKey(k, ns) + rest, ns) == Some(k)
  {
    hide LengthPrefix, NamespacePrefix, TakeField, SkipNamespace;
    var body := LengthPrefix(k) + k + rest;
    assert MetadataKey(k, ns) + rest == NamespacePrefix(ns) + body;
    SkipNamespaceInverts(ns, body);
    TakeFieldInverts(k, rest);
  }

  /** parse_subkey inverts subkey. */
  lemma ParseSubKeyInverts(k: Bytes, version: u64, sub: Bytes, ns: Bytes)
    requires ValidKey(k) && ValidNamespace(ns)
    ensures ParseSubKey(SubKey(k, version, sub, ns), ns) == Some((k, version, sub))
  {
    hide LengthPrefix, NamespacePrefix, TakeField, SkipNamespace, EncodeU64, DecodeU64;
    var tail := EncodeU64(version) + sub;
    var body := LengthPrefix(k) + k + tail;
    assert SubKey(k, version, sub, ns) == NamespacePrefix(ns) + body;
    SkipNamespaceInverts(ns, body);
    TakeFieldInverts(k, tail);
    U64RoundTrip(version);
    assert tail[..8] == EncodeU64(version) && tail[8..] == sub;
  }

  lemma SubKeyExtends(k: Bytes, version: u64, sub: Bytes, ns: Bytes)
    ensures SubKey(k, version, sub, ns) == SubKey(k, version, [], ns) + sub
  {
  }

  /** Within a namespace the prefix of a key and version selects its own subkeys only. */
  lemma SubKeyPrefixExact(k: Bytes, version: u64, k': Bytes, version': u64, sub': Bytes, ns: Bytes)
    requires ValidKey(k) && ValidKey(k') && ValidNamespace(ns)
    ensures SubKey(k, version, [], ns) <= SubKey(k', version', sub', ns) <==> k == k' && version == version'
  {
    var p := SubKey(k, version, [], ns);
    var data := SubKey(k', version', sub', ns);
    SubKeyExtends(k', version', sub', ns);
    if p <= data {
      var rest := data[|p|..];
      assert data == p + rest;
      SubKeyExtends(k, version, rest, ns);
      ParseSubKeyInverts(k, version, rest, ns);
      ParseSubKeyInverts(k', version', sub', ns);
    }
  }

  lemma MetadataKeyInjective(k: Bytes, k': Bytes, ns: Bytes)
    requires ValidKey(k) && ValidKey(k') && ValidNamespace(ns)
    requires MetadataKey(k, ns) == MetadataKey(k', ns)
    ensures k == k'
  {
    assert MetadataKey(k, ns) + [] == MetadataKey(k, ns) && MetadataKey(k', ns) + [] == MetadataKey(k', ns);
    ParseMetadataKeyInverts(k, ns, []);
    ParseMetadataKeyInverts(k', ns, []);
  }

  /** The first length byte is what tells a key of the empty namespace from the others. */
  lemma LengthPrefixHead(k: Bytes)
    requires ValidKey(k)
    ensures LengthPrefix(k)[0] == |k| / 0x100_0000
  {
    var n := |k|;
    assert BigEndian(n, 4) == BigEndian(n / 256, 3) + [n % 256];
    assert BigEndian(n / 256, 3) == BigEndian(n / 256 / 256, 2) + [n / 256 % 256];
    assert BigEndian(n / 256 / 256, 2) == BigEndian(n / 256 / 256 / 256, 1) + [n / 256 / 256 % 256];
    assert BigEndian(n / 256 / 256 / 256, 1) == BigEndian(n / 256 / 256 / 256 / 256, 0) + [n / 256 / 256 / 256 % 256];
    assert n / 256 / 256 / 256 == n / 0x100_0000;
  }

  /** Keys of two namespaces never share a namespace prefix. */
  lemma NamespacesApart(ns: Bytes, ns': Bytes, k': Bytes, rest: Bytes)
    requires ns != [] && ns' != [] && ValidNamespace(ns) && ValidNamespace(ns')
    ensures NamespacePrefix(ns) <= MetadataKey(k', ns') + rest <==> ns == ns'
  {
    hide LengthPrefix;
    var tail := LengthPrefix(k') + k' + rest;
    NamespaceHeader(ns);
    NamespaceHeader(ns');
    assert MetadataKey(k', ns') + rest == [|ns'|] + (ns' + tail) by {
      hide NamespacePrefix;
      assert NamespacePrefix(ns') + (LengthPrefix(k') + k') + rest == NamespacePrefix(ns') + tail;
    }
    hide NamespacePrefix, MetadataKey;
    ConsPrefix(|ns|, ns, |ns'|, ns' + tail);
    SameLengthPrefix(ns, ns', tail);
  }

  lemma NamespaceHeader(ns: Bytes)
    requires ns != [] && ValidNamespace(ns)
    ensures NamespacePrefix(ns) == [|ns|] + ns
  {
  }

  /** A key of the empty namespace lies under a namespace prefix exactly when it is
      long enough for its length bytes to forge the header. */
  lemma LegacyKeyUnderNamespace(ns: Bytes, k: Bytes, rest: Bytes)
    requires ns != [] && ValidNamespace(ns) && ValidKey(k)
    ensures NamespacePrefix(ns) <= MetadataKey(k, []) + rest
            <==> |k| / 0x100_0000 == |ns| && ns <= LengthPrefix(k)[1..] + k + rest
  {
    hide LengthPrefix;
    var lp := LengthPrefix(k);
    LengthPrefixHead(k);
    var tail := lp[1..] + k + rest;
    assert MetadataKey(k, []) + rest == [lp[0]] + tail;
    ConsPrefix(|ns|, ns, lp[0], tail);
  }

  lemma SameLengthPrefix(a: Bytes, b: Bytes, rest: Bytes)
    ensures |a| == |b| && a <= b + rest <==> a == b
  {
    if |a| == |b| { assert (b + rest)[..|b|] == b; }
  }

  lemma ConsPrefix(a: byte, x: Bytes, b: byte, y: Bytes)
    ensures [a] + x <= [b] + y <==> a == b && x <= y
  {
    var u, v := [a] + x, [b] + y;
    assert u[0] == a && v[0] == b && u[1..] == x && v[1..] == y;
    if u <= v {
      assert v[..|u|] == u;
      assert y[..|x|] == v[1..|u|];
    }
    if a == b && x <= y {
      assert v[..|u|] == u;
    }
  }

  /** User keys under 16 MiB in the empty namespace are out of every other namespace's reach. */
  lemma ShortLegacyKeysApart(ns: Bytes, k': Bytes, rest: Bytes)
    requires ns != [] && ValidNamespace(ns) && |k'| < 0x100_0000
    ensures !(NamespacePrefix(ns) <= MetadataKey(k', []) + rest)
  {
    LegacyKeyUnderNamespace(ns, k', rest);
  }

  lemma MetadataKeyLength(k: Bytes, ns: Bytes)
    ensures |MetadataKey(k, ns)| == |NamespacePrefix(ns)| + 4 + |k|
  {
    hide LengthPrefix, NamespacePrefix;
  }

  /** A key of 2^24 + 254 bytes in the one-byte namespace "\0" has the metadata key of another
      key without a namespace. */
  lemma LongKeysAlias(k: Bytes)
    requires |k| == 0x100_0000 + 254
    ensures MetadataKey(k, [0]) == MetadataKey([0, 254] + k, [])
  {
    var other: Bytes := [0, 254] + k;
    LongLengths(k, other);
    hide LengthPrefix;
    assert NamespacePrefix([0]) == [1, 0];
    assert NamespacePrefix([]) == [];
  }

  lemma LongLengths(k: Bytes, other: Bytes)
    requires |k| == 0x100_0000 + 254 && |other| == 0x100_0000 + 256
    ensures LengthPrefix(k) == [1, 0, 0, 254] && LengthPrefix(other) == [1, 0, 1, 0]
  {
    assert BigEndian(0x100, 2) == BigEndian(1, 1) + [0];
    assert BigEndian(0x1_0000, 3) == BigEndian(0x100, 2) + [0];
    assert BigEndian(0x1_0001, 3) == BigEndian(0x100, 2) + [1];
    assert BigEndian(0x100_00FE, 4) == BigEndian(0x1_0000, 3) + [254];
    assert BigEndian(0x100_0100, 4) == BigEndian(0x1_0001, 3) + [0];
  }

  /** A 16 MiB key of the empty namespace lies inside the one-byte namespace "\0". */
  lemma LongLegacyKeyCaught()
    ensures exists k: Bytes :: ValidKey(k) && NamespacePrefix([0]) <= MetadataKey(k, [])
  {
    var k: Bytes := seq(0x100_0000, i => 0);
    var lp := LengthPrefix(k);
    LengthPrefixHead(k);
    assert BigEndian(0x100_0000, 4) == BigEndian(0x1_0000, 3) + [0];
    assert BigEndian(0x1_0000, 3) == BigEndian(0x100, 2) + [0];
    assert BigEndian(0x100, 2) == BigEndian(1, 1) + [0];
    assert lp[1] == 0;
    assert MetadataKey(k, [])[0] == 1 && MetadataKey(k, [])[1] == 0;
    assert NamespacePrefix([0]) == [1, 0];
    assert NamespacePrefix([0]) <= MetadataKey(k, []);
  }

  // ---------- values ----------

  /** flags, expiry, version and size; a list also stores its head and tail. */
  function EncodeMetadata(m: Metadata): Bytes {
    [m.flags] + EncodeI64(m.expire) + EncodeU64(m.version) + EncodeU64(m.size) +
    if m.Type() == Some(TList) then EncodeI64(m.head) + EncodeI64(m.tail) else []
  }

  function DecodeMetadata(data: Bytes): Option<Metadata> {
    if |data| < 25 then None
    else
      match TypeOfFlags(data[0])
      case None => None
      case Some(t) =>
        if t == TList && |data| < 41 then None
        else
          var (head, tail) := if t == TList then (DecodeI64(data[25..33]), DecodeI64(data[33..41])) else (0, -1);
          Some(Metadata(data[0], DecodeI64(data[1..9]), DecodeU64(data[9..17]), DecodeU64(data[17..25]), head, tail))
  }

  /** Decoding gives back every metadata record; only a list keeps its head and tail. */
  lemma MetadataRoundTrip(m: Metadata)
    requires m.Type().Some?
    ensures DecodeMetadata(EncodeMetadata(m))
            == Some(if m.Type() == Some(TList) then m else m.(head := 0, tail := -1))
  {
    var data := EncodeMetadata(m);
    I64RoundTrip(m.expire);
    U64RoundTrip(m.version);
    U64RoundTrip(m.size);
    assert data[1..9] == EncodeI64(m.expire);
    assert data[9..17] == EncodeU64(m.version);
    assert data[17..25] == EncodeU64(m.size);
    if m.Type() == Some(TList) {
      I64RoundTrip(m.head);
      I64RoundTrip(m.tail);
      assert data[25..33] == EncodeI64(m.head);
      assert data[33..41] == EncodeI64(m.tail);
    }
  }

  function EncodeString(flags: byte, expire: i64, payload: Bytes): Bytes {
    [flags] + EncodeI64(expire) + payload
  }

  function DecodeString(data: Bytes): Option<(byte, i64, Bytes)> {
    if |data| < 9 then None else Some((data[0], DecodeI64(data[1..9]), data[9..]))
  }

  lemma StringRoundTrip(flags: byte, expire: i64, payload: Bytes)
    ensures DecodeString(EncodeString(flags, expire, payload)) == Some((flags, expire, payload))
  {
    var data := EncodeString(flags, expire, payload);
    I64RoundTrip(expire);
    assert data[1..9] == EncodeI64(expire);
    assert data[9..] == payload;
  }
}
