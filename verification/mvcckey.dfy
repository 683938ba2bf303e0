/** The keys of the transaction layer and their byte form. */
module MvccKeys {
  import opened ByteOrder
  import opened KeyCode

  datatype MvccKey =
    | NextVersion
    | TxnActive(version: u64)
    | TxnWrite(version: u64, key: Bytes)
    | Version(key: Bytes, version: u64)

  datatype MvccKeyPrefix =
    | AllActive
    | WritesOf(version: u64)
    | VersionsOf(key: Bytes)

  function Encode(k: MvccKey): Bytes {
    match k
    case NextVersion => [0]
    case TxnActive(v) => [1] + U64Bytes(v)
    case TxnWrite(v, key) => [2] + U64Bytes(v) + Terminated(key)
    case Version(key, v) => [3] + Terminated(key) + U64Bytes(v)
  }

  function EncodePrefix(p: MvccKeyPrefix): Bytes {
    match p
    case AllActive => [1]
    case WritesOf(v) => [2] + U64Bytes(v)
    case VersionsOf(key) => [3] + Terminated(key)
  }

  method EncodeKey(k: MvccKey) returns (s: Bytes)
    ensures s == Encode(k)
  {
    var ser := new Serializer();
    match k {
      case NextVersion =>
        ser.SerializeUnitVariant(0);
      case TxnActive(v) =>
        ser.SerializeUnitVariant(1);
        ser.SerializeU64(v);
      case TxnWrite(v, key) =>
        ser.SerializeUnitVariant(2);
        ser.SerializeU64(v);
        ser.SerializeBytes(key);
      case Version(key, v) =>
        ser.SerializeUnitVariant(3);
        ser.SerializeBytes(key);
        ser.SerializeU64(v);
    }
    s := ser.output;
  }

  method EncodeKeyPrefix(p: MvccKeyPrefix) returns (s: Bytes)
    ensures s == EncodePrefix(p)
  {
    var ser := new Serializer();
    match p {
      case AllActive =>
        ser.SerializeUnitVariant(1);
      case WritesOf(v) =>
        ser.SerializeUnitVariant(2);
        ser.SerializeU64(v);
      case VersionsOf(key) =>
        ser.SerializeUnitVariant(3);
        ser.SerializeBytes(key);
    }
    s := ser.output;
  }

  // ---------------------------------------------------------------- decoding

  function ReadU64(d: Bytes): Read<u64> {
    if |d| < 8 then Failed(OutOfBounds) else
      Pow256Of8();
      Got(FromBigEndian(d[..8]), d[8..])
  }

  lemma ReadU64Exact(d: Bytes, v: u64, rest: Bytes)
    ensures ReadU64(d) == Got(v, rest) <==> d == U64Bytes(v) + rest
  {
    if d == U64Bytes(v) + rest {
      assert d[..8] == U64Bytes(v) && d[8..] == rest;
      U64RoundTrip(v);
    }
    if ReadU64(d) == Got(v, rest) {
      FromBigEndianRoundTrip(d[..8]);
      assert d == d[..8] + d[8..];
    }
  }

  function Decode(d: Bytes): Read<MvccKey> {
    if d == [] then Failed(OutOfBounds)
    else if d[0] == 0 then Got(NextVersion, d[1..])
    else if d[0] == 1 then
      match ReadU64(d[1..])
      case Failed(e) => Failed(e)
      case Got(v, rest) => Got(TxnActive(v), rest)
    else if d[0] == 2 then
      match ReadU64(d[1..])
      case Failed(e) => Failed(e)
      case Got(v, rest) =>
        match ReadEscaped(rest)
        case Failed(e) => Failed(e)
        case Got(key, rest') => Got(TxnWrite(v, key), rest')
    else if d[0] == 3 then
      match ReadEscaped(d[1..])
      case Failed(e) => Failed(e)
      case Got(key, rest) =>
        match ReadU64(rest)
        case Failed(e) => Failed(e)
        case Got(v, rest') => Got(Version(key, v), rest')
    else Failed(UnknownVariant)
  }

  method DecodeKey(data: Bytes) returns (r: Read<MvccKey>)
    ensures r == Decode(data)
  {
    var der := new Deserializer(data);
    var tag := der.TakeBytes(1);
    if tag.Failed? { return Failed(tag.reason); }
    if tag.value[0] == 0 {
      return Got(NextVersion, der.input);
    } else if tag.value[0] == 1 {
      var v := DecodeU64(der);
      return if v.Failed? then Failed(v.reason) else Got(TxnActive(v.value), der.input);
    } else if tag.value[0] == 2 {
      var v := DecodeU64(der);
      if v.Failed? { return Failed(v.reason); }
      var key := der.NextBytes();
      return if key.Failed? then Failed(key.reason) else Got(TxnWrite(v.value, key.value), der.input);
    } else if tag.value[0] == 3 {
      var key := der.NextBytes();
      if key.Failed? { return Failed(key.reason); }
      var v := DecodeU64(der);
      return if v.Failed? then Failed(v.reason) else Got(Version(key.value, v.value), der.input);
    } else {
      return Failed(UnknownVariant);
    }
  }

  method DecodeU64(der: Deserializer) returns (r: Read<u64>)
    modifies der
    ensures r == ReadU64(old(der.input))
    ensures der.input == if r.Got? then r.rest else old(der.input)
  {
    var bytes := der.TakeBytes(8);
    if bytes.Failed? { return Failed(bytes.reason); }
    Pow256Of8();
    r := Got(FromBigEndian(bytes.value), der.input);
  }

  /** The part of a concatenation after its first byte. */
  lemma TailOf(tag: byte, a: Bytes, b: Bytes, c: Bytes)
    ensures ([tag] + a + b + c)[0] == tag && ([tag] + a + b + c)[1..] == a + (b + c)
  {
  }

  lemma DecodesWrite(v: u64, key: Bytes, rest: Bytes)
    ensures Decode(Encode(TxnWrite(v, key)) + rest) == Got(TxnWrite(v, key), rest)
  {
    var u, e := U64Bytes(v), Terminated(key);
    TailOf(2, u, e, rest);
    ReadU64Exact(u + (e + rest), v, e + rest);
    ReadEscapedExact(e + rest, key, rest);
  }

  lemma DecodesVersion(key: Bytes, v: u64, rest: Bytes)
    ensures Decode(Encode(Version(key, v)) + rest) == Got(Version(key, v), rest)
  {
    var u, e := U64Bytes(v), Terminated(key);
    TailOf(3, e, u, rest);
    ReadEscapedExact(e + (u + rest), key, u + rest);
    ReadU64Exact(u + rest, v, rest);
  }

  lemma DecodesWhatWasEncoded(k: MvccKey, rest: Bytes)
    ensures Decode(Encode(k) + rest) == Got(k, rest)
  {
    match k {
      case NextVersion =>
        assert (Encode(k) + rest)[1..] == rest;
      case TxnActive(v) =>
        assert (Encode(k) + rest)[1..] == U64Bytes(v) + rest;
        ReadU64Exact(U64Bytes(v) + rest, v, rest);
      case TxnWrite(v, key) =>
        DecodesWrite(v, key, rest);
      case Version(key, v) =>
        DecodesVersion(key, v, rest);
    }
  }

  lemma DecodesOnlyEncoded(d: Bytes)
    ensures var r := Decode(d); r.Got? ==> d == Encode(r.value) + r.rest
  {
    var r := Decode(d);
    if r.Got? {
      var t := d[1..];
      assert d == [d[0]] + t;
      match r.value {
        case NextVersion =>
        case TxnActive(v) =>
          ReadU64Exact(t, v, r.rest);
          assert d == [1] + U64Bytes(v) + r.rest;
        case TxnWrite(v, key) =>
          ReadU64Exact(t, v, ReadU64(t).rest);
          ReadEscapedExact(ReadU64(t).rest, key, r.rest);
          assert d == [2] + U64Bytes(v) + Terminated(key) + r.rest;
        case Version(key, v) =>
          ReadEscapedExact(t, key, ReadEscaped(t).rest);
          ReadU64Exact(ReadEscaped(t).rest, v, r.rest);
          assert d == [3] + Terminated(key) + U64Bytes(v) + r.rest;
      }
    }
  }

  /** Decoding succeeds exactly on an encoded key, and leaves exactly the bytes that follow it. */
  lemma DecodeExact(d: Bytes, k: MvccKey, rest: Bytes)
    ensures Decode(d) == Got(k, rest) <==> d == Encode(k) + rest
  {
    DecodesWhatWasEncoded(k, rest);
    DecodesOnlyEncoded(d);
  }

  lemma RoundTrip(k: MvccKey)
    ensures Decode(Encode(k)) == Got(k, [])
  {
    assert Encode(k) + [] == Encode(k);
    DecodeExact(Encode(k), k, []);
  }

  /** No encoded key is a prefix of another one. */
  lemma PrefixFree(k: MvccKey, l: MvccKey)
    ensures Encode(k) <= Encode(l) <==> k == l
  {
    if Encode(k) <= Encode(l) {
      DecodeExact(Encode(l), k, Encode(l)[|Encode(k)|..]);
      RoundTrip(l);
    }
  }

  // ---------------------------------------------------------------- order

  /** The order of the keys as tuples: kind first, then the fields from left to right. */
  predicate KeyLess(k: MvccKey, l: MvccKey) {
    match (k, l)
    case (TxnActive(v), TxnActive(w)) => v < w
    case (TxnWrite(v, a), TxnWrite(w, b)) => v < w || (v == w && Less(a, b))
    case (Version(a, v), Version(b, w)) => Less(a, b) || (a == b && v < w)
    case _ => Kind(k) < Kind(l)
  }

  function Kind(k: MvccKey): byte {
    match k
    case NextVersion => 0
    case TxnActive(_) => 1
    case TxnWrite(_, _) => 2
    case Version(_, _) => 3
  }

  /** Encoded keys compare as the keys do. */
  lemma OrderPreserved(k: MvccKey, l: MvccKey)
    ensures Less(Encode(k), Encode(l)) <==> KeyLess(k, l)
  {
    assert Encode(k)[0] == Kind(k) && Encode(l)[0] == Kind(l);
    match (k, l) {
      case (TxnActive(v), TxnActive(w)) =>
        LessAfterPrefix([1], U64Bytes(v), U64Bytes(w));
        U64Order(v, w);
      case (TxnWrite(v, a), TxnWrite(w, b)) =>
        WriteOrder(v, a, w, b);
      case (Version(a, v), Version(b, w)) =>
        VersionOrder(a, v, b, w);
      case _ =>
        if k == l { LessIrreflexive(Encode(k)); }
    }
  }

  lemma WriteOrder(v: u64, a: Bytes, w: u64, b: Bytes)
    ensures Less(Encode(TxnWrite(v, a)), Encode(TxnWrite(w, b))) <==> v < w || (v == w && Less(a, b))
  {
    var x, y := U64Bytes(v), U64Bytes(w);
    U64Order(v, w);
    U64Order(w, v);
    assert Encode(TxnWrite(v, a)) == [2] + (x + Terminated(a));
    assert Encode(TxnWrite(w, b)) == [2] + (y + Terminated(b));
    LessAfterPrefix([2], x + Terminated(a), y + Terminated(b));
    if v < w {
      LessBeforeSuffix(x, y, Terminated(a), Terminated(b));
    } else if w < v {
      LessBeforeSuffix(y, x, Terminated(b), Terminated(a));
      LessAsymmetric(y + Terminated(b), x + Terminated(a));
    } else {
      LessAfterPrefix(x, Terminated(a), Terminated(b));
      if a == b {
        LessIrreflexive(a);
        LessIrreflexive(Terminated(a));
      } else {
        TerminatedOrder(a, b, [], []);
        assert Terminated(a) + [] == Terminated(a) && Terminated(b) + [] == Terminated(b);
      }
    }
  }

  lemma VersionOrder(a: Bytes, v: u64, b: Bytes, w: u64)
    ensures Less(Encode(Version(a, v)), Encode(Version(b, w))) <==> Less(a, b) || (a == b && v < w)
  {
    var x, y := U64Bytes(v), U64Bytes(w);
    assert Encode(Version(a, v)) == [3] + (Terminated(a) + x);
    assert Encode(Version(b, w)) == [3] + (Terminated(b) + y);
    LessAfterPrefix([3], Terminated(a) + x, Terminated(b) + y);
    if a == b {
      LessIrreflexive(a);
      LessAfterPrefix(Terminated(a), x, y);
      U64Order(v, w);
    } else {
      TerminatedOrder(a, b, x, y);
    }
  }

  /** Between two versions of one key lie exactly the versions of that key in between. */
  lemma VersionRangeExact(key: Bytes, lo: u64, hi: u64, k: MvccKey)
    ensures AtMost(Encode(Version(key, lo)), Encode(k)) && AtMost(Encode(k), Encode(Version(key, hi)))
       <==> k.Version? && k.key == key && lo <= k.version <= hi
  {
    OrderPreserved(Version(key, lo), k);
    OrderPreserved(k, Version(key, hi));
    PrefixFree(Version(key, lo), k);
    PrefixFree(k, Version(key, hi));
    if k.Version? {
      LessIrreflexive(key);
      if Less(key, k.key) { LessAsymmetric(key, k.key); }
    }
  }

  // ---------------------------------------------------------------- prefixes

  predicate HasPrefix(k: MvccKey, p: MvccKeyPrefix) {
    match p
    case AllActive => k.TxnActive?
    case WritesOf(v) => k.TxnWrite? && k.version == v
    case VersionsOf(key) => k.Version? && k.key == key
  }

  lemma PrefixExact(k: MvccKey, p: MvccKeyPrefix)
    ensures EncodePrefix(p) <= Encode(k) <==> HasPrefix(k, p)
  {
    assert Encode(k)[0] == Kind(k);
    match p {
      case AllActive =>
      case WritesOf(v) =>
        if k.TxnWrite? { WritesPrefix(v, k.version, k.key); }
      case VersionsOf(key) =>
        if k.Version? { VersionsPrefix(key, k.key, k.version); }
    }
  }

  lemma WritesPrefix(v: u64, w: u64, key: Bytes)
    ensures [2] + U64Bytes(v) <= [2] + U64Bytes(w) + Terminated(key) <==> v == w
  {
    var x, y := U64Bytes(v), U64Bytes(w);
    U64Order(v, w);
    assert ([2] + y + Terminated(key))[..9] == [2] + y;
    assert ([2] + x)[1..] == x && ([2] + y)[1..] == y;
  }

  lemma VersionsPrefix(p: Bytes, key: Bytes, v: u64)
    ensures [3] + Terminated(p) <= [3] + Terminated(key) + U64Bytes(v) <==> p == key
  {
    var u := U64Bytes(v);
    var whole := [3] + Terminated(key) + u;
    if [3] + Terminated(p) <= whole && p != key {
      var rest := whole[|Terminated(p)| + 1..];
      assert whole == [3] + Terminated(p) + rest;
      assert whole[1..] == Terminated(p) + rest && whole[1..] == Terminated(key) + u;
      TerminatedOrder(p, key, rest, u);
    }
  }

  /** An encoded version prefix without its terminator. */
  function TruncatedPrefix(prefix: Bytes): Bytes {
    [3] + Escaped(prefix)
  }

  lemma TruncatedPrefixIs(prefix: Bytes)
    ensures var enc := EncodePrefix(VersionsOf(prefix));
      |enc| >= 2 && enc[..|enc| - 2] == TruncatedPrefix(prefix)
  {
  }

  /** Cutting the terminator off an encoded prefix leaves the versions of all keys with that raw prefix. */
  lemma TruncatedPrefixExact(k: MvccKey, prefix: Bytes)
    ensures TruncatedPrefix(prefix) <= Encode(k) <==> k.Version? && prefix <= k.key
  {
    if k.Version? {
      var rest := Terminated(k.key) + U64Bytes(k.version);
      assert Encode(k) == [3] + rest;
      PrefixAfterPrefix([3], Escaped(prefix), rest);
      EscapedPrefix(prefix, k.key, U64Bytes(k.version));
    } else {
      assert Encode(k)[0] == Kind(k) != 3;
    }
  }
}
