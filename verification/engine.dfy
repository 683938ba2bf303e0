/** The ordered byte map under the transaction layer, its range scans and its prefix scans. */
module StorageEngine {
  import opened ByteOrder

  datatype Bound = Included(key: Bytes) | Excluded(key: Bytes) | Unbounded

  predicate InRange(k: Bytes, start: Bound, end: Bound) {
    && (match start
        case Included(s) => AtMost(s, k)
        case Excluded(s) => Less(s, k)
        case Unbounded => true)
    && (match end
        case Included(e) => AtMost(k, e)
        case Excluded(e) => Less(k, e)
        case Unbounded => true)
  }

  /** `BTreeMap::range` panics unless this holds of its bounds. */
  predicate RangeOk(start: Bound, end: Bound) {
    start.Unbounded? || end.Unbounded? || Less(start.key, end.key)
    || (start.key == end.key && !(start.Excluded? && end.Excluded?))
  }

  function Entries<V>(data: map<Bytes, V>, ks: seq<Bytes>): (items: seq<(Bytes, V)>)
    requires forall k :: k in ks ==> k in data
    ensures |items| == |ks|
    ensures forall i :: 0 <= i < |ks| ==> items[i] == (ks[i], data[ks[i]])
  {
    if ks == [] then [] else [(ks[0], data[ks[0]])] + Entries(data, ks[1..])
  }

  /** The entries a scan yields, front to back. */
  function RangeItems<V>(data: map<Bytes, V>, start: Bound, end: Bound): (items: seq<(Bytes, V)>) {
    Entries(data, Sorted(set k | k in data && InRange(k, start, end)))
  }

  /** Iterating over a set of keys gives their entries, once each, in key order. */
  lemma EntriesAre<V>(data: map<Bytes, V>, keys: set<Bytes>)
    requires keys <= data.Keys
    ensures var items := Entries(data, Sorted(keys));
      && (forall i, j :: 0 <= i < j < |items| ==> Less(items[i].0, items[j].0))
      && (forall k, v :: (k, v) in items <==> k in keys && data[k] == v)
  {
  }

  /** A scan yields exactly the entries with keys in its range, in key order. */
  lemma RangeItemsAre<V>(data: map<Bytes, V>, start: Bound, end: Bound)
    ensures var items := RangeItems(data, start, end);
      && (forall i, j :: 0 <= i < j < |items| ==> Less(items[i].0, items[j].0))
      && (forall k, v :: (k, v) in items <==> k in data && data[k] == v && InRange(k, start, end))
  {
    EntriesAre(data, set k | k in data && InRange(k, start, end));
  }

  // ---------------------------------------------------------------- prefix bounds

  /** The upper bound of a prefix scan: drop trailing 255s, then add one to the last byte. */
  function PrefixEnd(prefix: Bytes): Bound {
    if prefix == [] then Unbounded
    else
      var front, last := prefix[..|prefix| - 1], prefix[|prefix| - 1];
      if last == 255 then PrefixEnd(front) else Excluded(front + [last + 1])
  }

  /** Between `q b` and `q (b+1)` lie exactly the strings that start with `q b`. */
  lemma {:induction false} BetweenNeighbours(q: Bytes, b: byte, x: Bytes)
    requires b < 255
    ensures AtMost(q + [b], x) && Less(x, q + [b + 1]) <==> q + [b] <= x
  {
    if q == [] {
      assert q + [b] == [b] && q + [b + 1] == [b + 1] && [b][1..] == [b + 1][1..] == [];
      if x != [] {
        assert x == [x[0]] + x[1..];
        assert [b] <= x <==> x[0] == b;
        assert Less(x, [b + 1]) <==> x[0] < b + 1;
        assert x[0] == b ==> x == [b] || Less([], x[1..]);
      }
    } else if x != [] && x[0] == q[0] {
      BetweenNeighbours(q[1..], b, x[1..]);
      assert (q + [b])[1..] == q[1..] + [b] && (q + [b + 1])[1..] == q[1..] + [b + 1];
      assert x == [x[0]] + x[1..] && q + [b] == [q[0]] + (q[1..] + [b]);
      assert q + [b] <= x <==> q[1..] + [b] <= x[1..] by {
        if q[1..] + [b] <= x[1..] { assert x[..|q| + 1] == [x[0]] + x[1..][..|q|]; }
        if q + [b] <= x { assert x[1..][..|q|] == (q + [b])[1..]; }
      }
    } else {
      assert (q + [b])[0] == q[0] && (q + [b + 1])[0] == q[0];
    }
  }

  /** A byte string lies in the range of a prefix scan exactly when it starts with the prefix. */
  lemma {:induction false} PrefixRangeExact(prefix: Bytes, x: Bytes)
    ensures InRange(x, Included(prefix), PrefixEnd(prefix)) <==> prefix <= x
  {
    if prefix != [] {
      var q, b := prefix[..|prefix| - 1], prefix[|prefix| - 1];
      assert prefix == q + [b];
      if b < 255 {
        BetweenNeighbours(q, b, x);
      } else {
        PrefixRangeExact(q, x);
        if prefix <= x { StartsAtOrAfter(prefix, x); }
        if AtMost(prefix, x) { AfterLongerPrefix(q, x); }
      }
    }
  }

  lemma StartsAtOrAfter(prefix: Bytes, x: Bytes)
    requires prefix <= x
    ensures AtMost(prefix, x)
  {
    var rest := x[|prefix|..];
    assert x == prefix + rest;
    assert prefix + [] == prefix;
    if rest != [] { LessAfterPrefix(prefix, [], rest); }
  }

  /** Above `q 255`, a string starts with `q` only if it starts with `q 255`. */
  lemma AfterLongerPrefix(q: Bytes, x: Bytes)
    requires AtMost(q + [255], x)
    ensures AtMost(q, x)
    ensures q <= x ==> q + [255] <= x
  {
    StartsAtOrAfter(q, q + [255]);
    if q + [255] != x && q != q + [255] { LessTransitive(q, q + [255], x); }
    if q <= x {
      var rest := x[|q|..];
      assert x == q + rest;
      if q + [255] != x {
        LessAfterPrefix(q, [255], rest);
        assert rest == [rest[0]] + rest[1..];
      }
    }
  }

  lemma {:induction false} PrefixEndAbove(prefix: Bytes)
    ensures PrefixEnd(prefix).Unbounded? || (PrefixEnd(prefix).Excluded? && Less(prefix, PrefixEnd(prefix).key))
  {
    if prefix != [] {
      var q, b := prefix[..|prefix| - 1], prefix[|prefix| - 1];
      assert prefix == q + [b];
      if b < 255 {
        LessAfterPrefix(q, [b], [b + 1]);
      } else {
        PrefixEndAbove(q);
        PrefixRangeExact(q, prefix);
        assert q <= prefix;
      }
    }
  }

  /** `scan_prefix` in the engine interface: the carry over 255 on a copy of the prefix. */
  method PrefixRange(prefix: Bytes) returns (start: Bound, end: Bound)
    ensures start == Included(prefix) && end == PrefixEnd(prefix)
    ensures forall x: Bytes :: InRange(x, start, end) <==> prefix <= x
    ensures RangeOk(start, end)
  {
    start := Included(prefix);
    var bound := prefix;
    var pos := |bound|;
    assert bound[..pos] == prefix;
    while pos > 0 && bound[pos - 1] == 255
      invariant 0 <= pos <= |prefix| && bound == prefix
      invariant PrefixEnd(prefix) == PrefixEnd(prefix[..pos])
    {
      assert prefix[..pos][..pos - 1] == prefix[..pos - 1];
      pos := pos - 1;
    }
    if pos == 0 {
      end := Unbounded;
    } else {
      assert prefix[..pos][..pos - 1] == prefix[..pos - 1];
      bound := bound[pos - 1 := bound[pos - 1] + 1];
      bound := bound[..pos];
      assert bound == prefix[..pos - 1] + [prefix[pos - 1] + 1];
      end := Excluded(bound);
    }
    forall x: Bytes ensures InRange(x, start, end) <==> prefix <= x { PrefixRangeExact(prefix, x); }
    PrefixEndAbove(prefix);
  }

  // ---------------------------------------------------------------- the in-memory engine

  /** The in-memory engine: a `BTreeMap` from byte keys to stored values. */
  class MemoryEngine<V> {
    var data: map<Bytes, V>

    constructor ()
      ensures data == map[]
    {
      data := map[];
    }

    method Set(key: Bytes, value: V)
      modifies this
      ensures data == old(data)[key := value]
    {
      data := data[key := value];
    }

    method Get(key: Bytes) returns (r: Option<V>)
      ensures r == Find(data, key)
    {
      r := Find(data, key);
    }

    method Delete(key: Bytes)
      modifies this
      ensures data == old(data) - {key}
    {
      data := data - {key};
    }

    method Scan(start: Bound, end: Bound) returns (items: seq<(Bytes, V)>)
      requires RangeOk(start, end)
      ensures items == RangeItems(data, start, end)
    {
      items := RangeItems(data, start, end);
    }

    /** Yields the entries whose key starts with `prefix`, and no others, in key order. */
    method ScanPrefix(prefix: Bytes) returns (items: seq<(Bytes, V)>)
      ensures items == Entries(data, Sorted(set k | k in data && prefix <= k))
    {
      var start, end := PrefixRange(prefix);
      items := Scan(start, end);
      assert (set k | k in data && prefix <= k) == (set k | k in data && InRange(k, start, end));
    }
  }
}
