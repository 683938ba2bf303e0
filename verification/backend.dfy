/** An engine as the transaction layer uses it: serialized values in memory or in a log file. */
module Backends {
  import opened ByteOrder
  import opened StorageEngine
  import opened MvccKeys
  import opened MvccState
  import opened LogEngine

  // ---------------------------------------------------------------- serialized values

  /** Fixed-width integers as bincode writes them. */
  function LittleEndian(n: nat, width: nat): (s: Bytes)
    ensures |s| == width
  {
    if width == 0 then [] else [n % 256] + LittleEndian(n / 256, width - 1)
  }

  function FromLittleEndian(s: Bytes): nat {
    if s == [] then 0 else s[0] + 256 * FromLittleEndian(s[1..])
  }

  function Capacity(width: nat): nat {
    if width == 0 then 1 else 256 * Capacity(width - 1)
  }

  lemma {:induction false} LittleEndianRoundTrip(n: nat, width: nat)
    requires n < Capacity(width)
    ensures FromLittleEndian(LittleEndian(n, width)) == n
  {
    if width > 0 { LittleEndianRoundTrip(n / 256, width - 1); }
  }

  /** Markers are empty; a counter has eight bytes, an option a tag and then the length and the bytes of its value. */
  function Serialize(v: Stored): Bytes {
    match v
    case Empty => []
    case Counter(n) => LittleEndian(n, 8)
    case Cell(None) => [0]
    case Cell(Some(value)) => [1] + LittleEndian(|value|, 8) + value
  }

  /** The three kinds are told apart by their lengths, so each is read as what it was written as. */
  function Deserialize(s: Bytes): Stored {
    if s == [] then Empty
    else if |s| == 1 then Cell(None)
    else if |s| <= 8 then Counter(FromLittleEndian(s) % 0x1_0000_0000_0000_0000)
    else Cell(Some(s[9..]))
  }

  lemma SerializeRoundTrip(v: Stored)
    ensures Deserialize(Serialize(v)) == v
  {
    if v.Counter? { EightBytes(v.n); }
  }

  lemma EightBytes(n: u64)
    ensures FromLittleEndian(LittleEndian(n, 8)) == n
  {
    assert Capacity(8) == 0x1_0000_0000_0000_0000 by { assert Capacity(4) == 0x1_0000_0000; }
    LittleEndianRoundTrip(n, 8);
  }

  function Serialized(data: map<Bytes, Stored>): map<Bytes, Bytes> {
    map key | key in data :: Serialize(data[key])
  }

  lemma SerializedSet(data: map<Bytes, Stored>, key: Bytes, value: Stored)
    ensures Serialized(data[key := value]) == Serialized(data)[key := Serialize(value)]
  {
  }

  function DeserializeItem(item: (Bytes, Bytes)): (Bytes, Stored) {
    (item.0, Deserialize(item.1))
  }

  lemma EntriesDeserialized(data: map<Bytes, Stored>, keys: seq<Bytes>, items: seq<(Bytes, Stored)>)
    requires forall k :: k in keys ==> k in data
    requires var raw := Entries(Serialized(data), keys);
      |items| == |raw| && forall i :: 0 <= i < |raw| ==> items[i] == DeserializeItem(raw[i])
    ensures items == Entries(data, keys)
  {
    forall i | 0 <= i < |items| ensures items[i] == Entries(data, keys)[i] {
      assert keys[i] in keys;
      SerializeRoundTrip(data[keys[i]]);
    }
  }

  // ---------------------------------------------------------------- the engine

  class Backend {
    const memory: MemoryEngine<Bytes>
    var disk: DiskEngine?
    ghost var data: map<Bytes, Stored>

    ghost function Repr(): set<object>
      reads this, disk
    {
      if disk == null then {this, memory} else var log: DiskEngine := disk; {this, memory, log, log.log}
    }

    /** The one engine in use holds the serialized values. */
    ghost predicate Valid()
      reads this, disk, Repr()
    {
      if disk == null then memory.data == Serialized(data) else disk.Valid() && disk.Contents() == Serialized(data)
    }

    /** In a log file, records must fit the lengths of their headers. */
    ghost predicate Room(key: Bytes, value: Option<Bytes>)
      reads this
    {
      disk != null ==> Fits(Entry(key, value))
    }

    constructor InMemory()
      ensures Valid() && data == map[] && disk == null && fresh(Repr())
    {
      memory := new MemoryEngine<Bytes>();
      disk := null;
      data := map[];
    }

    constructor OnDisk()
      ensures Valid() && data == map[] && disk != null && fresh(Repr())
    {
      memory := new MemoryEngine<Bytes>();
      disk := new DiskEngine.Open([], []);
      data := map[];
    }

    method Set(key: Bytes, value: Stored)
      requires Valid() && Room(key, Some(Serialize(value)))
      modifies Repr()
      ensures Valid() && data == old(data)[key := value] && disk == old(disk) && Repr() == old(Repr())
    {
      SerializedSet(data, key, value);
      if disk == null { memory.Set(key, Serialize(value)); } else { disk.Set(key, Serialize(value)); }
      data := data[key := value];
    }

    method Delete(key: Bytes)
      requires Valid() && Room(key, None)
      modifies Repr()
      ensures Valid() && data == old(data) - {key} && disk == old(disk) && Repr() == old(Repr())
    {
      if disk == null { memory.Delete(key); } else { disk.Delete(key); }
      data := data - {key};
    }

    method Get(key: Bytes) returns (r: Option<Stored>)
      requires Valid()
      ensures r == Find(data, key)
    {
      var stored;
      if disk == null { stored := memory.Get(key); } else { stored := disk.Get(key); }
      if stored.None? { return None; }
      SerializeRoundTrip(data[key]);
      return Some(Deserialize(stored.value));
    }

    method Scan(start: Bound, end: Bound) returns (items: seq<(Bytes, Stored)>)
      requires Valid() && RangeOk(start, end)
      ensures items == RangeItems(data, start, end)
    {
      var raw := ScanRaw(start, end);
      items := DeserializeAll(raw);
      ghost var keys := set k | k in data && InRange(k, start, end);
      assert keys == set k | k in Serialized(data) && InRange(k, start, end);
      EntriesDeserialized(data, Sorted(keys), items);
    }

    method ScanRaw(start: Bound, end: Bound) returns (raw: seq<(Bytes, Bytes)>)
      requires Valid() && RangeOk(start, end)
      ensures raw == RangeItems(Serialized(data), start, end)
    {
      if disk == null { raw := memory.Scan(start, end); } else { raw := disk.Scan(start, end); }
    }

    method ScanPrefix(prefix: Bytes) returns (items: seq<(Bytes, Stored)>)
      requires Valid()
      ensures items == Entries(data, Sorted(set k | k in data && prefix <= k))
    {
      var start, end := PrefixRange(prefix);
      items := Scan(start, end);
      assert (set k | k in data && prefix <= k) == (set k | k in data && InRange(k, start, end));
    }

    static method DeserializeAll(raw: seq<(Bytes, Bytes)>) returns (items: seq<(Bytes, Stored)>)
      ensures |items| == |raw| && forall i :: 0 <= i < |raw| ==> items[i] == DeserializeItem(raw[i])
    {
      items := seq(|raw|, i requires 0 <= i < |raw| => DeserializeItem(raw[i]));
    }

    /** Closing a log engine and opening its file again. */
    method Reopen()
      requires Valid()
      modifies Repr()
      ensures Valid() && data == old(data) && (disk == null <==> old(disk) == null)
      ensures fresh(Repr() - old(Repr()))
    {
      if disk != null { disk := new DiskEngine.Open(disk.log.file, disk.entries); }
    }

    method Compact()
      requires Valid()
      modifies Repr()
      ensures Valid() && data == old(data) && disk == old(disk)
      ensures fresh(Repr() - old(Repr()))
    {
      if disk != null { disk.Compact(); }
    }

    /** There is room for a tombstone of whatever is stored. */
    lemma RoomToDelete(key: Bytes)
      requires Valid() && key in data
      ensures Room(key, None)
    {
      if disk != null {
        assert key in Serialized(data);
        LiveValuesFit(disk.entries, |disk.entries|, key);
      }
    }
  }

  // ---------------------------------------------------------------- records of the transaction layer

  /** A write has room in a log file: a value length that is a positive i32, a total that is a u32. */
  predicate WriteFits(key: Bytes, value: Option<Bytes>) {
    Fits(Entry(Encode(Version(key, 0)), Some(Serialize(Cell(value)))))
  }

  lemma WriteHasRoom(version: u64, key: Bytes, value: Option<Bytes>)
    requires WriteFits(key, value)
    ensures Fits(Entry(Encode(TxnWrite(version, key)), Some(Serialize(Empty))))
    ensures Fits(Entry(Encode(Version(key, version)), Some(Serialize(Cell(value)))))
  {
  }

  lemma SameLength(version: u64, key: Bytes)
    ensures |Encode(TxnWrite(version, key))| == |Encode(Version(key, version))|
  {
  }

  lemma CounterHasRoom(version: u64)
    ensures Fits(Entry(Encode(NextVersion), Some(Serialize(Counter(version)))))
  {
  }

  lemma MarkerHasRoom(version: u64)
    ensures Fits(Entry(Encode(TxnActive(version)), Some(Serialize(Empty))))
    ensures Fits(Entry(Encode(TxnActive(version)), None))
  {
  }
}
