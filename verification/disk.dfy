/** The append-only log engine: an index of offsets into a growing file, replayed on opening and
    rewritten by compaction. */
module LogEngine {
  import opened ByteOrder
  import opened KeyCode
  import opened StorageEngine

  const LOG_HEADER_SIZE := 8

  type KeyDir = map<Bytes, (nat, nat)>

  /** A log record: a value written under a key, or a tombstone. */
  datatype Entry = Entry(key: Bytes, value: Option<Bytes>)

  /** The lengths the header can express: a u32 total and a value length that is a positive i32. */
  predicate Fits(e: Entry) {
    && LOG_HEADER_SIZE + |e.key| + |ValueBytes(e)| < 0x1_0000_0000
    && |ValueBytes(e)| < 0x8000_0000
  }

  function ValueBytes(e: Entry): Bytes {
    if e.value.Some? then e.value.value else []
  }

  /** `i32::to_be_bytes` and `i32::from_be_bytes` in two's complement; what does not fit is cut off by the cast. */
  function I32Bytes(n: int): (s: Bytes)
    requires n >= -0x8000_0000
    ensures |s| == 4
  {
    BigEndian(if n < 0 then n + 0x1_0000_0000 else n, 4)
  }

  function FromI32(s: Bytes): (n: int) {
    var u := FromBigEndian(s);
    if u >= 0x8000_0000 then u - 0x1_0000_0000 else u
  }

  function ValueSize(e: Entry): (n: int)
    ensures n >= -1 && (n == -1 <==> e.value.None?)
  {
    if e.value.Some? then |e.value.value| else -1
  }

  function EntrySize(key: Bytes, value: Bytes): nat {
    LOG_HEADER_SIZE + |key| + |value|
  }

  function EncodeEntry(e: Entry): (s: Bytes)
    ensures |s| == EntrySize(e.key, ValueBytes(e))
  {
    BigEndian(|e.key|, 4) + I32Bytes(ValueSize(e)) + e.key + ValueBytes(e)
  }

  ghost predicate AllFit(es: seq<Entry>) {
    forall i :: 0 <= i < |es| ==> Fits(es[i])
  }

  /** Where the first n records end. */
  function EndOf(es: seq<Entry>, n: nat): nat
    requires n <= |es|
  {
    if n == 0 then 0 else EndOf(es, n - 1) + EntrySize(es[n - 1].key, ValueBytes(es[n - 1]))
  }

  /** The bytes of the first n records. */
  function LogUpTo(es: seq<Entry>, n: nat): (file: Bytes)
    requires n <= |es|
    ensures |file| == EndOf(es, n)
  {
    if n == 0 then [] else LogUpTo(es, n - 1) + EncodeEntry(es[n - 1])
  }

  function EncodeLog(es: seq<Entry>): Bytes
  {
    LogUpTo(es, |es|)
  }

  // ---------------------------------------------------------------- what a log means

  /** The key/value map after the first n records have been applied in order. */
  function ReplayUpTo(es: seq<Entry>, n: nat): map<Bytes, Bytes>
    requires n <= |es|
  {
    if n == 0 then map[] else
      var m, e := ReplayUpTo(es, n - 1), es[n - 1];
      if e.value.Some? then m[e.key := e.value.value] else m - {e.key}
  }

  function Replay(es: seq<Entry>): map<Bytes, Bytes> {
    ReplayUpTo(es, |es|)
  }

  /** Where the value of each key that is live after n records lies in the file. */
  function KeydirUpTo(es: seq<Entry>, n: nat): KeyDir
    requires n <= |es|
  {
    if n == 0 then map[] else
      var before, e := KeydirUpTo(es, n - 1), es[n - 1];
      if e.value.Some? then before[e.key := (EndOf(es, n - 1) + LOG_HEADER_SIZE + |e.key|, |e.value.value|)]
      else before - {e.key}
  }

  function KeydirOf(es: seq<Entry>): KeyDir
  {
    KeydirUpTo(es, |es|)
  }

  /** What the first n records of a log amount to depends on no others. */
  lemma UpToSame(es: seq<Entry>, es': seq<Entry>, n: nat)
    requires n <= |es| && n <= |es'| && es[..n] == es'[..n]
    ensures LogUpTo(es, n) == LogUpTo(es', n)
    ensures KeydirUpTo(es, n) == KeydirUpTo(es', n)
    ensures ReplayUpTo(es, n) == ReplayUpTo(es', n)
  {
    forall i | 0 <= i < n ensures es[i] == es'[i] { assert es[..n][i] == es'[..n][i]; }
    ReplayUpToSame(es, es', n);
    LogUpToSame(es, es', n);
    KeydirUpToSame(es, es', n);
  }

  lemma {:induction false} ReplayUpToSame(es: seq<Entry>, es': seq<Entry>, n: nat)
    requires n <= |es| && n <= |es'| && forall i :: 0 <= i < n ==> es[i] == es'[i]
    ensures ReplayUpTo(es, n) == ReplayUpTo(es', n)
  {
    if n > 0 { ReplayUpToSame(es, es', n - 1); }
  }

  lemma {:induction false} LogUpToSame(es: seq<Entry>, es': seq<Entry>, n: nat)
    requires n <= |es| && n <= |es'| && forall i :: 0 <= i < n ==> es[i] == es'[i]
    ensures LogUpTo(es, n) == LogUpTo(es', n)
  {
    if n > 0 {
      var e := es[n - 1];
      assert e == es'[n - 1];
      LogUpToSame(es, es', n - 1);
    }
  }

  lemma {:induction false} KeydirUpToSame(es: seq<Entry>, es': seq<Entry>, n: nat)
    requires n <= |es| && n <= |es'| && forall i :: 0 <= i < n ==> es[i] == es'[i]
    ensures EndOf(es, n) == EndOf(es', n)
    ensures KeydirUpTo(es, n) == KeydirUpTo(es', n)
  {
    if n > 0 { KeydirUpToSame(es, es', n - 1); }
  }

  /** Appending a record to the log. */
  lemma Snoc(es: seq<Entry>, e: Entry)
    requires AllFit(es) && Fits(e)
    ensures AllFit(es + [e])
    ensures EncodeLog(es + [e]) == EncodeLog(es) + EncodeEntry(e)
    ensures Replay(es + [e]) == if e.value.Some? then Replay(es)[e.key := e.value.value] else Replay(es) - {e.key}
    ensures KeydirOf(es + [e]) ==
      if e.value.Some? then KeydirOf(es)[e.key := (|EncodeLog(es)| + LOG_HEADER_SIZE + |e.key|, |e.value.value|)]
      else KeydirOf(es) - {e.key}
  {
    UpToSame(es + [e], es, |es|);
  }

  lemma {:induction false} LogGrows(es: seq<Entry>, n: nat, m: nat)
    requires n <= m <= |es|
    ensures LogUpTo(es, n) <= LogUpTo(es, m)
    decreases m
  {
    if n < m { LogGrows(es, n, m - 1); }
  }

  lemma ValueAtEnd(file: Bytes, e: Entry)
    requires Fits(e)
    ensures var offset := |file| + LOG_HEADER_SIZE + |e.key|;
      (file + EncodeEntry(e))[offset..offset + |ValueBytes(e)|] == ValueBytes(e)
  {
  }

  lemma SliceOfFront(file: Bytes, tail: Bytes, offset: nat, size: nat)
    requires offset + size <= |file|
    ensures (file + tail)[offset..offset + size] == file[offset..offset + size]
  {
  }

  ghost predicate Locates(keydir: KeyDir, file: Bytes, m: map<Bytes, Bytes>, key: Bytes) {
    && (key in keydir <==> key in m)
    && (key in keydir ==>
          keydir[key].0 + keydir[key].1 <= |file| && file[keydir[key].0..keydir[key].0 + keydir[key].1] == m[key])
  }

  /** Reading through an offset of the index yields the last value set and not deleted. */
  lemma {:induction false} KeydirLocates(es: seq<Entry>, n: nat, key: Bytes)
    requires AllFit(es) && n <= |es|
    ensures Locates(KeydirUpTo(es, n), LogUpTo(es, n), ReplayUpTo(es, n), key)
  {
    if n > 0 {
      KeydirLocates(es, n - 1, key);
      var file, e := LogUpTo(es, n - 1), es[n - 1];
      if key == e.key {
        ValueAtEnd(file, e);
      } else if key in KeydirUpTo(es, n - 1) {
        var (offset, size) := KeydirUpTo(es, n - 1)[key];
        SliceOfFront(file, EncodeEntry(e), offset, size);
      }
    }
  }

  lemma {:induction false} LiveValuesFit(es: seq<Entry>, n: nat, key: Bytes)
    requires AllFit(es) && n <= |es| && key in ReplayUpTo(es, n)
    ensures Fits(Entry(key, Some(ReplayUpTo(es, n)[key])))
  {
    if key != es[n - 1].key { LiveValuesFit(es, n - 1, key); }
  }

  // ---------------------------------------------------------------- reading a record

  /** What `read_entry` finds at an offset; reading past the end of the file is an error. */
  function ReadAt(file: Bytes, offset: nat): Option<(Bytes, int)> {
    if offset + 8 > |file| then None else
      var keySize := FromBigEndian(file[offset..offset + 4]);
      var valSize := FromI32(file[offset + 4..offset + 8]);
      if offset + 8 + keySize > |file| then None
      else Some((file[offset + 8..offset + 8 + keySize], valSize))
  }

  lemma I32RoundTrip(n: int)
    requires -0x8000_0000 <= n < 0x8000_0000
    ensures FromI32(I32Bytes(n)) == n
  {
    Pow256Of8();
    BigEndianRoundTrip(if n < 0 then n + 0x1_0000_0000 else n, 4);
  }

  /** The four parts of a record, read at their places in the file. */
  lemma PartsInFile(file: Bytes, before: Bytes, a: Bytes, b: Bytes, c: Bytes, d: Bytes)
    requires before + (a + b + c + d) <= file
    ensures var o := |before|;
      && o + |a| + |b| + |c| + |d| <= |file|
      && file[o..o + |a|] == a
      && file[o + |a|..o + |a| + |b|] == b
      && file[o + |a| + |b|..o + |a| + |b| + |c|] == c
      && file[o + |a| + |b| + |c|..o + |a| + |b| + |c| + |d|] == d
  {
  }

  lemma ReadsBack(file: Bytes, before: Bytes, e: Entry)
    requires Fits(e) && before + EncodeEntry(e) <= file
    ensures ReadAt(file, |before|) == Some((e.key, ValueSize(e)))
  {
    PartsInFile(file, before, BigEndian(|e.key|, 4), I32Bytes(ValueSize(e)), e.key, ValueBytes(e));
    Pow256Of8();
    BigEndianRoundTrip(|e.key|, 4);
    I32RoundTrip(ValueSize(e));
  }

  /** The n-th record lies where the first n end. */
  lemma NextRecord(es: seq<Entry>, n: nat)
    requires n < |es|
    ensures LogUpTo(es, n) + EncodeEntry(es[n]) <= EncodeLog(es)
    ensures |LogUpTo(es, n)| < |LogUpTo(es, n + 1)| <= |EncodeLog(es)|
  {
    LogGrows(es, n + 1, |es|);
  }

  /** Where building the index stands after n records. */
  ghost predicate IndexedUpTo(keydir: KeyDir, offset: nat, es: seq<Entry>, n: nat) {
    AllFit(es) && n <= |es| && offset == EndOf(es, n) && keydir == KeydirUpTo(es, n)
  }

  lemma IndexNext(keydir: KeyDir, offset: nat, es: seq<Entry>, n: nat)
    requires IndexedUpTo(keydir, offset, es, n) && offset < |EncodeLog(es)|
    ensures n < |es|
    ensures ReadAt(EncodeLog(es), offset) == Some((es[n].key, ValueSize(es[n]))) && ValueSize(es[n]) >= -1
    ensures ValueSize(es[n]) == -1 ==>
      IndexedUpTo(keydir - {es[n].key}, offset + |es[n].key| + LOG_HEADER_SIZE, es, n + 1)
    ensures ValueSize(es[n]) != -1 ==>
      IndexedUpTo(keydir[es[n].key := (offset + LOG_HEADER_SIZE + |es[n].key|, ValueSize(es[n]))],
                  offset + |es[n].key| + LOG_HEADER_SIZE + ValueSize(es[n]), es, n + 1)
  {
    RecordRead(es, n);
    OneMoreIndexed(es, n);
  }

  lemma RecordRead(es: seq<Entry>, n: nat)
    requires AllFit(es) && n < |es|
    ensures ReadAt(EncodeLog(es), EndOf(es, n)) == Some((es[n].key, ValueSize(es[n])))
  {
    NextRecord(es, n);
    ReadsBack(EncodeLog(es), LogUpTo(es, n), es[n]);
  }

  lemma OneMoreIndexed(es: seq<Entry>, n: nat)
    requires n < |es|
    ensures EndOf(es, n + 1)
         == EndOf(es, n) + LOG_HEADER_SIZE + |es[n].key| + (if ValueSize(es[n]) == -1 then 0 else ValueSize(es[n]))
    ensures KeydirUpTo(es, n + 1)
         == if ValueSize(es[n]) == -1 then KeydirUpTo(es, n) - {es[n].key}
            else KeydirUpTo(es, n)[es[n].key := (EndOf(es, n) + LOG_HEADER_SIZE + |es[n].key|, ValueSize(es[n]))]
  {
  }

  lemma IndexEnds(keydir: KeyDir, offset: nat, es: seq<Entry>, n: nat)
    requires IndexedUpTo(keydir, offset, es, n) && offset >= |EncodeLog(es)|
    ensures keydir == KeydirOf(es)
  {
    if n < |es| { NextRecord(es, n); }
  }

  // ---------------------------------------------------------------- the log file

  class Log {
    var file: Bytes

    constructor (file: Bytes)
      ensures this.file == file
    {
      this.file := file;
    }

    method WriteEntry(key: Bytes, value: Option<Bytes>) returns (offset: nat, total: nat)
      requires Fits(Entry(key, value))
      modifies this
      ensures file == old(file) + EncodeEntry(Entry(key, value))
      ensures offset == |old(file)| && total == |EncodeEntry(Entry(key, value))|
    {
      offset := |file|;
      var keySize := |key|;
      var valSize := if value.Some? then |value.value| else 0;
      total := keySize + valSize + LOG_HEADER_SIZE;
      file := file + BigEndian(keySize, 4);
      file := file + I32Bytes(if value.Some? then |value.value| else -1);
      file := file + key;
      if value.Some? { file := file + value.value; }
    }

    method ReadValue(offset: nat, size: nat) returns (r: Option<Bytes>)
      ensures r == if offset + size <= |file| then Some(file[offset..offset + size]) else None
    {
      r := if offset + size <= |file| then Some(file[offset..offset + size]) else None;
    }

    method ReadEntry(offset: nat) returns (r: Option<(Bytes, int)>)
      ensures r == ReadAt(file, offset)
    {
      if offset + 4 > |file| { return None; }
      var keySize := FromBigEndian(file[offset..offset + 4]);
      if offset + 8 > |file| { return None; }
      var valSize := FromI32(file[offset + 4..offset + 8]);
      if offset + 8 + keySize > |file| { return None; }
      return Some((file[offset + 8..offset + 8 + keySize], valSize));
    }

    /** Replays the whole file; on a file of whole records no read fails. */
    method BuildKeydir(ghost es: seq<Entry>) returns (r: Option<KeyDir>)
      requires AllFit(es) && file == EncodeLog(es)
      ensures r == Some(KeydirOf(es))
    {
      var keydir: KeyDir := map[];
      var offset: nat := 0;
      ghost var n := 0;
      while offset < |file|
        invariant IndexedUpTo(keydir, offset, es, n)
        decreases |es| - n
      {
        IndexNext(keydir, offset, es, n);
        var entry := ReadEntry(offset);
        if entry.None? { return None; }
        var (key, valSize) := entry.value;
        if valSize == -1 {
          keydir := keydir - {key};
          offset := offset + |key| + LOG_HEADER_SIZE;
        } else {
          keydir := keydir[key := (offset + LOG_HEADER_SIZE + |key|, valSize)];
          offset := offset + |key| + LOG_HEADER_SIZE + valSize;
        }
        n := n + 1;
      }
      IndexEnds(keydir, offset, es, n);
      return Some(keydir);
    }
  }

  // ---------------------------------------------------------------- the engine

  /** The index is what replaying a file of these records would build. */
  ghost predicate Indexes(keydir: KeyDir, file: Bytes, es: seq<Entry>) {
    AllFit(es) && file == EncodeLog(es) && keydir == KeydirOf(es)
  }

  class DiskEngine {
    var keydir: KeyDir
    var log: Log
    ghost var entries: seq<Entry>

    /** The index is what replaying the whole file would build. */
    ghost predicate Valid()
      reads this, log
    {
      Indexes(keydir, log.file, entries)
    }

    ghost function Contents(): map<Bytes, Bytes>
      reads this
    {
      Replay(entries)
    }

    /** Opening a file of whole records. */
    constructor Open(file: Bytes, ghost es: seq<Entry>)
      requires AllFit(es) && file == EncodeLog(es)
      ensures Valid() && fresh(log)
      ensures log.file == file && entries == es
    {
      log := new Log(file);
      entries := es;
      keydir := map[];
      new;
      var built := log.BuildKeydir(es);
      keydir := built.value;
    }

    method Set(key: Bytes, value: Bytes)
      requires Valid() && Fits(Entry(key, Some(value)))
      modifies this`keydir, this`entries, log
      ensures Valid() && entries == old(entries) + [Entry(key, Some(value))]
      ensures Contents() == old(Contents())[key := value]
    {
      var offset, size := log.WriteEntry(key, Some(value));
      Snoc(entries, Entry(key, Some(value)));
      var valSize := |value|;
      keydir := keydir[key := (offset + size - valSize, valSize)];
      entries := entries + [Entry(key, Some(value))];
    }

    method Get(key: Bytes) returns (r: Option<Bytes>)
      requires Valid()
      ensures r == Find(Contents(), key)
    {
      KeydirKeys(entries);
      if key in keydir {
        var value := ReadIndexed(key);
        r := Some(value);
      } else {
        r := None;
      }
    }

    method Delete(key: Bytes)
      requires Valid() && Fits(Entry(key, None))
      modifies this`keydir, this`entries, log
      ensures Valid() && entries == old(entries) + [Entry(key, None)]
      ensures Contents() == old(Contents()) - {key}
    {
      var offset, size := log.WriteEntry(key, None);
      Snoc(entries, Entry(key, None));
      keydir := keydir - {key};
      entries := entries + [Entry(key, None)];
    }

    /** A scan yields what the in-memory engine yields on the same map, and no read fails. */
    method Scan(start: Bound, end: Bound) returns (items: seq<(Bytes, Bytes)>)
      requires Valid() && RangeOk(start, end)
      ensures items == RangeItems(Contents(), start, end)
    {
      KeydirKeys(entries);
      assert (set k | k in keydir && InRange(k, start, end)) == (set k | k in Contents() && InRange(k, start, end));
      var ks := Sorted(set k | k in keydir && InRange(k, start, end));
      items := ReadAll(ks);
    }

    /** The prefix scan of the engine interface, over the scan of this engine. */
    method ScanPrefix(prefix: Bytes) returns (items: seq<(Bytes, Bytes)>)
      requires Valid()
      ensures items == Entries(Contents(), Sorted(set k | k in Contents() && prefix <= k))
    {
      var start, end := PrefixRange(prefix);
      items := Scan(start, end);
      assert (set k | k in Contents() && prefix <= k) == (set k | k in Contents() && InRange(k, start, end));
    }

    /** The iterator of a scan, driven to its end. */
    method ReadAll(ks: seq<Bytes>) returns (items: seq<(Bytes, Bytes)>)
      requires Valid() && forall k :: k in ks ==> k in keydir && k in Contents()
      ensures items == Entries(Contents(), ks)
    {
      items := [];
      ghost var m := Contents();
      for i := 0 to |ks|
        invariant |items| == i
        invariant forall j {:trigger items[j]} :: 0 <= j < i ==> items[j] == (ks[j], m[ks[j]])
      {
        assert ks[i] in ks;
        var value := ReadIndexed(ks[i]);
        items := items + [(ks[i], value)];
      }
    }

    /** `log.read_value` through the index: on a valid engine it never reads past the end of the file. */
    method ReadIndexed(key: Bytes) returns (value: Bytes)
      requires Valid() && key in keydir
      ensures key in Contents() && value == Contents()[key]
      ensures |value| == keydir[key].1
    {
      KeydirLocates(entries, |entries|, key);
      var r := log.ReadValue(keydir[key].0, keydir[key].1);
      value := r.value;
    }

    /** One turn of the compaction loop: a live value goes to the end of the new log and index. */
    method CopyEntry(newLog: Log, newKeydir: KeyDir, key: Bytes, ghost copied: seq<Entry>) returns (keydir': KeyDir)
      requires Valid() && key in keydir && newLog != log
      requires Indexes(newKeydir, newLog.file, copied)
      modifies newLog
      ensures key in Contents()
      ensures Indexes(keydir', newLog.file, copied + [Entry(key, Some(Contents()[key]))])
    {
      var valSize := keydir[key].1;
      var value := ReadIndexed(key);
      LiveValuesFit(entries, |entries|, key);
      Snoc(copied, Entry(key, Some(value)));
      var newOffset, newSize := newLog.WriteEntry(key, Some(value));
      keydir' := newKeydir[key := (newOffset + newSize - valSize, valSize)];
    }

    /** The loop of a compaction: the live values, key by key, into a new log. */
    method CopyLive(newLog: Log, ks: seq<Bytes>) returns (newKeydir: KeyDir)
      requires Valid() && newLog != log && newLog.file == []
      requires forall k :: k in ks ==> k in keydir && k in Contents()
      modifies newLog
      ensures Indexes(newKeydir, newLog.file, LiveEntries(ks, Contents()))
    {
      newKeydir := map[];
      ghost var m, all := Contents(), LiveEntries(ks, Contents());
      assert all[..0] == [];
      for i := 0 to |ks|
        invariant Indexes(newKeydir, newLog.file, all[..i])
      {
        NextLive(ks, m, all, i);
        newKeydir := CopyEntry(newLog, newKeydir, ks[i], all[..i]);
      }
      assert all[..|ks|] == all;
    }

    /** Rewrites the live entries, in key order, into a file that was empty. */
    method Compact()
      requires Valid()
      modifies this
      ensures Valid() && fresh(log)
      ensures Contents() == old(Contents())
      ensures |log.file| == LiveSize(Contents().Keys, Contents())
      ensures |log.file| <= |old(log.file)|
    {
      KeydirKeys(entries);
      var newLog := new Log([]);
      var ks := Sorted(keydir.Keys);
      var newKeydir := CopyLive(newLog, ks);
      CompactedLog(ks, Contents(), entries);
      ghost var copied := LiveEntries(ks, Contents());
      keydir := newKeydir;
      log := newLog;
      entries := copied;
    }
  }

  // ---------------------------------------------------------------- compaction

  /** One record for each of these keys. */
  ghost function LiveEntries(ks: seq<Bytes>, m: map<Bytes, Bytes>): (es: seq<Entry>)
    requires forall k :: k in ks ==> k in m
    ensures |es| == |ks|
    ensures forall i {:trigger es[i]} :: 0 <= i < |ks| ==> ks[i] in m && es[i] == Entry(ks[i], Some(m[ks[i]]))
  {
    if ks == [] then [] else
      assert ks[|ks| - 1] in ks && forall k :: k in ks[..|ks| - 1] ==> k in ks;
      LiveEntries(ks[..|ks| - 1], m) + [Entry(ks[|ks| - 1], Some(m[ks[|ks| - 1]]))]
  }

  lemma NextLive(ks: seq<Bytes>, m: map<Bytes, Bytes>, all: seq<Entry>, i: nat)
    requires (forall k :: k in ks ==> k in m) && all == LiveEntries(ks, m) && i < |ks|
    ensures ks[i] in ks && ks[i] in m && all[..i + 1] == all[..i] + [Entry(ks[i], Some(m[ks[i]]))]
  {
  }

  lemma {:induction false} LiveEntriesReplayTo(ks: seq<Bytes>, m: map<Bytes, Bytes>, n: nat)
    requires n <= |ks| && forall k :: k in ks ==> k in m
    ensures ReplayUpTo(LiveEntries(ks, m), n) == map k | k in m && k in ks[..n] :: m[k]
  {
    if n > 0 {
      LiveEntriesReplayTo(ks, m, n - 1);
      assert ks[..n] == ks[..n - 1] + [ks[n - 1]];
      assert LiveEntries(ks, m)[n - 1] == Entry(ks[n - 1], Some(m[ks[n - 1]]));
    }
  }

  lemma LiveEntriesReplay(ks: seq<Bytes>, m: map<Bytes, Bytes>)
    requires forall k :: k in ks <==> k in m
    ensures Replay(LiveEntries(ks, m)) == m
  {
    LiveEntriesReplayTo(ks, m, |ks|);
    assert ks[..|ks|] == ks;
  }

  lemma KeydirKeys(es: seq<Entry>)
    requires AllFit(es)
    ensures KeydirOf(es).Keys == Replay(es).Keys
  {
    forall key ensures key in KeydirOf(es) <==> key in Replay(es) { KeydirLocates(es, |es|, key); }
  }

  /** One record for each live key means the same as the log it replaces, and no log can be shorter. */
  lemma CompactedLog(ks: seq<Bytes>, m: map<Bytes, Bytes>, es: seq<Entry>)
    requires Ascending(ks) && forall k :: k in ks <==> k in m
    requires AllFit(LiveEntries(ks, m)) && AllFit(es) && Replay(es) == m
    ensures Replay(LiveEntries(ks, m)) == m
    ensures |EncodeLog(LiveEntries(ks, m))| == LiveSize(m.Keys, m)
    ensures |EncodeLog(LiveEntries(ks, m))| <= |EncodeLog(es)|
  {
    LiveEntriesReplay(ks, m);
    AscendingIsDistinct(ks);
    LiveEntriesSize(LiveEntries(ks, m), ks, m, |ks|);
    assert ks[..|ks|] == ks;
    assert Elements(ks) == m.Keys;
    NoShorterLog(es, |es|);
  }

  function Elements(s: seq<Bytes>): set<Bytes> {
    set k | k in s
  }

  /** The bytes one record for each of these keys would take. */
  ghost function LiveSize(keys: set<Bytes>, m: map<Bytes, Bytes>): nat
    requires keys <= m.Keys
  {
    if keys == {} then 0 else
      var k :| k in keys;
      EntrySize(k, m[k]) + LiveSize(keys - {k}, m)
  }

  /** The sum does not depend on the order of the keys. */
  lemma {:induction false} LiveSizeWithout(keys: set<Bytes>, m: map<Bytes, Bytes>, key: Bytes)
    requires keys <= m.Keys && key in keys
    ensures LiveSize(keys, m) == EntrySize(key, m[key]) + LiveSize(keys - {key}, m)
    decreases |keys|
  {
    var k :| k in keys && LiveSize(keys, m) == EntrySize(k, m[k]) + LiveSize(keys - {k}, m);
    if k != key {
      LiveSizeWithout(keys - {k}, m, key);
      LiveSizeWithout(keys - {key}, m, k);
      assert keys - {k} - {key} == keys - {key} - {k};
    }
  }

  lemma {:induction false} LiveSizeSame(keys: set<Bytes>, m: map<Bytes, Bytes>, m': map<Bytes, Bytes>)
    requires keys <= m.Keys && keys <= m'.Keys && forall k :: k in keys ==> m[k] == m'[k]
    ensures LiveSize(keys, m) == LiveSize(keys, m')
    decreases |keys|
  {
    if keys != {} {
      var k :| k in keys;
      LiveSizeWithout(keys, m, k);
      LiveSizeWithout(keys, m', k);
      LiveSizeSame(keys - {k}, m, m');
    }
  }

  lemma {:induction false} LiveEntriesSize(es: seq<Entry>, ks: seq<Bytes>, m: map<Bytes, Bytes>, n: nat)
    requires n <= |ks| == |es| && Distinct(ks) && Elements(ks) <= m.Keys
    requires forall i :: 0 <= i < |ks| ==> es[i] == EntryFor(ks[i], m)
    ensures Elements(ks[..n]) <= m.Keys && EndOf(es, n) == LiveSize(Elements(ks[..n]), m)
  {
    if n > 0 {
      LiveEntriesSize(es, ks, m, n - 1);
      LastIsFresh(ks, n);
      OneMoreLive(es, n, ks[n - 1], Elements(ks[..n - 1]), Elements(ks[..n]), m);
    }
  }

  ghost function EntryFor(key: Bytes, m: map<Bytes, Bytes>): Entry {
    Entry(key, if key in m then Some(m[key]) else None)
  }

  lemma OneMoreLive(es: seq<Entry>, n: nat, key: Bytes, before: set<Bytes>, here: set<Bytes>, m: map<Bytes, Bytes>)
    requires 0 < n <= |es| && es[n - 1] == EntryFor(key, m)
    requires key in here && here - {key} == before && here <= m.Keys && EndOf(es, n - 1) == LiveSize(before, m)
    ensures EndOf(es, n) == LiveSize(here, m)
  {
    LiveSizeWithout(here, m, key);
  }

  ghost predicate Distinct(ks: seq<Bytes>) {
    forall i, j :: 0 <= i < j < |ks| ==> ks[i] != ks[j]
  }

  lemma AscendingIsDistinct(ks: seq<Bytes>)
    requires Ascending(ks)
    ensures Distinct(ks)
  {
    forall i, j | 0 <= i < j < |ks| ensures ks[i] != ks[j] { LessIrreflexive(ks[i]); }
  }

  lemma LastIsFresh(ks: seq<Bytes>, n: nat)
    requires Distinct(ks) && 0 < n <= |ks|
    ensures Elements(ks[..n]) - {ks[n - 1]} == Elements(ks[..n - 1])
    ensures ks[n - 1] in Elements(ks[..n])
  {
  }

  /** No log with the same meaning is shorter than one record for each live key. */
  lemma {:induction false} NoShorterLog(es: seq<Entry>, n: nat)
    requires AllFit(es) && n <= |es|
    ensures LiveSize(ReplayUpTo(es, n).Keys, ReplayUpTo(es, n)) <= |LogUpTo(es, n)|
  {
    if n > 0 {
      NoShorterLog(es, n - 1);
      LiveSizeStep(ReplayUpTo(es, n - 1), es[n - 1], ReplayUpTo(es, n));
    }
  }

  /** A record adds at most its own size to the live bytes. */
  lemma LiveSizeStep(m: map<Bytes, Bytes>, e: Entry, m': map<Bytes, Bytes>)
    requires m' == if e.value.Some? then m[e.key := e.value.value] else m - {e.key}
    ensures LiveSize(m'.Keys, m') <= LiveSize(m.Keys, m) + LOG_HEADER_SIZE + |e.key| + |ValueBytes(e)|
  {
    var others := m.Keys - {e.key};
    assert LiveSize(others, m) <= LiveSize(m.Keys, m) by {
      if e.key in m { LiveSizeWithout(m.Keys, m, e.key); } else { assert others == m.Keys; }
    }
    LiveSizeSame(others, m, m');
    if e.value.Some? {
      assert m'.Keys - {e.key} == others;
      LiveSizeWithout(m'.Keys, m', e.key);
    } else {
      assert m'.Keys == others;
    }
  }

  // ---------------------------------------------------------------- files and runs

  lemma SameRecord(file: Bytes, before: Bytes, e: Entry, e': Entry)
    requires Fits(e) && Fits(e')
    requires before + EncodeEntry(e) <= file && before + EncodeEntry(e') <= file
    ensures e == e'
  {
    ReadsBack(file, before, e);
    ReadsBack(file, before, e');
    SameParts(file, before, e, e');
  }

  lemma SameParts(file: Bytes, before: Bytes, e: Entry, e': Entry)
    requires Fits(e) && Fits(e') && e.key == e'.key && ValueSize(e) == ValueSize(e')
    requires before + EncodeEntry(e) <= file && before + EncodeEntry(e') <= file
    ensures e == e'
  {
    PartsInFile(file, before, BigEndian(|e.key|, 4), I32Bytes(ValueSize(e)), e.key, ValueBytes(e));
    PartsInFile(file, before, BigEndian(|e'.key|, 4), I32Bytes(ValueSize(e')), e'.key, ValueBytes(e'));
  }

  /** Two readings of a file that agree on n records agree on the next. */
  lemma SameNext(es: seq<Entry>, es': seq<Entry>, n: nat)
    requires AllFit(es) && AllFit(es') && EncodeLog(es) == EncodeLog(es')
    requires n < |es| && n < |es'| && LogUpTo(es, n) == LogUpTo(es', n)
    ensures es[n] == es'[n]
  {
    NextRecord(es, n);
    NextRecord(es', n);
    SameRecord(EncodeLog(es), LogUpTo(es, n), es[n], es'[n]);
  }

  lemma EndOfAll(es: seq<Entry>, n: nat)
    requires n <= |es| && EndOf(es, n) == |EncodeLog(es)|
    ensures n == |es|
  {
    if n < |es| { NextRecord(es, n); }
  }

  /** A file of whole records has one reading only, so its bytes alone determine index and contents. */
  lemma {:induction false} FileDeterminesRecords(es: seq<Entry>, es': seq<Entry>, n: nat)
    requires AllFit(es) && AllFit(es') && EncodeLog(es) == EncodeLog(es')
    requires n <= |es| && n <= |es'| && es[..n] == es'[..n]
    ensures es == es'
    decreases |es| - n
  {
    UpToSame(es, es', n);
    if n < |es| && n < |es'| {
      SameNext(es, es', n);
      assert es[..n + 1] == es[..n] + [es[n]] && es'[..n + 1] == es'[..n] + [es'[n]];
      FileDeterminesRecords(es, es', n + 1);
    } else {
      OneEnds(es, es', n);
    }
  }

  lemma OneEnds(es: seq<Entry>, es': seq<Entry>, n: nat)
    requires n <= |es| && n <= |es'| && (n == |es| || n == |es'|) && es[..n] == es'[..n]
    requires EncodeLog(es) == EncodeLog(es') && LogUpTo(es, n) == LogUpTo(es', n)
    ensures es == es'
  {
    EndOfAll(es, n);
    EndOfAll(es', n);
    assert es == es[..n] && es' == es'[..n];
  }

  /** What a client of an engine does, and what may happen to a log engine in between. */
  datatype LogOp =
    | SetOp(key: Bytes, value: Bytes)
    | DeleteOp(key: Bytes)
    | GetOp(key: Bytes)
    | ScanOp(start: Bound, end: Bound)
    | PrefixOp(prefix: Bytes)
    | ReopenOp
    | CompactOp

  datatype Answer = Done | Value(value: Option<Bytes>) | Items(items: seq<(Bytes, Bytes)>)

  predicate OpFits(op: LogOp) {
    match op
    case SetOp(key, value) => Fits(Entry(key, Some(value)))
    case DeleteOp(key) => Fits(Entry(key, None))
    case ScanOp(start, end) => RangeOk(start, end)
    case _ => true
  }

  /** What a run of operations means for an ordered map. */
  function AfterOps(ops: seq<LogOp>): map<Bytes, Bytes> {
    if ops == [] then map[] else
      AfterOp(AfterOps(ops[..|ops| - 1]), ops[|ops| - 1])
  }

  function AfterOp(m: map<Bytes, Bytes>, op: LogOp): map<Bytes, Bytes> {
    match op
    case SetOp(key, value) => m[key := value]
    case DeleteOp(key) => m - {key}
    case _ => m
  }

  /** What an ordered map answers. */
  function AnswerOf(m: map<Bytes, Bytes>, op: LogOp): Answer {
    match op
    case GetOp(key) => Value(Find(m, key))
    case ScanOp(start, end) => Items(RangeItems(m, start, end))
    case PrefixOp(prefix) => Items(Entries(m, Sorted(set k | k in m && prefix <= k)))
    case _ => Done
  }

  function AnswersOf(ops: seq<LogOp>): seq<Answer> {
    if ops == [] then [] else
      var front := ops[..|ops| - 1];
      AnswersOf(front) + [AnswerOf(AfterOps(front), ops[|ops| - 1])]
  }

  /** What is found under a key is what was set there last, and nothing if it was deleted since or never set. */
  lemma {:induction false} LastSetIsFound(ops: seq<LogOp>, key: Bytes, value: Bytes)
    ensures Find(AfterOps(ops), key) == Some(value)
       <==> exists n :: 0 <= n < |ops| && ops[n] == SetOp(key, value) && UntouchedSince(ops, n, key)
  {
    if ops != [] {
      var front, last := ops[..|ops| - 1], |ops| - 1;
      LastSetIsFound(front, key, value);
      forall n | 0 <= n < last
        ensures UntouchedSince(ops, n, key) <==> UntouchedSince(front, n, key) && !Touches(ops[last], key)
      {
        assert forall k :: n < k < last ==> ops[k] == front[k];
      }
      assert UntouchedSince(ops, last, key);
    }
  }

  predicate Touches(op: LogOp, key: Bytes) {
    (op.SetOp? || op.DeleteOp?) && op.key == key
  }

  predicate UntouchedSince(ops: seq<LogOp>, n: int, key: Bytes) {
    forall k :: 0 <= n < k < |ops| ==> !Touches(ops[k], key)
  }

  method PerformOnLog(engine: DiskEngine, op: LogOp) returns (engine': DiskEngine, answer: Answer)
    requires engine.Valid() && OpFits(op)
    modifies engine, engine.log
    ensures engine'.Valid()
    ensures engine'.Contents() == AfterOp(old(engine.Contents()), op)
    ensures answer == AnswerOf(old(engine.Contents()), op)
    ensures (engine' == engine || fresh(engine')) && (engine'.log == old(engine.log) || fresh(engine'.log))
  {
    engine', answer := engine, Done;
    if op.SetOp? {
      engine.Set(op.key, op.value);
    } else if op.DeleteOp? {
      engine.Delete(op.key);
    } else if op.GetOp? {
      var value := engine.Get(op.key);
      answer := Value(value);
    } else if op.ScanOp? {
      var items := engine.Scan(op.start, op.end);
      answer := Items(items);
    } else if op.PrefixOp? {
      var items := engine.ScanPrefix(op.prefix);
      answer := Items(items);
    } else if op.ReopenOp? {
      engine' := new DiskEngine.Open(engine.log.file, engine.entries);
    } else {
      engine.Compact();
    }
  }

  /** Any run of operations, reopenings and compactions gives the answers of an ordered map and leaves that map. */
  method RunLog(ops: seq<LogOp>) returns (engine: DiskEngine, answers: seq<Answer>)
    requires forall i :: 0 <= i < |ops| ==> OpFits(ops[i])
    ensures engine.Valid() && engine.Contents() == AfterOps(ops)
    ensures answers == AnswersOf(ops)
  {
    engine := new DiskEngine.Open([], []);
    answers := [];
    for i := 0 to |ops|
      invariant fresh(engine) && fresh(engine.log)
      invariant engine.Valid() && engine.Contents() == AfterOps(ops[..i]) && answers == AnswersOf(ops[..i])
    {
      assert ops[..i + 1][..i] == ops[..i];
      var answer;
      engine, answer := PerformOnLog(engine, ops[i]);
      answers := answers + [answer];
    }
    assert ops[..|ops|] == ops;
  }

  /** So does the in-memory engine, for which there is nothing to reopen or compact: no client can tell them apart. */
  method RunMemory(ops: seq<LogOp>) returns (engine: MemoryEngine<Bytes>, answers: seq<Answer>)
    requires forall i :: 0 <= i < |ops| ==> OpFits(ops[i])
    ensures engine.data == AfterOps(ops) && answers == AnswersOf(ops)
  {
    engine := new MemoryEngine<Bytes>();
    answers := [];
    for i := 0 to |ops|
      invariant fresh(engine) && engine.data == AfterOps(ops[..i]) && answers == AnswersOf(ops[..i])
    {
      assert ops[..i + 1][..i] == ops[..i];
      var answer := PerformInMemory(engine, ops[i]);
      answers := answers + [answer];
    }
    assert ops[..|ops|] == ops;
  }

  method PerformInMemory(engine: MemoryEngine<Bytes>, op: LogOp) returns (answer: Answer)
    requires OpFits(op)
    modifies engine
    ensures engine.data == AfterOp(old(engine.data), op)
    ensures answer == AnswerOf(old(engine.data), op)
  {
    answer := Done;
    match op {
      case SetOp(key, value) => engine.Set(key, value);
      case DeleteOp(key) => engine.Delete(key);
      case GetOp(key) =>
        var value := engine.Get(key);
        answer := Value(value);
      case ScanOp(start, end) =>
        var items := engine.Scan(start, end);
        answer := Items(items);
      case PrefixOp(prefix) =>
        var items := engine.ScanPrefix(prefix);
        answer := Items(items);
      case _ =>
    }
  }
}
