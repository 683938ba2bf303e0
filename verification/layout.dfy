/** The bytes that keys, log records and values are written as, and the order of rows they lead to. */
module Layouts {
  import opened ByteOrder
  import opened KeyCode
  import opened Ast
  import LogEngine
  import Backends
  import MvccState
  import MvccKeys
  import TableKeys

  // ---------------------------------------------------------------- numbers and strings

  lemma SmallNumber(n: byte)
    ensures U64Bytes(n) == [0, 0, 0, 0, 0, 0, 0, n]
  {
    assert n / 256 == 0 && n % 256 == n;
    assert BigEndian(0, 3) == [0, 0, 0];
    assert BigEndian(0, 7) == BigEndian(0, 3) + [0, 0, 0, 0];
  }

  lemma SmallWord(n: byte)
    ensures BigEndian(n, 4) == [0, 0, 0, n]
  {
    assert n / 256 == 0 && n % 256 == n;
    assert BigEndian(0, 3) == [0, 0, 0];
  }

  function Ones(n: nat): (s: Bytes)
    ensures |s| == n
  {
    if n == 0 then [] else Ones(n - 1) + [255]
  }

  lemma {:induction false} LargestNumber(n: nat)
    ensures BigEndian(Pow256(n) - 1, n) == Ones(n)
  {
    if n > 0 {
      var p := Pow256(n - 1);
      assert Pow256(n) == 256 * p && (256 * p - 1) / 256 == p - 1 && (256 * p - 1) % 256 == 255;
      LargestNumber(n - 1);
    }
  }

  /** Two's complement, in eight bytes and in four. */
  lemma MinusOne()
    ensures I64Bytes(-1) == [255, 255, 255, 255, 255, 255, 255, 255]
    ensures LogEngine.I32Bytes(-1) == [255, 255, 255, 255]
  {
    Pow256Of8();
    LargestNumber(8);
    LargestNumber(4);
    AllOnes();
  }

  lemma AllOnes()
    ensures Ones(4) == [255, 255, 255, 255]
    ensures Ones(8) == [255, 255, 255, 255, 255, 255, 255, 255]
  {
    assert Ones(8) == Ones(4) + [255, 255, 255, 255];
  }

  /** A zero byte is followed by 255, and the string by two zeros. */
  lemma EscapedBytes(a: byte, b: byte)
    requires a != 0 && b != 0
    ensures Terminated([a, 0, b]) == [a, 0, 255, b, 0, 0]
  {
    EscapedOne(a);
    EscapedOne(0);
    EscapedOne(b);
    EscapedConcat([a], [0]);
    EscapedConcat([a] + [0], [b]);
    assert [a, 0, b] == [a] + [0] + [b];
  }

  lemma EscapedOne(a: byte)
    ensures Escaped([a]) == if a == 0 then [0, 255] else [a]
  {
    assert [a][1..] == [] && Escaped([]) == [];
  }

  // ---------------------------------------------------------------- keys and values of the transaction layer

  lemma MvccKeyBytes(n: byte, key: Bytes)
    ensures MvccKeys.Encode(MvccKeys.NextVersion) == [0]
    ensures MvccKeys.Encode(MvccKeys.TxnActive(n)) == [1, 0, 0, 0, 0, 0, 0, 0, n]
    ensures MvccKeys.Encode(MvccKeys.TxnWrite(n, key)) == [2, 0, 0, 0, 0, 0, 0, 0, n] + Terminated(key)
    ensures MvccKeys.Encode(MvccKeys.Version(key, n)) == [3] + Terminated(key) + [0, 0, 0, 0, 0, 0, 0, n]
  {
    SmallNumber(n);
  }

  lemma SmallLittle(n: byte)
    ensures Backends.LittleEndian(n, 8) == [n, 0, 0, 0, 0, 0, 0, 0]
  {
    assert n / 256 == 0 && n % 256 == n;
    assert Backends.LittleEndian(0, 3) == [0, 0, 0];
    assert Backends.LittleEndian(0, 7) == [0, 0, 0, 0] + Backends.LittleEndian(0, 3);
  }

  /** As bincode writes them: a little-endian counter, and the length of a value before its bytes. */
  lemma CounterBytes(n: byte)
    ensures Backends.Serialize(MvccState.Empty) == []
    ensures Backends.Serialize(MvccState.Counter(n)) == [n, 0, 0, 0, 0, 0, 0, 0]
  {
    SmallLittle(n);
  }

  lemma ValueBytes(value: Bytes)
    requires |value| < 256
    ensures Backends.Serialize(MvccState.Cell(None)) == [0]
    ensures Backends.Serialize(MvccState.Cell(Some(value))) == [1, |value|, 0, 0, 0, 0, 0, 0, 0] + value
  {
    SmallLittle(|value|);
  }

  /** A record of the log: the lengths of key and value, the key, the value; -1 marks a tombstone. */
  lemma LogRecordBytes(key: Bytes, value: Bytes)
    requires |key| < 256 && |value| < 256
    ensures LogEngine.EncodeEntry(LogEngine.Entry(key, Some(value)))
         == [0, 0, 0, |key|, 0, 0, 0, |value|] + key + value
    ensures LogEngine.EncodeEntry(LogEngine.Entry(key, None))
         == [0, 0, 0, |key|, 255, 255, 255, 255] + key
  {
    SmallWord(|key|);
    SmallWord(|value|);
    MinusOne();
  }

  // ---------------------------------------------------------------- keys of the table layer

  lemma TableValueBytes(n: byte, s: Text, bits: TableKeys.FloatBits)
    ensures TableKeys.EncodeValue(Null, bits) == [0]
    ensures TableKeys.EncodeValue(Boolean(false), bits) == [1, 0]
    ensures TableKeys.EncodeValue(Boolean(true), bits) == [1, 1]
    ensures TableKeys.EncodeValue(Integer(n), bits) == [2, 0, 0, 0, 0, 0, 0, 0, n]
    ensures TableKeys.EncodeValue(Integer(-1), bits) == [2, 255, 255, 255, 255, 255, 255, 255, 255]
    ensures TableKeys.EncodeValue(String(s), bits) == [4] + s
  {
    SmallNumber(n);
    MinusOne();
  }

  /** Table `t` and its row n. */
  lemma TableKeyBytes(n: byte, bits: TableKeys.FloatBits)
    ensures TableKeys.Encode(TableKeys.TableKey([116]), bits) == [0, 116]
    ensures TableKeys.Encode(TableKeys.RowKey([116], Integer(n)), bits) == [1, 116, 2, 0, 0, 0, 0, 0, 0, 0, n]
  {
    TableValueBytes(n, [], bits);
  }

  /** The entry for a text in column `b` of table `t`. */
  lemma IndexKeyBytes(s: Text, bits: TableKeys.FloatBits)
    ensures TableKeys.Encode(TableKeys.IndexKey([116], [98], String(s)), bits) == [2, 116, 98, 4] + s
  {
    TableValueBytes(0, s, bits);
  }

  lemma Regroup(a: Bytes, b: Bytes, c: Bytes, d: Bytes)
    ensures a + (b + c + d) == a + b + c + d && a + (b + d) == a + b + d
  {
  }

  /** A scan returns rows in the order of their keys' bytes: false before true, text by its bytes, floats by their
      bits, and integers in ascending order, but the negative ones after all others. */
  lemma RowOrderIs(t: Text, x: Value, y: Value, bits: TableKeys.FloatBits)
    requires (x.Boolean? && y.Boolean?) || (x.Integer? && y.Integer?) || (x.Float? && y.Float?)
             || (x.String? && y.String?)
    ensures Less(TableKeys.Encode(TableKeys.RowKey(t, x), bits), TableKeys.Encode(TableKeys.RowKey(t, y), bits))
       <==> match (x, y)
            case (Boolean(a), Boolean(b)) => !a && b
            case (Integer(a), Integer(b)) => if (a < 0) == (b < 0) then a < b else b < 0
            case (Float(a), Float(b)) => bits.toBits(a) < bits.toBits(b)
            case (String(a), String(b)) => Less(a, b)
  {
    Regroup([1], t, [], TableKeys.EncodeValue(x, bits));
    Regroup([1], t, [], TableKeys.EncodeValue(y, bits));
    LessAfterPrefix([1] + t, TableKeys.EncodeValue(x, bits), TableKeys.EncodeValue(y, bits));
    match (x, y) {
      case (Boolean(a), Boolean(b)) => LessAfterPrefix([1], [if a then 1 else 0], [if b then 1 else 0]);
      case (Integer(a), Integer(b)) =>
        LessAfterPrefix([2], I64Bytes(a), I64Bytes(b));
        U64Order(if a < 0 then a + 0x1_0000_0000_0000_0000 else a, if b < 0 then b + 0x1_0000_0000_0000_0000 else b);
      case (Float(a), Float(b)) =>
        LessAfterPrefix([3], U64Bytes(bits.toBits(a)), U64Bytes(bits.toBits(b)));
        U64Order(bits.toBits(a), bits.toBits(b));
      case (String(a), String(b)) => LessAfterPrefix([4], a, b);
    }
  }
}
