/** The keys of the table layer: tables, rows and index entries, written without terminators. */
module TableKeys {
  import opened Ast
  import opened ByteOrder
  import opened KeyCode
  import opened StorageEngine

  /** `f64::to_be_bytes` and its inverse, left open. */
  datatype FloatBits = FloatBits(toBits: real -> u64, fromBits: u64 -> real)

  /** Reals stand for floats; those that are floats are told apart by their bits. */
  predicate Machine(v: Value, bits: FloatBits) {
    v.Float? ==> bits.fromBits(bits.toBits(v.f)) == v.f
  }

  datatype Key =
    | TableKey(table: Text)
    | RowKey(table: Text, id: Value)
    | IndexKey(table: Text, column: Text, value: Value)

  /** What the lexer accepts as a name has no byte this small: they are letters, digits and underscores. */
  predicate Identifier(name: Text) {
    forall i :: 0 <= i < |name| ==> name[i] > 4
  }

  function EncodeValue(v: Value, bits: FloatBits): (s: Bytes)
    ensures s != [] && s[0] <= 4
  {
    match v
    case Null => [0]
    case Boolean(b) => [1, if b then 1 else 0]
    case Integer(i) => [2] + I64Bytes(i)
    case Float(f) => [3] + U64Bytes(bits.toBits(f))
    case String(s) => [4] + s
  }

  /** The position of the variant, then the fields one after the other. */
  function Encode(k: Key, bits: FloatBits): Bytes {
    [Tag(k)] + Fields(k, bits)
  }

  function Tag(k: Key): byte {
    match k
    case TableKey(_) => 0
    case RowKey(_, _) => 1
    case IndexKey(_, _, _) => 2
  }

  function Fields(k: Key, bits: FloatBits): Bytes {
    match k
    case TableKey(t) => t
    case RowKey(t, id) => t + EncodeValue(id, bits)
    case IndexKey(t, c, v) => t + c + EncodeValue(v, bits)
  }

  function RowPrefix(table: Text): Bytes {
    [1] + table
  }

  method EncodeKey(k: Key, bits: FloatBits) returns (bytes: Bytes)
    ensures bytes == Encode(k, bits)
  {
    var ser := new Serializer();
    match k {
      case TableKey(t) =>
        ser.SerializeUnitVariant(0);
        ser.SerializeStr(t);
      case RowKey(t, id) =>
        ser.SerializeUnitVariant(1);
        ser.SerializeStr(t);
        SerializeValue(ser, id, bits);
      case IndexKey(t, c, v) =>
        ser.SerializeUnitVariant(2);
        ser.SerializeStr(t);
        ser.SerializeStr(c);
        SerializeValue(ser, v, bits);
    }
    bytes := ser.output;
    assert bytes[1..] == Fields(k, bits);
  }

  method SerializeValue(ser: Serializer, v: Value, bits: FloatBits)
    modifies ser
    ensures ser.output == old(ser.output) + EncodeValue(v, bits)
  {
    ghost var before := ser.output;
    match v {
      case Null =>
        ser.SerializeUnitVariant(0);
      case Boolean(b) =>
        ser.SerializeUnitVariant(1);
        ser.SerializeBool(b);
        assert ser.output == before + ([1] + [if b then 1 else 0]);
      case Integer(i) =>
        ser.SerializeUnitVariant(2);
        ser.SerializeI64(i);
        assert ser.output == before + ([2] + I64Bytes(i));
      case Float(f) =>
        ser.SerializeUnitVariant(3);
        ser.SerializeU64(bits.toBits(f));
        assert ser.output == before + ([3] + U64Bytes(bits.toBits(f)));
      case String(s) =>
        ser.SerializeUnitVariant(4);
        ser.SerializeStr(s);
        assert ser.output == before + ([4] + s);
    }
  }

  // ---------------------------------------------------------------- which keys coincide

  /** Floats are told apart by their bits only. */
  predicate SameValue(v: Value, w: Value, bits: FloatBits) {
    v == w || (v.Float? && w.Float? && bits.toBits(v.f) == bits.toBits(w.f))
  }

  predicate SameKey(k: Key, l: Key, bits: FloatBits) {
    match (k, l)
    case (TableKey(t), TableKey(t')) => t == t'
    case (RowKey(t, v), RowKey(t', v')) => t == t' && SameValue(v, v', bits)
    case (IndexKey(t, c, v), IndexKey(t', c', v')) => t + c == t' + c' && SameValue(v, v', bits)
    case _ => false
  }

  predicate ProperlyNamed(k: Key) {
    Identifier(k.table) && (k.IndexKey? ==> Identifier(k.column))
  }

  /** The first small byte ends a name. */
  lemma {:induction false} NameEnds(a: Text, x: Bytes, b: Text, y: Bytes)
    requires Identifier(a) && Identifier(b)
    requires x != [] && x[0] <= 4 && y != [] && y[0] <= 4
    ensures a + x == b + y <==> a == b && x == y
    ensures a <= b + y <==> a <= b
  {
    if a != [] && b != [] && a[0] == b[0] {
      NameEnds(a[1..], x, b[1..], y);
      SameAfterPrefix([a[0]], a[1..] + x, b[1..] + y);
      PrefixAfterPrefix([a[0]], a[1..], b[1..] + y);
      PrefixAfterPrefix([a[0]], a[1..], b[1..]);
      assert a == [a[0]] + a[1..] && b == [b[0]] + b[1..];
      assert a + x == [a[0]] + (a[1..] + x) && b + y == [b[0]] + (b[1..] + y);
    } else if a == [] {
      assert a + x == x;
      if b == [] { assert b + y == y; } else { assert (b + y)[0] > 4; }
    } else {
      assert (a + x)[0] == a[0] > 4;
      assert (b + y)[0] == if b == [] then y[0] else b[0];
    }
  }

  lemma I64BytesInjective(i: i64, j: i64)
    ensures I64Bytes(i) == I64Bytes(j) <==> i == j
  {
    U64Order(if i < 0 then i + 0x1_0000_0000_0000_0000 else i, if j < 0 then j + 0x1_0000_0000_0000_0000 else j);
  }

  lemma ValuesCoincide(v: Value, w: Value, bits: FloatBits)
    ensures EncodeValue(v, bits) == EncodeValue(w, bits) <==> SameValue(v, w, bits)
  {
    assert EncodeValue(v, bits)[1..] == EncodeValue(w, bits)[1..] || EncodeValue(v, bits) != EncodeValue(w, bits);
    if v.Integer? && w.Integer? {
      I64BytesInjective(v.i, w.i);
      assert EncodeValue(v, bits)[1..] == I64Bytes(v.i) && EncodeValue(w, bits)[1..] == I64Bytes(w.i);
    }
    if v.Float? && w.Float? {
      U64Order(bits.toBits(v.f), bits.toBits(w.f));
      assert EncodeValue(v, bits)[1..] == U64Bytes(bits.toBits(v.f));
      assert EncodeValue(w, bits)[1..] == U64Bytes(bits.toBits(w.f));
    }
    if v.String? && w.String? {
      assert EncodeValue(v, bits)[1..] == v.s && EncodeValue(w, bits)[1..] == w.s;
    }
  }

  /** Two keys are written alike exactly when they are of one kind with equal values, and, for index entries,
      when table and column names only concatenate alike. */
  lemma KeysCoincideExactly(k: Key, l: Key, bits: FloatBits)
    requires ProperlyNamed(k) && ProperlyNamed(l)
    ensures Encode(k, bits) == Encode(l, bits) <==> SameKey(k, l, bits)
  {
    var x, y := Fields(k, bits), Fields(l, bits);
    assert Encode(k, bits)[1..] == x && Encode(l, bits)[1..] == y;
    assert Encode(k, bits) == Encode(l, bits) <==> Tag(k) == Tag(l) && x == y by {
      assert Encode(k, bits)[0] == Tag(k) && Encode(l, bits)[0] == Tag(l);
    }
    if Tag(k) == Tag(l) { FieldsCoincide(k, l, bits); }
  }

  lemma FieldsCoincide(k: Key, l: Key, bits: FloatBits)
    requires ProperlyNamed(k) && ProperlyNamed(l) && Tag(k) == Tag(l)
    ensures Fields(k, bits) == Fields(l, bits) <==> SameKey(k, l, bits)
  {
    if k.RowKey? {
      NameEnds(k.table, EncodeValue(k.id, bits), l.table, EncodeValue(l.id, bits));
      ValuesCoincide(k.id, l.id, bits);
    } else if k.IndexKey? {
      NameEnds(k.table + k.column, EncodeValue(k.value, bits), l.table + l.column, EncodeValue(l.value, bits));
      ValuesCoincide(k.value, l.value, bits);
    }
  }

  /** The row prefix of a table matches the rows of every table whose name extends its own, and nothing else. */
  lemma RowPrefixExact(table: Text, k: Key, bits: FloatBits)
    requires Identifier(table) && ProperlyNamed(k)
    ensures RowPrefix(table) <= Encode(k, bits) <==> k.RowKey? && table <= k.table
  {
    assert [1] + table <= [1] + Fields(k, bits) <==> table <= Fields(k, bits) by {
      PrefixAfterPrefix([1], table, Fields(k, bits));
    }
    if k.RowKey? {
      var x := EncodeValue(k.id, bits);
      NameEnds(table, x, k.table, x);
    } else {
      assert RowPrefix(table)[0] == 1 && Encode(k, bits)[0] != 1;
    }
  }
}
