/** The order-preserving key codec: big-endian integers, escaped byte strings and enum tags. */
module KeyCode {
  import opened ByteOrder

  // ---------------------------------------------------------------- big-endian integers

  function Pow256(n: nat): (p: nat)
    ensures p > 0
  {
    if n == 0 then 1 else 256 * Pow256(n - 1)
  }

  /** `v.to_be_bytes()` for an integer of `n` bytes. */
  function BigEndian(v: nat, n: nat): (s: Bytes)
    ensures |s| == n
  {
    if n == 0 then [] else BigEndian(v / 256, n - 1) + [v % 256]
  }

  /** `from_be_bytes`. */
  function FromBigEndian(s: Bytes): (v: nat)
    ensures v < Pow256(|s|)
  {
    if s == [] then 0 else FromBigEndian(s[..|s| - 1]) * 256 + s[|s| - 1]
  }

  lemma {:induction false} BigEndianRoundTrip(v: nat, n: nat)
    requires v < Pow256(n)
    ensures FromBigEndian(BigEndian(v, n)) == v
  {
    if n > 0 {
      BigEndianRoundTrip(v / 256, n - 1);
      assert BigEndian(v, n)[..n - 1] == BigEndian(v / 256, n - 1);
    }
  }

  lemma {:induction false} FromBigEndianRoundTrip(s: Bytes)
    ensures BigEndian(FromBigEndian(s), |s|) == s
  {
    if s != [] {
      var front := s[..|s| - 1];
      FromBigEndianRoundTrip(front);
      assert s == front + [s[|s| - 1]];
      var v := FromBigEndian(s);
      assert v / 256 == FromBigEndian(front) && v % 256 == s[|s| - 1];
    }
  }

  /** Big-endian bytes compare as the numbers do. */
  lemma {:induction false} BigEndianOrder(v: nat, w: nat, n: nat)
    requires v < Pow256(n) && w < Pow256(n)
    ensures Less(BigEndian(v, n), BigEndian(w, n)) <==> v < w
  {
    if v == w {
      LessIrreflexive(BigEndian(v, n));
    } else if v < w {
      BigEndianIncreasing(v, w, n);
    } else {
      BigEndianIncreasing(w, v, n);
      LessAsymmetric(BigEndian(w, n), BigEndian(v, n));
    }
  }

  lemma {:induction false} BigEndianIncreasing(v: nat, w: nat, n: nat)
    requires v < w < Pow256(n)
    ensures Less(BigEndian(v, n), BigEndian(w, n))
  {
    if v / 256 == w / 256 {
      LessAfterPrefix(BigEndian(v / 256, n - 1), [v % 256], [w % 256]);
    } else {
      BigEndianIncreasing(v / 256, w / 256, n - 1);
      LessBeforeSuffix(BigEndian(v / 256, n - 1), BigEndian(w / 256, n - 1), [v % 256], [w % 256]);
    }
  }

  lemma Pow256Of8()
    ensures Pow256(8) == 0x1_0000_0000_0000_0000
    ensures Pow256(4) == 0x1_0000_0000
  {
  }

  function U64Bytes(v: u64): (s: Bytes)
    ensures |s| == 8
  {
    BigEndian(v, 8)
  }

  lemma U64RoundTrip(v: u64)
    ensures FromBigEndian(U64Bytes(v)) == v
  {
    Pow256Of8();
    BigEndianRoundTrip(v, 8);
  }

  lemma U64Order(v: u64, w: u64)
    ensures Less(U64Bytes(v), U64Bytes(w)) <==> v < w
    ensures U64Bytes(v) == U64Bytes(w) <==> v == w
  {
    Pow256Of8();
    BigEndianOrder(v, w, 8);
    U64RoundTrip(v);
    U64RoundTrip(w);
  }

  /** Two's complement. */
  function I64Bytes(v: i64): (s: Bytes)
    ensures |s| == 8
  {
    U64Bytes(if v < 0 then v + 0x1_0000_0000_0000_0000 else v)
  }

  // ---------------------------------------------------------------- escaped byte strings

  /** A byte string with every 0 written as 0,255. */
  function Escaped(v: Bytes): Bytes {
    if v == [] then [] else (if v[0] == 0 then [0, 255] else [v[0]]) + Escaped(v[1..])
  }

  function Terminated(v: Bytes): Bytes {
    Escaped(v) + [0, 0]
  }

  lemma {:induction false} EscapedConcat(v: Bytes, w: Bytes)
    ensures Escaped(v + w) == Escaped(v) + Escaped(w)
  {
    if v == [] {
      assert v + w == w;
    } else {
      assert (v + w)[1..] == v[1..] + w;
      EscapedConcat(v[1..], w);
    }
  }

  lemma TerminatedSameHead(v: Bytes, x: Bytes)
    requires v != []
    ensures Terminated(v) + x == (if v[0] == 0 then [0, 255] else [v[0]]) + (Terminated(v[1..]) + x)
  {
  }

  lemma SameAfterPrefix(p: Bytes, a: Bytes, b: Bytes)
    ensures Less(p + a, p + b) == Less(a, b)
    ensures p + a == p + b <==> a == b
  {
    LessAfterPrefix(p, a, b);
    assert (p + a)[|p|..] == a && (p + b)[|p|..] == b;
  }

  /** Different strings are ordered by their escaped forms exactly as they are unescaped, whatever follows. */
  lemma {:induction false} TerminatedOrder(v: Bytes, w: Bytes, x: Bytes, y: Bytes)
    requires v != w
    ensures Less(Terminated(v) + x, Terminated(w) + y) <==> Less(v, w)
    ensures Terminated(v) + x != Terminated(w) + y
  {
    if v != [] && w != [] && v[0] == w[0] {
      assert v == [v[0]] + v[1..] && w == [w[0]] + w[1..];
      TerminatedOrder(v[1..], w[1..], x, y);
      TerminatedSameHead(v, x);
      TerminatedSameHead(w, y);
      var head := if v[0] == 0 then [0, 255] else [v[0]];
      SameAfterPrefix(head, Terminated(v[1..]) + x, Terminated(w[1..]) + y);
    } else {
      TerminatedHead(v, x);
      TerminatedHead(w, y);
      var a, b := Terminated(v) + x, Terminated(w) + y;
      assert Less(a[1..], b[1..]) <==> a[1] < b[1] || (a[1] == b[1] && Less(a[2..], b[2..])) by {
        if |a| > 1 && |b| > 1 { assert a[1..][1..] == a[2..] && b[1..][1..] == b[2..]; }
      }
    }
  }

  /** The first bytes of an escaped, terminated string tell empty, leading 0 and leading non-zero apart. */
  lemma TerminatedHead(v: Bytes, x: Bytes)
    ensures |Terminated(v) + x| >= 2
    ensures v == [] ==> (Terminated(v) + x)[0] == 0 && (Terminated(v) + x)[1] == 0
    ensures v != [] && v[0] == 0 ==> (Terminated(v) + x)[0] == 0 && (Terminated(v) + x)[1] == 255
    ensures v != [] && v[0] != 0 ==> (Terminated(v) + x)[0] == v[0]
  {
  }

  /** An escaped prefix without its terminator matches exactly the strings with that raw prefix. */
  lemma {:induction false} EscapedPrefix(p: Bytes, v: Bytes, x: Bytes)
    ensures Escaped(p) <= Terminated(v) + x <==> p <= v
  {
    if p != [] {
      TerminatedHead(v, x);
      if v != [] && p[0] == v[0] {
        var head := if v[0] == 0 then [0, 255] else [v[0]];
        EscapedPrefix(p[1..], v[1..], x);
        assert Terminated(v) + x == head + (Terminated(v[1..]) + x);
        assert Escaped(p) == head + Escaped(p[1..]);
        PrefixAfterPrefix(head, Escaped(p[1..]), Terminated(v[1..]) + x);
        PrefixAfterPrefix([p[0]], p[1..], v[1..]);
        assert p == [p[0]] + p[1..] && v == [v[0]] + v[1..];
      } else {
        assert Escaped(p)[0] == (if p[0] == 0 then 0 else p[0]);
        assert p[0] == 0 ==> Escaped(p)[1] == 255;
      }
    }
  }

  lemma PrefixAfterPrefix(h: Bytes, a: Bytes, b: Bytes)
    ensures h + a <= h + b <==> a <= b
  {
    if h + a <= h + b {
      assert (h + b)[..|h + a|] == h + b[..|a|];
      assert (h + a)[|h|..] == a && (h + b[..|a|])[|h|..] == b[..|a|];
    }
    if a <= b {
      assert (h + b)[..|h + a|] == h + b[..|a|];
    }
  }

  // ---------------------------------------------------------------- reading back

  datatype Failure = UnexpectedInput | OutOfBounds | UnknownVariant
  datatype Read<+T> = Got(value: T, rest: Bytes) | Failed(reason: Failure)

  /** What `next_bytes` reads off the front of its input. */
  function ReadEscaped(input: Bytes): (r: Read<Bytes>)
    decreases |input|
  {
    if input == [] then Failed(UnexpectedInput)
    else if input[0] != 0 then Prepend(input[0], ReadEscaped(input[1..]))
    else if |input| > 1 && input[1] == 0 then Got([], input[2..])
    else if |input| > 1 && input[1] == 255 then Prepend(0, ReadEscaped(input[2..]))
    else Failed(UnexpectedInput)
  }

  function Prepend(b: byte, r: Read<Bytes>): Read<Bytes> {
    if r.Got? then Got([b] + r.value, r.rest) else r
  }

  /** Reading succeeds exactly on escaped, terminated strings, and leaves exactly what follows them. */
  lemma {:induction false} ReadEscapedExact(input: Bytes, v: Bytes, rest: Bytes)
    ensures ReadEscaped(input) == Got(v, rest) <==> input == Terminated(v) + rest
    decreases |input| + |v|
  {
    if input == Terminated(v) + rest {
      TerminatedHead(v, rest);
      if v != [] {
        var head := if v[0] == 0 then [0, 255] else [v[0]];
        assert input == head + (Terminated(v[1..]) + rest);
        assert input[|head|..] == Terminated(v[1..]) + rest;
        ReadEscapedExact(input[|head|..], v[1..], rest);
        assert [v[0]] + v[1..] == v;
      } else {
        assert input[2..] == rest;
      }
    }
    if ReadEscaped(input) == Got(v, rest) {
      if input[0] == 0 && input[1] == 0 {
        assert input == [0, 0] + input[2..];
        assert Terminated(v) == [0, 0];
      } else {
        var head := if input[0] == 0 then [0, 255] else [input[0]];
        assert v == [input[0]] + v[1..];
        ReadEscapedExact(input[|head|..], v[1..], rest);
        assert input == head + input[|head|..];
        assert Terminated(v) + rest == head + (Terminated(v[1..]) + rest);
      }
    }
  }

  // ---------------------------------------------------------------- the serializer

  class Serializer {
    var output: Bytes

    constructor ()
      ensures output == []
    {
      output := [];
    }

    method SerializeU64(v: u64)
      modifies this
      ensures output == old(output) + U64Bytes(v)
    {
      output := output + BigEndian(v, 8);
    }

    method SerializeBytes(v: Bytes)
      modifies this
      ensures output == old(output) + Terminated(v)
    {
      var res: Bytes := [];
      for i := 0 to |v|
        invariant res == Escaped(v[..i])
        invariant output == old(output)
      {
        assert v[..i + 1] == v[..i] + [v[i]];
        EscapedConcat(v[..i], [v[i]]);
        if v[i] == 0 { res := res + [0, 255]; } else { res := res + [v[i]]; }
      }
      assert v[..|v|] == v;
      res := res + [0, 0];
      output := output + res;
    }

    method SerializeBool(v: bool)
      modifies this
      ensures output == old(output) + [if v then 1 else 0]
    {
      output := output + [if v then 1 else 0];
    }

    method SerializeI64(v: i64)
      modifies this
      ensures output == old(output) + I64Bytes(v)
    {
      output := output + BigEndian(if v < 0 then v + 0x1_0000_0000_0000_0000 else v, 8);
    }

    /** Text is written as it is: neither escaped nor terminated. */
    method SerializeStr(v: Bytes)
      modifies this
      ensures output == old(output) + v
    {
      output := output + v;
    }

    method SerializeUnitVariant(index: byte)
      modifies this
      ensures output == old(output) + [index]
    {
      output := output + [index];
    }
  }

  // ---------------------------------------------------------------- the deserializer

  class Deserializer {
    var input: Bytes

    constructor (input: Bytes)
      ensures this.input == input
    {
      this.input := input;
    }

    /** Slicing past the end panics in the original; here that is a failed read. */
    method TakeBytes(len: nat) returns (r: Read<Bytes>)
      modifies this
      ensures len <= |old(input)| ==> r == Got(old(input)[..len], input) && input == old(input)[len..]
      ensures len > |old(input)| ==> r == Failed(OutOfBounds) && input == old(input)
    {
      if len > |input| { return Failed(OutOfBounds); }
      var bytes := input[..len];
      input := input[len..];
      return Got(bytes, input);
    }

    method NextBytes() returns (r: Read<Bytes>)
      modifies this
      ensures r == ReadEscaped(old(input))
      ensures input == if r.Got? then r.rest else old(input)
    {
      var res: Bytes := [];
      var i := 0;
      assert input[0..] == input;
      assert ReadEscaped(input).Got? ==> [] + ReadEscaped(input).value == ReadEscaped(input).value;
      while true
        invariant 0 <= i <= |input| && input == old(input)
        invariant ReadEscaped(input) == Prefixed(res, ReadEscaped(input[i..]))
        decreases |input| - i
      {
        if i == |input| { return Failed(UnexpectedInput); }
        if input[i] == 0 {
          if i + 1 < |input| && input[i + 1] == 0 {
            assert input[i..][2..] == input[i + 2..] && res + [] == res;
            i := i + 2;
            break;
          } else if i + 1 < |input| && input[i + 1] == 255 {
            PrefixedPrepend(res, 0, ReadEscaped(input[i + 2..]));
            assert input[i..][2..] == input[i + 2..];
            res := res + [0];
            i := i + 2;
          } else {
            return Failed(UnexpectedInput);
          }
        } else {
          PrefixedPrepend(res, input[i], ReadEscaped(input[i + 1..]));
          assert input[i..][1..] == input[i + 1..];
          res := res + [input[i]];
          i := i + 1;
        }
      }
      input := input[i..];
      return Got(res, input);
    }
  }

  ghost function Prefixed(p: Bytes, r: Read<Bytes>): Read<Bytes> {
    if r.Got? then Got(p + r.value, r.rest) else r
  }

  lemma PrefixedPrepend(p: Bytes, b: byte, r: Read<Bytes>)
    ensures Prefixed(p, Prepend(b, r)) == Prefixed(p + [b], r)
  {
    if r.Got? { assert p + ([b] + r.value) == p + [b] + r.value; }
  }
}
