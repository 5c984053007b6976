/** Varints and the stream reads they are decoded with (src/pyrxd/utils.py). */
module VarInt {
  import opened Wrappers
  import opened Bytes

  const MAX_UINT64: nat := 0xFFFF_FFFF_FFFF_FFFF

  function Varint(n: nat): Result<bytes> {
    if n > MAX_UINT64 then Err(OverflowError)
    else if n <= 0xFC then Ok(ToLE(n, 1))
    else if n <= 0xFFFF then Ok([0xfd] + ToLE(n, 2))
    else if n <= 0xFFFF_FFFF then Ok([0xfe] + ToLE(n, 4))
    else Ok([0xff] + ToLE(n, 8))
  }

  /** A read of up to k bytes from what is left of a stream; None at its end. */
  function Read(s: bytes, k: nat): (Option<bytes>, bytes) {
    var n := if k <= |s| then k else |s|;
    (if n == 0 then None else Some(s[..n]), s[n..])
  }

  function ReadUInt8(s: bytes): (Option<byte>, bytes) {
    var (data, rest) := Read(s, 1);
    (if data.None? then None else Some(data.value[0]), rest)
  }

  function ReadLE(s: bytes, k: nat): (Option<nat>, bytes) {
    var (data, rest) := Read(s, k);
    (if data.None? then None else Some(FromLE(data.value)), rest)
  }

  function ReadVarint(s: bytes): (Option<nat>, bytes) {
    var (first, rest) := ReadUInt8(s);
    if first.None? then (None, rest)
    else if first.value < 253 then (first, rest)
    else if first.value == 253 then ReadLE(rest, 2)
    else if first.value == 254 then ReadLE(rest, 4)
    else ReadLE(rest, 8)
  }

  lemma {:induction false} ReadPrefix(data: bytes, rest: bytes)
    requires data != []
    ensures Read(data + rest, |data|) == (Some(data), rest)
  {
  }

  lemma {:induction false} ReadByte(b: byte, rest: bytes)
    ensures ReadUInt8([b] + rest) == (Some(b), rest)
  {
    ReadPrefix([b], rest);
  }

  lemma {:induction false} ReadFixed(n: nat, k: nat, rest: bytes)
    requires k > 0 && n < Pow256(k)
    ensures ReadLE(ToLE(n, k) + rest, k) == (Some(n), rest)
  {
    ReadPrefix(ToLE(n, k), rest);
    LERoundTrip(n, k);
  }

  lemma {:induction false} WidthBounds()
    ensures Pow256(1) == 0x100 && Pow256(2) == 0x1_0000 && Pow256(4) == 0x1_0000_0000
    ensures Pow256(8) == MAX_UINT64 + 1
  {
    assert Pow256(3) == 0x100_0000;
    assert Pow256(5) == 0x100_0000_0000;
    assert Pow256(6) == 0x1_0000_0000_0000;
    assert Pow256(7) == 0x100_0000_0000_0000;
  }

  /** Reading a varint back gives the number and leaves exactly what followed it. */
  lemma {:induction false} VarintRoundTrip(n: nat, rest: bytes)
    requires n <= MAX_UINT64
    ensures Varint(n).Ok? && ReadVarint(Varint(n).value + rest) == (Some(n), rest)
  {
    WidthBounds();
    if n <= 0xFC {
      assert ToLE(n, 1) == [n];
      ReadByte(n, rest);
    } else {
      var (tag, k) := if n <= 0xFFFF then (0xfd, 2) else if n <= 0xFFFF_FFFF then (0xfe, 4) else (0xff, 8);
      assert [tag] + ToLE(n, k) + rest == [tag] + (ToLE(n, k) + rest);
      ReadByte(tag, ToLE(n, k) + rest);
      ReadFixed(n, k, rest);
    }
  }

  /** The bytes of a varint: one byte up to 0xfc, and otherwise a tag byte and the number in the least
      of 2, 4 and 8 bytes that holds it. */
  lemma {:induction false} VarintBytes(n: nat)
    ensures n >= 0x1_0000_0000_0000_0000 ==> Varint(n) == Err(OverflowError)
    ensures Varint(n).Ok? <==> n < 0x1_0000_0000_0000_0000
    ensures n < 0x1_0000_0000_0000_0000 ==>
              var v := Varint(n).value;
              if n < 253 then v == [n]
              else
                && |v| == (if n < 0x1_0000 then 3 else if n < 0x1_0000_0000 then 5 else 9)
                && v[0] == (if n < 0x1_0000 then 253 else if n < 0x1_0000_0000 then 254 else 255)
                && FromLE(v[1..]) == n
  {
    WidthBounds();
    if 253 <= n < 0x1_0000_0000_0000_0000 {
      var k := if n < 0x1_0000 then 2 else if n < 0x1_0000_0000 then 4 else 8;
      LERoundTrip(n, k);
      assert Varint(n).value[1..] == ToLE(n, k);
    }
  }

  /** The stream starts with a varint in its shortest form. */
  predicate StartsShort(s: bytes) {
    && s != []
    && (|| s[0] < 253
        || (s[0] == 253 && |s| >= 3 && FromLE(s[1..3]) >= 253)
        || (s[0] == 254 && |s| >= 5 && FromLE(s[1..5]) >= 0x1_0000)
        || (s[0] == 255 && |s| >= 9 && FromLE(s[1..9]) >= 0x1_0000_0000))
  }

  /** A varint in its shortest form is what is written for the number it is read as. */
  lemma {:induction false} ShortIsWritten(s: bytes)
    requires StartsShort(s)
    ensures var (n, rest) := ReadVarint(s);
            n.Some? && n.value <= MAX_UINT64 && Varint(n.value).Ok? && s == Varint(n.value).value + rest
  {
    hide FromLE, ToLE, Pow256;
    WidthBounds();
    var k := if s[0] < 253 then 0 else if s[0] == 253 then 2 else if s[0] == 254 then 4 else 8;
    var tail := s[1..1 + k];
    assert s == [s[0]] + tail + s[1 + k..];
    ReadByte(s[0], s[1..]);
    assert s == [s[0]] + s[1..];
    if k == 0 {
      OneByte(s[0]);
    } else {
      assert s[1..] == tail + s[1 + k..];
      ReadPrefix(tail, s[1 + k..]);
      ToFromLE(tail);
      FromLEBound(tail);
    }
  }

  lemma {:induction false} OneByte(b: byte)
    ensures ToLE(b, 1) == [b]
  {
  }

  /** What is written is in its shortest form. */
  lemma {:induction false} WrittenIsShort(n: nat, rest: bytes)
    requires n <= MAX_UINT64
    ensures Varint(n).Ok? && StartsShort(Varint(n).value + rest)
  {
    hide Varint, FromLE;
    VarintBytes(n);
    var v := Varint(n).value;
    if n >= 253 {
      assert (v + rest)[1..|v|] == v[1..];
    }
  }
}
