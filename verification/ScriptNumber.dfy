/** Script numbers and their pushes: scriptnum, push and minimal_num_push of
    build_htlc_covenant_spk.py, encode_int and encode_pushdata of src/pyrxd/utils.py. */
module ScriptNumber {
  import opened Wrappers
  import opened Arithmetic
  import opened Bytes
  import opened ScriptWalk

  // ---------------------------------------------------------------------------
  // The code

  /** The fewest little-endian bytes of a magnitude; none for zero. */
  function MinLE(n: nat): bytes {
    if n == 0 then [] else [n % 256] + MinLE(n / 256)
  }

  /** Puts the sign into the top bit, with one more byte if that bit is taken. */
  function WithSign(m: bytes, negative: bool): bytes
    requires m != []
  {
    var last := |m| - 1;
    if m[last] >= 0x80 then m + [if negative then 0x80 else 0x00]
    else if negative then m[..last] + [m[last] + 0x80]
    else m
  }

  function Abs(n: int): nat {
    if n < 0 then -n else n
  }

  function ScriptNumBytes(n: int): bytes {
    if n == 0 then [] else WithSign(MinLE(Abs(n)), n < 0)
  }

  lemma {:induction false} MinLEStep(out: bytes, n: nat)
    requires n > 0
    ensures out + MinLE(n) == out + [n % 256] + MinLE(n / 256)
  {
    assert MinLE(n) == [n % 256] + MinLE(n / 256);
  }

  lemma {:induction false} MinLEOfZero(out: bytes)
    ensures out + MinLE(0) == out
  {
  }

  /** while n: out.append(n & 0xFF); n >>= 8 */
  method MagnitudeLoop(value: nat) returns (out: bytes)
    ensures out == MinLE(value)
  {
    hide MinLE;
    var n := value;
    out := [];
    assert out + MinLE(n) == MinLE(n);
    while n > 0
      invariant MinLE(value) == out + MinLE(n)
    {
      MinLEStep(out, n);
      out := out + [n % 256];
      n := n / 256;
    }
    MinLEOfZero(out);
  }

  /** scriptnum */
  method EncodeScriptNum(num: int) returns (r: bytes)
    ensures r == ScriptNumBytes(num)
  {
    if num == 0 {
      return [];
    }
    hide MinLE;
    var negative, n := num < 0, Abs(num);
    MinLEShape(n);
    var out := MagnitudeLoop(n);
    var last := |out| - 1;
    if out[last] >= 0x80 {
      out := out + [if negative then 0x80 else 0x00];
    } else if negative {
      out := out[last := out[last] + 0x80];
    }
    r := out;
  }

  /** The octets of encode_int: it appends a zero byte first and sets the sign bit afterwards. */
  method EncodeIntOctets(num: int) returns (octets: bytes)
    requires num != 0
    ensures octets == ScriptNumBytes(num)
  {
    MinLEShape(Abs(num));
    octets := MinLE(Abs(num));
    if octets[|octets| - 1] >= 0x80 {
      octets := octets + [0x00];
    }
    if num < 0 {
      octets := octets[|octets| - 1 := octets[|octets| - 1] + 0x80];
    }
  }

  /** minimal_num_push */
  function MinimalNumPush(n: int): Result<bytes> {
    if n == 0 then Ok([0x00])
    else if 1 <= n <= 16 then Ok([0x50 + n])
    else Push(ScriptNumBytes(n))
  }

  /** get_pushdata_code */
  function PushDataCode(n: nat): Result<bytes> {
    if n <= 0x4b then Ok([n])
    else if n <= 0xff then Ok([0x4c, n])
    else if n <= 0xffff then Ok([0x4d] + ToLE(n, 2))
    else if n <= 0xffff_ffff then Ok([0x4e] + ToLE(n, 4))
    else Err(ValueError)
  }

  /** encode_pushdata with minimal_push */
  function EncodePushData(d: bytes): Result<bytes> {
    if d == [] then Ok([0x00])
    else if |d| == 1 && 1 <= d[0] <= 16 then Ok([0x51 + d[0] - 1])
    else if |d| == 1 && d[0] == 0x81 then Ok([0x4f])
    else
      var code :- PushDataCode(|d|);
      Ok(code + d)
  }

  /** encode_int */
  function EncodeInt(n: int): Result<bytes> {
    if n == 0 then Ok([0x00]) else EncodePushData(ScriptNumBytes(n))
  }

  // ---------------------------------------------------------------------------
  // What a push means to the script interpreter

  /** A number is read as little-endian magnitude with the sign in the top bit. */
  function DecodeNum(d: bytes): int {
    if d == [] then 0
    else
      var last := |d| - 1;
      var magnitude: int := FromLE(d[..last] + [if d[last] >= 0x80 then d[last] - 0x80 else d[last]]);
      if d[last] >= 0x80 then -magnitude else magnitude
  }

  /** The data that a script of one push instruction leaves on the stack. */
  function PushedData(s: bytes): Option<bytes> {
    if s == [] then None
    else if s[0] == 0x4f && |s| == 1 then Some([0x81])
    else if 0x51 <= s[0] <= 0x60 && |s| == 1 then Some([s[0] - 0x50])
    else if s[0] <= 0x4b && |s| - 1 == s[0] then Some(s[1..])
    else if s[0] == 0x4c && |s| >= 2 && |s| - 2 == s[1] then Some(s[2..])
    else if s[0] == 0x4d && |s| >= 3 && |s| == 3 + FromLE(s[1..3]) then Some(s[3..])
    else if s[0] == 0x4e && |s| >= 5 && |s| == 5 + FromLE(s[1..5]) then Some(s[5..])
    else None
  }

  // ---------------------------------------------------------------------------
  // Bounds

  /** The minimal bytes of a positive number end in a non-zero byte. */
  lemma {:induction false} MinLEShape(n: nat)
    requires n > 0
    ensures MinLE(n) != [] && MinLE(n)[|MinLE(n)| - 1] != 0
    ensures FromLE(MinLE(n)) == n
  {
    if n >= 256 {
      MinLEShape(n / 256);
      assert MinLE(n)[1..] == MinLE(n / 256);
    } else {
      assert MinLE(n / 256) == [];
      assert MinLE(n) == [n];
    }
  }

  lemma {:induction false} SplitLast(m: bytes)
    requires m != []
    ensures FromLE(m) == FromLE(m[..|m| - 1]) + m[|m| - 1] * Pow256(|m| - 1)
    ensures FromLE(m[..|m| - 1]) < Pow256(|m| - 1)
  {
    assert m == m[..|m| - 1] + [m[|m| - 1]];
    FromLEAppend(m[..|m| - 1], m[|m| - 1]);
    FromLEBound(m[..|m| - 1]);
  }

  lemma {:induction false} ScriptNumShape(n: int)
    requires n != 0
    ensures ScriptNumBytes(n) != [] && MinLE(Abs(n)) != []
  {
    MinLEShape(Abs(n));
  }

  /** With its sign, a magnitude decodes to the signed number. */
  lemma {:induction false} SignedMagnitude(m: bytes, negative: bool)
    requires m != [] && m[|m| - 1] != 0
    ensures DecodeNum(WithSign(m, negative)) == if negative then 0 - FromLE(m) as int else FromLE(m) as int
  {
    hide FromLE, Pow256;
    var last := |m| - 1;
    var d := WithSign(m, negative);
    if m[last] >= 0x80 {
      assert d[..|d| - 1] == m;
      FromLEAppend(m, 0);
      ZeroFactor(Pow256(|m|), 0);
    } else {
      assert d[..last] == m[..last];
      assert m[..last] + [m[last]] == m;
    }
  }

  /** Decoding the encoding gives the number back. */
  lemma {:induction false} NumRoundTrip(n: int)
    ensures DecodeNum(ScriptNumBytes(n)) == n
  {
    hide FromLE, MinLE, WithSign, DecodeNum;
    if n == 0 {
      DecodeNothing();
    } else {
      MinLEShape(Abs(n));
      SignedMagnitude(MinLE(Abs(n)), n < 0);
    }
  }

  lemma {:induction false} DecodeNothing()
    ensures DecodeNum([]) == 0
  {
  }

  lemma {:induction false} DecodeOneByte(b: byte)
    ensures DecodeNum([b]) == if b >= 0x80 then 0x80 - b as int else b as int
  {
    var top := if b >= 0x80 then b - 0x80 else b;
    assert [b][..0] + [top] == [top];
    assert FromLE([top]) == top + 256 * FromLE([]);
  }

  /** The magnitude of a number of k bytes is below 2^(8k-1). */
  lemma {:induction false} DecodeBound(d: bytes)
    requires d != []
    ensures Abs(DecodeNum(d)) < 128 * Pow256(|d| - 1)
  {
    var last := |d| - 1;
    var top := if d[last] >= 0x80 then d[last] - 0x80 else d[last];
    FromLEAppend(d[..last], top);
    FromLEBound(d[..last]);
    hide Pow256, FromLE;
    MulMonotone(top, 127, Pow256(last));
  }

  /** A number that is encoded in k >= 2 bytes needs them. */
  lemma {:induction false} EncodeBound(n: int)
    requires |ScriptNumBytes(n)| >= 2
    ensures Abs(n) >= 128 * Pow256(|ScriptNumBytes(n)| - 2)
  {
    MinLEShape(Abs(n));
    var m := MinLE(Abs(n));
    var k := |m|;
    SplitLast(m);
    assert k >= 2 ==> Pow256(k - 1) == 256 * Pow256(k - 2);
    hide Pow256, FromLE;
    if m[k - 1] >= 0x80 {
      assert |ScriptNumBytes(n)| == k + 1;
      MulMonotone(128, m[k - 1], Pow256(k - 1));
    } else {
      assert |ScriptNumBytes(n)| == k;
      MulMonotone(1, m[k - 1], Pow256(k - 1));
    }
  }

  /** No shorter data stands for the same number. */
  lemma {:induction false} ShortestData(d: bytes)
    ensures |ScriptNumBytes(DecodeNum(d))| <= |d|
  {
    var n := DecodeNum(d);
    var k := |ScriptNumBytes(n)|;
    if k > |d| && d != [] {
      DecodeBound(d);
      EncodeBound(n);
      Pow256Monotone(|d| - 1, k - 2);
    }
  }

  // ---------------------------------------------------------------------------
  // Pushes of numbers

  /** encode_int pushes data that stands for the number. */
  lemma {:induction false} EncodeIntRoundTrip(n: int)
    requires EncodeInt(n).Ok?
    ensures PushedData(EncodeInt(n).value) == Some(ScriptNumBytes(n))
    ensures DecodeNum(ScriptNumBytes(n)) == n
  {
    NumRoundTrip(n);
    var d, s := ScriptNumBytes(n), EncodeInt(n).value;
    if n == 0 {
      assert s == [0x00] && s[1..] == [];
    } else {
      ScriptNumShape(n);
      EncodePushed(d);
    }
  }

  lemma {:induction false} EncodePushed(d: bytes)
    requires d != [] && EncodePushData(d).Ok?
    ensures PushedData(EncodePushData(d).value) == Some(d)
  {
    var s, n := EncodePushData(d).value, |d|;
    if n == 1 && (1 <= d[0] <= 16 || d[0] == 0x81) {
      assert d == [d[0]];
    } else if n <= 0x4b {
      assert s[1..] == d;
    } else if n <= 0xff {
      assert s[2..] == d;
    } else if n <= 0xffff {
      assert s[1..3] == ToLE(n, 2) && s[3..] == d;
      assert Pow256(2) == 0x1_0000;
      LERoundTrip(n, 2);
    } else {
      assert s[1..5] == ToLE(n, 4) && s[5..] == d;
      assert Pow256(3) == 0x100_0000 && Pow256(4) == 0x1_0000_0000;
      LERoundTrip(n, 4);
    }
  }

  /** The numbers that a single opcode pushes. */
  predicate HasOpcode(n: int) {
    -1 <= n <= 16
  }

  lemma {:induction false} SmallNumBytes(n: int)
    requires -127 <= n <= 127 && n != 0
    ensures ScriptNumBytes(n) == [if n < 0 then 0x80 - n else n]
  {
    assert MinLE(Abs(n) / 256) == [];
    assert MinLE(Abs(n)) == [Abs(n)];
  }

  /** How many bytes encode_int takes. */
  function PushSize(n: int): nat {
    var k := |ScriptNumBytes(n)|;
    if HasOpcode(n) then 1
    else if k <= 0x4b then 1 + k
    else if k <= 0xff then 2 + k
    else if k <= 0xffff then 3 + k
    else 5 + k
  }

  /** A number above 16 or below -1 is not encoded in one of the bytes that have an opcode. */
  lemma {:induction false} OneByteNum(n: int)
    requires !HasOpcode(n) && |ScriptNumBytes(n)| == 1
    ensures var b := ScriptNumBytes(n)[0]; !(1 <= b <= 16) && b != 0x81
  {
    NumRoundTrip(n);
    var b := ScriptNumBytes(n)[0];
    assert ScriptNumBytes(n) == [b];
    DecodeOneByte(b);
  }

  lemma {:induction false} EncodeIntSize(n: int)
    requires EncodeInt(n).Ok?
    ensures |EncodeInt(n).value| == PushSize(n)
  {
    if n != 0 {
      ScriptNumShape(n);
      if HasOpcode(n) {
        SmallNumBytes(n);
      } else if |ScriptNumBytes(n)| == 1 {
        OneByteNum(n);
      }
      hide ScriptNumBytes;
    }
  }

  /** No push of the same number is shorter (rules 3 and 4 of BIP 62). */
  lemma {:induction false} EncodeIntIsShortest(n: int, s: bytes)
    requires EncodeInt(n).Ok?
    requires PushedData(s).Some? && DecodeNum(PushedData(s).value) == n
    ensures |EncodeInt(n).value| <= |s|
  {
    hide ScriptNumBytes, EncodeInt;
    EncodeIntSize(n);
    var d := PushedData(s).value;
    ShortestData(d);
    if |s| == 1 {
      OneBytePush(s);
    } else if !HasOpcode(n) {
      assert |s| >= 1 + |d|;
      PushedLength(s);
    }
  }

  lemma {:induction false} OneBytePush(s: bytes)
    requires |s| == 1 && PushedData(s).Some?
    ensures HasOpcode(DecodeNum(PushedData(s).value))
  {
    var d := PushedData(s).value;
    if d != [] {
      assert d == [d[0]];
      DecodeOneByte(d[0]);
    }
  }

  lemma {:induction false} PushedLength(s: bytes)
    requires |s| > 1 && PushedData(s).Some?
    ensures var k := |PushedData(s).value|;
            |s| >= if k <= 0x4b then 1 + k else if k <= 0xff then 2 + k else if k <= 0xffff then 3 + k else 5 + k
  {
    if s[0] == 0x4d && |s| >= 3 {
      FromLEBound(s[1..3]);
      assert Pow256(2) == 0x1_0000;
    }
  }

  /** The two encoders agree exactly on the numbers other than -1 whose data fits two length bytes. */
  lemma {:induction false} EncodersAgreeIff(n: int)
    ensures MinimalNumPush(n) == EncodeInt(n) <==> n != -1 && |ScriptNumBytes(n)| <= 65535
  {
    hide Push, EncodePushData, ScriptNumBytes, HasOpcodeData;
    if 0 <= n <= 16 {
      SmallNumbersAgree(n);
    } else {
      OpcodeDataIff(n);
      PushIsMinimalFormIff(ScriptNumBytes(n));
      if n == -1 {
        MinusOneDiffers();
      }
    }
  }

  lemma {:induction false} SmallNumbersAgree(n: int)
    requires 0 <= n <= 16
    ensures MinimalNumPush(n) == EncodeInt(n) && |ScriptNumBytes(n)| <= 1
  {
    if n > 0 {
      SmallNumBytes(n);
    }
  }

  /** At -1 one writes a data push of two bytes, the other OP_1NEGATE. */
  lemma {:induction false} MinusOneDiffers()
    ensures MinimalNumPush(-1) == Ok([0x01, 0x81]) && EncodeInt(-1) == Ok([0x4f])
  {
    SmallNumBytes(-1);
    assert [0x01] + [0x81] == [0x01, 0x81];
  }

  // ---------------------------------------------------------------------------
  // Minimal pushes

  /** No shorter script of one push leaves the same data. */
  ghost predicate IsMinimalPush(s: bytes) {
    PushedData(s).Some? && forall other :: PushedData(other) == PushedData(s) ==> |s| <= |other|
  }

  /** The data that an opcode of its own pushes. */
  predicate HasOpcodeData(d: bytes) {
    |d| == 1 && (1 <= d[0] <= 16 || d[0] == 0x81)
  }

  /** push leaves out the opcodes for small numbers, and no more. */
  lemma {:induction false} PushIsMinimalFormIff(d: bytes)
    ensures Push(d) == EncodePushData(d) <==> |d| <= 65535 && !HasOpcodeData(d)
  {
    if 255 < |d| <= 65535 {
      assert ToLE(|d|, 2) == [|d| % 256] + ToLE(|d| / 256, 1);
      assert ToLE(|d| / 256, 1) == [|d| / 256 % 256] + ToLE(|d| / 256 / 256, 0);
      assert [0x4d] + ToLE(|d|, 2) == [0x4d, |d| % 256, |d| / 256];
    }
  }

  lemma {:induction false} ShortPush(s: bytes)
    requires |s| <= 1 && PushedData(s).Some?
    ensures PushedData(s).value == [] || HasOpcodeData(PushedData(s).value)
  {
  }

  lemma {:induction false} EncodePushSize(d: bytes)
    requires EncodePushData(d).Ok?
    ensures var k := |d|;
            |EncodePushData(d).value| == if d == [] || HasOpcodeData(d) then 1
                                         else if k <= 0x4b then 1 + k else if k <= 0xff then 2 + k
                                         else if k <= 0xffff then 3 + k else 5 + k
  {
  }

  lemma {:induction false} NothingPushed()
    ensures PushedData([]).None? && PushedData([0]) == Some([])
  {
    assert [0][1..] == [];
  }

  /** encode_pushdata is minimal for all data. */
  lemma {:induction false} EncodePushIsMinimal(d: bytes)
    requires EncodePushData(d).Ok?
    ensures PushedData(EncodePushData(d).value) == Some(d) && IsMinimalPush(EncodePushData(d).value)
  {
    NothingPushed();
    EncodePushSize(d);
    if d != [] {
      EncodePushed(d);
    }
    hide EncodePushData, PushedData, HasOpcodeData;
    forall other | PushedData(other) == Some(d) ensures |EncodePushData(d).value| <= |other| {
      if |other| <= 1 {
        ShortPush(other);
      } else {
        PushedLength(other);
      }
    }
  }

  /** A data push is minimal exactly when no opcode pushes the data. */
  lemma {:induction false} PushIsMinimalIff(d: bytes)
    requires |d| <= 65535
    ensures Push(d).Ok? && (IsMinimalPush(Push(d).value) <==> !HasOpcodeData(d))
  {
    hide IsMinimalPush;
    PushIsMinimalFormIff(d);
    if HasOpcodeData(d) {
      ShorterExists(d);
    } else {
      EncodePushIsMinimal(d);
    }
  }

  lemma {:induction false} ShorterExists(d: bytes)
    requires HasOpcodeData(d)
    ensures Push(d).Ok? && !IsMinimalPush(Push(d).value)
  {
    var s := Push(d).value;
    assert s == [1] + d && s[1..] == d && d == [d[0]];
    EncodePushed(d);
    assert PushedData(EncodePushData(d).value) == PushedData(s) && |EncodePushData(d).value| == 1;
  }

  /** The data of exactly the numbers -1 and 1 .. 16 has an opcode. */
  lemma {:induction false} OpcodeDataIff(n: int)
    ensures HasOpcodeData(ScriptNumBytes(n)) <==> n == -1 || 1 <= n <= 16
  {
    if HasOpcode(n) {
      if n != 0 {
        SmallNumBytes(n);
      }
    } else if |ScriptNumBytes(n)| == 1 {
      OneByteNum(n);
    }
  }

  /** Amounts are pushed as data: not minimal exactly for -1 and 1 .. 16, and only then another form
      than encode_int writes. */
  lemma {:induction false} AmountPushIsMinimalIff(n: int)
    requires |ScriptNumBytes(n)| <= 65535
    ensures Push(ScriptNumBytes(n)).Ok?
    ensures IsMinimalPush(Push(ScriptNumBytes(n)).value) <==> !(n == -1 || 1 <= n <= 16)
    ensures Push(ScriptNumBytes(n)) == EncodeInt(n) <==> !(n == -1 || 1 <= n <= 16)
  {
    hide IsMinimalPush, Push, EncodePushData, ScriptNumBytes, HasOpcodeData;
    OpcodeDataIff(n);
    PushIsMinimalIff(ScriptNumBytes(n));
    PushIsMinimalFormIff(ScriptNumBytes(n));
    ZeroIsNoData();
  }

  lemma {:induction false} ZeroIsNoData()
    ensures ScriptNumBytes(0) == [] && Push([]) == Ok([0x00])
  {
  }

  /** An amount of 2 takes two bytes where OP_2 takes one. */
  lemma {:induction false} AmountOfTwo()
    ensures Push(ScriptNumBytes(2)) == Ok([0x01, 0x02]) && EncodeInt(2) == Ok([0x52])
  {
    SmallNumBytes(2);
    assert [0x01] + [0x02] == [0x01, 0x02];
  }

  /** The push made for small numbers is minimal except for -1. */
  lemma {:induction false} NumPushIsMinimalIff(n: int)
    requires |ScriptNumBytes(n)| <= 65535
    ensures MinimalNumPush(n).Ok? && (IsMinimalPush(MinimalNumPush(n).value) <==> n != -1)
  {
    hide IsMinimalPush, Push, EncodePushData, ScriptNumBytes, HasOpcodeData;
    AmountPushIsMinimalIff(n);
    ZeroIsNoData();
    if 0 <= n <= 16 {
      OneByteIsMinimal(n);
    }
  }

  lemma {:induction false} OneByteIsMinimal(n: int)
    requires 0 <= n <= 16
    ensures MinimalNumPush(n).Ok? && IsMinimalPush(MinimalNumPush(n).value)
  {
    NothingPushed();
    assert |MinimalNumPush(n).value| == 1;
  }

  /** A pushed number is one inert instruction. */
  lemma {:induction false} NumPushIsInert(n: int)
    requires |ScriptNumBytes(n)| <= 65535
    ensures MinimalNumPush(n).Ok? && Inert(MinimalNumPush(n).value)
  {
    PushIsInert(ScriptNumBytes(n));
  }

  // ---------------------------------------------------------------------------
  // What is too long

  /** push fails above 65535 bytes and encode_pushdata above 2^32 - 1. */
  lemma {:induction false} PushFailsIff(d: bytes)
    ensures Push(d).Err? <==> |d| >= 0x1_0000
    ensures Push(d).Err? ==> Push(d) == Err(OverflowError)
    ensures EncodePushData(d).Err? <==> |d| >= 0x1_0000_0000
    ensures EncodePushData(d).Err? ==> EncodePushData(d) == Err(ValueError)
  {
  }
}
