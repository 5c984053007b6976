/** The two DER encoders of ECDSA signatures, the decoder, and the strict form of BIP 66. */
module Der {
  import opened Arithmetic
  import opened Bytes
  import opened Wrappers

  type Signature = (nat, nat)

  // ---------------------------------------------------------------------------
  // utils.py

  /** The checks and slices of deserialize_ecdsa_der, in its order. */
  function Deserialize(sig: bytes): Result<Signature> {
    if |sig| < 8 then Err(ValueError)
    else if sig[0] != 0x30 then Err(ValueError)
    else if sig[1] != |sig| - 2 then Err(ValueError)
    else if sig[2] != 0x02 then Err(ValueError)
    else
      var rLen: nat := sig[3];
      var rEnd := 4 + rLen;
      if rLen == 0 then Err(ValueError)
      else if rEnd + 2 > |sig| then Err(ValueError)
      else if sig[rEnd] != 0x02 then Err(ValueError)
      else
        var sLen: nat := sig[rEnd + 1];
        var sOff := rEnd + 2;
        if sLen == 0 then Err(ValueError)
        else if sOff + sLen != |sig| then Err(ValueError)
        else Ok((FromBE(sig[4..rEnd]), FromBE(sig[sOff..sOff + sLen])))
  }

  /** b.lstrip(b"\x00") */
  function Strip(b: bytes): (r: bytes)
    ensures |r| <= |b|
  {
    if b != [] && b[0] == 0 then Strip(b[1..]) else b
  }

  /** A zero byte keeps a number with its top bit set positive. */
  function PadSign(b: bytes): bytes
    requires b != []
  {
    if b[0] >= 0x80 then [0] + b else b
  }

  /** n.to_bytes(32, "big") */
  function ToBytes32(n: int): Result<bytes> {
    if n < 0 || n >= Pow256(32) then Err(OverflowError) else Ok(ToBE(n, 32))
  }

  /** The contents of one integer of serialize_ecdsa_der. */
  function Minimal(n: int): (b: Result<bytes>)
    ensures b.Ok? ==> 0 < |b.value| <= 33
  {
    var raw :- ToBytes32(n);
    var b := Strip(raw);
    if b == [] then Err(IndexError) else Ok(PadSign(b))
  }

  function Tagged(b: bytes): bytes
    requires |b| < 256
  {
    [2, |b|] + b
  }

  /** 30 <total> 02 <r_len> <r> 02 <s_len> <s> */
  function Frame(r: bytes, s: bytes): bytes
    requires |r| + |s| + 4 < 256
  {
    [0x30, 4 + |r| + |s|] + (Tagged(r) + Tagged(s))
  }

  function LowS(s: int, n: nat): int {
    if s > n / 2 then n - s else s
  }

  /** serialize_ecdsa_der, for the group order n */
  function Serialize(r: int, s: int, n: nat): Result<bytes> {
    var low := LowS(s, n);
    var rBytes :- Minimal(r);
    var sBytes :- Minimal(low);
    Ok(Frame(rBytes, sBytes))
  }

  // ---------------------------------------------------------------------------
  // keys.py

  /** The contents of one integer of _sign_custom_k: always 32 bytes, or 33 with the sign byte. */
  function FixedWidth(n: int): (b: Result<bytes>)
    ensures b.Ok? ==> 0 < |b.value| <= 33
  {
    var raw :- ToBytes32(n);
    Ok(PadSign(raw))
  }

  /** The encoding at the end of _sign_custom_k. */
  function SerializeFixed(r: int, s: int): Result<bytes> {
    var rBytes :- FixedWidth(r);
    var sBytes :- FixedWidth(s);
    Ok(Frame(rBytes, sBytes))
  }

  // ---------------------------------------------------------------------------
  // Strict DER

  /** A positive integer without a needless leading byte (BIP 66). */
  predicate StrictInteger(b: bytes) {
    && 0 < |b|
    && b[0] < 0x80
    && (b[0] == 0 ==> |b| > 1 && b[1] >= 0x80)
  }

  ghost predicate StrictDer(sig: bytes) {
    exists r: bytes, s: bytes ::
      |r| + |s| + 4 < 256 && sig == Frame(r, s) && StrictInteger(r) && StrictInteger(s)
  }

  // ---------------------------------------------------------------------------
  // Big-endian numbers

  lemma {:induction false} FromBEHead(x: byte, b: bytes)
    ensures FromBE([x] + b) == x * Pow256(|b|) + FromBE(b)
  {
    if b == [] {
      assert FromBE([x]) == 256 * FromBE([]) + x;
    } else {
      var k := |b| - 1;
      assert ([x] + b)[..|[x] + b| - 1] == [x] + b[..k];
      FromBEHead(x, b[..k]);
      Shift(x, Pow256(k), FromBE(b[..k]));
    }
  }

  lemma {:induction false} Shift(x: int, p: int, f: int)
    ensures 256 * (x * p + f) == x * (256 * p) + 256 * f
  {
  }

  lemma {:induction false} StripKeepsValue(b: bytes)
    ensures FromBE(Strip(b)) == FromBE(b)
    ensures Strip(b) != [] ==> Strip(b)[0] != 0
  {
    if b != [] && b[0] == 0 {
      assert b == [0] + b[1..];
      FromBEHead(0, b[1..]);
      StripKeepsValue(b[1..]);
    }
  }

  lemma {:induction false} HeadBound(b: bytes)
    requires b != []
    ensures b[0] * Pow256(|b| - 1) <= FromBE(b) < (b[0] + 1) * Pow256(|b| - 1)
  {
    assert b == [b[0]] + b[1..];
    FromBEHead(b[0], b[1..]);
    FromBEBound(b[1..]);
  }

  lemma {:induction false} Scale(x: nat, p: nat)
    requires x > 0
    ensures x * p >= p
  {
  }

  /** A number without leading zeros is determined by its value. */
  lemma {:induction false} LengthOfValue(b: bytes, c: bytes)
    requires b != [] && b[0] != 0 && FromBE(b) == FromBE(c)
    ensures |b| <= |c|
  {
    HeadBound(b);
    Scale(b[0], Pow256(|b| - 1));
    FromBEBound(c);
    if |c| < |b| {
      Pow256Monotone(|c|, |b| - 1);
    }
  }

  lemma {:induction false} NoLeadingZeroUnique(b: bytes, c: bytes)
    requires b != [] ==> b[0] != 0
    requires c != [] ==> c[0] != 0
    requires FromBE(b) == FromBE(c)
    ensures b == c
  {
    if b != [] {
      LengthOfValue(b, c);
    }
    if c != [] {
      LengthOfValue(c, b);
    }
    ToFromBE(b);
    ToFromBE(c);
  }

  lemma {:induction false} PadSignKeepsValue(b: bytes)
    requires b != []
    ensures FromBE(PadSign(b)) == FromBE(b)
  {
    FromBEHead(0, b);
  }

  // ---------------------------------------------------------------------------
  // Encoded integers

  /** Minimal encodes exactly the positive 256-bit numbers, strictly. */
  lemma {:induction false} MinimalIff(n: int)
    ensures Minimal(n).Ok? <==> 0 < n < Pow256(32)
    ensures Minimal(n).Err? ==> Minimal(n) == Err(if n == 0 then IndexError else OverflowError)
    ensures Minimal(n).Ok? ==> FromBE(Minimal(n).value) == n && StrictInteger(Minimal(n).value)
  {
    hide Pow256, ToBE, FromBE, Strip;
    if 0 <= n < Pow256(32) {
      var raw := ToBE(n, 32);
      BERoundTrip(n, 32);
      StripKeepsValue(raw);
      EmptyIsZero();
      if Strip(raw) != [] {
        PadSignKeepsValue(Strip(raw));
        NonZeroHead(Strip(raw));
      }
    }
  }

  lemma {:induction false} EmptyIsZero()
    ensures FromBE([]) == 0
  {
  }

  lemma {:induction false} NonZeroHead(b: bytes)
    requires b != [] && b[0] != 0
    ensures FromBE(b) > 0
  {
    HeadBound(b);
    Scale(b[0], Pow256(|b| - 1));
  }

  /** There is one strict integer of each value. */
  lemma {:induction false} StrictIsMinimal(b: bytes)
    requires StrictInteger(b) && FromBE(b) < Pow256(32)
    ensures Minimal(FromBE(b)) == Ok(b)
  {
    hide Pow256, ToBE, FromBE, Strip;
    var n := FromBE(b);
    var raw := ToBE(n, 32);
    BERoundTrip(n, 32);
    StripKeepsValue(raw);
    StripKeepsValue(b);
    NoLeadingZeroUnique(Strip(raw), Strip(b));
    StripOfStrict(b);
  }

  lemma {:induction false} StripOfStrict(b: bytes)
    requires StrictInteger(b)
    ensures Strip(b) != [] && PadSign(Strip(b)) == b
  {
    if b[0] == 0 {
      assert Strip(b[1..]) == b[1..];
    }
  }

  lemma {:induction false} FixedWidthIff(n: int)
    ensures FixedWidth(n).Ok? <==> 0 <= n < Pow256(32)
    ensures FixedWidth(n).Ok? ==> FromBE(FixedWidth(n).value) == n
  {
    hide Pow256, ToBE, FromBE;
    if 0 <= n < Pow256(32) {
      BERoundTrip(n, 32);
      PadSignKeepsValue(ToBE(n, 32));
    }
  }

  // ---------------------------------------------------------------------------
  // Frames

  lemma {:induction false} FrameAt(r: bytes, s: bytes)
    requires |r| + |s| + 4 < 256
    ensures var f := Frame(r, s);
      && |f| == 6 + |r| + |s|
      && f[0] == 0x30 && f[1] == 4 + |r| + |s| && f[2] == 2 && f[3] == |r|
      && f[4..4 + |r|] == r
      && f[4 + |r|] == 2 && f[5 + |r|] == |s|
      && f[6 + |r|..6 + |r| + |s|] == s
  {
  }

  /** The decoder reads back what a frame holds. */
  lemma {:induction false} DeserializeFrame(r: bytes, s: bytes)
    requires 0 < |r| && 0 < |s| && |r| + |s| + 4 < 256
    ensures Deserialize(Frame(r, s)) == Ok((FromBE(r), FromBE(s)))
  {
    hide Frame, FromBE;
    FrameAt(r, s);
  }

  /** The decoder accepts nothing but frames of two non-empty integers. */
  lemma {:induction false} AcceptedIsFrame(sig: bytes) returns (r: bytes, s: bytes)
    requires Deserialize(sig).Ok?
    ensures 0 < |r| && 0 < |s| && |r| + |s| + 4 < 256 && sig == Frame(r, s)
    ensures Deserialize(sig).value == (FromBE(r), FromBE(s))
  {
    var rEnd := 4 + sig[3];
    r, s := sig[4..rEnd], sig[rEnd + 2..];
    Pieces(sig, rEnd);
  }

  lemma {:induction false} Pieces(sig: bytes, k: nat)
    requires 4 <= k && k + 2 <= |sig|
    ensures sig == [sig[0], sig[1]] + (([sig[2], sig[3]] + sig[4..k]) + ([sig[k], sig[k + 1]] + sig[k + 2..]))
    ensures sig[k + 2..] == sig[k + 2..|sig|]
  {
  }

  // ---------------------------------------------------------------------------
  // The main results

  /** Exactly the pairs of positive numbers below 2^256, s after lowering, are encoded;
      the encoding is strict and decodes to that pair. */
  lemma {:induction false} SerializeRoundTrip(r: int, s: int, n: nat)
    ensures var sig := Serialize(r, s, n);
      && (sig.Ok? <==> 0 < r < Pow256(32) && 0 < LowS(s, n) < Pow256(32))
      && (sig.Ok? ==> Deserialize(sig.value) == Ok((r, LowS(s, n))) && StrictDer(sig.value))
  {
    hide Pow256, FromBE, Minimal, Frame, Deserialize, LowS;
    MinimalIff(r);
    MinimalIff(LowS(s, n));
    if Minimal(r).Ok? && Minimal(LowS(s, n)).Ok? {
      DeserializeFrame(Minimal(r).value, Minimal(LowS(s, n)).value);
    }
  }

  /** A signature in range comes back with the smaller of s and n - s. */
  lemma {:induction false} SignatureRoundTrip(r: nat, s: nat, n: nat)
    requires 1 <= r < Pow256(32) && 1 <= s < n <= Pow256(32)
    ensures Serialize(r, s, n).Ok?
    ensures Deserialize(Serialize(r, s, n).value) == Ok((r, if s < n - s then s else n - s))
  {
    hide Pow256, Serialize, Deserialize;
    SerializeRoundTrip(r, s, n);
  }

  /** A strict low-s encoding of numbers below 2^256 is what the encoder writes for what it decodes to. */
  lemma {:induction false} StrictIsSerialized(sig: bytes, n: nat)
    ensures StrictDer(sig) ==> Deserialize(sig).Ok?
    ensures StrictDer(sig) ==>
      var (r, s) := Deserialize(sig).value;
      r < Pow256(32) && s <= n / 2 && s < Pow256(32) ==> Serialize(r, s, n) == Ok(sig)
  {
    hide Pow256, FromBE, Minimal, Frame, Deserialize;
    if StrictDer(sig) {
      var r: bytes, s: bytes :|
        |r| + |s| + 4 < 256 && sig == Frame(r, s) && StrictInteger(r) && StrictInteger(s);
      DeserializeFrame(r, s);
      if FromBE(r) < Pow256(32) && FromBE(s) < Pow256(32) {
        StrictIsMinimal(r);
        StrictIsMinimal(s);
      }
    }
  }

  /** The fixed-width encoding decodes to its own numbers. */
  lemma {:induction false} FixedRoundTrip(r: int, s: int)
    ensures var sig := SerializeFixed(r, s);
      && (sig.Ok? <==> 0 <= r < Pow256(32) && 0 <= s < Pow256(32))
      && (sig.Ok? ==> Deserialize(sig.value) == Ok((r, s)))
  {
    hide Pow256, FromBE, FixedWidth, Frame, Deserialize;
    FixedWidthIff(r);
    FixedWidthIff(s);
    if FixedWidth(r).Ok? && FixedWidth(s).Ok? {
      DeserializeFrame(FixedWidth(r).value, FixedWidth(s).value);
    }
  }

  lemma {:induction false} StrictWhenLarge(raw: bytes)
    requires |raw| == 32
    ensures StrictInteger(PadSign(raw)) <==> FromBE(raw) >= 0x80 * Pow256(30)
  {
    hide Pow256, FromBE;
    HeadBound(raw);
    NextPower(30);
    if raw[0] == 0 {
      assert raw == [0] + raw[1..];
      FromBEHead(0, raw[1..]);
      HeadBound(raw[1..]);
      ZeroFactor(Pow256(31), 0);
      OrderByHead(raw[1], Pow256(30), FromBE(raw));
    } else {
      Scale(raw[0], Pow256(31));
    }
  }

  lemma {:induction false} NextPower(k: nat)
    ensures Pow256(k + 1) == 256 * Pow256(k)
  {
  }

  lemma {:induction false} OrderByHead(x: nat, p: nat, n: nat)
    requires x * p <= n < (x + 1) * p
    ensures x >= 0x80 <==> n >= 0x80 * p
  {
    if x >= 0x80 {
      MulMonotone(0x80, x, p);
    } else {
      MulMonotone(x + 1, 0x80, p);
    }
  }

  lemma {:induction false} FixedStrictIff(n: int)
    requires FixedWidth(n).Ok?
    ensures StrictInteger(FixedWidth(n).value) <==> n >= 0x80 * Pow256(30)
  {
    hide Pow256, FromBE, ToBE, StrictInteger;
    BERoundTrip(n, 32);
    StrictWhenLarge(ToBE(n, 32));
  }

  lemma {:induction false} FrameInjective(r: bytes, s: bytes, r': bytes, s': bytes)
    requires |r| + |s| + 4 < 256 && |r'| + |s'| + 4 < 256 && Frame(r, s) == Frame(r', s')
    ensures r == r' && s == s'
  {
    hide Frame;
    FrameAt(r, s);
    FrameAt(r', s');
  }

  /** An r of 1 is written with 31 zero bytes in front, and then the encoding is not strict, whatever s. */
  lemma {:induction false} SmallNumberNotStrict(s: nat)
    requires s < Pow256(32)
    ensures SerializeFixed(1, s).Ok? && !StrictDer(SerializeFixed(1, s).value)
  {
    hide SerializeFixed, Deserialize, StrictDer;
    OneIsSmall();
    FixedRoundTrip(1, s);
    FixedIsStrictIff(1, s);
  }

  lemma {:induction false} OneIsSmall()
    ensures 1 < Pow256(32) && 1 < 0x80 * Pow256(30)
  {
    Pow256Monotone(1, 32);
  }

  /** The fixed-width encoding is strict exactly when neither number is below 2^247. */
  lemma {:induction false} FixedIsStrictIff(r: int, s: int)
    requires SerializeFixed(r, s).Ok?
    ensures StrictDer(SerializeFixed(r, s).value) <==> r >= 0x80 * Pow256(30) && s >= 0x80 * Pow256(30)
  {
    hide Pow256, FixedWidth, Frame, StrictInteger;
    FixedStrictIff(r);
    FixedStrictIff(s);
    var rb, sb := FixedWidth(r).value, FixedWidth(s).value;
    if StrictDer(SerializeFixed(r, s).value) {
      var r': bytes, s': bytes :|
        |r'| + |s'| + 4 < 256 && Frame(rb, sb) == Frame(r', s') && StrictInteger(r') && StrictInteger(s');
      FrameInjective(rb, sb, r', s');
    }
  }

  /** Whatever is wrong with the bytes, the decoder raises ValueError. */
  lemma {:induction false} DeserializeRaises(sig: bytes)
    ensures Deserialize(sig).Err? ==> Deserialize(sig) == Err(ValueError)
  {
    hide FromBE;
  }
}
