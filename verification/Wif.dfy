/** Wallet import format: PrivateKey.wif of src/pyrxd/keys.py and decode_wif of src/pyrxd/utils.py. */
module Wif {
  import opened Wrappers
  import opened Arithmetic
  import opened Bytes
  import opened Radix
  import opened Base58

  type Hash256 = bytes -> Digest

  datatype Network = Mainnet | Testnet

  function Prefix(network: Network): byte {
    if network.Mainnet? then 0x80 else 0xef
  }

  function NetworkOf(prefix: bytes): Option<Network> {
    if prefix == [0x80] then Some(Mainnet) else if prefix == [0xef] then Some(Testnet) else None
  }

  /** _checksum */
  function Checksum(hash256: Hash256, payload: bytes): bytes {
    hash256(payload)[..4]
  }

  function CheckEncode(hash256: Hash256, payload: bytes): string {
    Encode(payload + Checksum(hash256, payload))
  }

  /** s[:-4] and s[-4:] */
  function SplitChecksum(s: bytes): (bytes, bytes) {
    if |s| >= 4 then (s[..|s| - 4], s[|s| - 4..]) else ([], s)
  }

  function CheckDecode(hash256: Hash256, encoded: string): Result<bytes> {
    var decoded :- Decode(encoded);
    var (payload, checksum) := SplitChecksum(decoded);
    if checksum != Checksum(hash256, payload) then Err(ValueError) else Ok(payload)
  }

  /** wif, on the 32 bytes of the key */
  function EncodeWif(hash256: Hash256, key: bytes, compressed: bool, network: Network): string {
    CheckEncode(hash256, [Prefix(network)] + key + (if compressed then [0x01] else []))
  }

  function DecodeWif(hash256: Hash256, wif: string): Result<(bytes, bool, Network)> {
    var decoded :- CheckDecode(hash256, wif);
    var network := NetworkOf(if decoded == [] then [] else decoded[..1]);
    if network.None? then Err(ValueError)
    else if |wif| == 52 && decoded[|decoded| - 1] == 1 then Ok((decoded[1..|decoded| - 1], true, network.value))
    else Ok((decoded[1..], false, network.value))
  }

  // ---------------------------------------------------------------------------
  // How long the text is

  lemma {:induction false} ValueBound(s: seq<nat>, b: nat)
    requires b > 0 && Below(s, b)
    ensures Value(s, b) < Pow(b, |s|)
  {
    if s != [] {
      var front, last := s[..|s| - 1], s[|s| - 1];
      ValueBound(front, b);
      OneDigitMore(Value(front, b), Pow(b, |s| - 1), b, last);
    }
  }

  lemma {:induction false} OneDigitMore(v: nat, p: nat, b: nat, last: nat)
    requires v < p && last < b
    ensures v * b + last < b * p
  {
    MulMonotone(v + 1, p, b);
    assert (v + 1) * b == v * b + b && p * b == b * p;
  }

  lemma {:induction false} ValueCons(h: nat, t: seq<nat>, b: nat)
    ensures Value([h] + t, b) == h * Pow(b, |t|) + Value(t, b)
  {
    var s := [h] + t;
    if t == [] {
      assert s[..0] == [];
    } else {
      var front, last := t[..|t| - 1], t[|t| - 1];
      assert s[..|s| - 1] == [h] + front;
      ValueCons(h, front, b);
      var p := Pow(b, |t| - 1);
      assert (h * p + Value(front, b)) * b == h * (b * p) + Value(front, b) * b;
    }
  }

  lemma {:induction false} Powers58()
    ensures Pow(58, 50) == 14838830640714294999983396511843381888381117770762056659674968992599706869653743415066624
    ensures Pow(58, 51) == 58 * Pow(58, 50) && Pow(58, 52) == 58 * Pow(58, 51)
  {
    assert Pow(58, 1) == 58 && Pow(58, 2) == 3364 && Pow(58, 3) == 195112;
    PowAdd(58, 3, 3);
    PowAdd(58, 6, 6);
    assert Pow(58, 12) == 1449225352009601191936;
    PowAdd(58, 12, 12);
    PowAdd(58, 24, 1);
    assert Pow(58, 25) == 121814739012626444160521369338174330862829568;
    PowAdd(58, 25, 25);
  }

  lemma {:induction false} Powers256()
    ensures Pow(256, 36) == 497323236409786642155382248146820840100456150797347717440463976893159497012533375533056
    ensures Pow(256, 37) == 256 * Pow(256, 36)
  {
    assert Pow(256, 1) == 256 && Pow(256, 2) == 65536 && Pow(256, 3) == 16777216;
    PowAdd(256, 3, 3);
    PowAdd(256, 6, 3);
    assert Pow(256, 9) == 4722366482869645213696;
    PowAdd(256, 9, 9);
    PowAdd(256, 18, 18);
  }

  /** The powers that bound the two lengths. */
  lemma {:induction false} WifPowers()
    ensures Pow(58, 50) <= 128 * Pow(256, 36) && 240 * Pow(256, 36) <= Pow(58, 51)
    ensures Pow(58, 51) <= 128 * Pow(256, 37) && 240 * Pow(256, 37) <= Pow(58, 52)
  {
    hide Pow;
    Powers58();
    Powers256();
  }

  /** The text of 37 or 38 bytes that start with a WIF prefix has 51 or 52 characters. */
  lemma {:induction false} WifLength(payload: bytes)
    requires |payload| == 37 || |payload| == 38
    requires 0x80 <= payload[0] < 0xf0
    ensures |Encode(payload)| == |payload| + 14
  {
    hide Pow, Digits, Chars, LeadingZeros, Value;
    var n := Value(payload, 256);
    WifValue(payload);
    DigitCount(n, 58, |payload| + 14);
    LeadingZerosUnique(payload, 0);
  }

  lemma {:induction false} WifValue(payload: bytes)
    requires |payload| == 37 || |payload| == 38
    requires 0x80 <= payload[0] < 0xf0
    ensures Pow(58, |payload| + 13) <= Value(payload, 256) < Pow(58, |payload| + 14)
  {
    hide Pow, Value;
    var h: nat, t: seq<nat> := payload[0], payload[1..];
    assert payload == [h] + t;
    ValueCons(h, t, 256);
    ValueBound(t, 256);
    WifPowers();
    var p := Pow(256, |t|);
    MulMonotone(128, h, p);
    MulMonotone(h + 1, 240, p);
    assert (h + 1) * p == h * p + p;
  }

  /** A checked text decodes to the payload it was made from. */
  lemma {:induction false} CheckRoundTrip(hash256: Hash256, payload: bytes)
    ensures CheckDecode(hash256, CheckEncode(hash256, payload)) == Ok(payload)
  {
    hide Encode, Decode;
    DecodeOfEncode(payload + Checksum(hash256, payload));
  }

  /** Decoding an exported key gives the same key, compression flag and network, also when an
      uncompressed key ends in 0x01. */
  lemma {:induction false} WifRoundTrip(hash256: Hash256, key: bytes, compressed: bool, network: Network)
    requires |key| == 32
    ensures DecodeWif(hash256, EncodeWif(hash256, key, compressed, network)) == Ok((key, compressed, network))
  {
    hide CheckDecode, Encode;
    var payload := [Prefix(network)] + key + (if compressed then [0x01] else []);
    CheckRoundTrip(hash256, payload);
    WifLength(payload + Checksum(hash256, payload));
    assert payload[..1] == [Prefix(network)];
    if compressed {
      assert payload[1..|payload| - 1] == key;
    } else {
      assert payload[1..] == key;
    }
  }

  // ---------------------------------------------------------------------------
  // The bytes behind the text

  /** The bytes that a checked text stands for: the payload and the first four bytes of its hash. */
  lemma {:induction false} CheckedBytes(hash256: Hash256, payload: bytes)
    ensures var d := hash256(payload);
            Decode(CheckEncode(hash256, payload)) == Ok(payload + [d[0], d[1], d[2], d[3]])
  {
    hide Encode, Decode;
    var d := hash256(payload);
    assert d[..4] == [d[0], d[1], d[2], d[3]];
    DecodeOfEncode(payload + Checksum(hash256, payload));
  }

  /** A text is accepted exactly when it stands for a payload and the first four bytes of its hash. */
  lemma {:induction false} CheckDecodeIff(hash256: Hash256, text: string, payload: bytes)
    ensures var d := hash256(payload);
            CheckDecode(hash256, text) == Ok(payload) <==> Decode(text) == Ok(payload + [d[0], d[1], d[2], d[3]])
  {
    hide Decode;
    var d := hash256(payload);
    var checked := payload + [d[0], d[1], d[2], d[3]];
    assert d[..4] == [d[0], d[1], d[2], d[3]];
    if Decode(text).Ok? {
      var s := Decode(text).value;
      if |s| >= 4 {
        assert s == s[..|s| - 4] + s[|s| - 4..];
      }
      if s == checked {
        assert s[..|s| - 4] == payload && s[|s| - 4..] == [d[0], d[1], d[2], d[3]];
      }
    }
  }

  /** The bytes behind an exported key: 0x80 or 0xef by network, the key, 0x01 when compressed, and the
      first four bytes of the hash of all these. */
  lemma {:induction false} WifBytes(hash256: Hash256, key: bytes, compressed: bool, network: Network)
    ensures var payload := [if network == Testnet then 0xef else 0x80] + key + (if compressed then [0x01] else []);
            var d := hash256(payload);
            Decode(EncodeWif(hash256, key, compressed, network)) == Ok(payload + [d[0], d[1], d[2], d[3]])
  {
    hide CheckEncode, Decode;
    CheckedBytes(hash256, [Prefix(network)] + key + (if compressed then [0x01] else []));
  }

  /** Whatever is wrong with the text, decode_wif raises ValueError. */
  lemma {:induction false} WifRaises(hash256: Hash256, text: string)
    ensures DecodeWif(hash256, text).Err? ==> DecodeWif(hash256, text) == Err(ValueError)
    ensures CheckDecode(hash256, text).Err? ==> CheckDecode(hash256, text) == Err(ValueError)
  {
    hide Decode;
    DecodeRaises(text);
    assert CheckDecode(hash256, text).Err? ==> CheckDecode(hash256, text) == Err(ValueError);
    hide CheckDecode;
  }
}
