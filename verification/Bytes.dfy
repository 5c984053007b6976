/** Byte strings and fixed-width integers. */
module Bytes {

  type byte = x: int | 0 <= x < 256
  type bytes = seq<byte>

  const ZERO_DIGEST: bytes := seq(32, i => 0)

  /** A 32-byte hash. */
  type Digest = b: bytes | |b| == 32 witness ZERO_DIGEST

  function Pow256(k: nat): (r: nat)
    ensures r > 0
  {
    if k == 0 then 1 else 256 * Pow256(k - 1)
  }

  lemma {:induction false} Pow256Monotone(j: nat, k: nat)
    requires j <= k
    ensures Pow256(j) <= Pow256(k)
  {
    if j < k {
      Pow256Monotone(j, k - 1);
    }
  }

  /** int.from_bytes(s, "little") */
  function FromLE(s: bytes): nat {
    if s == [] then 0 else s[0] + 256 * FromLE(s[1..])
  }

  /** n.to_bytes(k, "little"), for n below 256^k */
  function ToLE(n: nat, k: nat): (r: bytes)
    ensures |r| == k
  {
    if k == 0 then [] else [n % 256] + ToLE(n / 256, k - 1)
  }

  /** int.from_bytes(s, "big") */
  function FromBE(s: bytes): nat {
    if s == [] then 0 else 256 * FromBE(s[..|s| - 1]) + s[|s| - 1]
  }

  /** n.to_bytes(k, "big"), for n below 256^k */
  function ToBE(n: nat, k: nat): (r: bytes)
    ensures |r| == k
  {
    if k == 0 then [] else ToBE(n / 256, k - 1) + [n % 256]
  }

  function Reverse<T>(s: seq<T>): (r: seq<T>)
    ensures |r| == |s|
    ensures forall i :: 0 <= i < |s| ==> r[i] == s[|s| - 1 - i]
  {
    if s == [] then [] else Reverse(s[1..]) + [s[0]]
  }

  lemma {:induction false} ReverseReverse<T>(s: seq<T>)
    ensures Reverse(Reverse(s)) == s
  {
  }

  lemma {:induction false} ReverseConcat<T>(s: seq<T>, t: seq<T>)
    ensures Reverse(s + t) == Reverse(t) + Reverse(s)
  {
  }

  lemma {:induction false} LERoundTrip(n: nat, k: nat)
    requires n < Pow256(k)
    ensures FromLE(ToLE(n, k)) == n
  {
    if k > 0 {
      LERoundTrip(n / 256, k - 1);
      assert ToLE(n, k)[1..] == ToLE(n / 256, k - 1);
    }
  }

  lemma {:induction false} ToFromLE(s: bytes)
    ensures ToLE(FromLE(s), |s|) == s
  {
    if s != [] {
      ToFromLE(s[1..]);
      LowByte(s[0], FromLE(s[1..]));
      assert s == [s[0]] + s[1..];
    }
  }

  lemma {:induction false} LowByte(b: byte, n: nat)
    ensures (b + 256 * n) % 256 == b && (b + 256 * n) / 256 == n
  {
  }

  lemma {:induction false} FromLEAppend(m: bytes, x: byte)
    ensures FromLE(m + [x]) == FromLE(m) + x * Pow256(|m|)
  {
    if m == [] {
      assert m + [x] == [x];
      assert FromLE([x]) == x + 256 * FromLE([]);
    } else {
      assert (m + [x])[1..] == m[1..] + [x];
      FromLEAppend(m[1..], x);
      assert 256 * (x * Pow256(|m| - 1)) == x * Pow256(|m|);
    }
  }

  lemma {:induction false} FromLEBound(s: bytes)
    ensures FromLE(s) < Pow256(|s|)
  {
    if s != [] {
      FromLEBound(s[1..]);
    }
  }

  lemma {:induction false} BERoundTrip(n: nat, k: nat)
    requires n < Pow256(k)
    ensures FromBE(ToBE(n, k)) == n
  {
    if k > 0 {
      BERoundTrip(n / 256, k - 1);
      assert ToBE(n, k)[..k - 1] == ToBE(n / 256, k - 1);
    }
  }

  lemma {:induction false} FromBEBound(s: bytes)
    ensures FromBE(s) < Pow256(|s|)
  {
    if s != [] {
      FromBEBound(s[..|s| - 1]);
    }
  }

  lemma {:induction false} ToFromBE(s: bytes)
    ensures ToBE(FromBE(s), |s|) == s
  {
    if s != [] {
      ToFromBE(s[..|s| - 1]);
    }
  }
}
