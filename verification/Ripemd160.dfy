/** The streaming RIPEMD-160 object of src/pyrxd/hash.py, for any compression function. */
module Ripemd160 {
  import opened Wrappers
  import opened Bytes

  type Word = x: int | 0 <= x < 0x1_0000_0000

  /** The five chaining words. */
  datatype State = State(a: Word, b: Word, c: Word, d: Word, e: Word)

  const IV := State(0x67452301, 0xEFCDAB89, 0x98BADCFE, 0x10325476, 0xC3D2E1F0)

  /** _compress_block: a 64-byte block and the chaining words give new ones. */
  type Compress = (bytes, State) -> State

  // ---------------------------------------------------------------------------
  // The one-shot definition

  /** The chaining words after all 64-byte blocks of s. */
  function Fold(compress: Compress, h: State, s: bytes): State
    requires |s| % 64 == 0
    decreases |s|
  {
    if s == [] then h else Fold(compress, compress(s[..64], h), s[64..])
  }

  /** How many zero bytes bring a message of n bytes and its 0x80 to 56 modulo 64. */
  function ZeroCount(n: nat): (k: nat)
    ensures k < 64 && (n + 1 + k) % 64 == 56
  {
    (119 - n % 64) % 64
  }

  function ZeroBytes(k: nat): (r: bytes)
    ensures |r| == k
  {
    seq(k, i => 0)
  }

  lemma {:induction false} Plus8(x: nat)
    requires x % 64 == 56
    ensures (x + 8) % 64 == 0
  {
  }

  /** 0x80, zero bytes up to 56 modulo 64, and the bit count in 8 bytes. */
  function Tail(n: nat): (r: bytes)
    ensures (n + |r|) % 64 == 0
  {
    Plus8(n + 1 + ZeroCount(n));
    [0x80] + ZeroBytes(ZeroCount(n)) + ToLE(8 * n, 8)
  }

  function Pad(m: bytes): (p: bytes)
    ensures |p| % 64 == 0
  {
    m + Tail(|m|)
  }

  /** struct.pack("<5I", *h) */
  function Pack(h: State): bytes {
    ToLE(h.a, 4) + ToLE(h.b, 4) + ToLE(h.c, 4) + ToLE(h.d, 4) + ToLE(h.e, 4)
  }

  /** The bit count does not fit its 8 bytes from 2^61 message bytes on. */
  const LIMIT: nat := 0x2000_0000_0000_0000

  function OneShot(compress: Compress, m: bytes): Result<bytes> {
    if |m| >= LIMIT then Err(StructError) else Ok(Pack(Fold(compress, IV, Pad(m))))
  }

  // ---------------------------------------------------------------------------

  lemma {:induction false} FoldAppend(compress: Compress, h: State, a: bytes, b: bytes)
    requires |a| % 64 == 0 && |b| % 64 == 0
    ensures Fold(compress, h, a + b) == Fold(compress, Fold(compress, h, a), b)
    decreases |a|
  {
    if a == [] {
      assert a + b == b;
    } else {
      assert (a + b)[..64] == a[..64] && (a + b)[64..] == a[64..] + b;
      FoldAppend(compress, compress(a[..64], h), a[64..], b);
    }
  }

  lemma {:induction false} FoldLast(compress: Compress, h: State, a: bytes, block: bytes)
    requires |a| % 64 == 0 && |block| == 64
    ensures Fold(compress, h, a + block) == compress(block, Fold(compress, h, a))
  {
    FoldAppend(compress, h, a, block);
    assert block[..64] == block && block[64..] == [];
  }

  lemma {:induction false} BitCountFits(n: nat)
    requires n < LIMIT
    ensures 8 * n < Pow256(8)
  {
    assert Pow256(4) == 0x1_0000_0000;
    assert Pow256(5) == 0x100_0000_0000 && Pow256(6) == 0x1_0000_0000_0000;
    assert Pow256(7) == 0x100_0000_0000_0000 && Pow256(8) == 0x1_0000_0000_0000_0000;
  }

  /** Two messages below the limit with the same padding are the same message. */
  lemma {:induction false} PadInjective(m: bytes, n: bytes)
    requires |m| < LIMIT && |n| < LIMIT
    ensures Pad(m) == Pad(n) ==> m == n
  {
    hide ToLE, FromLE, Pow256, ZeroCount, ZeroBytes;
    var p := Pad(m);
    if p == Pad(n) {
      assert p[|p| - 8..] == ToLE(8 * |m|, 8);
      assert p[|p| - 8..] == ToLE(8 * |n|, 8);
      BitCountFits(|m|);
      BitCountFits(|n|);
      LERoundTrip(8 * |m|, 8);
      LERoundTrip(8 * |n|, 8);
      assert p[..|m|] == m && p[..|n|] == n;
    }
  }

  // ---------------------------------------------------------------------------
  // The object

  function Whole(n: nat): (k: nat)
    ensures k <= n && k % 64 == 0 && n - k < 64
  {
    n - n % 64
  }

  lemma {:induction false} WholeUnique(n: nat, k: nat)
    requires k <= n < k + 64 && k % 64 == 0
    ensures Whole(n) == k
  {
  }

  class Hasher {
    const compress: Compress
    var h: State
    var buffer: bytes
    var length: nat

    /** Everything that update was given so far. */
    ghost var input: bytes

    /** The words are the fold over the whole blocks of the input, the buffer is the rest. */
    ghost predicate Valid()
      reads this
    {
      && length == |input|
      && h == Fold(compress, IV, input[..Whole(|input|)])
      && buffer == input[Whole(|input|)..]
    }

    constructor (compress: Compress)
      ensures Valid() && this.compress == compress && input == []
    {
      this.compress := compress;
      h := IV;
      buffer := [];
      length := 0;
      input := [];
    }

    method Update(data: bytes)
      requires Valid()
      modifies this
      ensures Valid() && input == old(input) + data
    {
      hide Whole, Fold;
      ghost var all := input + data;
      ghost var done := Whole(|input|);
      assert input[..done] == all[..done];
      buffer := buffer + data;
      length := length + |data|;
      assert buffer == all[done..];
      while |buffer| >= 64
        invariant done <= |all| && done % 64 == 0
        invariant h == Fold(compress, IV, all[..done]) && buffer == all[done..]
        invariant length == |all| && input == old(input)
        decreases |buffer|
      {
        FoldLast(compress, IV, all[..done], buffer[..64]);
        assert all[..done] + buffer[..64] == all[..done + 64];
        h := compress(buffer[..64], h);
        buffer := buffer[64..];
        done := done + 64;
      }
      WholeUnique(|all|, done);
      input := all;
    }

    /** digest works on copies: it changes nothing. */
    method Digest() returns (r: Result<bytes>)
      requires Valid()
      ensures r == OneShot(compress, input)
    {
      hide ToLE, Pack, Fold, ZeroBytes, Pad, Tail;
      var buf := buffer + [0x80];
      NoZeros();
      var k := 0;
      while |buf| % 64 != 56
        invariant k <= ZeroCount(length) && buf == buffer + [0x80] + ZeroBytes(k)
        decreases ZeroCount(length) - k
      {
        OneZeroMore(k);
        buf := buf + [0x00];
        k := k + 1;
        LengthTest(length, k);
      }
      LengthTest(length, k);
      if length >= LIMIT {
        return Err(StructError);
      }
      buf := buf + ToLE(8 * length, 8);
      Padded(input, Whole(length), buf);
      var words := FoldLoop(compress, h, buf);
      FoldAppend(compress, IV, input[..Whole(length)], buf);
      r := Ok(Pack(words));
    }
  }

  lemma {:induction false} NoZeros()
    ensures ZeroBytes(0) == []
  {
  }

  lemma {:induction false} OneZeroMore(k: nat)
    ensures ZeroBytes(k) + [0x00] == ZeroBytes(k + 1)
  {
  }

  /** The rest of a message with what digest puts behind it ends the padded message. */
  lemma {:induction false} Padded(m: bytes, w: nat, buf: bytes)
    requires w <= |m| && w % 64 == 0
    requires buf == m[w..] + [0x80] + ZeroBytes(ZeroCount(|m|)) + ToLE(8 * |m|, 8)
    ensures m[..w] + buf == Pad(m) && |buf| % 64 == 0
  {
    hide ToLE, ZeroBytes, ZeroCount;
    assert m == m[..w] + m[w..];
    assert m[..w] + buf == m + Tail(|m|);
  }

  /** The padding loop stops at the first count that reaches 56 modulo 64. */
  lemma {:induction false} LengthTest(n: nat, k: nat)
    requires k <= 64
    ensures k < ZeroCount(n) ==> (n % 64 + 1 + k) % 64 != 56
    ensures k == ZeroCount(n) ==> (n % 64 + 1 + k) % 64 == 56
  {
  }

  /** for offset in range(0, len(buf), 64): h = _compress_block(block, h) */
  method FoldLoop(compress: Compress, h: State, buf: bytes) returns (r: State)
    requires |buf| % 64 == 0
    ensures r == Fold(compress, h, buf)
  {
    r := h;
    var offset := 0;
    while offset < |buf|
      invariant offset <= |buf| && offset % 64 == 0
      invariant r == Fold(compress, h, buf[..offset])
    {
      FoldLast(compress, h, buf[..offset], buf[offset..offset + 64]);
      assert buf[..offset] + buf[offset..offset + 64] == buf[..offset + 64];
      r := compress(buf[offset..offset + 64], r);
      offset := offset + 64;
    }
    assert buf[..offset] == buf;
  }

  function Concat(chunks: seq<bytes>): bytes {
    if chunks == [] then [] else Concat(chunks[..|chunks| - 1]) + chunks[|chunks| - 1]
  }

  /** Any run of updates with a digest after each: every digest is the one-shot hash of all the
      chunks so far, however the input was cut. */
  method Stream(compress: Compress, chunks: seq<bytes>) returns (digests: seq<Result<bytes>>)
    ensures |digests| == |chunks|
    ensures forall i :: 0 <= i < |chunks| ==> digests[i] == OneShot(compress, Concat(chunks[..i + 1]))
  {
    var hasher := new Hasher(compress);
    digests := [];
    for i := 0 to |chunks|
      invariant hasher.Valid() && hasher.compress == compress && fresh(hasher)
      invariant hasher.input == Concat(chunks[..i])
      invariant |digests| == i
      invariant forall j :: 0 <= j < i ==> digests[j] == OneShot(compress, Concat(chunks[..j + 1]))
    {
      hasher.Update(chunks[i]);
      assert chunks[..i + 1][..i] == chunks[..i];
      var d := hasher.Digest();
      digests := digests + [d];
    }
  }

  // ---------------------------------------------------------------------------
  // The padding and the digest, byte by byte

  lemma {:induction false} InitialWords()
    ensures IV.a == 0x67452301 && IV.b == 0xEFCDAB89 && IV.c == 0x98BADCFE && IV.d == 0x10325476 && IV.e == 0xC3D2E1F0
  {
  }

  /** The padding: the message, 0x80, zeros, and the number of bits in the last eight bytes, in the
      fewest blocks of 64 bytes that hold them. */
  lemma {:induction false} PadShape(m: bytes)
    requires |m| < LIMIT
    ensures var p := Pad(m);
            && |m| + 9 <= |p| && |p| % 64 == 0 && (forall q :: |m| + 9 <= q && q % 64 == 0 ==> |p| <= q)
            && p[..|m|] == m && p[|m|] == 0x80
            && (forall i :: |m| < i < |p| - 8 ==> p[i] == 0)
            && FromLE(p[|p| - 8..]) == 8 * |m|
  {
    hide ToLE, FromLE, Pow256;
    var p := Pad(m);
    assert p[|p| - 8..] == ToLE(8 * |m|, 8);
    BitCountFits(|m|);
    LERoundTrip(8 * |m|, 8);
    forall q | |m| + 9 <= q && q % 64 == 0 ensures |p| <= q {
      NoEarlierBlock(|m| + 9, |p|, q);
    }
  }

  lemma {:induction false} NoEarlierBlock(least: nat, p: nat, q: nat)
    requires p % 64 == 0 && p < least + 64 && least <= q && q % 64 == 0
    ensures p <= q
  {
  }

  /** The digest: 20 bytes, the five words of the folded padding in order, each little-endian. */
  lemma {:induction false} DigestWords(compress: Compress, m: bytes)
    ensures OneShot(compress, m).Ok? <==> |m| < 0x2000_0000_0000_0000
    ensures OneShot(compress, m).Ok? ==>
              var (r, h) := (OneShot(compress, m).value, Fold(compress, IV, Pad(m)));
              && |r| == 20
              && FromLE(r[0..4]) == h.a && FromLE(r[4..8]) == h.b && FromLE(r[8..12]) == h.c
              && FromLE(r[12..16]) == h.d && FromLE(r[16..20]) == h.e
  {
    hide Fold, Pad, ToLE, FromLE;
    var h := Fold(compress, IV, Pad(m));
    var r := Pack(h);
    assert Pow256(4) == 0x1_0000_0000 by { WordWidth(); }
    assert r[0..4] == ToLE(h.a, 4) && r[4..8] == ToLE(h.b, 4) && r[8..12] == ToLE(h.c, 4);
    assert r[12..16] == ToLE(h.d, 4) && r[16..20] == ToLE(h.e, 4);
    LERoundTrip(h.a, 4);
    LERoundTrip(h.b, 4);
    LERoundTrip(h.c, 4);
    LERoundTrip(h.d, 4);
    LERoundTrip(h.e, 4);
  }

  lemma {:induction false} WordWidth()
    ensures Pow256(4) == 0x1_0000_0000
  {
    assert Pow256(2) == 0x1_0000 && Pow256(3) == 0x100_0000;
  }
}
