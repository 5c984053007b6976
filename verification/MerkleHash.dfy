/** hash_fn of src/pyrxd/merkle_path.py: the pair hash on displayed (byte-reversed) hashes. */
module MerkleHash {
  import opened Bytes
  import opened MerkleTree

  /** hash_fn: decode, reverse, double-hash, reverse. */
  function HashFn(hash256: bytes -> Digest, m: bytes): Digest {
    Reverse(hash256(Reverse(m)))
  }

  /** The code writes the right child in front of the left one and hashes the result. */
  function PairHasher(hash256: bytes -> Digest): Hasher {
    (left: bytes, right: bytes) => HashFn(hash256, right + left)
  }

  /** In wire byte order this is the Bitcoin rule: hash the left child followed by the right one. */
  lemma {:induction false} PairHasherIsBitcoin(hash256: bytes -> Digest, left: bytes, right: bytes)
    ensures Reverse(PairHasher(hash256)(left, right)) == hash256(Reverse(left) + Reverse(right))
  {
    ReverseConcat(right, left);
    ReverseReverse(hash256(Reverse(right + left)));
  }

  lemma {:induction false} ReverseInjective(s: bytes, t: bytes)
    requires Reverse(s) == Reverse(t)
    ensures s == t
  {
    ReverseReverse(s);
    ReverseReverse(t);
  }

  /** The bytes that are double-hashed for a pair. */
  function Message(left: bytes, right: bytes): bytes {
    Reverse(left) + Reverse(right)
  }

  /** Two different pairs with one parent give two messages with one double hash. When the left
      hashes are equally long, the messages differ. */
  lemma {:induction false} PairCollisionIsHashCollision(hash256: bytes -> Digest, a: bytes, b: bytes, c: bytes,
                                                        d: bytes)
    requires (a, b) != (c, d) && PairHasher(hash256)(a, b) == PairHasher(hash256)(c, d)
    ensures hash256(Message(a, b)) == hash256(Message(c, d))
    ensures |a| == |c| ==> Message(a, b) != Message(c, d)
  {
    PairHasherIsBitcoin(hash256, a, b);
    PairHasherIsBitcoin(hash256, c, d);
    if |a| == |c| && Message(a, b) == Message(c, d) {
      MessageInjective(a, b, c, d);
    }
  }

  lemma {:induction false} MessageInjective(a: bytes, b: bytes, c: bytes, d: bytes)
    requires |a| == |c| && Message(a, b) == Message(c, d)
    ensures a == c && b == d
  {
    var m, n := Message(a, b), Message(c, d);
    assert Reverse(a) == m[..|a|] && Reverse(c) == n[..|a|];
    assert Reverse(b) == m[|a|..] && Reverse(d) == n[|a|..];
    ReverseInjective(a, c);
    ReverseInjective(b, d);
  }

  lemma {:induction false} MessageLength(a: bytes, b: bytes)
    ensures |Message(a, b)| == |a| + |b|
  {
  }
}
