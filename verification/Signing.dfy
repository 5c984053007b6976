/** A whole signing call with a chosen nonce, from the digest to the DER bytes and back. */
module Signing {
  import opened Bytes
  import opened Wrappers
  import opened ModArith
  import opened Ecdsa
  import Der

  /** _sign_custom_k on the digest of the message, for the secret key d. */
  function SignToDer<P>(c: Group<P>, n: nat, digest: bytes, d: nat, k: int): Result<bytes>
    requires n > 0
  {
    var sig :- SignCustomK(c, n, FromBE(digest), d, k);
    Der.SerializeFixed(sig.0, sig.1)
  }

  lemma {:induction false} SignInSteps<P>(c: Group<P>, n: nat, digest: bytes, d: nat, k: int)
    requires n > 0
    ensures var sig := SignCustomK(c, n, FromBE(digest), d, k);
      SignToDer(c, n, digest, d, k) == if sig.Err? then Err(sig.error) else Der.SerializeFixed(sig.value.0, sig.value.1)
  {
    hide SignCustomK, Der.SerializeFixed;
  }

  /** The bytes decode to a low-s pair that the public key d * g verifies
      exactly when the x-coordinate of the nonce point is positive and below n. */
  lemma {:induction false} SignedBytesVerify<P(!new)>(c: Group<P>, n: nat, digest: bytes, d: nat, k: int)
    requires IsGroup(c) && HasOrder(c, n) && Prime(n)
    ensures SignToDer(c, n, digest, d, k).Ok? ==>
      var out := Der.Deserialize(SignToDer(c, n, digest, d, k).value);
      && out.Ok?
      && 1 <= out.value.1 <= n / 2
      && out.value.0 == c.x(Times(c, k % n, c.g))
      && (Verifies(c, n, FromBE(digest), Times(c, d, c.g), out.value.0, out.value.1) <==> 0 < out.value.0 < n)
  {
    hide Verifies, IsGroup, HasOrder, SignCustomK, Der.SerializeFixed, Der.Deserialize;
    var sig := SignCustomK(c, n, FromBE(digest), d, k);
    SignatureVerifies(c, n, FromBE(digest), d, k);
    if sig.Ok? {
      Der.FixedRoundTrip(sig.value.0, sig.value.1);
    }
  }
}
