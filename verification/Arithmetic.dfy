/** The products the other proofs reason about, one step at a time. */
module Arithmetic {

  lemma {:induction false} MulMonotone(a: int, b: int, p: nat)
    requires a <= b
    ensures a * p <= b * p
  {
  }

  lemma {:induction false} NonNegative(a: nat, b: nat)
    ensures a * b >= 0
  {
  }

  lemma {:induction false} ZeroFactor(k: int, m: int)
    ensures m == 0 ==> k * m == 0
  {
  }

  lemma {:induction false} Associate(a: int, b: int, c: int)
    ensures (a * b) * c == a * (b * c)
  {
  }
}
