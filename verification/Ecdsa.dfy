/** Signing with a chosen nonce, over any group of prime order, and the
    verification of section 4.1.4 of SEC 1 for the signatures it makes. */
module Ecdsa {
  import opened Arithmetic
  import opened ModArith
  import opened Wrappers

  /** The group a curve gives: its operations, its generator, and the x-coordinate of a point. */
  datatype Group<!P(==)> = Group(zero: P, add: (P, P) -> P, neg: P -> P, g: P, x: P -> nat)

  /** k * p, by repeated addition. */
  function Times<P>(c: Group<P>, k: nat, p: P): P {
    if k == 0 then c.zero else c.add(p, Times(c, k - 1, p))
  }

  /** The group laws, a point and its negative sharing x as they do on y^2 = x^3 + ax + b. */
  ghost predicate IsGroup<P(!new)>(c: Group<P>) {
    && (forall p, q, r :: c.add(c.add(p, q), r) == c.add(p, c.add(q, r)))
    && (forall p :: c.add(c.zero, p) == p && c.add(p, c.zero) == p)
    && (forall p :: c.add(p, c.neg(p)) == c.zero && c.add(c.neg(p), p) == c.zero)
    && (forall p :: c.x(c.neg(p)) == c.x(p))
  }

  /** n is the order of the generator. */
  ghost predicate HasOrder<P(!new)>(c: Group<P>, n: nat) {
    && Times(c, n, c.g) == c.zero
    && forall k: nat :: 0 < k < n ==> Times(c, k, c.g) != c.zero
  }

  // ---------------------------------------------------------------------------
  // Multiples of a point

  lemma {:induction false} Associative<P(!new)>(c: Group<P>, p: P, q: P, r: P)
    requires IsGroup(c)
    ensures c.add(c.add(p, q), r) == c.add(p, c.add(q, r))
  {
  }

  lemma {:induction false} UnitAndNegative<P(!new)>(c: Group<P>, p: P)
    requires IsGroup(c)
    ensures c.add(c.zero, p) == p && c.add(p, c.zero) == p
    ensures c.add(p, c.neg(p)) == c.zero && c.x(c.neg(p)) == c.x(p)
  {
  }

  lemma {:induction false} TimesAdd<P(!new)>(c: Group<P>, a: nat, b: nat, p: P)
    requires IsGroup(c)
    ensures Times(c, a + b, p) == c.add(Times(c, a, p), Times(c, b, p))
  {
    hide IsGroup;
    if a > 0 {
      TimesAdd(c, a - 1, b, p);
      Associative(c, p, Times(c, a - 1, p), Times(c, b, p));
    } else {
      UnitAndNegative(c, Times(c, b, p));
    }
  }

  lemma {:induction false} TimesMul<P(!new)>(c: Group<P>, a: nat, b: nat, p: P)
    requires IsGroup(c)
    ensures a * b >= 0 && Times(c, a * b, p) == Times(c, a, Times(c, b, p))
  {
    hide IsGroup;
    if a > 0 {
      TimesMul(c, a - 1, b, p);
      MulStep(a, b);
      TimesAdd(c, b, (a - 1) * b, p);
    } else {
      ZeroFactor(b, a);
    }
  }

  lemma {:induction false} MulStep(a: nat, b: nat)
    requires a > 0
    ensures a * b == b + (a - 1) * b
  {
  }

  lemma {:induction false} TimesZero<P(!new)>(c: Group<P>, a: nat)
    requires IsGroup(c)
    ensures Times(c, a, c.zero) == c.zero
  {
    hide IsGroup;
    if a > 0 {
      TimesZero(c, a - 1);
      UnitAndNegative(c, c.zero);
    }
  }

  /** A multiple of the generator depends on the factor modulo n only. */
  lemma {:induction false} TimesMod<P(!new)>(c: Group<P>, n: nat, a: nat)
    requires IsGroup(c) && HasOrder(c, n) && n > 0
    ensures Times(c, a % n, c.g) == Times(c, a, c.g)
  {
    hide IsGroup, Times;
    Order(c, n);
    var q: nat, r: nat := a / n, a % n;
    assert q * n + r == a;
    TimesMul(c, q, n, c.g);
    TimesZero(c, q);
    TimesAdd(c, q * n, r, c.g);
    UnitAndNegative(c, Times(c, r, c.g));
  }

  lemma {:induction false} Order<P(!new)>(c: Group<P>, n: nat)
    requires HasOrder(c, n)
    ensures Times(c, n, c.g) == c.zero
  {
  }

  lemma {:induction false} TimesNeg<P(!new)>(c: Group<P>, n: nat, k: nat)
    requires IsGroup(c) && HasOrder(c, n) && k <= n
    ensures Times(c, n - k, c.g) == c.neg(Times(c, k, c.g))
    ensures c.x(Times(c, n - k, c.g)) == c.x(Times(c, k, c.g))
  {
    hide IsGroup, Times;
    Order(c, n);
    var p, q := Times(c, n - k, c.g), Times(c, k, c.g);
    TimesAdd(c, n - k, k, c.g);
    Associative(c, p, q, c.neg(q));
    UnitAndNegative(c, q);
    UnitAndNegative(c, p);
    UnitAndNegative(c, c.neg(q));
  }

  // ---------------------------------------------------------------------------
  // Signing and verifying

  /** The (r, s) written by _sign_custom_k for the digest z, the secret d and the nonce k. */
  function SignCustomK<P>(c: Group<P>, n: nat, z: nat, d: nat, k0: int): Result<(nat, nat)>
    requires n > 0
  {
    var k: nat := k0 % n;
    if k == 0 then Err(ValueError)
    else
      var point := Times(c, k, c.g);
      if point == c.zero then Err(ValueError)
      else
        var r := c.x(point);
        var s: nat := (Inverse(k, n) * (z + r * d)) % n;
        if s == 0 then Err(ValueError)
        else Ok((r, if s > n / 2 then n - s else s))
  }

  /** The verification of section 4.1.4 of SEC 1, for the public key q. */
  predicate Verifies<P(==)>(c: Group<P>, n: nat, z: nat, q: P, r: nat, s: nat)
    requires n > 0
  {
    && 1 <= r < n && 1 <= s < n
    && var w := Inverse(s, n);
       var u1: nat := (z * w) % n;
       var u2: nat := (r * w) % n;
       var point := c.add(Times(c, u1, c.g), Times(c, u2, q));
       point != c.zero && c.x(point) % n == r
  }

  /** The point the verification looks at is (e / s) * g, e being z + r * d. */
  lemma {:induction false} CheckedPoint<P(!new)>(c: Group<P>, n: nat, z: nat, d: nat, r: nat, w: nat)
    requires IsGroup(c) && HasOrder(c, n) && n > 0
    ensures z * w >= 0 && r * w >= 0 && r * d >= 0 && w * (z + r * d) >= 0
    ensures c.add(Times(c, (z * w) % n, c.g), Times(c, (r * w) % n, Times(c, d, c.g)))
         == Times(c, (w * (z + r * d)) % n, c.g)
  {
    hide IsGroup, HasOrder, Times, Cong;
    NonNegative(z, w);
    NonNegative(r, w);
    NonNegative(r, d);
    NonNegative(w, z + r * d);
    var u1: nat, u2: nat := (z * w) % n, (r * w) % n;
    TimesMul(c, u2, d, c.g);
    TimesAdd(c, u1, u2 * d, c.g);
    SumsAgree(z, w, r, d, n);
    TimesCong(c, n, u1 + u2 * d, w * (z + r * d));
    TimesMod(c, n, w * (z + r * d));
  }

  lemma {:induction false} TimesCong<P(!new)>(c: Group<P>, n: nat, a: nat, b: nat)
    requires IsGroup(c) && HasOrder(c, n) && n > 0 && Cong(a, b, n)
    ensures Times(c, a, c.g) == Times(c, b, c.g)
  {
    hide IsGroup, HasOrder, Times;
    TimesMod(c, n, a);
    TimesMod(c, n, b);
  }

  lemma {:induction false} SumsAgree(z: int, w: int, r: int, d: int, n: nat)
    requires n > 0
    ensures Cong((z * w) % n + ((r * w) % n) * d, w * (z + r * d), n)
  {
    var a, b := (z * w) % n, (r * w) % n;
    ModIsCong(z * w, n);
    ModIsCong(r * w, n);
    CongMul(b, r * w, d, n);
    CongAdd(d * b, d * (r * w), a, n);
    CongAdd(a, z * w, d * (r * w), n);
    Rearrange(z, w, r, d);
    assert b * d == d * b;
  }

  lemma {:induction false} Rearrange(z: int, w: int, r: int, d: int)
    ensures z * w + d * (r * w) == w * (z + r * d)
  {
    assert d * (r * w) == w * (r * d);
  }

  /** With k * v = 1, s = v * e and w * s = u, w * e = k * u. */
  lemma {:induction false} Recover(k: int, v: int, e: int, s: int, w: int, u: int, n: nat)
    requires n > 0 && Cong(k * v, 1, n) && Cong(s, v * e, n) && Cong(w * s, u, n)
    ensures Cong(w * e, k * u, n)
  {
    hide Cong;
    CongMul(k * v, 1, e, n);
    CongMul(s, v * e, k, n);
    Swap(k, v, e);
    CongTrans(k * s, e * (k * v), e * 1, n);
    CongMul(k * s, e, w, n);
    CongMul(w * s, u, k, n);
    Swap(w, k, s);
    CongTrans(w * e, k * (w * s), k * u, n);
  }

  lemma {:induction false} Swap(k: int, v: int, e: int)
    ensures k * (v * e) == e * (k * v) == v * (k * e)
  {
  }

  lemma {:induction false} CongTrans(a: int, b: int, c: int, n: nat)
    requires n > 0 && (Cong(a, b, n) || Cong(b, a, n)) && Cong(b, c, n)
    ensures Cong(a, c, n) && Cong(c, a, n)
  {
  }

  /** s = e / k gives e / s = k, and e / (n - s) = n - k. */
  lemma {:induction false} NonceRecovered(k: nat, e: nat, n: nat, s: nat)
    requires Prime(n) && 0 < k < n && 0 < s < n
    requires s == (Inverse(k, n) * e) % n
    ensures (Inverse(s, n) * e) % n == k
    ensures (Inverse(n - s, n) * e) % n == n - k
  {
    hide Inverse;
    var v, w, m := Inverse(k, n), Inverse(s, n), Inverse(n - s, n);
    InverseWorks(k, n);
    InverseWorks(s, n);
    InverseWorks(n - s, n);
    ModIsCong(v * e, n);
    Commute(w, s);
    Commute(m, n - s);
    Recover(k, v, e, s, w, 1, n);
    NegateInverse(m, s, n);
    Recover(k, v, e, s, m, -1, n);
    ModOfSum(n - k, -1, n);
    SmallMod(k, n);
    SmallMod(n - k, n);
  }

  lemma {:induction false} Commute(a: int, b: int)
    ensures a * b == b * a
  {
  }

  lemma {:induction false} NegateInverse(m: int, s: int, n: nat)
    requires n > 0 && Cong((n - s) * m, 1, n)
    ensures Cong(m * s, -1, n)
  {
    var q := CongQuotient((n - s) * m, 1, n);
    Spread(n, s, m);
    assert m * s == -1 + n * (m - q);
    ModOfSum(-1, m - q, n);
  }

  lemma {:induction false} Spread(n: int, s: int, m: int)
    ensures (n - s) * m == n * m - m * s
  {
  }

  // ---------------------------------------------------------------------------
  // The main results

  /** A signature whose ratio e / s is the nonce or its negative verifies when r is in range. */
  lemma {:induction false} NonceVerifies<P(!new)>(c: Group<P>, n: nat, z: nat, d: nat, k: nat, r: nat, s: nat)
    requires IsGroup(c) && HasOrder(c, n) && n > 0
    requires 0 < k < n && 0 < r < n && 0 < s < n
    requires r == c.x(Times(c, k, c.g))
    requires r * d >= 0
    requires var m := (Inverse(s, n) * (z + r * d)) % n; m == k || m == n - k
    ensures Verifies(c, n, z, Times(c, d, c.g), r, s)
  {
    hide Inverse, IsGroup, HasOrder, Times;
    CheckedPoint(c, n, z, d, r, Inverse(s, n));
    TimesNeg(c, n, k);
    NotZero(c, n, k);
    NotZero(c, n, n - k);
    SmallMod(r, n);
  }

  lemma {:induction false} NotZero<P(!new)>(c: Group<P>, n: nat, k: nat)
    requires HasOrder(c, n) && 0 < k < n
    ensures Times(c, k, c.g) != c.zero
  {
  }

  /** Every signature made is low, and verifies exactly when the x-coordinate of k * g,
      which the code does not reduce modulo n, is positive and below n. */
  lemma {:induction false} SignatureVerifies<P(!new)>(c: Group<P>, n: nat, z: nat, d: nat, k: int)
    requires IsGroup(c) && HasOrder(c, n) && Prime(n)
    ensures var sig := SignCustomK(c, n, z, d, k);
      sig.Ok? ==>
        && 1 <= sig.value.1 <= n / 2
        && sig.value.0 == c.x(Times(c, k % n, c.g))
        && (Verifies(c, n, z, Times(c, d, c.g), sig.value.0, sig.value.1) <==> 0 < sig.value.0 < n)
  {
    hide Inverse, IsGroup, HasOrder;
    var sig := SignCustomK(c, n, z, d, k);
    if sig.Ok? {
      var m: nat := k % n;
      var (r, s) := sig.value;
      NonNegative(r, d);
      var s0: nat := (Inverse(m, n) * (z + r * d)) % n;
      NonceRecovered(m, z + r * d, n, s0);
      if 0 < r < n {
        NonceVerifies(c, n, z, d, m, r, s);
      }
    }
  }

  /** Signing fails exactly for a nonce that is a multiple of n, or when z + r * d is one. */
  lemma {:induction false} SigningFailsIff<P(!new)>(c: Group<P>, n: nat, z: nat, d: nat, k: int)
    requires IsGroup(c) && HasOrder(c, n) && Prime(n)
    ensures SignCustomK(c, n, z, d, k).Err? <==>
      || k % n == 0
      || (z + c.x(Times(c, k % n, c.g)) * d) % n == 0
    ensures SignCustomK(c, n, z, d, k).Err? ==> SignCustomK(c, n, z, d, k) == Err(ValueError)
  {
    hide Inverse, IsGroup;
    var m: nat := k % n;
    if m > 0 {
      var r := c.x(Times(c, m, c.g));
      NonNegative(r, d);
      InverseWorks(m, n);
      ZeroIff(m, Inverse(m, n), z + r * d, n);
    }
  }

  lemma {:induction false} ZeroIff(k: nat, v: nat, e: nat, n: nat)
    requires n > 0 && Cong(k * v, 1, n)
    ensures (v * e) % n == 0 <==> e % n == 0
  {
    SmallMod(0, n);
    CongMul(k * v, 1, e, n);
    Swap(k, v, e);
    if (v * e) % n == 0 {
      CongMul(v * e, 0, k, n);
    }
    if e % n == 0 {
      CongMul(e, 0, v, n);
    }
  }

  // ---------------------------------------------------------------------------
  // What verification accepts

  /** Verification accepts exactly the pairs in range that some nonce makes: s * k is z + r * d, and
      r is the x-coordinate of k * g, both modulo n. */
  lemma {:induction false} VerifiesIff<P(!new)>(c: Group<P>, n: nat, z: nat, d: nat, r: nat, s: nat)
    requires IsGroup(c) && HasOrder(c, n) && Prime(n)
    ensures Verifies(c, n, z, Times(c, d, c.g), r, s) <==>
            && 1 <= r < n && 1 <= s < n
            && exists k: nat :: IsNonceOf(c, n, z, d, r, s, k)
  {
    hide Inverse, IsGroup, HasOrder, Times, Cong, Prime;
    if 1 <= r < n && 1 <= s < n {
      var w, e := Inverse(s, n), z + r * d;
      InverseWorks(s, n);
      VerifiesByRatio(c, n, z, d, r, s);
      hide Verifies;
      RatioIsNonce(s, w, e, n);
      if Verifies(c, n, z, Times(c, d, c.g), r, s) {
        RatioIsNonceOf(c, n, z, d, r, s, (w * e) % n);
      }
      forall k: nat | IsNonceOf(c, n, z, d, r, s, k)
        ensures Verifies(c, n, z, Times(c, d, c.g), r, s)
      {
        NonceIsRatio(s, w, e, k, n);
      }
    }
  }

  lemma {:induction false} RatioIsNonceOf<P>(c: Group<P>, n: nat, z: nat, d: nat, r: nat, s: nat, m: nat)
    requires 0 < m < n && Cong(s * m, z + r * d, n) && c.x(Times(c, m, c.g)) % n == r
    ensures IsNonceOf(c, n, z, d, r, s, m)
  {
  }

  lemma {:induction false} VerifiesByRatio<P(!new)>(c: Group<P>, n: nat, z: nat, d: nat, r: nat, s: nat)
    requires IsGroup(c) && HasOrder(c, n) && 1 <= r < n && 1 <= s < n
    ensures r * d >= 0
    ensures Verifies(c, n, z, Times(c, d, c.g), r, s) <==>
            var m: nat := (Inverse(s, n) * (z + r * d)) % n; m != 0 && c.x(Times(c, m, c.g)) % n == r
  {
    hide Inverse, IsGroup, HasOrder, Times;
    CheckedPoint(c, n, z, d, r, Inverse(s, n));
    ZeroTimes(c);
    var m: nat := (Inverse(s, n) * (z + r * d)) % n;
    if m != 0 {
      NotZero(c, n, m);
    }
  }

  predicate IsNonceOf<P>(c: Group<P>, n: nat, z: nat, d: nat, r: nat, s: nat, k: nat)
    requires n > 0
  {
    0 < k < n && (s * k) % n == (z + r * d) % n && c.x(Times(c, k, c.g)) % n == r
  }

  lemma {:induction false} ZeroTimes<P>(c: Group<P>)
    ensures Times(c, 0, c.g) == c.zero
  {
  }

  lemma {:induction false} RatioIsNonce(s: int, w: int, e: int, n: nat)
    requires n > 0 && Cong(s * w, 1, n)
    ensures Cong(s * ((w * e) % n), e, n)
  {
    ModIsCong(w * e, n);
    CongMul((w * e) % n, w * e, s, n);
    CongMul(s * w, 1, e, n);
    Swap(s, w, e);
    hide Cong;
    CongTrans(s * ((w * e) % n), e * (s * w), e * 1, n);
  }

  lemma {:induction false} NonceIsRatio(s: int, w: int, e: int, k: int, n: nat)
    requires 0 < k < n && Cong(s * w, 1, n) && Cong(s * k, e, n)
    ensures (w * e) % n == k
  {
    CongMul(s * k, e, w, n);
    CongMul(s * w, 1, k, n);
    Swap(w, s, k);
    Commute(s, w);
    SmallMod(k, n);
  }
}
