/** Arithmetic modulo a number, and inverses modulo a prime. */
module ModArith {
  import opened Arithmetic

  ghost predicate Prime(n: nat) {
    n >= 2 && forall d: nat :: 2 <= d < n ==> n % d != 0
  }

  /** a and b leave the same remainder. */
  ghost predicate Cong(a: int, b: int, n: nat)
    requires n > 0
  {
    a % n == b % n
  }

  lemma {:induction false} ModOfSum(x: int, q: int, n: nat)
    requires n > 0
    ensures (x + n * q) % n == x % n
  {
    var a, r := x / n, x % n;
    var b, t := (x + n * q) / n, (x + n * q) % n;
    assert t - r == n * (a + q - b) by { Distribute3(n, a, q, b); }
    SmallMultiple(t - r, a + q - b, n);
  }

  lemma {:induction false} Distribute3(n: int, a: int, q: int, b: int)
    ensures n * (a + q - b) == n * a + n * q - n * b
  {
  }

  /** A multiple of n strictly between -n and n is zero. */
  lemma {:induction false} SmallMultiple(x: int, q: int, n: nat)
    requires x == n * q && 0 - n < x < n
    ensures x == 0
  {
    if q >= 1 {
      MulMonotone(1, q, n);
    } else if q <= -1 {
      MulMonotone(q, -1, n);
    }
  }

  lemma {:induction false} CongQuotient(a: int, b: int, n: nat) returns (q: int)
    requires n > 0 && Cong(a, b, n)
    ensures a == b + n * q
  {
    q := a / n - b / n;
    Distribute3(n, a / n, 0, b / n);
  }

  /** Congruent numbers stay so when multiplied and shifted by the same amounts. */
  lemma {:induction false} CongMul(a: int, b: int, c: int, n: nat)
    requires n > 0 && Cong(a, b, n)
    ensures Cong(c * a, c * b, n)
  {
    var q := CongQuotient(a, b, n);
    MulOut(a, b, c, n, q);
    ModOfSum(c * b, c * q, n);
  }

  lemma {:induction false} MulOut(a: int, b: int, c: int, n: int, q: int)
    requires a == b + n * q
    ensures c * a == c * b + n * (c * q)
  {
    assert c * (b + n * q) == c * b + c * (n * q);
    assert c * (n * q) == n * (c * q);
  }

  lemma {:induction false} CongAdd(a: int, b: int, c: int, n: nat)
    requires n > 0 && Cong(a, b, n)
    ensures Cong(c + a, c + b, n)
  {
    var q := CongQuotient(a, b, n);
    ModOfSum(c + b, q, n);
  }

  lemma {:induction false} ModIsCong(a: int, n: nat)
    requires n > 0
    ensures Cong(a % n, a, n) && 0 <= a % n < n
  {
  }

  // ---------------------------------------------------------------------------
  // Inverses

  function Gcd(a: nat, b: nat): nat
    decreases b
  {
    if b == 0 then a else Gcd(b, a % b)
  }

  /** Coefficients x, y with a * x + b * y == Gcd(a, b). */
  function Bezout(a: nat, b: nat): (int, int)
    decreases b
  {
    if b == 0 then (1, 0)
    else
      var (x, y) := Bezout(b, a % b);
      (y, x - (a / b) * y)
  }

  lemma {:induction false} BezoutIdentity(a: nat, b: nat)
    ensures a * Bezout(a, b).0 + b * Bezout(a, b).1 == Gcd(a, b)
    decreases b
  {
    hide Gcd, Bezout;
    BezoutUnfold(a, b);
    if b > 0 {
      BezoutIdentity(b, a % b);
      DivisionStep(a, b);
      BezoutStep(a, b, a / b, a % b, Bezout(b, a % b).0, Bezout(b, a % b).1);
    }
  }

  lemma {:induction false} BezoutUnfold(a: nat, b: nat)
    ensures b == 0 ==> Gcd(a, b) == a && Bezout(a, b) == (1, 0)
    ensures b > 0 ==> Gcd(a, b) == Gcd(b, a % b)
    ensures b > 0 ==> var (x, y) := Bezout(b, a % b); Bezout(a, b) == (y, x - (a / b) * y)
  {
  }

  lemma {:induction false} DivisionStep(a: nat, b: nat)
    requires b > 0
    ensures a == b * (a / b) + a % b
  {
  }

  lemma {:induction false} BezoutStep(a: int, b: int, q: int, r: int, x: int, y: int)
    requires a == b * q + r
    ensures a * y + b * (x - q * y) == b * x + r * y
  {
    assert (b * q + r) * y == b * (q * y) + r * y;
    assert b * (x - q * y) == b * x - b * (q * y);
  }

  /** g divides a, with the quotient named. */
  ghost predicate Divides(g: nat, a: nat) {
    exists s: nat :: a == g * s
  }

  lemma {:induction false} GcdDivides(a: nat, b: nat)
    ensures Divides(Gcd(a, b), a) && Divides(Gcd(a, b), b)
    decreases b
  {
    if b > 0 {
      GcdDivides(b, a % b);
      DividesBack(Gcd(a, b), a, b);
    } else {
      assert a == Gcd(a, b) * 1 && b == Gcd(a, b) * 0;
    }
  }

  lemma {:induction false} DividesBack(g: nat, a: nat, b: nat)
    requires b > 0 && Divides(g, b) && Divides(g, a % b)
    ensures Divides(g, a)
  {
    var s: nat :| b == g * s;
    var t: nat :| a % b == g * t;
    hide Divides;
    DivisionStep(a, b);
    DividesSum(g, a, b, a / b, a % b, s, t);
  }

  lemma {:induction false} DividesSum(g: nat, a: nat, b: nat, q: nat, r: nat, s: nat, t: nat)
    requires a == b * q + r && b == g * s && r == g * t
    ensures Divides(g, a)
  {
    Combination(g, s, q, t);
  }

  /** A multiple of g * s plus one of g is a multiple of g. */
  lemma {:induction false} Combination(g: nat, s: nat, q: nat, t: nat)
    ensures (g * s) * q + g * t >= 0 && Divides(g, (g * s) * q + g * t)
  {
    NonNegative(s, q);
    var u: nat := s * q + t;
    Refactor(g, s, q, t);
    NonNegative(g, u);
    assert g * u == (g * s) * q + g * t;
  }

  lemma {:induction false} Refactor(g: int, s: int, q: int, t: int)
    ensures g * (s * q + t) == (g * s) * q + g * t
  {
    assert (g * s) * q == g * (s * q);
  }

  /** A divisor of a prime below it is 1. */
  lemma {:induction false} DivisorOfPrime(g: nat, k: nat, n: nat)
    requires Prime(n) && 0 < k < n && Divides(g, k) && Divides(g, n)
    ensures g == 1
  {
    var s: nat :| k == g * s;
    var t: nat :| n == g * t;
    FactorIsBelow(g, s);
    if g >= 2 {
      ModOfSum(0, t, g);
    }
  }

  lemma {:induction false} FactorIsBelow(g: nat, s: nat)
    requires g * s > 0
    ensures 0 < g <= g * s
  {
    if s > 0 {
      MulMonotone(1, s, g);
    }
  }

  /** The inverse of k modulo n, when there is one: pow(k, -1, n). */
  function Inverse(k: nat, n: nat): nat
    requires n > 0
  {
    Bezout(k, n).0 % n
  }

  /** Every number below a prime has an inverse. */
  lemma {:induction false} InverseWorks(k: nat, n: nat)
    requires Prime(n) && 0 < k < n
    ensures Cong(k * Inverse(k, n), 1, n) && 0 < Inverse(k, n) < n
  {
    hide Bezout, Gcd;
    BezoutIdentity(k, n);
    GcdDivides(k, n);
    DivisorOfPrime(Gcd(k, n), k, n);
    UnitIsInverse(k, n, Bezout(k, n).0, Bezout(k, n).1);
  }

  lemma {:induction false} UnitIsInverse(k: nat, n: nat, x: int, y: int)
    requires n >= 2 && k * x + n * y == 1
    ensures Cong(k * (x % n), 1, n) && 0 < x % n < n
  {
    ModIsCong(x, n);
    CongMul(x % n, x, k, n);
    Distribute3(n, 0, 0, y);
    ModOfSum(1, -y, n);
    SmallMod(1, n);
    SmallMod(0, n);
    ZeroFactor(k, x % n);
  }

  lemma {:induction false} SmallMod(a: nat, n: nat)
    requires a < n
    ensures a % n == a
  {
  }

  lemma {:induction false} SmallestPrime(n: nat)
    ensures Prime(2) && (Prime(n) ==> n >= 2)
  {
  }
}
