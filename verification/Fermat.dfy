/** Fermat's little theorem: a^(p-1) = 1 modulo a prime p that does not divide a. */
module Fermat {
  import opened Arithmetic
  import opened ModArith
  import opened Radix

  function Factorial(k: nat): (f: nat)
    ensures f > 0
  {
    if k == 0 then 1
    else
      NonZeroProduct(k, Factorial(k - 1));
      k * Factorial(k - 1)
  }

  lemma {:induction false} NonZeroProduct(a: nat, b: nat)
    requires a > 0 && b > 0
    ensures a * b > 0
  {
  }

  function UpTo(k: nat): set<nat> {
    if k == 0 then {} else UpTo(k - 1) + {k}
  }

  /** The product of the members of s among 1 .. m. */
  function ProductIn(s: set<nat>, m: nat): int {
    if m == 0 then 1
    else if m in s then m * ProductIn(s, m - 1) else ProductIn(s, m - 1)
  }

  /** The remainders of a, 2a, .., ka. */
  function Multiples(a: nat, k: nat, p: nat): set<nat>
    requires p > 0
  {
    if k == 0 then {} else Multiples(a, k - 1, p) + {Multiple(a, k, p)}
  }

  function Multiple(a: nat, k: nat, p: nat): nat
    requires p > 0
  {
    (a * k) % p
  }

  // ---------------------------------------------------------------------------
  // Products over sets

  lemma {:induction false} InUpTo(k: nat, v: nat)
    ensures v in UpTo(k) <==> 1 <= v <= k
  {
    if k > 0 {
      InUpTo(k - 1, v);
    }
  }

  lemma {:induction false} SizeOfUpTo(k: nat)
    ensures |UpTo(k)| == k
  {
    if k > 0 {
      SizeOfUpTo(k - 1);
      InUpTo(k - 1, k);
    }
  }

  lemma {:induction false} ProductUnchanged(s: set<nat>, v: nat, m: nat)
    requires v > m
    ensures ProductIn(s + {v}, m) == ProductIn(s, m)
  {
    if m > 0 {
      ProductUnchanged(s, v, m - 1);
    }
  }

  lemma {:induction false} ProductAdds(s: set<nat>, v: nat, m: nat)
    requires v !in s && 1 <= v <= m
    ensures ProductIn(s + {v}, m) == v * ProductIn(s, m)
  {
    if v == m {
      ProductUnchanged(s, v, m - 1);
    } else {
      ProductAdds(s, v, m - 1);
      Swap3(m, v, ProductIn(s, m - 1));
    }
  }

  lemma {:induction false} Swap3(a: int, b: int, c: int)
    ensures a * (b * c) == b * (a * c)
  {
  }

  lemma {:induction false} ProductOfUpTo(k: nat)
    ensures ProductIn(UpTo(k), k) == Factorial(k)
  {
    if k > 0 {
      ProductOfUpTo(k - 1);
      ProductUnchanged(UpTo(k - 1), k, k - 1);
      InUpTo(k - 1, k);
    }
  }

  lemma {:induction false} SubsetOfSameSize(s: set<nat>, t: set<nat>)
    requires s <= t && |s| == |t|
    ensures s == t
  {
    if v :| v in t && v !in s {
      SmallerSubset(s, t - {v});
    }
  }

  lemma {:induction false} SmallerSubset(s: set<nat>, t: set<nat>)
    requires s <= t
    ensures |s| <= |t|
    decreases s
  {
    if v :| v in s {
      SmallerSubset(s - {v}, t - {v});
    }
  }

  // ---------------------------------------------------------------------------
  // The multiples of a number prime to p are all different

  /** A factor below a prime can be cancelled. */
  lemma {:induction false} Cancel(k: nat, x: int, y: int, p: nat)
    requires Prime(p) && 0 < k < p && Cong(k * x, k * y, p)
    ensures Cong(x, y, p)
  {
    hide Prime, Inverse;
    var v := Inverse(k, p);
    InverseWorks(k, p);
    CongMul(k * x, k * y, v, p);
    CongMul(k * v, 1, x, p);
    CongMul(k * v, 1, y, p);
    Regroup(v, k, x);
    Regroup(v, k, y);
  }

  lemma {:induction false} Regroup(v: int, k: int, x: int)
    ensures v * (k * x) == x * (k * v)
  {
  }

  lemma {:induction false} CancelFactorial(k: nat, x: int, y: int, p: nat)
    requires Prime(p) && k < p && Cong(Factorial(k) * x, Factorial(k) * y, p)
    ensures Cong(x, y, p)
  {
    hide Prime;
    if k > 0 {
      var f := Factorial(k - 1);
      Associate(k, f, x);
      Associate(k, f, y);
      Cancel(k, f * x, f * y, p);
      CancelFactorial(k - 1, x, y, p);
    }
  }

  lemma {:induction false} MultipleInRange(a: nat, k: nat, p: nat)
    requires Prime(p) && 0 < a < p && 0 < k < p
    ensures 1 <= Multiple(a, k, p) < p
  {
    hide Prime;
    ModIsCong(a * k, p);
    SmallMod(0, p);
    if Multiple(a, k, p) == 0 {
      Cancel(a, k, 0, p);
      SmallMod(k, p);
    }
  }

  lemma {:induction false} MultiplesDiffer(a: nat, i: nat, k: nat, p: nat)
    requires Prime(p) && 0 < a < p && 0 < i < k < p
    ensures Multiple(a, i, p) != Multiple(a, k, p)
  {
    hide Prime;
    SmallMod(i, p);
    SmallMod(k, p);
    if Multiple(a, i, p) == Multiple(a, k, p) {
      Cancel(a, i, k, p);
    }
  }

  lemma {:induction false} NewMultiple(a: nat, i: nat, k: nat, p: nat)
    requires Prime(p) && 0 < a < p && i < k < p
    ensures Multiple(a, k, p) !in Multiples(a, i, p)
  {
    hide Prime, Multiple;
    if i > 0 {
      NewMultiple(a, i - 1, k, p);
      MultiplesDiffer(a, i, k, p);
    }
  }

  /** The first k multiples are k of the numbers 1 .. p-1. */
  lemma {:induction false} MultiplesAre(a: nat, k: nat, p: nat)
    requires Prime(p) && 0 < a < p && k < p
    ensures Multiples(a, k, p) <= UpTo(p - 1) && |Multiples(a, k, p)| == k
  {
    hide Prime, Multiple, UpTo;
    if k > 0 {
      MultiplesAre(a, k - 1, p);
      NewMultiple(a, k - 1, k, p);
      MultipleInRange(a, k, p);
      InUpTo(p - 1, Multiple(a, k, p));
    }
  }

  /** Their product is a^k * k!. */
  lemma {:induction false} MultiplesProduct(a: nat, k: nat, p: nat)
    requires Prime(p) && 0 < a < p && k < p
    ensures Cong(ProductIn(Multiples(a, k, p), p - 1), Pow(a, k) * Factorial(k), p)
  {
    hide Prime, Multiple, ProductIn, Cong;
    if k == 0 {
      EmptyProduct(p - 1);
      SameCong(1, p);
    } else {
      MultiplesProduct(a, k - 1, p);
      NewMultiple(a, k - 1, k, p);
      MultipleInRange(a, k, p);
      var s, v := Multiples(a, k - 1, p), Multiple(a, k, p);
      ProductAdds(s, v, p - 1);
      MultiplyBoth(a, k, Pow(a, k - 1), Factorial(k - 1), v, ProductIn(s, p - 1), p);
    }
  }

  lemma {:induction false} SameCong(x: int, p: nat)
    requires p > 0
    ensures Cong(x, x, p)
  {
  }

  lemma {:induction false} EmptyProduct(m: nat)
    ensures ProductIn({}, m) == 1
  {
    if m > 0 {
      EmptyProduct(m - 1);
    }
  }

  lemma {:induction false} MultiplyBoth(a: nat, k: nat, q: nat, f: nat, v: nat, r: int, p: nat)
    requires p > 0 && v == Multiple(a, k, p) && Cong(r, q * f, p)
    ensures Cong(v * r, (a * q) * (k * f), p)
  {
    ModIsCong(a * k, p);
    CongMul(v, a * k, r, p);
    CongMul(r, q * f, a * k, p);
    FourFactors(a, k, q, f);
  }

  lemma {:induction false} FourFactors(a: int, k: int, q: int, f: int)
    ensures (a * k) * (q * f) == (a * q) * (k * f)
  {
    assert (a * k) * (q * f) == a * (k * (q * f));
    assert k * (q * f) == q * (k * f);
  }

  lemma {:induction false} LittleTheorem(a: nat, p: nat)
    requires Prime(p) && 0 < a < p
    ensures Cong(Pow(a, p - 1), 1, p)
  {
    hide Prime, Multiples, ProductIn, Factorial, Pow, UpTo, Cong;
    var f, q := Factorial(p - 1), Pow(a, p - 1);
    MultiplesAre(a, p - 1, p);
    MultiplesProduct(a, p - 1, p);
    SizeOfUpTo(p - 1);
    SubsetOfSameSize(Multiples(a, p - 1, p), UpTo(p - 1));
    ProductOfUpTo(p - 1);
    FlipCong(f, q, p);
    CancelFactorial(p - 1, q, 1, p);
  }

  lemma {:induction false} FlipCong(f: int, q: int, p: nat)
    requires p > 0 && Cong(f, q * f, p)
    ensures Cong(f * q, f * 1, p)
  {
  }
}
