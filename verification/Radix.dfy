/** Positional notation: digit strings, most significant digit first, and conversion between bases. */
module Radix {
  import opened Arithmetic

  ghost predicate Below(s: seq<nat>, b: nat) {
    forall i :: 0 <= i < |s| ==> s[i] < b
  }

  function Value(s: seq<nat>, b: nat): nat {
    if s == [] then 0 else Value(s[..|s| - 1], b) * b + s[|s| - 1]
  }

  /** The digits of n without leading zeros; none for zero. */
  function Digits(n: nat, b: nat): (r: seq<nat>)
    requires b >= 2
    ensures Below(r, b)
    decreases n
  {
    if n == 0 then [] else DivShrinks(n, b); Digits(n / b, b) + [n % b]
  }

  lemma {:induction false} DivShrinks(n: nat, b: nat)
    requires b >= 2 && n > 0
    ensures 0 <= n / b < n
  {
    assert n == b * (n / b) + n % b;
  }

  function LeadingZeros(s: seq<nat>): (k: nat)
    ensures k <= |s| && (forall i :: 0 <= i < k ==> s[i] == 0) && (k < |s| ==> s[k] != 0)
  {
    if s == [] || s[0] != 0 then 0 else 1 + LeadingZeros(s[1..])
  }

  function Zeros(k: nat): (r: seq<nat>)
    ensures |r| == k && forall i :: 0 <= i < k ==> r[i] == 0
  {
    seq(k, i => 0)
  }

  /** Rewrites base a as base b, keeping leading zeros one for one. */
  function Convert(s: seq<nat>, a: nat, b: nat): (r: seq<nat>)
    requires b >= 2
    ensures Below(r, b)
  {
    Zeros(LeadingZeros(s)) + Digits(Value(s, a), b)
  }

  function Pow(b: nat, e: nat): nat {
    if e == 0 then 1 else b * Pow(b, e - 1)
  }

  // ---------------------------------------------------------------------------

  lemma {:induction false} ValueAppend(s: seq<nat>, d: nat, b: nat)
    ensures Value(s + [d], b) == Value(s, b) * b + d
  {
    assert (s + [d])[..|s|] == s;
  }

  lemma {:induction false} ValueOfDigits(n: nat, b: nat)
    requires b >= 2
    ensures Value(Digits(n, b), b) == n
    decreases n
  {
    if n > 0 {
      DivShrinks(n, b);
      DivMod(n, b);
      var q, d := n / b, n % b;
      ValueOfDigits(q, b);
      ValueAppend(Digits(q, b), d, b);
    }
  }

  lemma {:induction false} DivMod(n: nat, b: nat)
    requires b > 0
    ensures n == n / b * b + n % b && 0 <= n / b && 0 <= n % b < b
  {
  }

  lemma {:induction false} DivModUnique(q: nat, d: nat, b: nat)
    requires d < b
    ensures (q * b + d) / b == q && (q * b + d) % b == d
  {
    var n := q * b + d;
    var q', d' := n / b, n % b;
    DivMod(n, b);
    if q' < q {
      MulMonotone(q' + 1, q, b);
    } else if q' > q {
      MulMonotone(q + 1, q', b);
    }
  }

  lemma {:induction false} ValuePositive(s: seq<nat>, b: nat)
    requires b >= 2 && s != [] && s[0] != 0
    ensures Value(s, b) > 0
  {
    if |s| == 1 {
      assert s[..0] == [];
    } else {
      ValuePositive(s[..|s| - 1], b);
      assert Value(s[..|s| - 1], b) * b > 0;
    }
  }

  /** Digits without a leading zero are determined by their value. */
  lemma {:induction false} DigitsOfValue(s: seq<nat>, b: nat)
    requires b >= 2 && Below(s, b) && (s != [] ==> s[0] != 0)
    ensures Digits(Value(s, b), b) == s
  {
    if s != [] {
      ValuePositive(s, b);
      var front, last := s[..|s| - 1], s[|s| - 1];
      DigitsOfValue(front, b);
      DivModUnique(Value(front, b), last, b);
      assert s == front + [last];
    }
  }

  lemma {:induction false} ValueOfZeros(k: nat, t: seq<nat>, b: nat)
    ensures Value(Zeros(k) + t, b) == Value(t, b)
    decreases k + |t|
  {
    var s := Zeros(k) + t;
    if t == [] {
      if k > 0 {
        assert s[..|s| - 1] == Zeros(k - 1) + [];
        ValueOfZeros(k - 1, [], b);
      }
    } else {
      assert s[..|s| - 1] == Zeros(k) + t[..|t| - 1];
      ValueOfZeros(k, t[..|t| - 1], b);
    }
  }

  lemma {:induction false} DigitsStart(n: nat, b: nat)
    requires b >= 2 && n > 0
    ensures Digits(n, b) != [] && Digits(n, b)[0] != 0
    decreases n
  {
    DivShrinks(n, b);
    if n / b > 0 {
      DigitsStart(n / b, b);
    } else {
      assert n == b * (n / b) + n % b;
    }
  }

  lemma {:induction false} LeadingZerosOf(k: nat, t: seq<nat>)
    requires t != [] ==> t[0] != 0
    ensures LeadingZeros(Zeros(k) + t) == k
  {
    var s := Zeros(k) + t;
    var z := LeadingZeros(s);
    assert forall i :: 0 <= i < k ==> s[i] == 0;
    assert k < |s| ==> s[k] == t[0];
    assert z < |s| ==> s[z] != 0;
  }

  /** Converting to another base and back gives the same digits. */
  lemma {:induction false} ConvertBack(s: seq<nat>, a: nat, b: nat)
    requires a >= 2 && b >= 2 && Below(s, a)
    ensures Convert(Convert(s, a, b), b, a) == s
  {
    var k := LeadingZeros(s);
    var t := s[k..];
    var n := Value(s, a);
    assert s == Zeros(k) + t;
    ValueOfZeros(k, t, a);
    DigitsOfValue(t, a);
    var ds := Digits(n, b);
    if n > 0 {
      DigitsStart(n, b);
    }
    LeadingZerosOf(k, ds);
    ValueOfZeros(k, ds, b);
    ValueOfDigits(n, b);
  }

  // ---------------------------------------------------------------------------
  // Lengths

  lemma {:induction false} PowPositive(b: nat, e: nat)
    requires b > 0
    ensures Pow(b, e) > 0
  {
    if e > 0 {
      PowPositive(b, e - 1);
    }
  }

  lemma {:induction false} PowAdd(b: nat, m: nat, n: nat)
    ensures Pow(b, m + n) == Pow(b, m) * Pow(b, n)
  {
    if m > 0 {
      PowAdd(b, m - 1, n);
      assert b * (Pow(b, m - 1) * Pow(b, n)) == b * Pow(b, m - 1) * Pow(b, n);
    }
  }

  lemma {:induction false} DivBelow(n: nat, b: nat, q: nat)
    requires b > 0
    ensures n < b * q <==> n / b < q
  {
    var r := n % b;
    assert n == b * (n / b) + r;
    if n / b < q {
      assert b * (n / b + 1) <= b * q;
    } else {
      assert b * q <= b * (n / b);
    }
  }

  /** A number has k digits exactly when it lies between b^(k-1) and b^k. */
  lemma {:induction false} DigitCount(n: nat, b: nat, k: nat)
    requires b >= 2 && k > 0 && Pow(b, k - 1) <= n < Pow(b, k)
    ensures |Digits(n, b)| == k
    decreases k
  {
    PowPositive(b, k - 1);
    DivShrinks(n, b);
    if k == 1 {
      assert Pow(b, 1) == b * Pow(b, 0);
      DivBelow(n, b, 1);
      assert Digits(n / b, b) == [];
    } else {
      DivBelow(n, b, Pow(b, k - 1));
      DivBelow(n, b, Pow(b, k - 2));
      DigitCount(n / b, b, k - 1);
    }
  }
}
