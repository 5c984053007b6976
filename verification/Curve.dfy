/** Points of a curve y^2 = x^3 + ax + b modulo p, their negatives, and the point with a given
    x-coordinate (section 2.3.4 of SEC 1). */
module Curve {
  import opened Arithmetic
  import opened Fermat
  import opened ModArith
  import opened Radix
  import opened Wrappers

  datatype EllipticCurve = EllipticCurve(p: nat, a: int, b: int)

  /** An affine point; the point at infinity is None. */
  datatype Point = Point(x: int, y: int)

  /** What the square-root formula needs of the field. */
  ghost predicate GoodField(c: EllipticCurve) {
    Prime(c.p) && c.p % 4 == 3
  }

  predicate OnCurve(c: EllipticCurve, q: Option<Point>)
    requires c.p > 0
  {
    q.Some? ==>
      var Point(x, y) := q.value;
      (y * y - x * x * x - c.a * x - c.b) % c.p == 0
  }

  /** -y % p */
  function Minus(y: int, p: nat): nat
    requires p > 0
  {
    (-y) % p
  }

  /** curve_negative */
  function Negative(c: EllipticCurve, q: Option<Point>): Result<Option<Point>>
    requires c.p > 0
  {
    if !OnCurve(c, q) then Err(ValidationError)
    else if q.None? then Ok(None)
    else
      var r := Some(Point(q.value.x, Minus(q.value.y, c.p)));
      if !OnCurve(c, r) then Err(ValidationError) else Ok(r)
  }

  function YSquare(c: EllipticCurve, x: int): nat
    requires c.p > 0
  {
    (x * x * x + c.a * x + c.b) % c.p
  }

  /** pow(s, (p + 1) // 4, p) */
  function Root(s: nat, p: nat): nat
    requires p > 0
  {
    Pow(s, (p + 1) / 4) % p
  }

  /** curve_get_y */
  function GetY(c: EllipticCurve, x: int, even: bool): nat
    requires c.p > 0
  {
    var y := Root(YSquare(c, x), c.p);
    if (y + if even then 0 else 1) % 2 == 0 then y else Minus(y, c.p)
  }

  ghost predicate IsSquare(s: int, p: nat)
    requires p > 0
  {
    exists t: int :: Cong(t * t, s, p)
  }

  // ---------------------------------------------------------------------------
  // Points and squares

  lemma {:induction false} CongIffDifference(u: int, v: int, p: nat)
    requires p > 0
    ensures (u - v) % p == 0 <==> Cong(u, v, p)
  {
    SmallMod(0, p);
    if Cong(u, v, p) {
      var q := CongQuotient(u, v, p);
      ModOfSum(0, q, p);
    }
    if (u - v) % p == 0 {
      CongAdd(u - v, 0, v, p);
    }
  }

  lemma {:induction false} OnCurveIffSquare(c: EllipticCurve, x: int, y: int)
    requires c.p > 0
    ensures OnCurve(c, Some(Point(x, y))) <==> Cong(y * y, YSquare(c, x), c.p)
  {
    hide Cong;
    var v := x * x * x + c.a * x + c.b;
    CongIffDifference(y * y, v, c.p);
    ModIsCong(v, c.p);
    CongFlip(v % c.p, v, c.p);
    if Cong(y * y, v, c.p) {
      CongChain(y * y, v, v % c.p, c.p);
    }
    if Cong(y * y, v % c.p, c.p) {
      CongChain(y * y, v % c.p, v, c.p);
    }
  }

  lemma {:induction false} CongFlip(u: int, v: int, p: nat)
    requires p > 0 && Cong(u, v, p)
    ensures Cong(v, u, p)
  {
  }

  lemma {:induction false} CongChain(u: int, v: int, w: int, p: nat)
    requires p > 0 && Cong(u, v, p) && Cong(v, w, p)
    ensures Cong(u, w, p)
  {
  }

  /** Congruent numbers have congruent squares. */
  lemma {:induction false} CongSquare(u: int, v: int, p: nat)
    requires p > 0 && Cong(u, v, p)
    ensures Cong(u * u, v * v, p)
  {
    CongMul(u, v, u, p);
    CongMul(u, v, v, p);
  }

  lemma {:induction false} NegatedSquare(y: int, p: nat)
    requires p > 0
    ensures Cong(Minus(y, p) * Minus(y, p), y * y, p)
  {
    ModIsCong(-y, p);
    CongSquare(Minus(y, p), -y, p);
    SignSquare(y);
  }

  lemma {:induction false} SignSquare(y: int)
    ensures (-y) * (-y) == y * y
  {
  }

  // ---------------------------------------------------------------------------
  // Square roots

  lemma {:induction false} CongPow(u: nat, v: nat, e: nat, p: nat)
    requires p > 0 && Cong(u, v, p)
    ensures Cong(Pow(u, e), Pow(v, e), p)
  {
    if e > 0 {
      CongPow(u, v, e - 1, p);
      CongMul(u, v, Pow(u, e - 1), p);
      CongMul(Pow(u, e - 1), Pow(v, e - 1), v, p);
    }
  }

  lemma {:induction false} PowOfSquare(t: nat, e: nat)
    ensures t * t >= 0 && Pow(t * t, e) == Pow(t, 2 * e)
  {
    if e > 0 {
      PowOfSquare(t, e - 1);
      Associate(t, t, Pow(t, 2 * e - 2));
    }
  }

  lemma {:induction false} PowOfZero(e: nat)
    requires e > 0
    ensures Pow(0, e) == 0
  {
  }

  lemma {:induction false} PowTwo(t: nat)
    ensures Pow(t, 2) == t * t
  {
    assert Pow(t, 1) == t * Pow(t, 0);
  }

  /** t^(p+1) = t^2 */
  lemma {:induction false} PowPlusTwo(t: nat, p: nat)
    requires Prime(p) && t < p
    ensures Cong(Pow(t, p + 1), t * t, p)
  {
    hide Prime, Pow, Cong;
    if t == 0 {
      PowOfZero(p + 1);
      CongSame(0, p);
    } else {
      LittleTheorem(t, p);
      PowAdd(t, p - 1, 2);
      PowTwo(t);
      NonNegativeSquare(t);
      ScaleOne(Pow(t, p - 1), t * t, p);
    }
  }

  lemma {:induction false} ScaleOne(q: nat, w: nat, p: nat)
    requires p > 0 && Cong(q, 1, p)
    ensures Cong(q * w, w, p)
  {
    CongMul(q, 1, w, p);
  }

  lemma {:induction false} CongSame(u: int, p: nat)
    requires p > 0
    ensures Cong(u, u, p)
  {
  }

  /** root^2 = s^((p+1)/2) */
  lemma {:induction false} RootSquared(s: nat, p: nat)
    requires p > 0 && p % 4 == 3
    ensures Cong(Root(s, p) * Root(s, p), Pow(s, (p + 1) / 2), p)
  {
    hide Pow, Cong, Root;
    var k: nat := (p + 1) / 4;
    QuarterTwice(p);
    RootIsPower(s, p);
    CongSquare(Root(s, p), Pow(s, k), p);
    PowAdd(s, k, k);
  }

  lemma {:induction false} QuarterTwice(p: nat)
    requires p % 4 == 3
    ensures (p + 1) / 4 + (p + 1) / 4 == (p + 1) / 2
  {
  }

  lemma {:induction false} RootIsPower(s: nat, p: nat)
    requires p > 0
    ensures Cong(Root(s, p), Pow(s, (p + 1) / 4), p)
  {
    hide Pow;
    ModIsCong(Pow(s, (p + 1) / 4), p);
  }

  /** s^((p+1)/2) = u^(p+1) = u^2 = s */
  lemma {:induction false} HalfPower(s: nat, u: nat, p: nat)
    requires Prime(p) && p % 4 == 3 && u < p && Cong(u * u, s, p)
    ensures Cong(Pow(s, (p + 1) / 2), s, p)
  {
    hide *;
    var h: nat, w: nat := (p + 1) / 2, Square(u);
    PrimeIsPositive(p);
    CongFlip(w, s, p);
    CongPow(s, w, h, p);
    PowOfSquare(u, h);
    assert 2 * h == p + 1;
    PowPlusTwo(u, p);
    CongChain(Pow(s, h), Pow(u, p + 1), w, p);
    CongChain(Pow(s, h), w, s, p);
  }

  function Square(u: nat): (w: nat)
    ensures w == u * u
  {
    NonNegativeSquare(u);
    u * u
  }

  lemma {:induction false} PrimeIsPositive(p: nat)
    requires Prime(p)
    ensures p > 0
  {
  }

  /** The formula gives a square root of every square. */
  lemma {:induction false} RootOfSquare(s: nat, t: int, p: nat)
    requires Prime(p) && p % 4 == 3 && Cong(t * t, s, p)
    ensures Cong(Root(s, p) * Root(s, p), s, p)
  {
    hide *;
    PrimeIsPositive(p);
    var u: nat := t % p;
    ModIsCong(t, p);
    CongSquare(u, t, p);
    CongChain(u * u, t * t, s, p);
    HalfPower(s, u, p);
    RootSquared(s, p);
    CongChain(Root(s, p) * Root(s, p), Pow(s, (p + 1) / 2), s, p);
  }

  lemma {:induction false} NonNegativeSquare(u: int)
    ensures u * u >= 0
  {
  }

  /** Two numbers with the same square differ at most in sign. */
  lemma {:induction false} SameSquare(y: nat, z: nat, p: nat)
    requires Prime(p) && y < p && z < p && Cong(y * y, z * z, p)
    ensures y == z || y + z == p
  {
    hide Prime, Cong;
    if y > z {
      DifferenceOfSquares(y, z, p);
    } else if z > y {
      CongFlip(y * y, z * z, p);
      DifferenceOfSquares(z, y, p);
    }
  }

  lemma {:induction false} DifferenceOfSquares(y: nat, z: nat, p: nat)
    requires Prime(p) && z < y < p && Cong(y * y, z * z, p)
    ensures y + z == p
  {
    hide Prime, Cong;
    CongIffDifference(y * y, z * z, p);
    Factored(y, z);
    CongIffDifference((y - z) * (y + z), (y - z) * 0, p);
    Cancel(y - z, y + z, 0, p);
    SumIsModulus(y + z, p);
  }

  lemma {:induction false} Factored(y: int, z: int)
    ensures y * y - z * z == (y - z) * (y + z) - (y - z) * 0
  {
  }

  lemma {:induction false} SumIsModulus(w: nat, p: nat)
    requires p > 0 && 0 < w < 2 * p && Cong(w, 0, p)
    ensures w == p
  {
    SmallMod(0, p);
    if w < p {
      SmallMod(w, p);
    } else if w > p {
      ModOfSum(w - p, 1, p);
      SmallMod(w - p, p);
    }
  }

  // ---------------------------------------------------------------------------
  // The main results

  /** The point curve_get_y gives is on the curve exactly when some point has that x. */
  lemma {:induction false} GetYOnCurveIff(c: EllipticCurve, x: int, even: bool)
    requires GoodField(c)
    ensures OnCurve(c, Some(Point(x, GetY(c, x, even)))) <==> IsSquare(YSquare(c, x), c.p)
  {
    hide OnCurve, YSquare, Root, Minus, Prime, Cong;
    var s, y := YSquare(c, x), GetY(c, x, even);
    OnCurveIffSquare(c, x, y);
    if t: int :| Cong(t * t, s, c.p) {
      RootOfSquare(s, t, c.p);
      var root := Root(s, c.p);
      if y != root {
        NegatedSquare(root, c.p);
        CongChain(y * y, root * root, s, c.p);
      }
    }
  }

  /** Every point is recovered from its x-coordinate and the parity of its y-coordinate. */
  lemma {:induction false} GetYRecovers(c: EllipticCurve, x: int, y: nat)
    requires GoodField(c)
    requires y < c.p && OnCurve(c, Some(Point(x, y)))
    ensures GetY(c, x, y % 2 == 0) == y
  {
    hide *;
    RootIsSign(c, x, y);
    OddField(c);
    RootPicked(c, x, y);
  }

  lemma {:induction false} OddField(c: EllipticCurve)
    requires GoodField(c)
    ensures c.p % 2 == 1 && Prime(c.p) && c.p % 4 == 3
  {
  }

  lemma {:induction false} RootIsSign(c: EllipticCurve, x: int, y: nat)
    requires GoodField(c) && y < c.p && OnCurve(c, Some(Point(x, y)))
    ensures var root := Root(YSquare(c, x), c.p); root < c.p && (root == y || root + y == c.p)
  {
    hide *;
    OddField(c);
    var s := YSquare(c, x);
    var root := Root(s, c.p);
    OnCurveIffSquare(c, x, y);
    RootOfSquare(s, y, c.p);
    CongFlip(y * y, s, c.p);
    CongChain(root * root, s, y * y, c.p);
    RootBelow(s, c.p);
    SameSquare(root, y, c.p);
  }

  lemma {:induction false} RootPicked(c: EllipticCurve, x: int, y: nat)
    requires c.p % 2 == 1 && y < c.p
    requires var root := Root(YSquare(c, x), c.p); root < c.p && (root == y || root + y == c.p)
    ensures GetY(c, x, y % 2 == 0) == y
  {
    hide YSquare, Root, Minus;
    MinusIs(Root(YSquare(c, x), c.p), c.p);
  }

  lemma {:induction false} RootBelow(s: nat, p: nat)
    requires p > 0
    ensures Root(s, p) < p
  {
  }

  lemma {:induction false} MinusIs(y: nat, p: nat)
    requires y < p
    ensures Minus(y, p) == if y == 0 then 0 else p - y
  {
    ModOfSum(0 - y, 1, p);
    if y > 0 {
      SmallMod(p - y, p);
    } else {
      SmallMod(0, p);
    }
  }

  lemma {:induction false} PowIsNotZero(s: nat, e: nat, p: nat)
    requires Prime(p) && 0 < s < p
    ensures !Cong(Pow(s, e), 0, p)
  {
    if e == 0 {
      SmallMod(1, p);
      SmallMod(0, p);
    } else {
      PowIsNotZero(s, e - 1, p);
      if Cong(Pow(s, e), 0, p) {
        Cancel(s, Pow(s, e - 1), 0, p);
      }
    }
  }

  lemma {:induction false} RootIsZeroIff(s: nat, p: nat)
    requires Prime(p) && s < p && p % 4 == 3
    ensures Root(s, p) == 0 <==> s == 0
  {
    hide Prime, Pow;
    SmallMod(0, p);
    if s == 0 {
      PowOfZero((p + 1) / 4);
    } else {
      PowIsNotZero(s, (p + 1) / 4, p);
    }
  }

  lemma {:induction false} YSquareBelow(c: EllipticCurve, x: int)
    requires c.p > 0
    ensures YSquare(c, x) < c.p
  {
  }

  /** The requested parity is met unless an odd root of zero is asked for. */
  lemma {:induction false} GetYParityIff(c: EllipticCurve, x: int, even: bool)
    requires GoodField(c)
    ensures GetY(c, x, even) < c.p
    ensures GetY(c, x, even) % 2 == (if even then 0 else 1) <==> even || YSquare(c, x) != 0
  {
    hide YSquare, Root, GetY, GoodField, Prime;
    OddField(c);
    var s := YSquare(c, x);
    YSquareBelow(c, x);
    RootBelow(s, c.p);
    RootIsZeroIff(s, c.p);
    ParityOfRoot(c, x, even);
  }

  lemma {:induction false} ParityOfRoot(c: EllipticCurve, x: int, even: bool)
    requires c.p % 2 == 1 && Root(YSquare(c, x), c.p) < c.p
    ensures GetY(c, x, even) < c.p
    ensures GetY(c, x, even) % 2 == (if even then 0 else 1) <==> even || Root(YSquare(c, x), c.p) != 0
  {
    hide YSquare, Root, Minus;
    MinusIs(Root(YSquare(c, x), c.p), c.p);
  }

  /** Such a root exists on other curves: the odd y asked for at x = 3 on y^2 = x^3 + 1 modulo 7. */
  lemma {:induction false} OddRootOfZero()
    ensures var c := EllipticCurve(7, 0, 1);
            GoodField(c) && OnCurve(c, Some(Point(3, 0))) && GetY(c, 3, false) == 0
  {
    var c := EllipticCurve(7, 0, 1);
    assert YSquare(c, 3) == 0;
    PowOfZero(2);
    assert Root(0, 7) == 0;
  }

  /** Negation accepts exactly the points of the curve: its second check never fails. */
  lemma {:induction false} NegativeAccepts(c: EllipticCurve, q: Option<Point>)
    requires c.p > 0
    ensures Negative(c, q).Ok? <==> OnCurve(c, q)
    ensures Negative(c, q).Err? ==> Negative(c, q) == Err(ValidationError)
    ensures Negative(c, q).Ok? ==> OnCurve(c, Negative(c, q).value)
  {
    hide OnCurve, Minus, Cong, YSquare;
    if q.Some? && OnCurve(c, q) {
      var Point(x, y) := q.value;
      var z := Minus(y, c.p);
      OnCurveIffSquare(c, x, y);
      OnCurveIffSquare(c, x, z);
      NegatedSquare(y, c.p);
      CongChain(z * z, y * y, YSquare(c, x), c.p);
    }
  }

  /** The negative of an affine point has the same x and, unless y is zero, the opposite parity;
      it is the only other point with that x, and negating it gives the point back. */
  lemma {:induction false} NegativeOfPoint(c: EllipticCurve, x: int, y: nat, z: nat)
    requires Prime(c.p) && c.p % 2 == 1 && y < c.p && OnCurve(c, Some(Point(x, y)))
    ensures var r := Negative(c, Some(Point(x, y)));
      && r.Ok? && r.value.Some? && r.value.value.x == x && 0 <= r.value.value.y < c.p
      && (r.value.value.y % 2 != y % 2 <==> y != 0)
      && (z < c.p && OnCurve(c, Some(Point(x, z))) ==> z == y || z == r.value.value.y)
      && Negative(c, r.value) == Ok(Some(Point(x, y)))
  {
    hide OnCurve, Minus, Cong, YSquare, Prime;
    var q := Some(Point(x, y));
    NegativeAccepts(c, q);
    NegativeAccepts(c, Some(Point(x, Minus(y, c.p))));
    MinusIs(y, c.p);
    MinusIs(Minus(y, c.p), c.p);
    if z < c.p && OnCurve(c, Some(Point(x, z))) {
      OnCurveIffSquare(c, x, y);
      OnCurveIffSquare(c, x, z);
      CongFlip(z * z, YSquare(c, x), c.p);
      CongChain(y * y, YSquare(c, x), z * z, c.p);
      SameSquare(y, z, c.p);
    }
  }
}
