/** The group of a curve's points. With an odd order no point has y = 0 and curve_get_y always meets the
    requested parity; and every x-coordinate of a point is the r of some nonce. */
module CurveGroup {
  import opened Curve
  import opened Ecdsa
  import opened ModArith
  import opened Wrappers

  /** A point of the curve with coordinates below p, or the point at infinity. */
  ghost predicate IsPoint(c: EllipticCurve, q: Option<Point>)
    requires c.p > 0
  {
    OnCurve(c, q) && (q.Some? ==> 0 <= q.value.x < c.p && 0 <= q.value.y < c.p)
  }

  /** The elements of the group stand for the points of the curve, one for each: zero for infinity,
      negatives for what curve_negative gives, multiples of the generator for all points (cofactor 1). */
  ghost predicate IsGroupOf<P(!new)>(c: EllipticCurve, group: Group<P>, at: P -> Option<Point>, n: nat)
    requires c.p > 0
  {
    && IsGroup(group) && HasOrder(group, n)
    && at(group.zero) == None
    && (forall s :: IsPoint(c, at(s)) && Negative(c, at(s)) == Ok(at(group.neg(s))))
    && (forall s :: at(s).Some? ==> group.x(s) == at(s).value.x)
    && (forall s, t :: at(s) == at(t) ==> s == t)
    && (forall q :: IsPoint(c, q) ==> IsMultiple(group, at, q))
  }

  ghost predicate IsMultiple<P(!new)>(group: Group<P>, at: P -> Option<Point>, q: Option<Point>) {
    exists k: nat :: q == at(Times(group, k, group.g))
  }

  /** In a group of odd order only zero is its own negative. */
  lemma {:induction false} OwnNegativeIsZero<P(!new)>(group: Group<P>, n: nat, k: nat)
    requires IsGroup(group) && HasOrder(group, n) && n % 2 == 1
    requires var q := Times(group, k, group.g); group.neg(q) == q
    ensures Times(group, k, group.g) == group.zero
  {
    hide IsGroup, HasOrder, Times;
    UnitAndNegative(group, Times(group, k, group.g));
    TimesAdd(group, k, k, group.g);
    TimesMod(group, n, k + k);
    TimesMod(group, n, k);
    ModIsCong(k + k, n);
    if (k + k) % n != 0 {
      NotZero(group, n, (k + k) % n);
    } else {
      HalfOfMultiple(k, n);
      TimesNone(group);
    }
  }

  lemma {:induction false} TimesNone<P>(group: Group<P>)
    ensures Times(group, 0, group.g) == group.zero
  {
  }

  lemma {:induction false} HalfOfMultiple(k: nat, n: nat)
    requires n % 2 == 1 && (k + k) % n == 0
    ensures k % n == 0
  {
    var r := k % n;
    var q := k / n;
    ModOfSum(r + r, q + q, n);
    assert k + k == (r + r) + n * (q + q);
    SmallMod(0, n);
    if 2 * r >= n {
      ModOfSum(2 * r - n, 1, n);
      SmallMod(2 * r - n, n);
    } else {
      SmallMod(2 * r, n);
    }
  }

  lemma {:induction false} NoPointWithoutY<P(!new)>(c: EllipticCurve, group: Group<P>, at: P -> Option<Point>, n: nat,
                                             x: nat)
    requires x < c.p && IsGroupOf(c, group, at, n) && n % 2 == 1
    ensures !OnCurve(c, Some(Point(x, 0)))
  {
    hide IsGroup, HasOrder, Times, OnCurve, Minus;
    var q := Some(Point(x, 0));
    if OnCurve(c, q) {
      assert IsPoint(c, q);
      NegativeAccepts(c, q);
      MinusIs(0, c.p);
      var k: nat :| q == at(Times(group, k, group.g));
      OwnNegativeIsZero(group, n, k);
    }
  }

  lemma {:induction false} YSquareReduced(c: EllipticCurve, x: int)
    requires c.p > 0
    ensures YSquare(c, x % c.p) == YSquare(c, x)
  {
    var p, r := c.p, x % c.p;
    ModIsCong(x, p);
    CongSquare(r, x, p);
    CongMul(r * r, x * x, r, p);
    CongMul(r, x, x * x, p);
    CongMul(r, x, c.a, p);
    CongAdd(r * r * r, x * x * x, c.a * r + c.b, p);
    CongAdd(c.a * r, c.a * x, x * x * x + c.b, p);
  }

  /** x^3 + ax + b is never zero modulo p. */
  lemma {:induction false} YSquareIsNotZero<P(!new)>(c: EllipticCurve, group: Group<P>, at: P -> Option<Point>, n: nat,
                                              x: int)
    requires c.p > 0 && IsGroupOf(c, group, at, n) && n % 2 == 1
    ensures YSquare(c, x) != 0
  {
    hide OnCurve, IsGroupOf, YSquare;
    ModIsCong(x, c.p);
    YSquareReduced(c, x);
    NoPointWithoutY(c, group, at, n, x % c.p);
    OnCurveIffSquare(c, x % c.p, 0);
  }

  /** curve_get_y always gives the requested parity. */
  lemma {:induction false} ParityAlwaysMet<P(!new)>(
    c: EllipticCurve, group: Group<P>, at: P -> Option<Point>, n: nat, x: int, even: bool)
    requires GoodField(c) && IsGroupOf(c, group, at, n) && n % 2 == 1
    ensures GetY(c, x, even) % 2 == if even then 0 else 1
  {
    hide GetY, YSquare, IsGroupOf;
    YSquareIsNotZero(c, group, at, n, x);
    GetYParityIff(c, x, even);
  }

  // ---------------------------------------------------------------------------
  // The r of a nonce

  /** Every affine point is the multiple of the generator by some nonce. */
  lemma {:induction false} NonceOfPoint<P(!new)>(
    c: EllipticCurve, group: Group<P>, at: P -> Option<Point>, n: nat, q: Point) returns (k: nat)
    requires c.p > 0 && n > 0 && IsGroupOf(c, group, at, n) && IsPoint(c, Some(q))
    ensures 0 < k < n && group.x(Times(group, k, group.g)) == q.x
  {
    hide IsGroup, HasOrder, Times, IsPoint, Negative;
    assert IsMultiple(group, at, Some(q));
    var m: nat :| Some(q) == at(Times(group, m, group.g));
    k := m % n;
    TimesMod(group, n, m);
    TimesNone(group);
  }

  /** For every point, digest and secret, unless z + x * d is a multiple of n, some nonce makes a
      signature with the x-coordinate of that point for r; when it is not below n, or zero, the
      signature does not verify. */
  lemma {:induction false} RIsReached<P(!new)>(
    c: EllipticCurve, group: Group<P>, at: P -> Option<Point>, n: nat, q: Point, z: nat, d: nat) returns (k: nat)
    requires c.p > 0 && Prime(n) && IsGroupOf(c, group, at, n) && IsPoint(c, Some(q))
    requires (z + q.x * d) % n != 0
    ensures 0 < k < n
    ensures var sig := SignCustomK(group, n, z, d, k);
            && sig.Ok? && sig.value.0 == q.x && 1 <= sig.value.1 <= n / 2
            && (Verifies(group, n, z, Times(group, d, group.g), sig.value.0, sig.value.1) <==> 0 < q.x < n)
  {
    hide IsGroup, HasOrder, Times, IsPoint, SignCustomK, Verifies, Negative;
    k := NonceOfPoint(c, group, at, n, q);
    SmallMod(k, n);
    SigningFailsIff(group, n, z, d, k);
    SignatureVerifies(group, n, z, d, k);
  }

  /** Where a point has the order n itself for x, whatever is signed, with any secret, unless the
      digest is a multiple of n, some nonce makes a signature with r = n, and it does not verify. */
  lemma {:induction false} OrderAsX<P(!new)>(
    c: EllipticCurve, group: Group<P>, at: P -> Option<Point>, n: nat, q: Point, z: nat, d: nat) returns (k: nat)
    requires c.p > 0 && Prime(n) && IsGroupOf(c, group, at, n) && IsPoint(c, Some(q))
    requires q.x == n && z % n != 0
    ensures 0 < k < n
    ensures var sig := SignCustomK(group, n, z, d, k);
            && sig.Ok? && sig.value.0 == n
            && !Verifies(group, n, z, Times(group, d, group.g), sig.value.0, sig.value.1)
  {
    hide Prime, IsGroupOf, IsPoint, SignCustomK, Verifies, Times;
    PrimeIsPositive(n);
    ModOfSum(z, d, n);
    k := RIsReached(c, group, at, n, q, z, d);
  }

  // ---------------------------------------------------------------------------
  // An instance

  /** y^2 = x^3 + 4x + 2 modulo 5 has three points: infinity, (3, 1) and (3, 4). */
  const TINY := EllipticCurve(5, 4, 2)

  datatype Trio = Infinity | Lower | Upper

  function PointOf(t: Trio): Option<Point> {
    match t
    case Infinity => None
    case Lower => Some(Point(3, 1))
    case Upper => Some(Point(3, 4))
  }

  function AddTrio(s: Trio, t: Trio): Trio {
    if s.Infinity? then t
    else if t.Infinity? then s
    else if s != t then Infinity
    else NegTrio(s)
  }

  function NegTrio(t: Trio): Trio {
    match t
    case Infinity => Infinity
    case Lower => Upper
    case Upper => Lower
  }

  const TINY_GROUP: Group<Trio> := Group(Infinity, AddTrio, NegTrio, Lower, t => 3)

  lemma {:induction false} SquareMod5(y: nat)
    requires y < 5
    ensures (y * y) % 5 == if y == 0 then 0 else if y == 1 || y == 4 then 1 else 4
  {
  }

  lemma {:induction false} CubicMod5(x: nat)
    requires x < 5
    ensures YSquare(TINY, x) == if x == 3 then 1 else if x == 2 then 3 else 2
  {
    assert YSquare(TINY, 0) == 2 && YSquare(TINY, 1) == 2 && YSquare(TINY, 2) == 3;
    assert YSquare(TINY, 3) == 1 && YSquare(TINY, 4) == 2;
  }

  lemma {:induction false} TinyPoints(x: nat, y: nat)
    requires x < 5 && y < 5
    ensures OnCurve(TINY, Some(Point(x, y))) <==> x == 3 && (y == 1 || y == 4)
  {
    hide OnCurve, YSquare;
    OnCurveIffSquare(TINY, x, y);
    SquareMod5(y);
    CubicMod5(x);
  }

  /** The trio's negatives and x-coordinates are those of the points. */
  lemma {:induction false} TrioIsOnCurve(t: Trio)
    ensures OnCurve(TINY, PointOf(t)) && Negative(TINY, PointOf(t)) == Ok(PointOf(NegTrio(t)))
    ensures !t.Infinity? ==> TINY_GROUP.x(t) == PointOf(t).value.x
  {
    hide OnCurve, Minus;
    TinyPoints(3, 1);
    TinyPoints(3, 4);
    MinusIs(1, 5);
    MinusIs(4, 5);
    InfinityOnCurve(TINY);
  }

  lemma {:induction false} InfinityOnCurve(c: EllipticCurve)
    requires c.p > 0
    ensures OnCurve(c, None)
  {
  }

  lemma {:induction false} AddAssociates(p: Trio, q: Trio, r: Trio)
    ensures AddTrio(AddTrio(p, q), r) == AddTrio(p, AddTrio(q, r))
  {
  }

  lemma {:induction false} TinyMultiples()
    ensures HasOrder(TINY_GROUP, 3)
  {
    hide Times;
    var c := TINY_GROUP;
    TinyTimes();
    forall k: nat | 0 < k < 3 ensures Times(c, k, c.g) != c.zero {
      assert k == 1 || k == 2;
    }
  }

  lemma {:induction false} TinyIsGroup()
    ensures IsGroup(TINY_GROUP)
  {
    forall p, q, r ensures TINY_GROUP.add(TINY_GROUP.add(p, q), r) == TINY_GROUP.add(p, TINY_GROUP.add(q, r)) {
      AddAssociates(p, q, r);
    }
  }

  lemma {:induction false} TinyElement(s: Trio)
    ensures IsPoint(TINY, PointOf(s)) && Negative(TINY, PointOf(s)) == Ok(PointOf(TINY_GROUP.neg(s)))
    ensures PointOf(s).Some? ==> TINY_GROUP.x(s) == PointOf(s).value.x
    ensures PointOf(TINY_GROUP.zero) == None
  {
    hide OnCurve, Negative;
    TrioIsOnCurve(s);
  }

  lemma {:induction false} TinyInjective(s: Trio, t: Trio)
    ensures PointOf(s) == PointOf(t) ==> s == t
  {
  }

  /** The trio stands for the points of this curve in just that way. */
  lemma {:induction false} TinyIsGroupOf()
    ensures IsGroupOf(TINY, TINY_GROUP, PointOf, 3)
  {
    hide IsGroup, HasOrder, IsPoint, IsMultiple, Negative, PointOf, NegTrio, AddTrio, TINY_GROUP;
    TinyIsGroup();
    TinyMultiples();
    forall s: Trio
      ensures IsPoint(TINY, PointOf(s)) && Negative(TINY, PointOf(s)) == Ok(PointOf(TINY_GROUP.neg(s)))
      ensures PointOf(s).Some? ==> TINY_GROUP.x(s) == PointOf(s).value.x
    {
      TinyElement(s);
    }
    TinyElement(Infinity);
    forall s, t ensures PointOf(s) == PointOf(t) ==> s == t {
      TinyInjective(s, t);
    }
    forall q | IsPoint(TINY, q) ensures IsMultiple(TINY_GROUP, PointOf, q) {
      TinyIsMultiple(q);
    }
  }

  lemma {:induction false} TinyTimes()
    ensures var c := TINY_GROUP;
            Times(c, 0, Lower) == Infinity && Times(c, 1, Lower) == Lower && Times(c, 2, Lower) == Upper
            && Times(c, 3, Lower) == Infinity
  {
    var c := TINY_GROUP;
    assert Times(c, 0, Lower) == Infinity;
    assert Times(c, 1, Lower) == AddTrio(Lower, Times(c, 0, Lower));
    assert Times(c, 2, Lower) == AddTrio(Lower, Times(c, 1, Lower));
    assert Times(c, 3, Lower) == AddTrio(Lower, Times(c, 2, Lower));
  }

  lemma {:induction false} TinyIsMultiple(q: Option<Point>)
    requires IsPoint(TINY, q)
    ensures IsMultiple(TINY_GROUP, PointOf, q)
  {
    hide Times, OnCurve;
    TinyTimes();
    if q.Some? {
      TinyPoints(q.value.x, q.value.y);
    }
    assert q == PointOf(Times(TINY_GROUP, 0, Lower)) || q == PointOf(Times(TINY_GROUP, 1, Lower))
           || q == PointOf(Times(TINY_GROUP, 2, Lower));
  }
}
