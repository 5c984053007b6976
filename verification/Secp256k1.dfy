/** The curve of the code, secp256k1: y^2 = x^3 + 7 modulo P, with points of order N. */
module Secp256k1 {
  import opened Arithmetic
  import opened Bytes
  import opened Curve
  import opened CurveGroup
  import opened Ecdsa
  import opened ModArith
  import opened Signing
  import opened Wrappers
  import Der

  const P: nat := 0xFFFFFFFFFFFFFFFFFFFFFFFFFFFFFFFFFFFFFFFFFFFFFFFFFFFFFFFEFFFFFC2F
  const N: nat := 0xFFFFFFFFFFFFFFFFFFFFFFFFFFFFFFFEBAAEDCE6AF48A03BBFD25E8CD0364141

  const CURVE := EllipticCurve(P, 0, 7)

  lemma {:induction false} Sizes()
    ensures 1 < N < P && P % 4 == 3 && N % 2 == 1 && N < Pow256(32)
    ensures CURVE.p == P
  {
    hide Pow256;
    Pow256Of32();
  }

  lemma {:induction false} Pow256Of32()
    ensures Pow256(32) == 0x1_0000_0000_0000_0000_0000_0000_0000_0000_0000_0000_0000_0000_0000_0000_0000_0000
  {
    assert Pow256(2) == 0x1_0000 && Pow256(3) == 0x100_0000;
    assert Pow256(4) == 0x1_0000_0000;
    hide Pow256;
    Pow256Sum(4, 4);
    assert Pow256(8) == 0x1_0000_0000_0000_0000;
    Pow256Sum(8, 8);
    assert Pow256(16) == 0x1_0000_0000_0000_0000_0000_0000_0000_0000;
    Pow256Sum(16, 16);
  }

  lemma {:induction false} Pow256Sum(j: nat, k: nat)
    ensures Pow256(j + k) == Pow256(j) * Pow256(k)
  {
    if j > 0 {
      Pow256Sum(j - 1, k);
      Associate(256, Pow256(j - 1), Pow256(k));
    }
  }

  // ---------------------------------------------------------------------------
  // Two points

  /** The witness that a number is a root: y^2 and x^3 + ax + b differ by p * q. */
  lemma {:induction false} PointByQuotient(c: EllipticCurve, x: nat, y: nat, q: int)
    requires x < c.p && y < c.p && y * y - x * x * x - c.a * x - c.b == c.p * q
    ensures IsPoint(c, Some(Point(x, y)))
  {
    ModOfSum(0, q, c.p);
    SmallMod(0, c.p);
  }

  /** A point whose x-coordinate is the order of the group. */
  const AT_ORDER := Point(
    N,
    0x670999BE34F51E8894B9C14211C28801D9A70FDE24B71D3753854B35D07C9A11)

  lemma {:induction false} OrderIsX()
    ensures IsPoint(CURVE, Some(AT_ORDER)) && AT_ORDER.x == N
  {
    PointByQuotient(
      CURVE,
      N,
      AT_ORDER.y,
      -(0xFFFFFFFFFFFFFFFFFFFFFFFFFFFFFFFC300C96B40DD9E0B33F771BA770A2C798
        * 0x10000000000000000000000000000000000000000000000000000000000000000
        + 0xAEBC9C6D4B01F2E40132DF78C44B91405781774DB7102ED577503667D6C9AF09));
  }

  /** A point whose x-coordinate is 1. */
  const AT_ONE := Point(
    1,
    0x4218F20AE6C646B363DB68605822FB14264CA8D2587FDD6FBC750D587E76A7EE)

  lemma {:induction false} OneIsX()
    ensures IsPoint(CURVE, Some(AT_ONE)) && AT_ONE.x == 1
  {
    PointByQuotient(
      CURVE,
      1,
      AT_ONE.y,
      0x1110DF3BE5E21E6776516A5FA6702D71D937B2614804CCE0315F9575458FF784);
  }

  // ---------------------------------------------------------------------------
  // What they mean for signing

  /** Whatever is signed, with any secret, unless the digest is a multiple of N, some nonce makes a
      signature with r = N, and it does not verify. */
  lemma {:induction false} LargeXFails<P0(!new)>(group: Group<P0>, at: P0 -> Option<Point>, z: nat, d: nat)
    returns (k: nat)
    requires Prime(N) && IsGroupOf(CURVE, group, at, N) && z % N != 0
    ensures 0 < k < N
    ensures var sig := SignCustomK(group, N, z, d, k);
            && sig.Ok? && sig.value.0 == N
            && !Verifies(group, N, z, Times(group, d, group.g), sig.value.0, sig.value.1)
  {
    hide *;
    Sizes();
    OrderIsX();
    k := OrderAsX(CURVE, group, at, N, AT_ORDER, z, d);
  }

  /** Unless z + d is a multiple of N, some nonce makes signing write r = 1, and the bytes are not
      strict DER. */
  lemma {:induction false} LooseDerWritten<P0(!new)>(group: Group<P0>, at: P0 -> Option<Point>, digest: bytes, d: nat)
    returns (k: nat)
    requires Prime(N) && IsGroupOf(CURVE, group, at, N) && (FromBE(digest) + d) % N != 0
    ensures 0 < k < N
    ensures var out := SignToDer(group, N, digest, d, k);
            && out.Ok?
            && Der.Deserialize(out.value).Ok? && Der.Deserialize(out.value).value.0 == 1
            && !Der.StrictDer(out.value)
  {
    hide *;
    Sizes();
    OneIsX();
    k := RIsReached(CURVE, group, at, N, AT_ONE, FromBE(digest), d);
    SignInSteps(group, N, digest, d, k);
    var sig := SignCustomK(group, N, FromBE(digest), d, k);
    Der.SmallNumberNotStrict(sig.value.1);
    Der.FixedRoundTrip(1, sig.value.1);
  }

  lemma {:induction false} IsGoodField()
    requires Prime(P)
    ensures GoodField(CURVE)
  {
    hide Prime;
  }

  /** On this curve curve_get_y always gives the requested parity. */
  lemma {:induction false} ParityIsMet<P0(!new)>(group: Group<P0>, at: P0 -> Option<Point>, x: int, even: bool)
    requires Prime(P) && IsGroupOf(CURVE, group, at, N)
    ensures GetY(CURVE, x, even) % 2 == if even then 0 else 1
  {
    hide *;
    Sizes();
    IsGoodField();
    ParityAlwaysMet(CURVE, group, at, N, x, even);
  }
}
