/** The generic twisted-Edwards engine of crypto/edwards/curve.go: curve
    constants and lengths, the sign convention, point compression and
    decompression, the curve-equation check, one iteration of the
    random-point picker with embedded data, and data extraction.
    Coordinates are residues modulo P (see ModArith). */
module Edwards {
  import opened Wrappers
  import opened Numeric
  import opened Bytes
  import opened ModArith
  import opened Embedding

  /** edwards.Param: modulus P, equation coefficients A and D, prime
      subgroup order R and cofactor S. */
  datatype Param = Param(P: nat, A: int, D: int, R: nat, S: nat)

  /** The `curve` struct: the parameters and their ModInt forms. */
  datatype Curve = Curve(param: Param, f: Field, a: nat, d: nat, cofact: nat)

  /** An affine point (x, y). */
  datatype Affine = Affine(x: nat, y: nat)

  /** `curve.init`: reduce A, D and the cofactor S modulo P. The inversion
      and square-root primitives come with the ModInt implementation. */
  function Init(p: Param, inv: nat -> nat, sqrt: nat -> Option<nat>): (c: Curve)
    requires p.P > 0
    ensures c.f.p == p.P && c.param == p
    ensures c.a < c.f.p && Cong(c.a, p.A, p.P)
    ensures c.d < c.f.p && Cong(c.d, p.D, p.P)
    ensures c.cofact < c.f.p && Cong(c.cofact, p.S, p.P)
  {
    CongMod(p.A, p.P);
    CongMod(p.D, p.P);
    CongMod(p.S, p.P);
    Curve(p, Field(p.P, inv, sqrt), p.A % p.P, p.D % p.P, p.S % p.P)
  }

  /** The curve the generic engine is meant for: a prime field of odd
      characteristic, reduced coefficients, and a complete twisted Edwards
      equation (a a nonzero square, d a non-square), as for Ed25519, Ed448,
      E-521 and Curve1174. Completeness makes a - d*y^2 nonzero for every y. */
  ghost predicate ValidCurve(c: Curve)
  {
    && ValidField(c.f)
    && c.param.P == c.f.p
    && 0 < c.a < c.f.p
    && c.d < c.f.p
    && IsSquare(c.f, c.a)
    && !IsSquare(c.f, c.d)
  }

  // ---------------------------------------------------------------------
  // Lengths

  /** Bit length of the field modulus. */
  function Bits(c: Curve): nat
  {
    BitLen(c.f.p)
  }

  /** `SecretLen`: bytes of an encoded scalar modulo R. */
  function SecretLen(c: Curve): nat
  {
    (BitLen(c.param.R) + 7) / 8
  }

  /** `PointLen`: bytes of a compressed point, one bit more than P needs. */
  function PointLen(c: Curve): nat
  {
    (Bits(c) + 7 + 1) / 8
  }

  /** Width of ModInt.Encode for residues modulo P. */
  function CoordLen(c: Curve): nat
  {
    (Bits(c) + 7) / 8
  }

  /** `pickLen`: payload bytes per point; Go's `/` truncates toward zero. */
  function PickLen(c: Curve): int
  {
    GoQuo(Bits(c) - 8 - 8, 8)
  }

  /** SecretLen is the ceiling of bitlen(R)/8: the fewest bytes holding R. */
  lemma SecretLenIsCeiling(c: Curve)
    ensures 8 * SecretLen(c) >= BitLen(c.param.R) > 8 * SecretLen(c) - 8
    ensures c.param.R < Pow256(SecretLen(c))
  {
    BitLenBounds(c.param.R);
    Pow256IsPow2(SecretLen(c));
    Pow2Monotone(BitLen(c.param.R), 8 * SecretLen(c));
  }

  /** PointLen is the ceiling of (bitlen(P)+1)/8; it exceeds the
      coordinate width by one byte exactly when bitlen(P) is a multiple of 8. */
  lemma PointLenShape(c: Curve)
    ensures 8 * PointLen(c) >= Bits(c) + 1 > 8 * PointLen(c) - 8
    ensures PointLen(c) == CoordLen(c) + (if Bits(c) % 8 == 0 then 1 else 0)
    ensures PointLen(c) >= 1
  {
  }

  /** Every residue fits the coordinate width, with bit 7 of the top byte of
      a PointLen-byte buffer left free for the sign of x. */
  lemma CoordinateRoom(c: Curve, y: nat)
    requires y < c.f.p
    ensures y < Pow256(CoordLen(c))
    ensures y < 128 * Pow256(PointLen(c) - 1)
  {
    var b := Bits(c);
    WidthCovers(b);
    BitLenBounds(c.f.p);
    assert y < Pow2(b);
    BelowPow2(y, b, 8 * CoordLen(c));
    Pow256IsPow2(CoordLen(c));
    SignRoom(y, b, PointLen(c) - 1);
  }

  lemma BelowPow2(y: nat, b: nat, k: nat)
    requires y < Pow2(b) && b <= k
    ensures y < Pow2(k)
  {
    Pow2Monotone(b, k);
  }

  lemma SignRoom(y: nat, b: nat, m: nat)
    requires y < Pow2(b) && b <= 7 + 8 * m
    ensures y < 128 * Pow256(m)
  {
    BelowPow2(y, b, 7 + 8 * m);
    Pow256IsPow2(m);
    Pow2Add(7, 8 * m);
    assert Pow2(7) == 128;
  }

  lemma WidthCovers(bits: nat)
    ensures bits <= 8 * ((bits + 7) / 8)
    ensures bits <= 7 + 8 * ((bits + 7 + 1) / 8 - 1)
  {
  }

  /** The length byte and the payload always fit below the top byte:
      1 + pickLen < PointLen for every modulus. */
  lemma PickLenFits(c: Curve)
    ensures 1 + PickLen(c) < PointLen(c)
    ensures PickLen(c) >= 0 <==> Bits(c) >= 9
    ensures Bits(c) >= 16 ==> 8 * PickLen(c) + 16 <= Bits(c) < 8 * PickLen(c) + 24
  {
  }

  // ---------------------------------------------------------------------
  // Sign convention and the curve equation

  /** `coordSign`: the least-significant bit of the coordinate. */
  function CoordSign(x: nat): nat
  {
    x % 2
  }

  /** `onCurve`: a*x^2 + y^2 == 1 + d*x^2*y^2, evaluated as the ModInt
      operations do, reducing after every step. */
  function OnCurve(c: Curve, x: nat, y: nat): bool
    requires c.f.p > 0
  {
    var p := c.f.p;
    var xx := Square(c.f, x);
    var yy := Square(c.f, y);
    var l := ((c.a * xx) % p + yy) % p;
    var r := (1 + ((c.d * xx) % p * yy) % p) % p;
    l == r
  }

  /** The curve equation as a congruence over the integers. */
  predicate CurveEq(c: Curve, x: int, y: int)
    requires c.f.p > 0
  {
    Cong(c.a * (x * x) + y * y, 1 + c.d * (x * x) * (y * y), c.f.p)
  }

  /** The step-by-step evaluation in `onCurve` decides the curve equation. */
  lemma OnCurveIsCurveEq(c: Curve, x: nat, y: nat)
    requires c.f.p > 0
    ensures OnCurve(c, x, y) <==> CurveEq(c, x, y)
  {
    var p := c.f.p;
    var xx, yy := Square(c.f, x), Square(c.f, y);
    CongMod(x * x, p);
    CongMod(y * y, p);
    CongMod(c.a * xx, p);
    CongMul(c.a, c.a, xx, x * x, p);
    CongAdd((c.a * xx) % p, c.a * (x * x), yy, y * y, p);
    CongMod((c.a * xx) % p + yy, p);
    CongMod(c.d * xx, p);
    CongMul(c.d, c.d, xx, x * x, p);
    CongMul((c.d * xx) % p, c.d * (x * x), yy, y * y, p);
    CongMod((c.d * xx) % p * yy, p);
    CongAdd(1, 1, ((c.d * xx) % p * yy) % p, c.d * (x * x) * (y * y), p);
    CongMod(1 + ((c.d * xx) % p * yy) % p, p);
  }

  // ---------------------------------------------------------------------
  // Solving for x

  /** a - d*y^2, reduced: the denominator of x^2 in `solveForX`. */
  function Denominator(c: Curve, y: nat): nat
    requires c.f.p > 0
  {
    (c.a - (c.d * Square(c.f, y)) % c.f.p) % c.f.p
  }

  /** 1 - y^2, reduced: the numerator of x^2 in `solveForX`. */
  function Numerator(c: Curve, y: nat): nat
    requires c.f.p > 0
  {
    (1 - Square(c.f, y)) % c.f.p
  }

  /** (1 - y^2) / (a - d*y^2), as ModInt.Div computes it. */
  function XSquared(c: Curve, y: nat): nat
    requires c.f.p > 0
  {
    (Numerator(c, y) * c.f.inv(Denominator(c, y))) % c.f.p
  }

  /** `solveForX`: a square root of (1 - y^2)/(a - d*y^2), or None when the
      square root primitive finds none. */
  function SolveForX(c: Curve, y: nat): Option<nat>
    requires c.f.p > 0
  {
    c.f.sqrt(XSquared(c, y))
  }

  lemma Rearrange(a: int, d: int, xx: int, yy: int, p: int)
    requires p > 0
    ensures Cong(a * xx + yy, 1 + d * xx * yy, p) <==> Cong(xx * (a - d * yy), 1 - yy, p)
  {
    CongIffDiff(a * xx + yy, 1 + d * xx * yy, p);
    CongIffDiff(xx * (a - d * yy), 1 - yy, p);
    assert (a * xx + yy) - (1 + d * xx * yy) == xx * (a - d * yy) - (1 - yy);
  }

  /** The reduced numerator agrees with 1 - y^2. */
  lemma NumeratorCong(c: Curve, y: nat)
    requires c.f.p > 0
    ensures Cong(Numerator(c, y), 1 - y * y, c.f.p)
  {
    var p := c.f.p;
    CongMod(y * y, p);
    CongSub(1, 1, Square(c.f, y), y * y, p);
    CongMod(1 - Square(c.f, y), p);
  }

  /** The reduced denominator agrees with a - d*y^2. */
  lemma DenominatorCong(c: Curve, y: nat)
    requires c.f.p > 0
    ensures Cong(Denominator(c, y), c.a - c.d * (y * y), c.f.p)
  {
    var p := c.f.p;
    var yy := Square(c.f, y);
    CongMod(y * y, p);
    CongMul(c.d, c.d, yy, y * y, p);
    var t := c.d * yy;
    CongMod(t, p);
    CongSub(c.a, c.a, t % p, c.d * (y * y), p);
    CongMod(c.a - t % p, p);
  }

  /** x^2 * (a - d*y^2) == 1 - y^2 is the curve equation rearranged. */
  lemma CurveEqRearranged(c: Curve, x: nat, y: nat)
    requires c.f.p > 0
    ensures CurveEq(c, x, y) <==> Cong(x * x * Denominator(c, y), Numerator(c, y), c.f.p)
  {
    var p := c.f.p;
    NumeratorCong(c, y);
    DenominatorCong(c, y);
    Rearrange(c.a, c.d, x * x, y * y, p);
    CongMul(x * x, x * x, Denominator(c, y), c.a - c.d * (y * y), p);
  }

  /** For a nonzero denominator, x lies on the curve exactly when its square
      is the quotient that `solveForX` takes the root of. */
  lemma CurveEqIffXSquared(c: Curve, x: nat, y: nat)
    requires ValidField(c.f)
    requires Denominator(c, y) != 0
    ensures CurveEq(c, x, y) <==> Square(c.f, x) == XSquared(c, y)
  {
    CurveEqRearranged(c, x, y);
    DivideCong(c.f, x * x, Numerator(c, y), Denominator(c, y));
  }

  /** A vanishing denominator means a == d * u^2 for the residue u of y. */
  lemma DenominatorZero(c: Curve, y: nat)
    requires c.f.p > 0
    requires Denominator(c, y) == 0
    ensures Cong(c.a, c.d * ((y % c.f.p) * (y % c.f.p)), c.f.p)
  {
    var p := c.f.p;
    var u := y % p;
    DenominatorCong(c, y);
    CongIffDiff(c.a, c.d * (y * y), p);
    CongMod(y, p);
    CongMul(y, u, y, u, p);
    CongMul(c.d, c.d, y * y, u * u, p);
  }

  /** A nonzero square is never a non-square times a square. */
  lemma NoSquareRatio(f: Field, a: nat, d: nat, u: nat)
    requires ValidField(f)
    requires 0 < a < f.p && IsSquare(f, a)
    requires d < f.p && !IsSquare(f, d)
    requires u < f.p
    ensures !Cong(a, d * (u * u), f.p)
  {
    ModUnique(a, f.p, 0, a);
    ModUnique(d, f.p, 0, d);
    if u == 0 {
      assert d * (u * u) == 0;
      assert a % f.p != 0;
    } else if Cong(a, d * (u * u), f.p) {
      SquareQuotient(f, a, d, u);
    }
  }

  /** On a complete curve the denominator a - d*y^2 never vanishes: a zero
      would make d = a/y^2 a square. */
  lemma CompleteDenominator(c: Curve, y: nat)
    requires ValidCurve(c)
    ensures Denominator(c, y) != 0
  {
    if Denominator(c, y) == 0 {
      DenominatorZero(c, y);
      NoSquareRatio(c.f, c.a, c.d, y % c.f.p);
    }
  }

  // ---------------------------------------------------------------------
  // Properties of solveForX

  /** A root found by `solveForX` is a reduced x that puts (x, y) on the
      curve, provided a - d*y^2 is nonzero. */
  lemma SolveForXOnCurve(c: Curve, y: nat)
    requires ValidField(c.f)
    requires Denominator(c, y) != 0
    requires SolveForX(c, y).Some?
    ensures SolveForX(c, y).value < c.f.p
    ensures OnCurve(c, SolveForX(c, y).value, y)
  {
    var x := SolveForX(c, y).value;
    var q := XSquared(c, y);
    assert q < c.f.p;
    assert Square(c.f, x) == q;
    CurveEqIffXSquared(c, x, y);
    OnCurveIsCurveEq(c, x, y);
  }

  /** If some x puts (x, y) on the curve, `solveForX` succeeds and returns
      x or -x. */
  lemma SolveForXComplete(c: Curve, y: nat, x: nat)
    requires ValidField(c.f)
    requires Denominator(c, y) != 0
    requires x < c.f.p && OnCurve(c, x, y)
    ensures SolveForX(c, y).Some?
    ensures SolveForX(c, y).value == x || SolveForX(c, y).value == Neg(c.f, x)
  {
    var q := XSquared(c, y);
    OnCurveIsCurveEq(c, x, y);
    CurveEqIffXSquared(c, x, y);
    assert q < c.f.p;
    assert IsSquare(c.f, q);
    var z := SolveForX(c, y).value;
    SquareRoots(c.f, x, z);
  }

  /** Negating x keeps the point on the curve: the equation only sees x^2. */
  lemma NegOnCurve(c: Curve, x: nat, y: nat)
    requires ValidField(c.f)
    requires x < c.f.p && OnCurve(c, x, y)
    ensures OnCurve(c, Neg(c.f, x), y)
  {
    SquareNeg(c.f, x);
  }

  // ---------------------------------------------------------------------
  // Point compression

  /** A little-endian point encoding with the sign bit (bit 7 of the last
      byte) cleared: what remains is the y-coordinate. */
  function WithoutSign(b: seq<byte>): seq<byte>
    requires |b| > 0
  {
    b[|b| - 1 := ClearTopBit(b[|b| - 1])]
  }

  /** The sign bit of a little-endian point encoding. */
  function SignBit(b: seq<byte>): nat
    requires |b| > 0
  {
    TopBit(b[|b| - 1])
  }

  /** y.Encode() with the extra zero byte in front when bitlen(P) is a
      multiple of 8 is the PointLen-byte big-endian form of y, whose top
      bit is free. */
  lemma EncodeBuffer(c: Curve, y: nat)
    requires y < c.f.p
    ensures y < Pow256(CoordLen(c)) && y < Pow256(PointLen(c))
    ensures (if Bits(c) % 8 == 0 then [0] + ToBE(y, CoordLen(c)) else ToBE(y, CoordLen(c)))
            == ToBE(y, PointLen(c))
    ensures ToBE(y, PointLen(c))[0] < 128
  {
    CoordinateRoom(c, y);
    PointLenShape(c);
    Pow256Monotone(CoordLen(c), PointLen(c));
    var s := ToBE(y, CoordLen(c));
    if Bits(c) % 8 == 0 {
      var t := [0 as byte] + s;
      BEValueFront(t);
      assert t[1..] == s;
      BEInjective(t, ToBE(y, PointLen(c)));
    }
    BEFirstByteBound(ToBE(y, PointLen(c)), 128);
  }

  /** Setting bit 7 of the first big-endian byte and reversing puts the
      sign into the last little-endian byte and leaves the rest alone. */
  lemma SignedReverse(b: seq<byte>, sign: nat)
    requires |b| > 0 && b[0] < 128 && sign <= 1
    ensures var r := Reverse(if sign != 0 then b[0 := SetTopBit(b[0])] else b);
            SignBit(r) == sign && WithoutSign(r) == Reverse(b)
  {
    var b' := if sign != 0 then b[0 := SetTopBit(b[0])] else b;
    var r := Reverse(b');
    assert r[|r| - 1] == b'[0];
    assert WithoutSign(r) == Reverse(b);
  }

  /** `encodePoint`: y as a PointLen-byte little-endian number, with the
      sign (parity) of x in bit 7 of the last byte. */
  function EncodePoint(c: Curve, x: nat, y: nat): (r: seq<byte>)
    requires y < c.f.p
    ensures y < Pow256(PointLen(c)) && |r| == PointLen(c)
    ensures SignBit(r) == CoordSign(x)
    ensures WithoutSign(r) == ToLE(y, PointLen(c))
  {
    EncodeBuffer(c, y);
    ReverseToBE(y, PointLen(c));
    SignedReverse(ToBE(y, PointLen(c)), CoordSign(x));
    var b := ToBE(y, CoordLen(c));
    var b := if Bits(c) % 8 == 0 then [0] + b else b;
    var b := if CoordSign(x) != 0 then b[0 := SetTopBit(b[0])] else b;
    Reverse(b)
  }

  /** `decodePoint`: read the sign bit, read y from the remaining bits
      (big.Int.SetBytes, not reduced modulo P), solve for x and orient its
      sign. Go's `reverse` panics on an empty buffer, hence |bb| > 0. */
  function DecodePoint(c: Curve, bb: seq<byte>): (r: Result<Affine>)
    requires c.f.p > 0
    requires |bb| > 0
    ensures r.Err? <==> SolveForX(c, LEValue(WithoutSign(bb))).None?
    ensures r.Ok? ==> r.value.y == LEValue(WithoutSign(bb))
  {
    var b := Reverse(bb);
    var xsign := TopBit(b[0]);
    var b := b[0 := ClearTopBit(b[0])];
    assert b == Reverse(WithoutSign(bb));
    LEValueOfReverse(b);
    ReverseReverse(WithoutSign(bb));
    var y := BEValue(b);
    match SolveForX(c, y)
    case None => Err("invalid elliptic curve point")
    case Some(x) => Ok(Affine(if CoordSign(x) != xsign then Neg(c.f, x) else x, y))
  }

  /** A decoded point is reduced in x, carries the decoded sign unless
      x == 0, and lies on the curve when a - d*y^2 != 0. */
  lemma DecodePointValid(c: Curve, bb: seq<byte>)
    requires ValidField(c.f)
    requires |bb| > 0
    requires DecodePoint(c, bb).Ok?
    ensures DecodePoint(c, bb).value.x < c.f.p
    ensures CoordSign(DecodePoint(c, bb).value.x) == SignBit(bb) || DecodePoint(c, bb).value.x == 0
    ensures Denominator(c, DecodePoint(c, bb).value.y) != 0 ==>
              OnCurve(c, DecodePoint(c, bb).value.x, DecodePoint(c, bb).value.y)
  {
    var pt := DecodePoint(c, bb).value;
    var y := pt.y;
    var x0 := SolveForX(c, y).value;
    assert XSquared(c, y) < c.f.p;
    assert x0 < c.f.p;
    if x0 != 0 {
      NegFlipsParity(c.f, x0);
    } else {
      NegOfResidue(c.f, x0);
    }
    if Denominator(c, y) != 0 {
      SolveForXOnCurve(c, y);
      NegOnCurve(c, x0, y);
    }
  }

  /** The x that `decodePoint` returns: the root, negated when its parity
      differs from the sign bit. */
  lemma DecodePointX(c: Curve, bb: seq<byte>)
    requires c.f.p > 0
    requires |bb| > 0
    requires DecodePoint(c, bb).Ok?
    ensures var z := SolveForX(c, LEValue(WithoutSign(bb))).value;
            DecodePoint(c, bb).value.x == if CoordSign(z) != SignBit(bb) then Neg(c.f, z) else z
  {
  }

  /** Decoding an encoded point gives the point back: the root `solveForX`
      finds is x or -x, and the parity fix picks x. This holds on every
      curve with distinct reduced coefficients, complete or not. */
  lemma DecodeEncode(c: Curve, x: nat, y: nat)
    requires ValidField(c.f) && c.a < c.f.p && c.d < c.f.p && c.a != c.d
    requires x < c.f.p && y < c.f.p
    requires OnCurve(c, x, y)
    ensures DecodePoint(c, EncodePoint(c, x, y)) == Ok(Affine(x, y))
  {
    var bb := EncodePoint(c, x, y);
    assert LEValue(WithoutSign(bb)) == y;
    OnCurveDenominator(c, x, y);
    SolveForXComplete(c, y, x);
    DecodePointX(c, bb);
    OrientRoot(c.f, x, SolveForX(c, y).value);
  }

  /** At a point on the curve the denominator a - d*y^2 vanishes only when
      a == d: a zero denominator forces 1 - y^2 == 0, so y^2 == 1 and then
      a - d == 0. */
  lemma OnCurveDenominator(c: Curve, x: nat, y: nat)
    requires c.f.p > 0 && c.a < c.f.p && c.d < c.f.p && c.a != c.d
    requires OnCurve(c, x, y)
    ensures Denominator(c, y) != 0
  {
    var p := c.f.p;
    if Denominator(c, y) == 0 {
      OnCurveIsCurveEq(c, x, y);
      CurveEqRearranged(c, x, y);
      assert x * x * Denominator(c, y) == 0;
      ModOfResidue(1 - Square(c.f, y), p);
      assert Numerator(c, y) == 0;
      NumeratorCong(c, y);
      DenominatorCong(c, y);
      EqualCoefficients(c.a, c.d, y * y, p);
      ModUnique(c.a, p, 0, c.a);
      ModUnique(c.d, p, 0, c.d);
      assert false;
    }
  }

  /** If 1 - s and a - d*s are both 0 modulo p, then a and d agree modulo p. */
  lemma EqualCoefficients(a: int, d: int, s: int, p: int)
    requires p > 0
    requires Cong(0, 1 - s, p) && Cong(0, a - d * s, p)
    ensures Cong(a, d, p)
  {
    var k, j := (1 - s) / p, (a - d * s) / p;
    ModUnique(0, p, 0, 0);
    assert 1 - s == p * k;
    assert a - d * s == p * j;
    assert a - d == p * (j - d * k);
    ModUnique(a - d, p, j - d * k, 0);
    CongIffDiff(a, d, p);
  }

  /** Of the two roots x and -x, the one with the parity of x is x. */
  lemma OrientRoot(f: Field, x: nat, z: nat)
    requires ValidField(f)
    requires x < f.p
    requires z == x || z == Neg(f, x)
    ensures (if CoordSign(z) != CoordSign(x) then Neg(f, z) else z) == x
  {
    NegOfResidue(f, x);
    if x != 0 {
      NegFlipsParity(f, x);
      if z != x {
        NegOfResidue(f, z);
      }
    }
  }

  // ---------------------------------------------------------------------
  // Random points with embedded data

  /** The little-endian candidate buffer of one `pickPoint` iteration,
      laid out as in Embedding.Embed with this curve's pickLen. */
  function Candidate(c: Curve, data: Option<seq<byte>>, block: seq<byte>): (b: seq<byte>)
    requires PickLen(c) >= 0 && |block| == PointLen(c)
    ensures |b| == PointLen(c)
  {
    PickLenFits(c);
    Embed(PickLen(c), data, block)
  }

  /** The big-endian y bytes of a candidate: reversed, with the bits of the
      top byte at and above bitlen(P) mod 8 cleared. */
  function CandidateY(c: Curve, data: Option<seq<byte>>, block: seq<byte>): (b: seq<byte>)
    requires PickLen(c) >= 0 && |block| == PointLen(c)
    ensures |b| == PointLen(c) && (b[0] as int) < Pow2(Bits(c) % 8)
    ensures b[1..] == Reverse(Candidate(c, data, block))[1..]
    ensures (Reverse(Candidate(c, data, block))[0] as int - b[0] as int) % Pow2(Bits(c) % 8) == 0
  {
    var b := Reverse(Candidate(c, data, block));
    b[0 := KeepLowBits(b[0], Bits(c) % 8)]
  }

  /** The saved sign: bit 7 of the candidate's last little-endian byte. */
  function SavedSign(c: Curve, data: Option<seq<byte>>, block: seq<byte>): nat
    requires PickLen(c) >= 0 && |block| == PointLen(c)
  {
    SignBit(Candidate(c, data, block))
  }

  /** Clearing the high bits leaves a y below 2^bitlen(P). */
  lemma CandidateYBound(c: Curve, data: Option<seq<byte>>, block: seq<byte>)
    requires PickLen(c) >= 0 && |block| == PointLen(c)
    ensures |CandidateY(c, data, block)| == PointLen(c)
    ensures BEValue(CandidateY(c, data, block)) < Pow2(Bits(c))
  {
    var b := CandidateY(c, data, block);
    TopBitWeight(Bits(c));
    TopByteBound(b, Bits(c) % 8);
  }

  /** The top byte of a PointLen-byte buffer holds bits 8(n-1) and up. */
  lemma TopBitWeight(bits: nat)
    ensures bits % 8 + 8 * ((bits + 7 + 1) / 8 - 1) == bits
  {
  }

  /** The outcome of one iteration of the `pickPoint` loop. */
  datatype Attempt = Retry | Picked(pt: Affine, rest: seq<byte>) | Panic

  /** One iteration of `pickPoint` on one PointLen-byte block of the
      randomness stream: build the candidate, read the sign and y
      (ModInt.SetBytes, reduced modulo P), solve for x, orient it, check the
      curve equation (the `panic`) and return the leftover payload. */
  function PickAttempt(c: Curve, data: Option<seq<byte>>, block: seq<byte>): (r: Attempt)
    requires c.f.p > 0
    requires PickLen(c) >= 0 && |block| == PointLen(c)
    ensures r.Retry? <==> SolveForX(c, BEValue(CandidateY(c, data, block)) % c.f.p).None?
    ensures r.Picked? ==> r.pt.y == BEValue(CandidateY(c, data, block)) % c.f.p
    ensures r.Picked? ==> r.rest == Leftover(PickLen(c), data)
  {
    var b := Reverse(Candidate(c, data, block));
    var xsign := TopBit(b[0]);
    var b := b[0 := KeepLowBits(b[0], Bits(c) % 8)];
    var y := BEValue(b) % c.f.p;
    match SolveForX(c, y)
    case None => Retry
    case Some(x0) =>
      var x := if CoordSign(x0) != xsign then Neg(c.f, x0) else x0;
      if !OnCurve(c, x, y) then Panic
      else Picked(Affine(x, y), Leftover(PickLen(c), data))
  }

  /** On a valid curve the `panic` in `pickPoint` is unreachable: the point
      found is on the curve, reduced, and x carries the saved sign (unless
      x == 0, which has no sign to choose). */
  lemma PickNeverPanics(c: Curve, data: Option<seq<byte>>, block: seq<byte>)
    requires ValidCurve(c)
    requires PickLen(c) >= 0 && |block| == PointLen(c)
    ensures !PickAttempt(c, data, block).Panic?
    ensures PickAttempt(c, data, block).Picked? ==>
              var pt := PickAttempt(c, data, block).pt;
              && pt.x < c.f.p && pt.y < c.f.p && OnCurve(c, pt.x, pt.y)
              && (CoordSign(pt.x) == SavedSign(c, data, block) || pt.x == 0)
  {
    var y := BEValue(CandidateY(c, data, block)) % c.f.p;
    var xsign := SavedSign(c, data, block);
    assert TopBit(Reverse(Candidate(c, data, block))[0]) == xsign;
    if SolveForX(c, y).Some? {
      var x0 := SolveForX(c, y).value;
      CompleteDenominator(c, y);
      SolveForXOnCurve(c, y);
      NegOnCurve(c, x0, y);
      if x0 != 0 {
        NegFlipsParity(c.f, x0);
      } else {
        NegOfResidue(c.f, x0);
      }
    }
  }

  /** `data`: the embedded payload of a point, read back from its encoding
      by Embedding.Extract with this curve's pickLen. */
  function Data(c: Curve, x: nat, y: nat): (r: Result<seq<byte>>)
    requires y < c.f.p
    ensures r.Err? <==> EncodePoint(c, x, y)[0] as int > PickLen(c)
    ensures r.Ok? ==> |r.value| == EncodePoint(c, x, y)[0] as int
    ensures r.Ok? ==> forall i :: 0 <= i < |r.value| ==> r.value[i] == EncodePoint(c, x, y)[1 + i]
  {
    PickLenFits(c);
    Extract(PickLen(c), EncodePoint(c, x, y))
  }

  /** The encoding of a picked point agrees with the candidate buffer in
      every byte below the top one, provided y was below P before reduction. */
  lemma PickedEncoding(c: Curve, data: Option<seq<byte>>, block: seq<byte>)
    requires c.f.p > 0
    requires PickLen(c) >= 0 && |block| == PointLen(c)
    requires PickAttempt(c, data, block).Picked?
    requires BEValue(CandidateY(c, data, block)) < c.f.p
    ensures var pt := PickAttempt(c, data, block).pt;
            forall i :: 0 <= i < PointLen(c) - 1 ==>
              EncodePoint(c, pt.x, pt.y)[i] == Candidate(c, data, block)[i]
  {
    var pt := PickAttempt(c, data, block).pt;
    var cy := CandidateY(c, data, block);
    var n := PointLen(c);
    CandidateYBound(c, data, block);
    ModUnique(BEValue(cy), c.f.p, 0, BEValue(cy));
    ToBEOfValue(cy);
    ReverseToBE(pt.y, n);
    var e := EncodePoint(c, pt.x, pt.y);
    forall i | 0 <= i < n - 1
      ensures e[i] == Candidate(c, data, block)[i]
    {
      assert e[i] == WithoutSign(e)[i];
      assert ToLE(pt.y, n)[i] == cy[n - 1 - i];
    }
  }

  /** Embedding round trip: `data` on a freshly picked point returns exactly
      the dl payload bytes that `pickPoint` embedded, and they together with
      the returned leftover make up the whole payload. Needs the length to
      fit the length byte (pickLen < 256) and the random high bits to leave
      y below P, so that ModInt.SetBytes does not reduce it. */
  lemma PickThenData(c: Curve, d: seq<byte>, block: seq<byte>)
    requires c.f.p > 0
    requires 0 <= PickLen(c) < 256 && |block| == PointLen(c)
    requires PickAttempt(c, Some(d), block).Picked?
    requires BEValue(CandidateY(c, Some(d), block)) < c.f.p
    ensures var r := PickAttempt(c, Some(d), block);
            var dl := EmbedLen(PickLen(c), Some(d));
            && Data(c, r.pt.x, r.pt.y) == Ok(d[..dl])
            && d[..dl] + r.rest == d
  {
    var r := PickAttempt(c, Some(d), block);
    PickLenFits(c);
    PickedEncoding(c, Some(d), block);
    EmbedExtract(PickLen(c), d, block, EncodePoint(c, r.pt.x, r.pt.y));
  }
}
