/** Canonical point decoding. `decodePoint` (crypto/edwards/curve.go)
    accepts encodings that `encodePoint` never produces: a set sign bit with
    x == 0, a y-coordinate at or above P, and buffers of any length (the
    encoding of a point with even x followed by a zero byte decodes to the
    same point). Section 5.1.3 of RFC 8032, whose little-endian convention
    the engine follows, rejects the first two; a fixed-width format rejects
    the third. This module exhibits the three discrepancies and proves
    the corrected decoder canonical: it accepts exactly the encodings of
    curve points. */
module CanonicalDecoding {
  import opened Wrappers
  import opened Numeric
  import opened Bytes
  import opened ModArith
  import opened Edwards

  /** The neutral point (0, 1) lies on every curve. */
  lemma NeutralOnCurve(c: Curve)
    requires c.f.p > 1
    ensures OnCurve(c, 0, 1)
  {
    var p := c.f.p;
    ModUnique(1, p, 0, 1);
    assert Square(c.f, 0) == 0;
    assert Square(c.f, 1) == 1;
    assert c.a * 0 == 0 && c.d * 0 == 0;
  }

  /** The encoding of (0, 1) carries y = 1 and decodes back to (0, 1). */
  lemma NeutralDecodes(c: Curve)
    requires ValidCurve(c)
    ensures LEValue(WithoutSign(EncodePoint(c, 0, 1))) == 1
    ensures DecodePoint(c, EncodePoint(c, 0, 1)) == Ok(Affine(0, 1))
  {
    NeutralOnCurve(c);
    DecodeEncode(c, 0, 1);
  }

  /** When a buffer decodes to x == 0, any buffer whose y-coordinate has
      the same square root decodes to x == 0 as well, whatever its sign bit:
      the root is 0 and negating it changes nothing. */
  lemma DecodeZeroIgnoresSign(c: Curve, a: seq<byte>, b: seq<byte>)
    requires ValidField(c.f)
    requires |a| > 0 && |b| > 0
    requires SolveForX(c, LEValue(WithoutSign(a))) == SolveForX(c, LEValue(WithoutSign(b)))
    requires DecodePoint(c, a).Ok? && DecodePoint(c, a).value.x == 0
    ensures DecodePoint(c, b) == Ok(Affine(0, LEValue(WithoutSign(b))))
  {
    var z := SolveForX(c, LEValue(WithoutSign(a))).value;
    assert z < c.f.p;
    DecodePointX(c, a);
    NegOfResidue(c.f, z);
    assert z == 0;
    DecodePointX(c, b);
  }

  /** As written: setting the sign bit in the encoding of (0, 1) gives a
      second buffer that `decodePoint` also turns into (0, 1). */
  lemma DecodeAcceptsSignedZero(c: Curve)
    requires ValidCurve(c)
    ensures var good := EncodePoint(c, 0, 1);
            var bad := good[|good| - 1 := SetTopBit(good[|good| - 1])];
            && bad != good
            && DecodePoint(c, good) == Ok(Affine(0, 1))
            && DecodePoint(c, bad) == Ok(Affine(0, 1))
  {
    var good := EncodePoint(c, 0, 1);
    var bad := good[|good| - 1 := SetTopBit(good[|good| - 1])];
    assert SignBit(bad) == 1 && SignBit(good) == 0;
    assert WithoutSign(bad) == WithoutSign(good);
    NeutralDecodes(c);
    DecodeZeroIgnoresSign(c, good, bad);
  }

  /** A little-endian buffer whose value stays below bit 7 of its last
      byte has a clear sign bit. */
  lemma UnsignedToLE(v: nat, n: nat)
    requires n > 0
    requires v < 128 * Pow256(n - 1)
    ensures v < Pow256(n)
    ensures WithoutSign(ToLE(v, n)) == ToLE(v, n)
    ensures LEValue(WithoutSign(ToLE(v, n))) == v
  {
    Pow256Monotone(n - 1, n);
    var b := ToLE(v, n);
    assert b[n - 1] < 128 by {
      ReverseToBE(v, n);
      BEFirstByteBound(ToBE(v, n), 128);
    }
  }

  /** P + 1 and 1 have the same square modulo P. */
  lemma SquareShift(p: nat)
    requires p > 1
    ensures ((p + 1) * (p + 1)) % p == (1 * 1) % p
  {
    assert (p + 1) * (p + 1) == (p + 2) * p + 1;
    ModUnique((p + 1) * (p + 1), p, p + 2, 1);
    ModUnique(1, p, 0, 1);
  }

  /** P + 1 and 1 give `solveForX` the same square. */
  lemma SolveShift(c: Curve)
    requires c.f.p > 1
    ensures SolveForX(c, c.f.p + 1) == SolveForX(c, 1)
  {
    SquareShift(c.f.p);
    SolveDependsOnSquare(c, c.f.p + 1, 1);
  }

  /** `solveForX` sees y only through y^2. */
  lemma SolveDependsOnSquare(c: Curve, y1: nat, y2: nat)
    requires c.f.p > 0
    requires Square(c.f, y1) == Square(c.f, y2)
    ensures SolveForX(c, y1) == SolveForX(c, y2)
  {
  }

  /** As written: `decodePoint` returns the y-coordinate P + 1, outside the
      residues, whenever P + 1 still fits below the sign bit. */
  lemma DecodeAcceptsUnreducedY(c: Curve)
    requires ValidCurve(c)
    requires c.f.p + 1 < 128 * Pow256(PointLen(c) - 1)
    ensures var bad := ToLE(c.f.p + 1, PointLen(c));
            DecodePoint(c, bad) == Ok(Affine(0, c.f.p + 1))
  {
    var p := c.f.p;
    PointLenShape(c);
    UnsignedToLE(p + 1, PointLen(c));
    var bad := ToLE(p + 1, PointLen(c));
    NeutralDecodes(c);
    SolveShift(c);
    DecodeZeroIgnoresSign(c, EncodePoint(c, 0, 1), bad);
  }

  /** As written: `decodePoint` never checks the buffer length, so the
      encoding of a point with even x followed by a zero byte is a longer
      buffer that decodes to the same point. */
  lemma DecodeAcceptsLongerBuffer(c: Curve, x: nat, y: nat)
    requires ValidField(c.f) && c.a < c.f.p && c.d < c.f.p && c.a != c.d
    requires x < c.f.p && y < c.f.p && x % 2 == 0
    requires OnCurve(c, x, y)
    ensures var good := EncodePoint(c, x, y);
            && |good + [0]| != PointLen(c)
            && DecodePoint(c, good + [0]) == Ok(Affine(x, y))
  {
    var good := EncodePoint(c, x, y);
    var long := good + [0];
    var n := |good|;
    assert WithoutSign(long) == good + seq(1, _ => 0 as byte);
    assert good == WithoutSign(good) by {
      assert good[n - 1] < 128;
    }
    LEValueZeroPad(good, 1);
    assert SignBit(long) == 0 == SignBit(good);
    DecodeEncode(c, x, y);
    DecodePointX(c, good);
    DecodePointX(c, long);
  }

  /** Corrected `decodePoint`: as before, but only for PointLen-byte input,
      with y below P, and rejecting a set sign bit when x == 0. */
  function DecodeStrict(c: Curve, bb: seq<byte>): Result<Affine>
    requires c.f.p > 0
  {
    PointLenShape(c);
    if |bb| != PointLen(c) then Err("invalid point length")
    else if LEValue(WithoutSign(bb)) >= c.f.p then Err("invalid elliptic curve point")
    else
      match DecodePoint(c, bb)
      case Err(e) => Err(e)
      case Ok(pt) =>
        if pt.x == 0 && SignBit(bb) == 1 then Err("invalid elliptic curve point")
        else Ok(pt)
  }

  /** A byte buffer is determined by its sign bit and the rest. */
  lemma SignSplit(a: seq<byte>, b: seq<byte>)
    requires |a| == |b| > 0
    requires SignBit(a) == SignBit(b) && WithoutSign(a) == WithoutSign(b)
    ensures a == b
  {
    var n := |a| - 1;
    assert a[n] == b[n] by {
      assert ClearTopBit(a[n]) == WithoutSign(a)[n];
    }
    assert forall i :: 0 <= i < n ==> a[i] == WithoutSign(a)[i];
  }

  /** Every point on the curve survives encoding and strict decoding, on
      every curve with distinct reduced coefficients. */
  lemma DecodeStrictEncode(c: Curve, x: nat, y: nat)
    requires ValidField(c.f) && c.a < c.f.p && c.d < c.f.p && c.a != c.d
    requires x < c.f.p && y < c.f.p
    requires OnCurve(c, x, y)
    ensures DecodeStrict(c, EncodePoint(c, x, y)) == Ok(Affine(x, y))
  {
    DecodeEncode(c, x, y);
  }

  /** Strict decoding accepts only the encodings of curve points: what it
      returns is a reduced point on the curve that encodes back to the very
      same bytes. */
  lemma DecodeStrictCanonical(c: Curve, bb: seq<byte>)
    requires ValidCurve(c)
    requires DecodeStrict(c, bb).Ok?
    ensures var pt := DecodeStrict(c, bb).value;
            && pt.x < c.f.p && pt.y < c.f.p
            && OnCurve(c, pt.x, pt.y)
            && EncodePoint(c, pt.x, pt.y) == bb
  {
    var y := LEValue(WithoutSign(bb));
    assert |bb| == PointLen(c) && y < c.f.p;
    var pt := DecodePoint(c, bb).value;
    assert DecodeStrict(c, bb) == Ok(pt);
    assert pt.x != 0 || SignBit(bb) != 1;
    assert pt.y == y;
    DecodePointValid(c, bb);
    CompleteDenominator(c, y);
    ToLEOfValue(WithoutSign(bb));
    SignSplit(EncodePoint(c, pt.x, y), bb);
  }

  // ---------------------------------------------------------------------
  // The validity assumptions are satisfiable

  function Inv5(v: nat): nat
  {
    var r := v % 5;
    if r == 2 then 3 else if r == 3 then 2 else r
  }

  function Sqrt5(v: nat): Option<nat>
  {
    var r := v % 5;
    if r == 0 then Some(0) else if r == 1 then Some(1) else if r == 4 then Some(2) else None
  }

  /** x^2 + y^2 = 1 + 2*x^2*y^2 over the integers modulo 5: a complete
      twisted Edwards curve with 8 points. */
  function ToyCurve(): Curve
  {
    Init(Param(5, 1, 2, 2, 4), Inv5, Sqrt5)
  }

  lemma ToyCurveIsValid()
    ensures ValidCurve(ToyCurve())
  {
    var c := ToyCurve();
    var f := c.f;
    assert f.p == 5 && c.a == 1 && c.d == 2;
    forall v: nat | 0 < v < 5
      ensures f.inv(v) < 5 && (v * f.inv(v)) % 5 == 1
    {
      assert v == 1 || v == 2 || v == 3 || v == 4;
    }
    forall v: nat | v < 5
      ensures match f.sqrt(v)
              case Some(r) => r < 5 && Square(f, r) == v
              case None => !IsSquare(f, v)
    {
      if f.sqrt(v).None? {
        assert v == 2 || v == 3;
        forall r: nat | r < 5
          ensures Square(f, r) != v
        {
          assert r == 0 || r == 1 || r == 2 || r == 3 || r == 4;
        }
      }
    }
    assert Square(f, 1) == 1;
    forall r: nat | r < 5
      ensures Square(f, r) != 2
    {
      assert r == 0 || r == 1 || r == 2 || r == 3 || r == 4;
    }
  }
}
