/** The Ed25519 point type of crypto/edwards/ed25519/point.go. The group
    arithmetic (ref10's field elements, FromBytes/ToBytes, scalar
    multiplication) is not part of this model: it enters as a Kernel of
    functions, and the point type is modelled in terms of them. */
module Ed25519 {
  import opened Wrappers
  import opened Numeric
  import opened Bytes
  import opened Embedding
  import Edwards

  /** ref10's extendedGroupElement: extended coordinates (X:Y:Z:T), with
      field elements standing for their integer values. */
  datatype GroupElement = GroupElement(X: int, Y: int, Z: int, T: int)

  /** The ref10 operations the point type calls: FromBytes (None when the
      buffer is not a point), ToBytes, Zero, the constant `baseext`,
      geScalarMultBase and geScalarMult on a 32-byte little-endian scalar. */
  datatype Kernel = Kernel(
    fromBytes: seq<byte> -> Option<GroupElement>,
    toBytes: GroupElement -> seq<byte>,
    zero: GroupElement,
    base: GroupElement,
    scalarMultBase: seq<byte> -> GroupElement,
    scalarMult: (seq<byte>, GroupElement) -> GroupElement)

  /** ToBytes writes a [32]byte. */
  ghost predicate ValidKernel(k: Kernel)
  {
    forall g :: |k.toBytes(g)| == 32
  }

  /** `point`: one group element. */
  datatype Point = Point(ge: GroupElement)

  /** `Len`, `PointLen`: a compressed point is 32 bytes. */
  const PointLen: nat := 32

  /** `SecretLen`: a scalar is 32 bytes. */
  const SecretLen: nat := 32

  /** `PickLen`: (255 - 8 - 8) / 8 payload bytes per point. */
  const PickLen: nat := (255 - 8 - 8) / 8

  // ---------------------------------------------------------------------
  // Agreement with the generic engine

  /** The constants of the point type are the generic engine's formulas
      evaluated for Ed25519, whose modulus 2^255 - 19 has 255 bits and whose
      group order 2^252 + 27742317777372353535851937790883648493 has 253
      (section 5.1 of RFC 8032): 32-byte points and scalars and 29 payload
      bytes, leaving the length byte and the top byte free. */
  lemma LengthsAgree(c: Edwards.Curve)
    requires Edwards.Bits(c) == 255
    requires BitLen(c.param.R) == 253
    ensures Edwards.PointLen(c) == PointLen
    ensures Edwards.SecretLen(c) == SecretLen
    ensures Edwards.PickLen(c) == PickLen
    ensures 1 + PickLen < PointLen
  {
  }

  // ---------------------------------------------------------------------
  // Points

  /** `Set`: the receiver takes P2's group element. */
  function Set(p: Point, q: Point): (r: Point)
    ensures r.ge == q.ge
  {
    Point(q.ge)
  }

  /** `Null`: the neutral element, ref10's Zero. */
  function Null(k: Kernel): (r: Point)
    ensures r.ge == k.zero
  {
    Point(k.zero)
  }

  /** `Equal`: compare the two 32-byte encodings byte by byte. Two points
      are equal exactly when they encode alike, so Equal is reflexive,
      symmetric and transitive. */
  method Equal(k: Kernel, a: Point, b: Point) returns (eq: bool)
    requires ValidKernel(k)
    ensures eq <==> k.toBytes(a.ge) == k.toBytes(b.ge)
  {
    var b1 := k.toBytes(a.ge);
    var b2 := k.toBytes(b.ge);
    var i := 0;
    while i < 32
      invariant 0 <= i <= 32
      invariant b1[..i] == b2[..i]
    {
      if b1[i] != b2[i] {
        return false;
      }
      i := i + 1;
    }
    assert b1 == b1[..32] && b2 == b2[..32];
    return true;
  }

  // ---------------------------------------------------------------------
  // Scalar multiplication

  /** The scalar conversion in `Mul`: V.Bytes() (minimal big-endian),
      copied reversed into a zeroed [32]byte, is the 32-byte little-endian
      form of V; a zero V gives all zeros. A V of 2^256 or more would index
      outside the array (a Go panic), hence the precondition. */
  method ScalarBytes(v: nat) returns (a: seq<byte>)
    requires v < Pow256(32)
    ensures v < Pow256(|a|) && LEValue(a) == v
    ensures a == ToLE(v, |a|)
    ensures forall i :: |MinimalBE(v)| <= i < |a| ==> a[i] == 0
    ensures v == 0 ==> forall i :: 0 <= i < |a| ==> a[i] == 0
    ensures |a| == 32
  {
    MinimalBELength(v, 32);
    a := Widen(MinimalBE(v), 32);
  }

  /** The copy loop of `Mul`: `a[shi-i] = sb[i]` for each byte of sb into an
      n-byte zeroed array gives the n-byte little-endian form of sb's
      big-endian value. */
  method Widen(sb: seq<byte>, n: nat) returns (a: seq<byte>)
    requires |sb| <= n
    ensures |a| == n
    ensures BEValue(sb) < Pow256(|a|) && LEValue(a) == BEValue(sb)
    ensures a == ToLE(BEValue(sb), |a|)
    ensures forall i :: |sb| <= i < |a| ==> a[i] == 0
  {
    var shi := |sb| - 1;
    a := seq(n, _ => 0 as byte);
    var i := 0;
    while i < |sb|
      invariant 0 <= i <= |sb| <= |a| == n
      invariant forall j :: 0 <= j < |a| ==> a[j] == if shi - i < j <= shi then sb[shi - j] else 0
    {
      a := a[shi - i := sb[i]];
      i := i + 1;
    }
    PaddedReverse(sb, a);
  }

  /** A buffer holding sb reversed and then zeros is the fixed-width
      little-endian form of sb's big-endian value. */
  lemma PaddedReverse(sb: seq<byte>, a: seq<byte>)
    requires |sb| <= |a|
    requires forall j :: 0 <= j < |a| ==> a[j] == if j < |sb| then sb[|sb| - 1 - j] else 0
    ensures BEValue(sb) < Pow256(|a|)
    ensures LEValue(a) == BEValue(sb) && a == ToLE(BEValue(sb), |a|)
  {
    var z := seq(|a| - |sb|, _ => 0 as byte);
    assert a == Reverse(sb) + z;
    LEValueZeroPad(Reverse(sb), |a| - |sb|);
    LEValueOfReverse(sb);
    ToLEOfValue(a);
  }

  /** `Mul`: convert the scalar, then multiply the base point (A == nil) or
      A by it. */
  method Mul(k: Kernel, a: Option<Point>, s: nat) returns (r: Point)
    requires s < Pow256(32)
    ensures a.None? ==> r.ge == k.scalarMultBase(ToLE(s, 32))
    ensures a.Some? ==> r.ge == k.scalarMult(ToLE(s, 32), a.value.ge)
  {
    var sa := ScalarBytes(s);
    if a.None? {
      r := Point(k.scalarMultBase(sa));
    } else {
      r := Point(k.scalarMult(sa, a.value.ge));
    }
  }

  // ---------------------------------------------------------------------
  // Random points with embedded data

  /** Every block of the randomness stream is one 32-byte keystream block. */
  predicate Blocks32(blocks: seq<seq<byte>>)
  {
    forall i :: 0 <= i < |blocks| ==> |blocks[i]| == 32
  }

  /** The buffer one iteration of `Pick` hands to FromBytes. */
  function Candidate(data: Option<seq<byte>>, block: seq<byte>): (b: seq<byte>)
    requires |block| == 32
    ensures |b| == 32
  {
    Embed(PickLen, data, block)
  }

  /** Pick's outcome: the point, the leftover payload and the index of the
      block that decoded; or the stream ran out. */
  datatype PickResult = Picked(p: Point, rest: seq<byte>, used: nat) | Exhausted

  /** `Pick`: try the blocks in turn until FromBytes accepts a candidate.
      The result is the first block that decodes; every earlier one was
      rejected. */
  function Pick(k: Kernel, data: Option<seq<byte>>, blocks: seq<seq<byte>>): (r: PickResult)
    requires Blocks32(blocks)
    ensures r.Exhausted? <==>
              forall i :: 0 <= i < |blocks| ==> k.fromBytes(Candidate(data, blocks[i])).None?
    ensures r.Picked? ==> r.used < |blocks|
    ensures r.Picked? ==> k.fromBytes(Candidate(data, blocks[r.used])) == Some(r.p.ge)
    ensures r.Picked? ==>
              forall i :: 0 <= i < r.used ==> k.fromBytes(Candidate(data, blocks[i])).None?
    ensures r.Picked? ==> r.rest == Leftover(PickLen, data)
    decreases |blocks|
  {
    if |blocks| == 0 then Exhausted
    else
      match k.fromBytes(Candidate(data, blocks[0]))
      case Some(g) => Picked(Point(g), Leftover(PickLen, data), 0)
      case None =>
        match Pick(k, data, blocks[1..])
        case Exhausted => Exhausted
        case Picked(p, rest, used) => Picked(p, rest, used + 1)
  }

  /** `Data`: read the payload back from the point's encoding. */
  function Data(k: Kernel, p: Point): (r: Result<seq<byte>>)
    requires ValidKernel(k)
    ensures r.Err? <==> k.toBytes(p.ge)[0] as int > PickLen
    ensures r.Ok? ==> |r.value| == k.toBytes(p.ge)[0] as int
    ensures r.Ok? ==> forall i :: 0 <= i < |r.value| ==> r.value[i] == k.toBytes(p.ge)[1 + i]
  {
    Extract(PickLen, k.toBytes(p.ge))
  }

  /** Embedding round trip: when ToBytes gives back the buffer FromBytes
      accepted, Data returns exactly the payload bytes Pick embedded, and
      they together with Pick's leftover make up the whole payload. */
  lemma PickThenData(k: Kernel, d: seq<byte>, blocks: seq<seq<byte>>)
    requires ValidKernel(k) && Blocks32(blocks)
    requires Pick(k, Some(d), blocks).Picked?
    requires var r := Pick(k, Some(d), blocks);
             k.toBytes(r.p.ge) == Candidate(Some(d), blocks[r.used])
    ensures var r := Pick(k, Some(d), blocks);
            var dl := EmbedLen(PickLen, Some(d));
            && Data(k, r.p) == Ok(d[..dl])
            && d[..dl] + r.rest == d
  {
    var r := Pick(k, Some(d), blocks);
    EmbedExtract(PickLen, d, blocks[r.used], k.toBytes(r.p.ge));
  }

  // ---------------------------------------------------------------------
  // The base point

  /** What remains of the stream after a successful Pick is shorter and
      still made of 32-byte blocks. */
  lemma PickAdvances(k: Kernel, data: Option<seq<byte>>, blocks: seq<seq<byte>>)
    requires Blocks32(blocks)
    requires Pick(k, data, blocks).Picked?
    ensures var rest := blocks[Pick(k, data, blocks).used + 1..];
            Blocks32(rest) && |rest| < |blocks|
  {
  }

  /** `Base`: the standard base point for a nil stream; otherwise pick
      random points and multiply them by the cofactor until one is not the
      neutral element. The stream is finite here: None when it runs out.
      The cofactor scalar (8 for Ed25519) is defined outside this model and
      comes in as a parameter. */
  method Base(k: Kernel, rand: Option<seq<seq<byte>>>, cofactor: nat) returns (r: Option<Point>)
    requires ValidKernel(k)
    requires rand.Some? ==> Blocks32(rand.value)
    requires cofactor < Pow256(32)
    ensures rand.None? ==> r == Some(Point(k.base))
    ensures rand.Some? && r.Some? ==> k.toBytes(r.value.ge) != k.toBytes(Null(k).ge)
    ensures rand.Some? && r.Some? ==>
              exists g :: r.value.ge == k.scalarMult(ToLE(cofactor, 32), g)
  {
    if rand.None? {
      return Some(Point(k.base));
    }
    var stream := rand.value;
    while |stream| > 0
      invariant Blocks32(stream)
      decreases |stream|
    {
      var picked := Pick(k, None, stream);
      if picked.Exhausted? {
        return None;
      }
      PickAdvances(k, None, stream);
      stream := stream[picked.used + 1..];
      var q := Mul(k, Some(picked.p), cofactor);
      var eq := Equal(k, q, Null(k));
      if !eq {
        return Some(q);
      }
    }
    return None;
  }
}
