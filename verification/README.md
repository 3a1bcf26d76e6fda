# Twisted Edwards point encoding and Ed25519 point wrapper

A Dafny model of the byte-level and modular-arithmetic core of the
`crypto/edwards` package: the generic twisted Edwards engine
(`crypto/edwards/curve.go`) and the Ed25519 point type
(`crypto/edwards/ed25519/point.go`).

The generic engine works over integers modulo a prime P. A curve is the set
of points (x, y) with a*x^2 + y^2 = 1 + d*x^2*y^2. Its parts are modelled as
follows.

- **Lengths.** The secret, point and payload lengths are derived from the
  bit lengths of P and of the group order R.
- **Compression.** A point is compressed as y in little-endian order, with
  the parity of x in bit 7 of the last byte.
- **Decompression.** x is recovered by taking a square root of
  (1 - y^2)/(a - d*y^2).
- **Random points.** A random point can carry an embedded payload. Byte 0
  of the little-endian candidate holds the payload length, the payload
  follows, and the remaining bytes come from the random stream.
- **Data extraction.** `data` reads the payload back from a point's
  encoding.

The Ed25519 point type wraps ref10 field and group code. That code enters
the model as a `Kernel`: a record of functions for FromBytes, ToBytes, Zero,
the base point and scalar multiplication. The point type's own logic is
modelled on top of it:

- the fixed lengths;
- the payload embedding of `Pick`;
- the length check of `Data`;
- the byte-wise `Equal`;
- the scalar conversion of `Mul`;
- `Base`, `Null` and `Set`.

Modules:

- Wrappers: `Option` and `Result`.
- Numeric:
  - powers of 2 and of 256;
  - `BitLen`, which matches big.Int.BitLen;
  - `GoQuo`, Go's truncating integer division.
- Bytes:
  - big- and little-endian values of byte strings;
  - fixed-width encodings and the minimal big-endian encoding, which matches big.Int.Bytes;
  - `reverse`;
  - Go's bit operations on a byte, written arithmetically.
- ModArith:
  - a prime field given by its modulus and its abstract inverse and square-root primitives;
  - the validity predicate for those primitives;
  - congruence lemmas.
- Embedding: the payload layout, which `curve.go` and `point.go` share.
- Edwards: the generic engine of `curve.go`.
- CanonicalDecoding:
  - three kinds of buffer that `decodePoint` accepts but `encodePoint` never produces: a set sign bit with x == 0, a y at or above P, and a buffer of the wrong length;
  - a corrected decoder that checks the length, y < P and the sign of x == 0, proved canonical;
  - a small complete curve over the integers modulo 5, which shows that the validity assumptions can be met.
- Ed25519: the point type of `point.go`.

Abstract parameters are used in three places:

- **ModInt's inverse and square root** are fields of `ModArith.Field`.
  `ValidField` is what the model assumes of them:
  - the inverse inverts every nonzero residue;
  - the square root returns a root exactly when one exists.
- **`ValidCurve` adds completeness.** `a` is a nonzero square and `d` is a
  non-square, as for Ed25519. This keeps a - d*y^2 nonzero for every y.
  The round trips for a given on-curve point need less: distinct reduced
  coefficients a != d, which keep a - d*y^2 nonzero at every point on the
  curve.
- **The random stream** is a given sequence of blocks.

## Model

| member | source | states |
|---|---|---|
| Bytes.Reverse | crypto/edwards/curve.go:19-36 | reversal keeps the length and puts src[l-1-i] at index i |
| Bytes.ReverseReverse | crypto/edwards/curve.go:19-36 | reversing twice gives back the original buffer |
| Bytes.ReverseInPlace | crypto/edwards/curve.go:24-29 | the in-place swap loop leaves r[i] == b[l-1-i] at every index |
| Bytes.ReverseInto | crypto/edwards/curve.go:30-34 | the copying loop leaves dst[i] == src[l-1-i] at every index |
| Bytes.LEValueOfReverse | crypto/edwards/curve.go:111-112 | a reversed big-endian buffer is the little-endian buffer of the same number |
| Bytes.MinimalBE | crypto/edwards/ed25519/point.go:189 | the big.Int.Bytes encoding has value v and no leading zero byte, and 256^(len-1) <= v < 256^len |
| Bytes.TopBit | crypto/edwards/curve.go:124 | `b >> 7` is 1 exactly when b >= 128, and 0 otherwise |
| Bytes.ClearTopBit | crypto/edwards/curve.go:125 | `b &^ 0x80` is below 128 and b is 128 * (bit 7 of b) plus it, so the low seven bits are kept |
| Bytes.SetTopBit | crypto/edwards/curve.go:108 | setting bit 7 (`b OR 0x80`) gives a byte with bit 7 set and the same low seven bits as b |
| Bytes.KeepLowBits | crypto/edwards/curve.go:210 | clearing the bits from k up leaves a byte below 2^k that differs from b by a multiple of 2^k, i.e. b's k low bits |
| Bytes.Truncate | crypto/edwards/curve.go:204 | `byte(dl)` is below 256 and differs from dl by a multiple of 256, so it is dl itself when dl < 256 |
| Numeric.GoQuo | crypto/edwards/curve.go:181 | Go's `/` rounds toward zero for negative dividends as well as positive ones |
| Edwards.Init | crypto/edwards/curve.go:66-81 | a, d and the cofactor become residues congruent to A, D and S modulo P |
| Edwards.SecretLenIsCeiling | crypto/edwards/curve.go:49-51 | SecretLen is the fewest bytes holding bitlen(R) bits, so R < 256^SecretLen |
| Edwards.PointLenShape | crypto/edwards/curve.go:61-63 | PointLen is the ceiling of (bitlen(P)+1)/8, one byte more than the coordinate width exactly when bitlen(P) % 8 == 0 |
| Edwards.CoordinateRoom | crypto/edwards/curve.go:99-109 | every residue fits the coordinate width and leaves bit 7 of the top point byte free for the sign |
| Edwards.PickLenFits | crypto/edwards/curve.go:177-182 | 1 + pickLen < PointLen; pickLen >= 0 exactly when bitlen(P) >= 9; for bitlen(P) >= 16 it is floor((bitlen(P)-16)/8) |
| Edwards.OnCurveIsCurveEq | crypto/edwards/curve.go:164-174 | the step-by-step reduced evaluation holds exactly when a*x^2 + y^2 = 1 + d*x^2*y^2 modulo P |
| Edwards.CompleteDenominator | crypto/edwards/curve.go:154-155 | on a complete curve the divisor a - d*y^2 is never zero |
| Edwards.SolveForXOnCurve | crypto/edwards/curve.go:149-157 | when a - d*y^2 != 0, a root that solveForX finds is reduced and puts (x, y) on the curve; at a zero divisor the source divides by zero and the root need not be on the curve |
| Edwards.SolveForXComplete | crypto/edwards/curve.go:149-157 | when a - d*y^2 != 0, if some reduced x puts (x, y) on the curve, solveForX succeeds with x or -x |
| Edwards.NegOnCurve | crypto/edwards/curve.go:220-222 | negating x keeps the point on the curve |
| Edwards.EncodeBuffer | crypto/edwards/curve.go:99-106 | y.Encode() with the optional zero byte in front is the PointLen-byte big-endian form of y, with its top bit clear |
| Edwards.EncodePoint | crypto/edwards/curve.go:96-114 | PointLen bytes; bit 7 of the last byte is the parity of x; the other bits are y in little-endian order |
| Edwards.DecodePoint | crypto/edwards/curve.go:117-139 | fails exactly when solveForX fails on the little-endian value of the buffer without its sign bit, which is the returned y |
| Edwards.DecodePointValid | crypto/edwards/curve.go:117-139 | the decoded x is reduced, has the parity of the sign bit unless it is 0, and is on the curve when a - d*y^2 != 0 |
| Edwards.DecodeEncode | crypto/edwards/curve.go:96-139 | on any curve with distinct reduced coefficients a != d, decoding the encoding of a reduced on-curve point returns that point |
| Edwards.OnCurveDenominator | crypto/edwards/curve.go:149-157 | at a point on the curve the divisor a - d*y^2 is nonzero whenever a != d, complete curve or not |
| Edwards.Candidate | crypto/edwards/curve.go:200-206 | the candidate buffer has PointLen bytes |
| Edwards.CandidateY | crypto/edwards/curve.go:207-210 | the reversed candidate with its top byte cut to the bitlen(P) % 8 low bits: every other byte unchanged, the top byte below 2^(bitlen(P) % 8) and congruent to the original modulo that power |
| Edwards.CandidateYBound | crypto/edwards/curve.go:207-213 | the y read from the candidate is below 2^bitlen(P) |
| Edwards.PickAttempt | crypto/edwards/curve.go:187-229 | one iteration retries exactly when solveForX fails on the reduced candidate y; on success it returns that y and data[dl:] |
| Edwards.PickNeverPanics | crypto/edwards/curve.go:215-225 | on a complete curve the panic never fires; the point is reduced, on the curve, and x has the saved sign unless x == 0 |
| Edwards.PickedEncoding | crypto/edwards/curve.go:200-213 | when the candidate's y is below P (so SetBytes does not reduce it), the encoding of a picked point reproduces every candidate byte below the top one |
| Edwards.Data | crypto/edwards/curve.go:246-253 | fails exactly when byte 0 of the encoding exceeds pickLen; otherwise returns the byte-0 count of bytes that follow it |
| Edwards.PickThenData | crypto/edwards/curve.go:187-253 | data of a picked point returns exactly the embedded data[:dl], and data[:dl] followed by the returned leftover is the whole payload |
| Embedding.EmbedLen | crypto/edwards/curve.go:190-194 | dl is min(pickLen, len(data)), and 0 for nil data |
| Embedding.Leftover | crypto/edwards/curve.go:227 | the leftover is the payload after its first dl bytes; nil stays empty |
| Embedding.Embed | crypto/edwards/curve.go:200-206 | the candidate has byte(dl) at index 0, data[i-1] at 1 <= i <= dl, and the stream everywhere else; nil data leaves the stream untouched |
| Embedding.Extract | crypto/edwards/curve.go:248-252 | fails exactly when the length byte exceeds pickLen; otherwise returns that many bytes from index 1 |
| Embedding.EmbedExtract | crypto/edwards/curve.go:203-252 | when pickLen < 256 (so `byte(dl)` does not wrap), extraction from any buffer agreeing with the candidate up to index pickLen returns data[:dl], and data[:dl] + leftover == data |
| CanonicalDecoding.NeutralDecodes | crypto/edwards/curve.go:96-139 | the encoding of (0, 1) carries y = 1 and decodes back to (0, 1) |
| CanonicalDecoding.DecodeZeroIgnoresSign | crypto/edwards/curve.go:131-136 | when the root is 0 the sign bit is ignored: both signs decode to x == 0 |
| CanonicalDecoding.DecodeAcceptsSignedZero | crypto/edwards/curve.go:117-139 | the encoding of (0, 1) with its sign bit set differs from the encoding but also decodes to (0, 1) |
| CanonicalDecoding.DecodeAcceptsLongerBuffer | crypto/edwards/curve.go:117-139 | the encoding of a point with even x followed by a zero byte is not PointLen bytes long, yet decodes to the same point |
| CanonicalDecoding.DecodeAcceptsUnreducedY | crypto/edwards/curve.go:117-139 | the little-endian encoding of P + 1 decodes to the unreduced point (0, P + 1) |
| CanonicalDecoding.DecodeStrictEncode | crypto/edwards/curve.go:96-139 | on any curve with a != d, the corrected decoder accepts the encoding of every reduced on-curve point and returns that point |
| CanonicalDecoding.DecodeStrictCanonical | crypto/edwards/curve.go:117-139 | whatever the corrected decoder accepts is a reduced on-curve point whose encoding is the input itself |
| CanonicalDecoding.ToyCurveIsValid | crypto/edwards/curve.go:66-81 | the curve x^2 + y^2 = 1 + 2x^2y^2 over the integers modulo 5 meets every validity assumption |
| Ed25519.LengthsAgree | crypto/edwards/ed25519/point.go:102-107 | for a 255-bit modulus and a 253-bit order, the generic formulas give 32, 32 and 29, and 1 + 29 < 32 |
| Ed25519.Set | crypto/edwards/ed25519/point.go:74-77 | the result holds P2's group element |
| Ed25519.Null | crypto/edwards/ed25519/point.go:80-83 | the result holds the kernel's zero element |
| Ed25519.Equal | crypto/edwards/ed25519/point.go:58-71 | true exactly when the two 32-byte encodings are equal, so it is reflexive and symmetric |
| Ed25519.ScalarBytes | crypto/edwards/ed25519/point.go:188-194 | the 32-byte array is the little-endian form of V, zero beyond len(V.Bytes()), and all zero for V == 0 |
| Ed25519.Widen | crypto/edwards/ed25519/point.go:190-194 | the copy loop turns big-endian sb into the n-byte little-endian form of its value, zero-padded |
| Ed25519.PaddedReverse | crypto/edwards/ed25519/point.go:191-194 | sb reversed followed by zeros is the fixed-width little-endian form of sb's value |
| Ed25519.Mul | crypto/edwards/ed25519/point.go:186-204 | the kernel's base or general scalar multiplication receives the 32-byte little-endian scalar |
| Ed25519.Candidate | crypto/edwards/ed25519/point.go:119-124 | the buffer handed to FromBytes is 32 bytes laid out as Embedding.Embed with pickLen 29 |
| Ed25519.Pick | crypto/edwards/ed25519/point.go:109-130 | the result is the first block whose candidate FromBytes accepts, with the leftover data[dl:]; it is Exhausted exactly when every candidate is rejected |
| Ed25519.Data | crypto/edwards/ed25519/point.go:133-141 | fails exactly when byte 0 of ToBytes exceeds 29; otherwise returns the byte-0 count of bytes that follow it |
| Ed25519.PickThenData | crypto/edwards/ed25519/point.go:109-141 | when ToBytes returns the accepted buffer, Data returns exactly the embedded data[:dl], and data[:dl] followed by the leftover is the whole payload |
| Ed25519.Base | crypto/edwards/ed25519/point.go:86-100 | a nil stream gives the base point; otherwise the result is a cofactor multiple of a picked point and does not encode like the neutral element |

## Left out

- Group law: `Add`, `Sub`, `Neg` and the correctness of scalar multiplication (crypto/edwards/ed25519/point.go:143-204). They run inside the ref10 kernel, which is not part of this model. The kernel enters only as the abstract functions of `Ed25519.Kernel`.
- The vartime versus constant-time behaviour of `Mul`. It is not a functional property.
- `Encode`, `Decode` and `String` of the Ed25519 point, and `pointString` of the engine. They are formatting, or direct calls into the kernel.
- `Secret` constructors of both curves. They only allocate a ModInt.
- The `suite` type of point.go. SHA-256 and AES-128-CTR are foreign primitives.
- The generic `pickBase` (curve.go:231-242). It only calls `Pick`, `Mul` and `Equal` of a concrete point type. The Ed25519 form of the same loop is modelled as `Ed25519.Base`.
- ModInt internals: the square-root algorithm, division by zero, and big.Int arithmetic. Inversion and square root are abstract functions with the contract `ValidField`.
- Reduction in ModInt.SetBytes is assumed: `pickPoint` reads y modulo P.
- `decodePoint` stores y through `y.V.SetBytes`, which does not reduce. The model keeps that value unreduced.
- Mutation of receivers and out-parameters. Every operation returns its result instead.
- Retry loops and the random stream. The stream is a finite sequence of blocks rather than an unbounded `cipher.Stream`, so `Pick` and `Base` can run out: they then return `Exhausted` or `None`. Termination of the source's retry loops is probabilistic and is not modelled.
- Edwards.PickAttempt: models one iteration of `pickPoint`, not the loop.
- The cofactor and the point `pzero` are package variables defined outside point.go. `Base` takes the cofactor as a parameter and compares against `Null`.
- Ed25519.Base: does not state which picked point was used. It states only that the result is a cofactor multiple of some group element and does not encode like the neutral element.
- Ed25519.LengthsAgree: takes bitlen(P) == 255 and bitlen(R) == 253 as hypotheses instead of evaluating them on the Ed25519 constants.
- Edwards.PickNeverPanics: the saved sign is promised only for x != 0. For x == 0 the source's negation leaves x = 0, so no sign can be chosen.
- Edwards.PickThenData: needs pickLen < 256 and the random high bits to leave y below P. Otherwise `byte(dl)` wraps, or SetBytes reduces y and changes the payload bytes.
- Ed25519.PickThenData: needs ToBytes to give back the buffer FromBytes accepted. The kernel's round trip is not part of this model.
- Bytes.ReverseInPlace: requires a non-empty buffer, because `&dst[0]` panics in Go on an empty slice. The same holds for `Bytes.ReverseInto` and `Edwards.DecodePoint`.
- Edwards.Candidate: requires pickLen >= 0. For a modulus of 8 bits or fewer, pickLen and so dl are negative. With non-nil data the source then panics at `b[1:1+dl]` (curve.go:205). With nil data that copy is skipped, and the panic comes at `data[dl:]` (curve.go:227) once a point is found.

## Findings

| source | as written | input that shows it | evidently intended | confidence | as-written member | corrected member |
|---|---|---|---|---|---|---|
| crypto/edwards/curve.go:117-139 | `decodePoint` accepts a set sign bit when the root is x == 0 and returns x = 0. | The encoding of (0, 1) with bit 7 of its last byte set decodes to (0, 1), so the neutral point has two accepted encodings. | Reject a set sign bit on x == 0, as section 5.1.3 of RFC 8032 does. Only `encodePoint`'s own output is then accepted. | not executed | CanonicalDecoding.DecodeAcceptsSignedZero | CanonicalDecoding.DecodeStrictCanonical |
| crypto/edwards/curve.go:128 | `y.V.SetBytes` takes y unreduced, and nothing checks y < P. | The little-endian encoding of P + 1 (whenever it fits below the sign bit) decodes to (0, P + 1), which is outside the residues. | Reject y >= P, as section 5.1.3 of RFC 8032 does. | not executed | CanonicalDecoding.DecodeAcceptsUnreducedY | CanonicalDecoding.DecodeStrictCanonical |
| crypto/edwards/curve.go:117-121 | `decodePoint` never checks that the buffer is PointLen bytes long. | The encoding of a point with even x followed by one zero byte decodes to the same point. | Reject any buffer that is not PointLen bytes, as a fixed-width format does. | not executed | CanonicalDecoding.DecodeAcceptsLongerBuffer | CanonicalDecoding.DecodeStrictCanonical |
