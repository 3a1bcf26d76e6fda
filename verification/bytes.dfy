/** Byte buffers as `seq<byte>`: big- and little-endian values, fixed-width
    encodings, byte reversal (curve.go `reverse`) and big.Int.Bytes. */
module Bytes {
  import opened Numeric

  /** Go's `byte`. Bit operations on it are written arithmetically where used. */
  newtype byte = x: int | 0 <= x < 256

  /** Splitting off the low byte of a value below 256^n leaves a value below 256^(n-1). */
  lemma DivBy256(v: nat, n: nat)
    requires n > 0 && v < Pow256(n)
    ensures v == (v / 256) * 256 + v % 256
    ensures v / 256 < Pow256(n - 1)
  {
  }

  /** Value of a big-endian buffer (the first byte is most significant). */
  function BEValue(s: seq<byte>): nat
  {
    if |s| == 0 then 0 else BEValue(s[..|s| - 1]) * 256 + s[|s| - 1] as int
  }

  /** Value of a little-endian buffer (the first byte is least significant). */
  function LEValue(s: seq<byte>): nat
  {
    if |s| == 0 then 0 else s[0] as int + 256 * LEValue(s[1..])
  }

  lemma {:induction false} BEValueBound(s: seq<byte>)
    ensures BEValue(s) < Pow256(|s|)
  {
    if |s| > 0 {
      BEValueBound(s[..|s| - 1]);
    }
  }

  lemma {:induction false} LEValueBound(s: seq<byte>)
    ensures LEValue(s) < Pow256(|s|)
  {
    if |s| > 0 {
      LEValueBound(s[1..]);
    }
  }

  /** The n-byte big-endian encoding of v (ModInt.Encode for a fixed width). */
  function ToBE(v: nat, n: nat): (r: seq<byte>)
    requires v < Pow256(n)
    ensures |r| == n
    ensures BEValue(r) == v
  {
    if n == 0 then []
    else
      DivBy256(v, n);
      var r := ToBE(v / 256, n - 1) + [(v % 256) as byte];
      assert r[..n - 1] == ToBE(v / 256, n - 1);
      r
  }

  /** The n-byte little-endian encoding of v. */
  function ToLE(v: nat, n: nat): (r: seq<byte>)
    requires v < Pow256(n)
    ensures |r| == n
    ensures LEValue(r) == v
  {
    if n == 0 then []
    else
      DivBy256(v, n);
      var r := [(v % 256) as byte] + ToLE(v / 256, n - 1);
      assert r[1..] == ToLE(v / 256, n - 1);
      r
  }

  /** A buffer is the fixed-width big-endian encoding of its own value. */
  lemma {:induction false} ToBEOfValue(s: seq<byte>)
    ensures BEValue(s) < Pow256(|s|)
    ensures ToBE(BEValue(s), |s|) == s
  {
    BEValueBound(s);
    if |s| > 0 {
      var p := s[..|s| - 1];
      ToBEOfValue(p);
      assert BEValue(s) / 256 == BEValue(p);
      assert BEValue(s) % 256 == s[|s| - 1] as int;
      assert s == p + [s[|s| - 1]];
    }
  }

  /** A buffer is the fixed-width little-endian encoding of its own value. */
  lemma {:induction false} ToLEOfValue(s: seq<byte>)
    ensures LEValue(s) < Pow256(|s|)
    ensures ToLE(LEValue(s), |s|) == s
  {
    LEValueBound(s);
    if |s| > 0 {
      ToLEOfValue(s[1..]);
      assert LEValue(s) / 256 == LEValue(s[1..]);
      assert LEValue(s) % 256 == s[0] as int;
      assert s == [s[0]] + s[1..];
    }
  }

  /** Big-endian encodings of equal width are equal exactly when their values are. */
  lemma BEInjective(s: seq<byte>, t: seq<byte>)
    requires |s| == |t|
    ensures BEValue(s) == BEValue(t) <==> s == t
  {
    ToBEOfValue(s);
    ToBEOfValue(t);
  }

  /** Appending zero bytes does not change a little-endian value. */
  lemma {:induction false} LEValueZeroPad(s: seq<byte>, n: nat)
    ensures LEValue(s + seq(n, _ => 0 as byte)) == LEValue(s)
  {
    var z := seq(n, _ => 0 as byte);
    if |s| == 0 {
      LEValueZeros(n);
      assert s + z == z;
    } else {
      LEValueZeroPad(s[1..], n);
      assert (s + z)[1..] == s[1..] + z;
    }
  }

  lemma {:induction false} LEValueZeros(n: nat)
    ensures LEValue(seq(n, _ => 0 as byte)) == 0
  {
    if n > 0 {
      LEValueZeros(n - 1);
      assert seq(n, _ => 0 as byte)[1..] == seq(n - 1, _ => 0 as byte);
    }
  }

  /** Byte reversal: the last byte comes first. */
  function Reverse(s: seq<byte>): (r: seq<byte>)
    ensures |r| == |s|
    ensures forall i :: 0 <= i < |s| ==> r[i] == s[|s| - 1 - i]
  {
    if |s| == 0 then [] else [s[|s| - 1]] + Reverse(s[..|s| - 1])
  }

  /** Reversing twice gives back the original buffer. */
  lemma ReverseReverse(s: seq<byte>)
    ensures Reverse(Reverse(s)) == s
  {
  }

  /** Reversal turns a big-endian buffer into the little-endian buffer of the same value. */
  lemma {:induction false} LEValueOfReverse(s: seq<byte>)
    ensures LEValue(Reverse(s)) == BEValue(s)
  {
    if |s| > 0 {
      var p := s[..|s| - 1];
      LEValueOfReverse(p);
      assert Reverse(s)[1..] == Reverse(p);
    }
  }

  /** `reverse(b, b)`: the in-place branch, swapping the two halves. */
  method ReverseInPlace(b: seq<byte>) returns (r: seq<byte>)
    requires |b| > 0
    ensures |r| == |b|
    ensures forall i :: 0 <= i < |b| ==> r[i] == b[|b| - 1 - i]
  {
    var l := |b|;
    r := b;
    var i := 0;
    while i < l / 2
      invariant 0 <= i <= l / 2
      invariant |r| == l
      invariant forall j :: 0 <= j < i ==> r[j] == b[l - 1 - j] && r[l - 1 - j] == b[j]
      invariant forall j :: i <= j < l - i ==> r[j] == b[j]
    {
      var t := r[i];
      r := r[i := r[l - 1 - i]];
      r := r[l - 1 - i := t];
      i := i + 1;
    }
  }

  /** `reverse(dst, src)` on distinct slices: dst[i] = src[l-1-i]. */
  method ReverseInto(dst: seq<byte>, src: seq<byte>) returns (r: seq<byte>)
    requires |dst| == |src| > 0
    ensures |r| == |src|
    ensures forall i :: 0 <= i < |src| ==> r[i] == src[|src| - 1 - i]
  {
    var l := |dst|;
    r := dst;
    var i := 0;
    while i < l
      invariant 0 <= i <= l
      invariant |r| == l
      invariant forall j :: 0 <= j < i ==> r[j] == src[l - 1 - j]
    {
      r := r[i := src[l - 1 - i]];
      i := i + 1;
    }
  }

  /** big.Int.Bytes: the shortest big-endian encoding of v (empty for 0). */
  function MinimalBE(v: nat): (r: seq<byte>)
    ensures BEValue(r) == v
    ensures v < Pow256(|r|)
    ensures |r| > 0 ==> r[0] != 0 && Pow256(|r| - 1) <= v
  {
    if v == 0 then []
    else
      var r := MinimalBE(v / 256) + [(v % 256) as byte];
      assert r[..|r| - 1] == MinimalBE(v / 256);
      r
  }

  /** Powers of 256 grow strictly: 256^a < 256^b only when a < b. */
  lemma Pow256Below(a: nat, b: nat)
    requires Pow256(a) < Pow256(b)
    ensures a < b
  {
    if b <= a {
      Pow256Monotone(b, a);
    }
  }

  /** The minimal encoding of a value below 256^n needs at most n bytes. */
  lemma MinimalBELength(v: nat, n: nat)
    requires v < Pow256(n)
    ensures |MinimalBE(v)| <= n
  {
    var m := |MinimalBE(v)|;
    if m > 0 {
      Pow256Below(m - 1, n);
    }
  }

  /** The first byte of a big-endian buffer carries weight 256^(n-1). */
  lemma {:induction false} BEValueFront(s: seq<byte>)
    requires |s| > 0
    ensures BEValue(s) == s[0] as int * Pow256(|s| - 1) + BEValue(s[1..])
  {
    if |s| > 1 {
      var n := |s|;
      var p := s[..n - 1];
      var t := s[1..];
      BEValueFront(p);
      assert p[0] == s[0];
      assert t[..|t| - 1] == p[1..];
      assert BEValue(t) == BEValue(p[1..]) * 256 + s[n - 1] as int;
      FrontStep(s[0] as int, Pow256(n - 2), BEValue(p[1..]), s[n - 1] as int);
    }
  }

  lemma FrontStep(a: int, w: int, v: int, l: int)
    ensures (a * w + v) * 256 + l == a * (256 * w) + (v * 256 + l)
  {
  }

  /** A big-endian value below m * 256^(n-1) has a first byte below m. */
  lemma BEFirstByteBound(s: seq<byte>, m: nat)
    requires |s| > 0
    requires BEValue(s) < m * Pow256(|s| - 1)
    ensures (s[0] as int) < m
  {
    BEValueFront(s);
    if s[0] as int >= m {
      MulMonotone(m, s[0] as int, Pow256(|s| - 1));
    }
  }

  /** A big-endian value is below (first byte + 1) * 256^(n-1). */
  lemma BEValueBelowFront(s: seq<byte>)
    requires |s| > 0
    ensures BEValue(s) < (s[0] as int + 1) * Pow256(|s| - 1)
  {
    BEValueFront(s);
    BEValueBound(s[1..]);
    BelowNext(s[0] as int, Pow256(|s| - 1), BEValue(s[1..]));
  }

  /** A big-endian buffer whose first byte is below 2^k is below
      2^(k + 8(n-1)). */
  lemma TopByteBound(s: seq<byte>, k: nat)
    requires |s| > 0 && (s[0] as int) < Pow2(k)
    ensures BEValue(s) < Pow2(k + 8 * (|s| - 1))
  {
    var n := |s|;
    BEValueBelowFront(s);
    Pow256IsPow2(n - 1);
    MulMonotone(s[0] as int + 1, Pow2(k), Pow256(n - 1));
    Pow2Add(k, 8 * (n - 1));
  }

  lemma BelowNext(a: int, w: int, v: int)
    requires v < w
    ensures a * w + v < (a + 1) * w
  {
  }

  lemma MulMonotone(a: nat, b: nat, c: nat)
    requires a <= b
    ensures a * c <= b * c
  {
  }

  /** Reversal exchanges the fixed-width big- and little-endian encodings. */
  lemma ReverseToBE(v: nat, n: nat)
    requires v < Pow256(n)
    ensures Reverse(ToBE(v, n)) == ToLE(v, n)
  {
    var s := Reverse(ToBE(v, n));
    LEValueOfReverse(ToBE(v, n));
    ToLEOfValue(s);
  }

  // ---------------------------------------------------------------------
  // Go's bit operations on a byte, written arithmetically

  /** `b >> 7`: bit 7 of b. */
  function TopBit(b: byte): (r: nat)
    ensures r <= 1
    ensures r == 1 <==> b >= 128
  {
    b as int / 128
  }

  /** `b &^ 0x80`: b with bit 7 cleared. */
  function ClearTopBit(b: byte): (r: byte)
    ensures r < 128
    ensures b as int == 128 * TopBit(b) + r as int
  {
    b % 128
  }

  /** `b | 0x80`: b with bit 7 set. */
  function SetTopBit(b: byte): (r: byte)
    ensures TopBit(r) == 1 && ClearTopBit(r) == ClearTopBit(b)
  {
    b % 128 + 128
  }

  /** `b &^ (0xff << k)` for k < 8: only the k low bits of b remain. */
  function KeepLowBits(b: byte, k: nat): (r: byte)
    requires k < 8
    ensures (r as int) < Pow2(k)
    ensures (b as int - r as int) % Pow2(k) == 0
    ensures k == 0 ==> r == 0
  {
    LowPart(b as int, Pow2(k));
    (b as int % Pow2(k)) as byte
  }

  /** v % m is v less a multiple of m, and no larger than v. */
  lemma LowPart(v: nat, m: nat)
    requires m > 0
    ensures v % m <= v && (v - v % m) % m == 0
  {
    ModUnique(v - v % m, m, v / m, 0);
  }

  /** Go's `byte(n)`: the low 8 bits of a non-negative int. */
  function Truncate(n: nat): (r: byte)
    ensures (n - r as int) % 256 == 0
    ensures n < 256 ==> r as int == n
  {
    LowPart(n, 256);
    (n % 256) as byte
  }
}
