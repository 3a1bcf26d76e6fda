/** Integers modulo a prime P, the model of crypto.ModInt. A residue is an
    int reduced into [0, P); `%` is Dafny's Euclidean remainder, which for a
    positive modulus agrees with big.Int.Mod. Modular inversion and square
    roots are external primitives, supplied as function values and
    constrained by `ValidField`. */
module ModArith {
  import opened Wrappers
  import opened Numeric

  /** The modular-integer capability: the modulus with its inversion and
      square-root primitives (ModInt.Div's ModInverse and ModInt.Sqrt). */
  datatype Field = Field(p: nat, inv: nat -> nat, sqrt: nat -> Option<nat>)

  /** ModInt.Mul of x by itself, reduced. */
  function Square(f: Field, x: int): nat
    requires f.p > 0
  {
    (x * x) % f.p
  }

  /** v is a quadratic residue (or zero) modulo p. */
  ghost predicate IsSquare(f: Field, v: nat)
    requires f.p > 0
  {
    exists r: nat :: r < f.p && Square(f, r) == v
  }

  /** The primitives behave as in a prime field of odd characteristic:
      every nonzero residue has an inverse (which makes p prime), and the
      square root returns a root exactly when one exists. */
  ghost predicate ValidField(f: Field)
  {
    && f.p > 2
    && f.p % 2 == 1
    && (forall v: nat :: 0 < v < f.p ==> f.inv(v) < f.p && (v * f.inv(v)) % f.p == 1)
    && (forall v: nat :: v < f.p ==>
          match f.sqrt(v)
          case Some(r) => r < f.p && Square(f, r) == v
          case None => !IsSquare(f, v))
  }

  /** ModInt.Neg: the additive inverse, reduced. */
  function Neg(f: Field, x: nat): (r: nat)
    requires 0 < f.p
    ensures r < f.p
    ensures (x + r) % f.p == 0
  {
    NegCancels(x, f.p);
    if x % f.p == 0 then 0 else f.p - x % f.p
  }

  lemma NegCancels(x: nat, p: nat)
    requires p > 0
    ensures x % p != 0 ==> (x + (p - x % p)) % p == 0
  {
    if x % p != 0 {
      ModUnique(x + (p - x % p), p, x / p + 1, 0);
    }
  }

  /** On a residue, negation is p - x, or 0 for 0. */
  lemma NegOfResidue(f: Field, x: nat)
    requires 0 < f.p
    requires x < f.p
    ensures Neg(f, x) == if x == 0 then 0 else f.p - x
  {
    ModUnique(x, f.p, 0, x);
  }

  // ---------------------------------------------------------------------
  // Congruence toolkit

  lemma ModAddMultiple(u: int, k: int, p: int)
    requires p > 0
    ensures (u + k * p) % p == u % p
  {
    ModUnique(u + k * p, p, u / p + k, u % p);
  }

  lemma ModMulLeft(u: int, v: int, p: int)
    requires p > 0
    ensures (u * v) % p == ((u % p) * v) % p
  {
    var q, r := u / p, u % p;
    assert u == q * p + r;
    assert u * v == r * v + (q * v) * p by {
      assert u * v == (q * p + r) * v;
      assert (q * p + r) * v == q * p * v + r * v;
    }
    ModAddMultiple(r * v, q * v, p);
  }

  lemma ModMul(u: int, v: int, p: int)
    requires p > 0
    ensures (u * v) % p == ((u % p) * (v % p)) % p
  {
    ModMulLeft(u, v, p);
    ModMulLeft(v, u % p, p);
    assert v * (u % p) == (u % p) * v;
    assert (v % p) * (u % p) == (u % p) * (v % p);
  }

  lemma ModAdd(u: int, v: int, p: int)
    requires p > 0
    ensures (u + v) % p == ((u % p) + (v % p)) % p
  {
    var qu, ru, qv, rv := u / p, u % p, v / p, v % p;
    assert u == qu * p + ru && v == qv * p + rv;
    assert u + v == (ru + rv) + (qu + qv) * p;
    ModAddMultiple(ru + rv, qu + qv, p);
  }

  lemma ModSub(u: int, v: int, p: int)
    requires p > 0
    ensures (u - v) % p == ((u % p) - (v % p)) % p
  {
    var qu, ru, qv, rv := u / p, u % p, v / p, v % p;
    assert u == qu * p + ru && v == qv * p + rv;
    assert u - v == (ru - rv) + (qu - qv) * p;
    ModAddMultiple(ru - rv, qu - qv, p);
  }

  /** Congruence modulo p. */
  predicate Cong(u: int, v: int, p: int)
    requires p > 0
  {
    u % p == v % p
  }

  lemma CongMul(u1: int, v1: int, u2: int, v2: int, p: int)
    requires p > 0
    requires Cong(u1, v1, p) && Cong(u2, v2, p)
    ensures Cong(u1 * u2, v1 * v2, p)
  {
    ModMul(u1, u2, p);
    ModMul(v1, v2, p);
  }

  lemma CongAdd(u1: int, v1: int, u2: int, v2: int, p: int)
    requires p > 0
    requires Cong(u1, v1, p) && Cong(u2, v2, p)
    ensures Cong(u1 + u2, v1 + v2, p)
  {
    ModAdd(u1, u2, p);
    ModAdd(v1, v2, p);
  }

  lemma CongSub(u1: int, v1: int, u2: int, v2: int, p: int)
    requires p > 0
    requires Cong(u1, v1, p) && Cong(u2, v2, p)
    ensures Cong(u1 - u2, v1 - v2, p)
  {
    ModSub(u1, u2, p);
    ModSub(v1, v2, p);
  }

  lemma CongMod(u: int, p: int)
    requires p > 0
    ensures Cong(u % p, u, p)
  {
    ModUnique(u % p, p, 0, u % p);
  }

  // ---------------------------------------------------------------------
  // Field facts that follow from ValidField

  /** A nonzero residue times its inverse is 1, stated as a congruence. */
  lemma InvCancel(f: Field, u: int, v: nat)
    requires ValidField(f)
    requires 0 < v < f.p
    ensures Cong(u * v * f.inv(v), u, f.p)
  {
    var w := f.inv(v);
    assert (v * w) % f.p == 1;
    CongMod(v * w, f.p);
    CongMul(u, u, v * w, 1, f.p);
    assert u * v * w == u * (v * w);
  }

  /** No zero divisors: a product is 0 mod p only if a factor is. */
  lemma NoZeroDivisors(f: Field, u: int, v: int)
    requires ValidField(f)
    requires (u * v) % f.p == 0
    ensures u % f.p == 0 || v % f.p == 0
  {
    var p := f.p;
    if u % p != 0 {
      var w := f.inv(u % p);
      CongMod(u, p);
      // v == v * (u%p) * w == (u * v) * w == 0
      InvCancel(f, v, u % p);
      CongMul(v * (u % p), v * u, w, w, p) by {
        CongMul(v, v, u % p, u, p);
      }
      assert v * u == u * v;
      CongMul(u * v, 0, w, w, p);
    }
  }

  /** Two residues with the same square are equal or opposite. */
  lemma SquareRoots(f: Field, x: nat, z: nat)
    requires ValidField(f)
    requires x < f.p && z < f.p
    requires Square(f, x) == Square(f, z)
    ensures z == x || z == Neg(f, x)
  {
    var p := f.p;
    NegOfResidue(f, x);
    DifferenceOfSquares(x, z, p);
    NoZeroDivisors(f, z - x, z + x);
    if z - x >= 0 {
      ModUnique(z - x, p, 0, z - x);
    } else {
      ModUnique(z - x, p, -1, z - x + p);
    }
    if z + x >= p {
      ModUnique(z + x, p, 1, z + x - p);
    } else {
      ModUnique(z + x, p, 0, z + x);
    }
  }

  lemma DifferenceOfSquares(x: int, z: int, p: int)
    requires p > 0
    requires (x * x) % p == (z * z) % p
    ensures ((z - x) * (z + x)) % p == 0
  {
    assert (z - x) * (z + x) == z * z - x * x;
    ModSub(z * z, x * x, p);
  }

  /** Only zero squares to zero. */
  lemma SquareZero(f: Field, x: nat)
    requires ValidField(f)
    requires x < f.p
    requires Square(f, x) == 0
    ensures x == 0
  {
    NoZeroDivisors(f, x, x);
    ModUnique(x, f.p, 0, x);
  }

  /** Negation flips the parity of a nonzero residue (p is odd). */
  lemma NegFlipsParity(f: Field, x: nat)
    requires ValidField(f)
    requires 0 < x < f.p
    ensures Neg(f, x) % 2 != x % 2
  {
    NegOfResidue(f, x);
  }

  /** Negation preserves the square. */
  lemma SquareNeg(f: Field, x: nat)
    requires ValidField(f)
    requires x < f.p
    ensures Square(f, Neg(f, x)) == Square(f, x)
  {
    var p := f.p;
    NegOfResidue(f, x);
    if x > 0 {
      assert (p - x) * (p - x) == x * x + (p - 2 * x) * p;
      ModAddMultiple(x * x, p - 2 * x, p);
    }
  }

  /** Congruence is divisibility of the difference. */
  lemma CongIffDiff(u: int, v: int, p: int)
    requires p > 0
    ensures Cong(u, v, p) <==> (u - v) % p == 0
  {
    ModSub(u, v, p);
    var d := u % p - v % p;
    if d >= 0 {
      ModUnique(d, p, 0, d);
    } else {
      ModUnique(d, p, -1, d + p);
    }
  }

  /** Multiplying by a nonzero residue can be undone with its inverse:
      X*D == N exactly when X == N/D. */
  lemma DivideCong(f: Field, x: int, n: int, d: nat)
    requires ValidField(f)
    requires 0 < d < f.p
    ensures Cong(x * d, n, f.p) <==> Cong(x, n * f.inv(d), f.p)
  {
    var p, w := f.p, f.inv(d);
    InvCancel(f, x, d);
    InvCancel(f, n, d);
    assert n * w * d == n * d * w;
    if Cong(x * d, n, p) {
      CongMul(x * d, n, w, w, p);
    }
    if Cong(x, n * w, p) {
      CongMul(x, n * w, d, d, p);
    }
  }

  /** Multiplying by u^2 and by the square of u's inverse cancels. */
  lemma InvSquareCancel(f: Field, d: int, u: nat)
    requires ValidField(f)
    requires 0 < u < f.p
    ensures Cong(d * (u * u) * (f.inv(u) * f.inv(u)), d, f.p)
  {
    var w := f.inv(u);
    InvCancel(f, d, u);
    InvCancel(f, d * u * w, u);
    Regroup(d, u, w);
  }

  lemma Regroup(d: int, u: int, w: int)
    ensures d * u * w * u * w == d * (u * u) * (w * w)
  {
  }

  /** The square of (s mod p) agrees with s^2. */
  lemma SquareOfResidue(f: Field, s: int)
    requires f.p > 0
    ensures Cong(Square(f, s % f.p), s * s, f.p)
  {
    var r := s % f.p;
    CongMod(s, f.p);
    CongMul(r, s, r, s, f.p);
    CongMod(r * r, f.p);
  }

  lemma QuotientChain(a: int, d: int, uu: int, ww: int, ss: int, p: int)
    requires p > 0
    requires Cong(d * uu * ww, d, p)
    requires Cong(a, d * uu, p)
    requires Cong(a, ss, p)
    ensures Cong(d, ss * ww, p)
  {
    CongMul(d * uu, a, ww, ww, p);
    CongMul(a, ss, ww, ww, p);
  }

  /** With d == a * w^2 and a == s^2, d is the square of s*w. */
  lemma SquareQuotientRoot(a: int, d: int, uu: int, w: int, s: int, p: int)
    requires p > 0
    requires Cong(d * uu * (w * w), d, p)
    requires Cong(a, d * uu, p)
    requires Cong(a, s * s, p)
    ensures ((s * w) % p * ((s * w) % p)) % p == d % p
  {
    QuotientChain(a, d, uu, w * w, s * s, p);
    assert s * s * (w * w) == (s * w) * (s * w);
    var r := (s * w) % p;
    CongMod(s * w, p);
    CongMul(r, s * w, r, s * w, p);
    ModOfResidue(r * r, p);
  }

  /** If a == d * u^2 for a nonzero u and a is a square, then so is d. */
  lemma SquareQuotient(f: Field, a: int, d: int, u: nat)
    requires ValidField(f)
    requires 0 < u < f.p
    requires Cong(a, d * (u * u), f.p)
    requires IsSquare(f, a % f.p)
    ensures IsSquare(f, d % f.p)
  {
    var p, w := f.p, f.inv(u);
    var s: nat :| s < p && Square(f, s) == a % p;
    InvSquareCancel(f, d, u);
    CongMod(s * s, p);
    CongMod(a, p);
    SquareQuotientRoot(a, d, u * u, w, s, p);
    var r := (s * w) % p;
    assert Square(f, r) == d % p;
  }

  lemma ModOfResidue(v: int, p: int)
    requires p > 0
    ensures (v % p) % p == v % p
  {
    ModUnique(v % p, p, 0, v % p);
  }
}
