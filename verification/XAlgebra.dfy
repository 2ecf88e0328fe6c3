/** The polynomial identities behind the x-only formulas of a Montgomery curve
    y^2 = x^3 + 486662 x^2 + x, over the integers modulo any p. */
module XAlgebra {
  import opened Modular

  const A: int := 486662

  // Projective doubling and differential addition, as integer polynomials.

  function DoubleX(x: int, z: int): int {
    (x * x - z * z) * (x * x - z * z)
  }

  function DoubleZ(x: int, z: int): int {
    4 * (x * z) * (x * x + A * (x * z) + z * z)
  }

  function DiffX(x0: int, z0: int, x1: int, z1: int): int {
    4 * ((x0 * x1 - z0 * z1) * (x0 * x1 - z0 * z1))
  }

  function DiffZ(u: int, x0: int, z0: int, x1: int, z1: int): int {
    u * (4 * ((x0 * z1 - z0 * x1) * (x0 * z1 - z0 * x1)))
  }

  /** The register schedule's products, expanded. */
  lemma DoubleSchedule(x: int, z: int)
    ensures ((x + z) * (x + z)) * ((x - z) * (x - z)) == DoubleX(x, z)
    ensures ((x + z) * (x + z) - (x - z) * (x - z)) *
            ((x + z) * (x + z) + ((x + z) * (x + z) - (x - z) * (x - z)) * 121665) == DoubleZ(x, z)
  {
    var s, t, m := x * x, z * z, x * z;
    assert (x + z) * (x + z) == s + 2 * m + t;
    assert (x - z) * (x - z) == s - 2 * m + t;
    assert (s + 2 * m + t) * (s - 2 * m + t) == (s - t) * (s - t) by {
      assert m * m == s * t;
      assert (s + t + 2 * m) * (s + t - 2 * m) == (s + t) * (s + t) - 4 * (m * m);
    }
    assert (s + 2 * m + t) + (4 * m) * 121665 == s + A * m + t;
  }

  lemma DiffSchedule(x0: int, z0: int, x1: int, z1: int)
    ensures (x1 - z1) * (x0 + z0) + (x1 + z1) * (x0 - z0) == 2 * (x0 * x1 - z0 * z1)
    ensures (x1 - z1) * (x0 + z0) - (x1 + z1) * (x0 - z0) == -2 * (x0 * z1 - z0 * x1)
  {
  }

  lemma DiffSquares(s: int, d: int, x0: int, z0: int, x1: int, z1: int, u: int)
    requires s == 2 * (x0 * x1 - z0 * z1) && d == -2 * (x0 * z1 - z0 * x1)
    ensures s * s == DiffX(x0, z0, x1, z1) && u * (d * d) == DiffZ(u, x0, z0, x1, z1)
  {
    var e, f := x0 * x1 - z0 * z1, x0 * z1 - z0 * x1;
    assert (2 * e) * (2 * e) == 4 * (e * e);
    assert (-2 * f) * (-2 * f) == 4 * (f * f);
  }

  // The affine doubling formula is DoubleNum(a) / DoubleDen(a).

  function DoubleNum(a: int): int {
    (a * a - 1) * (a * a - 1)
  }

  function DoubleDen(a: int): int {
    4 * a * (a * a + A * a + 1)
  }

  function Fourth(z: int): int {
    (z * z) * (z * z)
  }

  lemma DoublePoly(a: int, z: int)
    ensures DoubleX(a * z, z) == Fourth(z) * DoubleNum(a)
    ensures DoubleZ(a * z, z) == Fourth(z) * DoubleDen(a)
  {
    var t := z * z;
    assert (a * z) * (a * z) == (a * a) * t;
    assert (a * z) * z == a * t;
    assert DoubleX(a * z, z) == ((a * a) * t - t) * ((a * a) * t - t);
    FactorSquare(a * a, t);
    FactorDen(a, t);
  }

  lemma FactorSquare(s: int, t: int)
    ensures (s * t - t) * (s * t - t) == (t * t) * ((s - 1) * (s - 1))
  {
    assert s * t - t == t * (s - 1);
    var r := s - 1;
    assert (t * r) * (t * r) == (t * t) * (r * r);
  }

  lemma FactorDen(a: int, t: int)
    ensures 4 * (a * t) * ((a * a) * t + A * (a * t) + t) == (t * t) * (4 * a * (a * a + A * a + 1))
  {
    var s := a * a + A * a + 1;
    assert (a * a) * t + A * (a * t) + t == t * s by {
      assert A * (a * t) == (A * a) * t;
    }
    assert 4 * (a * t) * (t * s) == (t * t) * (4 * a * s) by {
      Shuffle(a, t, s);
    }
  }

  lemma Shuffle(a: int, t: int, s: int)
    ensures 4 * (a * t) * (t * s) == (t * t) * (4 * a * s)
  {
    calc {
      4 * (a * t) * (t * s);
      (4 * a * t) * (t * s);
      4 * a * (t * (t * s));
      4 * a * ((t * t) * s);
      (t * t) * (4 * a * s);
    }
  }

  lemma DiffPoly(u: int, a: int, z0: int, b: int, z1: int)
    ensures DiffX(a * z0, z0, b * z1, z1) == 4 * ((z0 * z1) * (z0 * z1)) * ((a * b - 1) * (a * b - 1))
    ensures DiffZ(u, a * z0, z0, b * z1, z1) == 4 * ((z0 * z1) * (z0 * z1)) * (u * ((a - b) * (a - b)))
  {
    var t := z0 * z1;
    assert (a * z0) * (b * z1) == (a * b) * t;
    FactorSquare(a * b, t);
    assert (a * z0) * z1 - z0 * (b * z1) == a * t - b * t == t * (a - b);
    var d := a - b;
    assert (t * d) * (t * d) == (t * t) * (d * d);
    Shuffle2(u, t * t, d * d);
  }

  lemma Shuffle2(u: int, s: int, e: int)
    ensures u * (4 * (s * e)) == 4 * s * (u * e)
  {
    assert u * (s * e) == s * (u * e);
  }

  // ------------------------------------------------------- congruences of the polynomials

  lemma DoubleCong(p: int, x: int, x': int, z: int)
    requires p > 0 && Cong(p, x, x')
    ensures Cong(p, DoubleX(x, z), DoubleX(x', z))
    ensures Cong(p, DoubleZ(x, z), DoubleZ(x', z))
  {
    CongWitness(p, z, z, 0);
    DoubleCongBoth(p, x, x', z, z);
  }

  lemma DoubleCongBoth(p: int, x: int, x': int, z: int, z': int)
    requires p > 0 && Cong(p, x, x') && Cong(p, z, z')
    ensures Cong(p, DoubleX(x, z), DoubleX(x', z'))
    ensures Cong(p, DoubleZ(x, z), DoubleZ(x', z'))
  {
    CongMul(p, z, z', z, z');
    CongMul(p, x, x', x, x');
    CongSub(p, x * x, x' * x', z * z, z' * z');
    CongMul(p, x * x - z * z, x' * x' - z' * z', x * x - z * z, x' * x' - z' * z');
    CongMul(p, x, x', z, z');
    CongWitness(p, A, A, 0);
    CongMul(p, A, A, x * z, x' * z');
    CongAdd(p, x * x, x' * x', A * (x * z), A * (x' * z'));
    CongAdd(p, x * x + A * (x * z), x' * x' + A * (x' * z'), z * z, z' * z');
    CongWitness(p, 4, 4, 0);
    CongMul(p, 4, 4, x * z, x' * z');
    CongMul(p, 4 * (x * z), 4 * (x' * z'), x * x + A * (x * z) + z * z, x' * x' + A * (x' * z') + z' * z');
  }

  lemma DiffCong(p: int, u: int, x0: int, x0': int, z0: int, x1: int, x1': int, z1: int)
    requires p > 0 && Cong(p, x0, x0') && Cong(p, x1, x1')
    ensures Cong(p, DiffX(x0, z0, x1, z1), DiffX(x0', z0, x1', z1))
    ensures Cong(p, DiffZ(u, x0, z0, x1, z1), DiffZ(u, x0', z0, x1', z1))
  {
    CongWitness(p, z0, z0, 0);
    CongWitness(p, z1, z1, 0);
    DiffCongAll(p, u, x0, x0', z0, z0, x1, x1', z1, z1);
  }

  lemma DiffCongAll(p: int, u: int, x0: int, x0': int, z0: int, z0': int, x1: int, x1': int, z1: int, z1': int)
    requires p > 0 && Cong(p, x0, x0') && Cong(p, x1, x1') && Cong(p, z0, z0') && Cong(p, z1, z1')
    ensures Cong(p, DiffX(x0, z0, x1, z1), DiffX(x0', z0', x1', z1'))
    ensures Cong(p, DiffZ(u, x0, z0, x1, z1), DiffZ(u, x0', z0', x1', z1'))
  {
    CongWitness(p, u, u, 0);
    CongWitness(p, 4, 4, 0);
    CongMul(p, z0, z0', z1, z1');
    CongMul(p, x0, x0', x1, x1');
    CongSub(p, x0 * x1, x0' * x1', z0 * z1, z0' * z1');
    var s, s' := x0 * x1 - z0 * z1, x0' * x1' - z0' * z1';
    CongMul(p, s, s', s, s');
    CongMul(p, 4, 4, s * s, s' * s');
    CongMul(p, x0, x0', z1, z1');
    CongMul(p, z0, z0', x1, x1');
    CongSub(p, x0 * z1, x0' * z1', z0 * x1, z0' * x1');
    var d, d' := x0 * z1 - z0 * x1, x0' * z1' - z0' * x1';
    CongMul(p, d, d', d, d');
    CongMul(p, 4, 4, d * d, d' * d');
    CongMul(p, u, u, 4 * (d * d), 4 * (d' * d'));
  }

  // ------------------------------------------------------- what a doubling step represents

  /** p is an odd prime that does not divide A^2 - 4. */
  ghost predicate GoodPrime(p: int) {
    IsPrime(p) && !Cong(p, 4, 0) && !Cong(p, A * A - 4, 0)
  }

  lemma CongZeroTransfer(p: int, a: int, b: int)
    requires p > 0 && Cong(p, a, b)
    ensures Cong(p, a, 0) <==> Cong(p, b, 0)
  {
    CongSym(p, a, b);
    if Cong(p, a, 0) { CongTrans(p, b, a, 0); }
    if Cong(p, b, 0) { CongTrans(p, a, b, 0); }
  }

  lemma OneNonZero(p: int)
    requires IsPrime(p)
    ensures !Cong(p, 1, 0) && !Cong(p, -1, 0)
  {
    ModUnique(p, 1, 0, 1);
    ModUnique(p, -1, -1, p - 1);
  }

  /** The doubling numerator and denominator never vanish together. */
  lemma DoubleNotBothZero(p: int, a: int)
    requires GoodPrime(p) && Cong(p, DoubleDen(a), 0)
    ensures !Cong(p, DoubleNum(a), 0)
  {
    if Cong(p, DoubleNum(a), 0) {
      Euclid(p, a * a - 1, a * a - 1);
      DenRoots(p, a);
      if Cong(p, a, 0) {
        ZeroRoot(p, a);
      } else {
        TwoRoots(p, a);
      }
      assert false;
    }
  }

  lemma DenRoots(p: int, a: int)
    requires GoodPrime(p) && Cong(p, DoubleDen(a), 0)
    ensures Cong(p, a, 0) || Cong(p, a * a + A * a + 1, 0)
  {
    Euclid(p, 4 * a, a * a + A * a + 1);
    if Cong(p, 4 * a, 0) { Euclid(p, 4, a); }
  }

  lemma ZeroRoot(p: int, a: int)
    requires IsPrime(p) && Cong(p, a, 0)
    ensures !Cong(p, a * a - 1, 0)
  {
    CongMul(p, a, 0, a, 0);
    if Cong(p, a * a - 1, 0) {
      CongSub(p, a * a - 1, 0, a * a, 0);
      OneNonZero(p);
      assert false;
    }
  }

  /** a^2 == 1 and a^2 + A a + 1 == 0 force A^2 == 4. */
  lemma TwoRoots(p: int, a: int)
    requires p > 0 && Cong(p, a * a - 1, 0) && Cong(p, a * a + A * a + 1, 0)
    ensures Cong(p, A * A - 4, 0)
  {
    CongSub(p, a * a + A * a + 1, 0, a * a - 1, 0);
    var s := A * a + 2;
    assert Cong(p, s, 0);
    CongWitness(p, A * a - 2, A * a - 2, 0);
    CongMul(p, s, 0, A * a - 2, A * a - 2);
    assert s * (A * a - 2) == (A * A) * (a * a) - 4 by {
      var t := A * a;
      assert (t + 2) * (t - 2) == t * t - 4;
      assert t * t == (A * A) * (a * a);
    }
    CongWitness(p, A * A, A * A, 0);
    CongMul(p, A * A, A * A, a * a - 1, 0);
    assert (A * A) * (a * a) - 4 - (A * A) * (a * a - 1) == A * A - 4;
    CongSub(p, (A * A) * (a * a) - 4, 0, (A * A) * (a * a - 1), 0);
  }

  lemma FourthNonZero(p: int, z: int)
    requires IsPrime(p) && !Cong(p, z, 0)
    ensures !Cong(p, Fourth(z), 0)
  {
    NonZeroMul(p, z, z);
    NonZeroMul(p, z * z, z * z);
  }

  /** Doubling a finite point: the projective result has the same zero pattern and the same ratio
      as the affine formula. */
  lemma DoubleFinite(p: int, x: int, z: int, a: int)
    requires GoodPrime(p) && !Cong(p, z, 0) && Cong(p, x, a * z)
    ensures Cong(p, DoubleZ(x, z), 0) <==> Cong(p, DoubleDen(a), 0)
    ensures Cong(p, DoubleDen(a), 0) ==> !Cong(p, DoubleX(x, z), 0)
    ensures forall s :: Cong(p, s * DoubleDen(a), DoubleNum(a)) ==> Cong(p, DoubleX(x, z), s * DoubleZ(x, z))
  {
    var f, d, n := Fourth(z), DoubleDen(a), DoubleNum(a);
    DoubleCong(p, x, a * z, z);
    DoublePoly(a, z);
    FourthNonZero(p, z);
    CongZeroTransfer(p, DoubleX(x, z), f * n);
    CongZeroTransfer(p, DoubleZ(x, z), f * d);
    CongWitness(p, f, f, 0);
    if Cong(p, d, 0) {
      CongMul(p, f, f, d, 0);
      DoubleNotBothZero(p, a);
      NonZeroMul(p, f, n);
    } else {
      NonZeroMul(p, f, d);
    }
    forall s | Cong(p, s * d, n) ensures Cong(p, DoubleX(x, z), s * DoubleZ(x, z)) {
      ScaleRatio(p, DoubleX(x, z), DoubleZ(x, z), f, n, d, s);
    }
  }

  /** If X == f n, Z == f d and s d == n, then X == s Z. */
  lemma ScaleRatio(p: int, X: int, Z: int, f: int, n: int, d: int, s: int)
    requires p > 0 && Cong(p, X, f * n) && Cong(p, Z, f * d) && Cong(p, s * d, n)
    ensures Cong(p, X, s * Z)
  {
    CongWitness(p, f, f, 0);
    CongWitness(p, s, s, 0);
    CongSym(p, s * d, n);
    CongMul(p, f, f, n, s * d);
    CongTrans(p, X, f * n, f * (s * d));
    CongMul(p, s, s, Z, f * d);
    CongSym(p, s * Z, s * (f * d));
    assert f * (s * d) == s * (f * d);
    CongTrans(p, X, s * (f * d), s * Z);
  }

  /** Doubling the point at infinity. */
  lemma DoubleInfinity(p: int, x: int)
    requires IsPrime(p) && !Cong(p, x, 0)
    ensures DoubleZ(x, 0) == 0 && !Cong(p, DoubleX(x, 0), 0)
  {
    FourthNonZero(p, x);
  }

  // ------------------------------------------------------- what an addition step represents

  lemma WeightNonZero(p: int, z0: int, z1: int)
    requires GoodPrime(p) && !Cong(p, z0, 0) && !Cong(p, z1, 0)
    ensures !Cong(p, 4 * ((z0 * z1) * (z0 * z1)), 0)
  {
    NonZeroMul(p, z0, z1);
    NonZeroMul(p, z0 * z1, z0 * z1);
    NonZeroMul(p, 4, (z0 * z1) * (z0 * z1));
  }

  /** Adding two finite points with different x-coordinates a and b and difference x-coordinate u. */
  lemma DiffFinite(p: int, u: int, x0: int, z0: int, a: int, x1: int, z1: int, b: int, s: int)
    requires GoodPrime(p) && !Cong(p, u, 0)
    requires !Cong(p, z0, 0) && Cong(p, x0, a * z0)
    requires !Cong(p, z1, 0) && Cong(p, x1, b * z1)
    requires !Cong(p, a, b) && Cong(p, s * (u * ((a - b) * (a - b))), (a * b - 1) * (a * b - 1))
    ensures !Cong(p, DiffZ(u, x0, z0, x1, z1), 0)
    ensures Cong(p, DiffX(x0, z0, x1, z1), s * DiffZ(u, x0, z0, x1, z1))
  {
    var w := 4 * ((z0 * z1) * (z0 * z1));
    var d := u * ((a - b) * (a - b));
    DiffCong(p, u, x0, a * z0, z0, x1, b * z1, z1);
    DiffPoly(u, a, z0, b, z1);
    WeightNonZero(p, z0, z1);
    NonZeroMul(p, a - b, a - b);
    NonZeroMul(p, u, (a - b) * (a - b));
    NonZeroMul(p, w, d);
    CongZeroTransfer(p, DiffZ(u, x0, z0, x1, z1), w * d);
    ScaleRatio(p, DiffX(x0, z0, x1, z1), DiffZ(u, x0, z0, x1, z1), w, (a * b - 1) * (a * b - 1), d, s);
  }

  /** Adding two finite points with the same x-coordinate a, where a^2 != 1. */
  lemma DiffEqual(p: int, u: int, x0: int, z0: int, a: int, x1: int, z1: int)
    requires GoodPrime(p) && !Cong(p, a * a - 1, 0)
    requires !Cong(p, z0, 0) && Cong(p, x0, a * z0)
    requires !Cong(p, z1, 0) && Cong(p, x1, a * z1)
    ensures Cong(p, DiffZ(u, x0, z0, x1, z1), 0)
    ensures !Cong(p, DiffX(x0, z0, x1, z1), 0)
  {
    var w := 4 * ((z0 * z1) * (z0 * z1));
    DiffCong(p, u, x0, a * z0, z0, x1, a * z1, z1);
    DiffPoly(u, a, z0, a, z1);
    assert w * (u * ((a - a) * (a - a))) == 0;
    WeightNonZero(p, z0, z1);
    NonZeroMul(p, a * a - 1, a * a - 1);
    NonZeroMul(p, w, (a * a - 1) * (a * a - 1));
    CongZeroTransfer(p, DiffX(x0, z0, x1, z1), w * ((a * a - 1) * (a * a - 1)));
  }

  /** Adding infinity (x0 : 0) to the finite point with x-coordinate u, and the reverse. */
  lemma DiffInfinity(p: int, u: int, x0: int, x1: int, z1: int)
    requires GoodPrime(p) && !Cong(p, u, 0) && !Cong(p, x0, 0)
    requires !Cong(p, z1, 0) && Cong(p, x1, u * z1)
    ensures !Cong(p, DiffZ(u, x0, 0, x1, z1), 0)
    ensures Cong(p, DiffX(x0, 0, x1, z1), u * DiffZ(u, x0, 0, x1, z1))
    ensures DiffX(x1, z1, x0, 0) == DiffX(x0, 0, x1, z1)
    ensures DiffZ(u, x1, z1, x0, 0) == DiffZ(u, x0, 0, x1, z1)
  {
    var s, t := x0 * x1, x0 * z1;
    assert DiffX(x0, 0, x1, z1) == 4 * (s * s);
    assert DiffZ(u, x0, 0, x1, z1) == u * (4 * (t * t));
    assert DiffX(x1, z1, x0, 0) == 4 * (s * s);
    assert x1 * 0 - z1 * x0 == -t;
    assert (-t) * (-t) == t * t;
    NonZeroMul(p, x0, z1);
    NonZeroMul(p, t, t);
    NonZeroMul(p, 4, t * t);
    NonZeroMul(p, u, 4 * (t * t));
    CongWitness(p, x0, x0, 0);
    CongMul(p, x0, x0, x1, u * z1);
    assert x0 * (u * z1) == u * t;
    CongMul(p, s, u * t, s, u * t);
    CongWitness(p, 4, 4, 0);
    CongMul(p, 4, 4, s * s, (u * t) * (u * t));
    assert 4 * ((u * t) * (u * t)) == u * (u * (4 * (t * t))) by { InfinityShuffle(u, t); }
  }

  lemma InfinityShuffle(u: int, t: int)
    ensures 4 * ((u * t) * (u * t)) == u * (u * (4 * (t * t)))
  {
    assert (u * t) * (u * t) == u * (u * (t * t));
  }

  // ------------------------------------------------------- homogeneity

  lemma DoubleScale(c: int, x: int, z: int)
    ensures DoubleX(c * x, c * z) == Fourth(c) * DoubleX(x, z)
    ensures DoubleZ(c * x, c * z) == Fourth(c) * DoubleZ(x, z)
  {
    var t := c * c;
    assert (c * x) * (c * x) == t * (x * x) && (c * z) * (c * z) == t * (z * z);
    assert (c * x) * (c * z) == t * (x * z);
    var d := x * x - z * z;
    assert t * (x * x) - t * (z * z) == t * d;
    assert (t * d) * (t * d) == (t * t) * (d * d);
    var m, s := x * z, x * x + A * (x * z) + z * z;
    assert t * (x * x) + A * (t * m) + t * (z * z) == t * s;
    Shuffle(m, t, s);
    assert 4 * (t * m) * (t * s) == (t * t) * (4 * m * s);
  }

  lemma DiffScale(u: int, c: int, x0: int, z0: int, d: int, x1: int, z1: int)
    ensures DiffX(c * x0, c * z0, d * x1, d * z1) == ((c * d) * (c * d)) * DiffX(x0, z0, x1, z1)
    ensures DiffZ(u, c * x0, c * z0, d * x1, d * z1) == ((c * d) * (c * d)) * DiffZ(u, x0, z0, x1, z1)
  {
    var t := c * d;
    var e, f := x0 * x1 - z0 * z1, x0 * z1 - z0 * x1;
    assert (c * x0) * (d * x1) - (c * z0) * (d * z1) == t * e;
    assert (c * x0) * (d * z1) - (c * z0) * (d * x1) == t * f;
    assert (t * e) * (t * e) == (t * t) * (e * e);
    assert (t * f) * (t * f) == (t * t) * (f * f);
    Shuffle2(u, t * t, f * f);
    Shuffle2(u, 1, f * f);
    assert 4 * (t * t) * (u * (f * f)) == (t * t) * (u * (4 * (f * f)));
  }
}
