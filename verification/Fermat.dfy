/** Fermat's little theorem, and Euler's criterion for primes p with p % 8 == 5, where the square
    root is explicit. Both are proved from IsPrime alone. */
module Fermat {
  import opened Modular

  function Pow(b: int, n: nat): int {
    if n == 0 then 1 else b * Pow(b, n - 1)
  }

  lemma {:induction false} PowAdd(b: int, m: nat, n: nat)
    ensures Pow(b, m + n) == Pow(b, m) * Pow(b, n)
  {
    if m > 0 {
      PowAdd(b, m - 1, n);
      assert b * (Pow(b, m - 1) * Pow(b, n)) == (b * Pow(b, m - 1)) * Pow(b, n);
    }
  }

  lemma {:induction false} PowMulBase(a: int, b: int, n: nat)
    ensures Pow(a * b, n) == Pow(a, n) * Pow(b, n)
  {
    if n > 0 {
      PowMulBase(a, b, n - 1);
      MulInterchange(a, b, Pow(a, n - 1), Pow(b, n - 1));
    }
  }

  lemma MulInterchange(a: int, b: int, u: int, v: int)
    ensures (a * b) * (u * v) == (a * u) * (b * v)
  {
    calc {
      (a * b) * (u * v);
      a * (b * (u * v));
      { assert b * (u * v) == u * (b * v); }
      a * (u * (b * v));
      (a * u) * (b * v);
    }
  }

  lemma {:induction false} PowCong(p: int, a: int, b: int, n: nat)
    requires p > 0 && Cong(p, a, b)
    ensures Cong(p, Pow(a, n), Pow(b, n))
  {
    if n == 0 {
      CongWitness(p, 1, 1, 0);
    } else {
      PowCong(p, a, b, n - 1);
      CongMul(p, a, b, Pow(a, n - 1), Pow(b, n - 1));
    }
  }

  /** A square to the k-th power is the base to the 2k-th. */
  lemma PowOfSquare(b: int, k: nat)
    ensures Pow(b * b, k) == Pow(b, 2 * k)
  {
    PowMulBase(b, b, k);
    PowAdd(b, k, k);
  }

  lemma {:induction false} PowOne(k: nat)
    ensures Pow(1, k) == 1
  {
    if k > 0 { PowOne(k - 1); }
  }

  // --------------------------------------------------- products over finite sets

  ghost function Prod(s: set<nat>): int {
    if s == {} then 1
    else
      var x :| x in s;
      x * Prod(s - {x})
  }

  lemma MulSwap(x: int, y: int, z: int)
    ensures x * (y * z) == y * (x * z)
  {
  }

  lemma {:induction false} ProdRemove(s: set<nat>, y: nat)
    requires y in s
    ensures Prod(s) == y * Prod(s - {y})
    decreases |s|
  {
    var x :| x in s && Prod(s) == x * Prod(s - {x});
    if x != y {
      ProdRemove(s - {x}, y);
      ProdRemove(s - {y}, x);
      assert s - {x} - {y} == s - {y} - {x};
      MulSwap(x, y, Prod(s - {x} - {y}));
    }
  }

  ghost function Range(n: nat): (s: set<nat>)
    ensures forall i: nat :: i in s <==> 1 <= i <= n
  {
    if n == 0 then {} else Range(n - 1) + {n}
  }

  ghost function Multiples(p: int, a: int, n: nat): (s: set<nat>)
    requires p > 0
  {
    if n == 0 then {} else Multiples(p, a, n - 1) + {(a * n) % p}
  }

  lemma {:induction false} MultiplesIn(p: int, a: int, n: nat, i: int)
    requires p > 0 && 1 <= i <= n
    ensures (a * i) % p in Multiples(p, a, n)
  {
    if i < n { MultiplesIn(p, a, n - 1, i); }
  }

  lemma {:induction false} MultiplesOut(p: int, a: int, n: nat, m: nat) returns (i: int)
    requires p > 0 && m in Multiples(p, a, n)
    ensures 1 <= i <= n && m == (a * i) % p
  {
    if m == (a * n) % p && n > 0 {
      i := n;
    } else {
      i := MultiplesOut(p, a, n - 1, m);
    }
  }

  lemma MultipleIsNew(p: int, a: int, n: nat)
    requires IsPrime(p) && a % p != 0 && 1 <= n < p
    ensures (a * n) % p !in Multiples(p, a, n - 1)
  {
    if (a * n) % p in Multiples(p, a, n - 1) {
      var i := MultiplesOut(p, a, n - 1, (a * n) % p);
      SameModCong(p, a * n, a * i);
      assert a * n - a * i == a * (n - i);
      Euclid(p, a, n - i);
      ModUnique(p, n - i, 0, n - i);
      assert false;
    }
  }

  lemma RangeStep(n: nat)
    requires n > 0
    ensures Prod(Range(n)) == n * Prod(Range(n - 1))
  {
    assert Range(n) - {n} == Range(n - 1);
    ProdRemove(Range(n), n);
  }

  lemma MultiplesStep(p: int, a: int, n: nat)
    requires IsPrime(p) && a % p != 0 && 1 <= n < p
    ensures Prod(Multiples(p, a, n)) == ((a * n) % p) * Prod(Multiples(p, a, n - 1))
  {
    MultipleIsNew(p, a, n);
    assert Multiples(p, a, n) - {(a * n) % p} == Multiples(p, a, n - 1);
    ProdRemove(Multiples(p, a, n), (a * n) % p);
  }

  lemma {:induction false} ProdMultiples(p: int, a: int, n: nat)
    requires IsPrime(p) && a % p != 0 && n < p
    ensures Cong(p, Prod(Multiples(p, a, n)), Pow(a, n) * Prod(Range(n)))
  {
    if n == 0 {
      CongWitness(p, 1, 1, 0);
    } else {
      ProdMultiples(p, a, n - 1);
      MultiplesStep(p, a, n);
      RangeStep(n);
      var u, f := Pow(a, n - 1), Prod(Range(n - 1));
      CongMod(p, a * n);
      CongMul(p, (a * n) % p, a * n, Prod(Multiples(p, a, n - 1)), u * f);
      MulInterchange(a, n, u, f);
    }
  }

  lemma MultiplesCover(p: int, a: int)
    requires IsPrime(p) && a % p != 0
    ensures Multiples(p, a, p - 1) == Range(p - 1)
  {
    var ms, rs := Multiples(p, a, p - 1), Range(p - 1);
    forall m: nat ensures m in ms <==> m in rs {
      if m in ms {
        var i := MultiplesOut(p, a, p - 1, m);
        if m == 0 {
          Euclid(p, a, i);
          ModUnique(p, i, 0, i);
        }
      } else if m in rs {
        MultipleOf(p, a, m);
      }
    }
  }

  /** Every unit is a multiple of a unit: multiply by the inverse. */
  lemma MultipleOf(p: int, a: int, m: int)
    requires IsPrime(p) && a % p != 0 && 1 <= m < p
    ensures m in Multiples(p, a, p - 1)
  {
    var b := a % p;
    var w := InverseFrom(p, b);
    InverseCorrect(p, b);
    var i := (w * m) % p;
    CongMod(p, w * m);
    CongMod(p, a);
    CongMul(p, a, b, i, w * m);
    assert b * (w * m) == (b * w) * m;
    CongWitness(p, m, m, 0);
    CongMul(p, b * w, 1, m, m);
    CongTrans(p, a * i, b * (w * m), m);
    CongSameMod(p, a * i, m);
    ModUnique(p, m, 0, m);
    MultiplesIn(p, a, p - 1, i);
  }

  lemma {:induction false} FactorialNonZero(p: int, n: nat)
    requires IsPrime(p) && n < p
    ensures !Cong(p, Prod(Range(n)), 0)
  {
    if n == 0 {
      ModUnique(p, 1, 0, 1);
    } else {
      FactorialNonZero(p, n - 1);
      RangeStep(n);
      ModUnique(p, n, 0, n);
      NonZeroMul(p, n, Prod(Range(n - 1)));
    }
  }

  lemma FermatLittle(p: int, a: int)
    requires IsPrime(p) && a % p != 0
    ensures Cong(p, Pow(a, p - 1), 1)
  {
    var f := Prod(Range(p - 1));
    ProdMultiples(p, a, p - 1);
    MultiplesCover(p, a);
    FactorialNonZero(p, p - 1);
    CongSym(p, f, Pow(a, p - 1) * f);
    assert Pow(a, p - 1) * f == f * Pow(a, p - 1) && f == f * 1;
    Cancel(p, f, Pow(a, p - 1), 1);
  }

  // ------------------------------------------------------------ squares mod p

  ghost predicate SquareRoot(p: int, b: int, a: int)
    requires p > 0
  {
    Cong(p, b * b, a)
  }

  ghost predicate IsSquare(p: int, a: int)
    requires p > 0
  {
    exists b :: SquareRoot(p, b, a)
  }

  /** The primes treated here: p % 8 == 5, with a known square root im of -1. */
  ghost predicate EulerPrime(p: int, im: int) {
    IsPrime(p) && p % 8 == 5 && Cong(p, im * im, -1)
  }

  lemma ZeroIsSquare(p: int, a: int)
    requires p > 0 && Cong(p, a, 0)
    ensures IsSquare(p, a)
  {
    CongSym(p, a, 0);
    assert SquareRoot(p, 0, a);
  }

  /** x^2 == 1 has only the roots 1 and -1. */
  lemma RootsOfOne(p: int, s: int)
    requires IsPrime(p) && Cong(p, s * s, 1)
    ensures Cong(p, s, 1) || Cong(p, s, -1)
  {
    assert s * s - 1 == (s - 1) * (s + 1);
    Euclid(p, s - 1, s + 1);
  }

  lemma EulerSign(p: int, im: int, a: int)
    requires EulerPrime(p, im) && !Cong(p, a, 0)
    ensures Cong(p, Pow(a, (p - 1) / 2), 1) || Cong(p, Pow(a, (p - 1) / 2), -1)
  {
    var h := (p - 1) / 2;
    FermatLittle(p, a);
    PowAdd(a, h, h);
    RootsOfOne(p, Pow(a, h));
  }

  lemma EulerSquare(p: int, im: int, a: int)
    requires EulerPrime(p, im) && !Cong(p, a, 0) && IsSquare(p, a)
    ensures Cong(p, Pow(a, (p - 1) / 2), 1)
  {
    var h := (p - 1) / 2;
    var b :| SquareRoot(p, b, a);
    CongSym(p, b * b, a);
    if Cong(p, b, 0) {
      CongMul(p, b, 0, b, 0);
      CongTrans(p, a, b * b, 0);
      assert false;
    }
    PowCong(p, a, b * b, h);
    PowOfSquare(b, h);
    FermatLittle(p, b);
    CongTrans(p, Pow(a, h), Pow(b, p - 1), 1);
  }

  lemma EulerRoot(p: int, im: int, a: int)
    requires EulerPrime(p, im) && Cong(p, Pow(a, (p - 1) / 2), 1)
    ensures IsSquare(p, a)
  {
    var t := p / 8;
    var s, r := Pow(a, 2 * t + 1), Pow(a, t + 1);
    PowAdd(a, 2 * t + 1, 2 * t + 1);
    RootsOfOne(p, s);
    PowAdd(a, t + 1, t + 1);
    assert r * r == a * s;
    CongWitness(p, a, a, 0);
    if Cong(p, s, 1) {
      CongMul(p, a, a, s, 1);
      assert SquareRoot(p, r, a);
    } else {
      CongMul(p, a, a, s, -1);
      CongMul(p, im * im, -1, r * r, -a);
      assert (im * r) * (im * r) == (im * im) * (r * r) by { MulInterchange(im, r, im, r); }
      assert SquareRoot(p, im * r, a);
    }
  }

  /** The product of two non-squares is a square. */
  lemma NonSquareProduct(p: int, im: int, a: int, b: int)
    requires EulerPrime(p, im) && !IsSquare(p, a) && !IsSquare(p, b)
    ensures IsSquare(p, a * b)
  {
    var h := (p - 1) / 2;
    if Cong(p, a, 0) { ZeroIsSquare(p, a); }
    if Cong(p, b, 0) { ZeroIsSquare(p, b); }
    EulerSign(p, im, a);
    EulerSign(p, im, b);
    if Cong(p, Pow(a, h), 1) { EulerRoot(p, im, a); }
    if Cong(p, Pow(b, h), 1) { EulerRoot(p, im, b); }
    CongMul(p, Pow(a, h), -1, Pow(b, h), -1);
    PowMulBase(a, b, h);
    EulerRoot(p, im, a * b);
  }

  lemma {:induction false} PowMinusOne(t: nat)
    ensures Pow(-1, 2 * t + 1) == -1
  {
    PowOfSquare(-1, t);
    PowOne(t);
  }

  /** im is not a square: its square root would have order 8, and 8 does not divide p - 1. */
  lemma ImNonSquare(p: int, im: int)
    requires EulerPrime(p, im)
    ensures !IsSquare(p, im)
  {
    if IsSquare(p, im) {
      var t := p / 8;
      if Cong(p, im, 0) {
        CongMul(p, im, 0, im, 0);
        CongSym(p, im * im, -1);
        CongTrans(p, -1, im * im, 0);
        ModUnique(p, -1, -1, p - 1);
        assert false;
      }
      EulerSquare(p, im, im);
      PowOfSquare(im, 2 * t + 1);
      PowCong(p, im * im, -1, 2 * t + 1);
      PowMinusOne(t);
      CongSym(p, Pow(im, (p - 1) / 2), 1);
      CongTrans(p, 1, Pow(im, (p - 1) / 2), -1);
      ModUnique(p, 2, 0, 2);
      assert false;
    }
  }

  /** 2 is not a square, since (1 + im)^2 == 2 * im and im is not one. */
  lemma TwoNonSquare(p: int, im: int)
    requires EulerPrime(p, im)
    ensures !IsSquare(p, 2)
  {
    if IsSquare(p, 2) {
      var b :| SquareRoot(p, b, 2);
      var j := DivideOut(p, 1 + im, b, 2);
      assert (1 + im) * (1 + im) - 2 * im == im * im - (-1);
      CongSym(p, (1 + im) * (1 + im), j * j * 2);
      CongTrans(p, j * j * 2, (1 + im) * (1 + im), 2 * im);
      assert j * j * 2 == 2 * (j * j);
      ModUnique(p, 2, 0, 2);
      Cancel(p, 2, j * j, im);
      assert SquareRoot(p, j, im);
      ImNonSquare(p, im);
      assert false;
    }
  }

  /** Where b*b == d is not zero, c == j*b for some j, so c*c == j*j*d. */
  lemma DivideOut(p: int, c: int, b: int, d: int) returns (j: int)
    requires IsPrime(p) && SquareRoot(p, b, d) && !Cong(p, d, 0)
    ensures Cong(p, c * c, j * j * d)
  {
    if b % p == 0 {
      CongMul(p, b, 0, b, 0);
      CongSym(p, b * b, d);
      CongTrans(p, d, b * b, 0);
      assert false;
    }
    var e := b % p;
    var w := InverseFrom(p, e);
    InverseCorrect(p, e);
    j := c * w;
    CongMod(p, b);
    CongWitness(p, w, w, 0);
    CongMul(p, b, e, w, w);
    assert e * w == w * e;
    CongTrans(p, b * w, e * w, 1);
    CongMul(p, b * w, 1, b * w, 1);
    CongWitness(p, c * c, c * c, 0);
    CongMul(p, c * c, c * c, (b * w) * (b * w), 1);
    CongWitness(p, (c * w) * (c * w), (c * w) * (c * w), 0);
    CongMul(p, (c * w) * (c * w), (c * w) * (c * w), b * b, d);
    Rearrange(c, b, w);
    CongSym(p, (c * c) * ((b * w) * (b * w)), c * c);
    CongTrans(p, c * c, (c * c) * ((b * w) * (b * w)), j * j * d);
  }

  lemma Rearrange(c: int, b: int, w: int)
    ensures (c * c) * ((b * w) * (b * w)) == ((c * w) * (c * w)) * (b * b)
  {
    MulInterchange(b, w, b, w);
    MulInterchange(c, w, c, w);
    assert (c * c) * ((b * b) * (w * w)) == ((c * c) * (w * w)) * (b * b);
  }
}
