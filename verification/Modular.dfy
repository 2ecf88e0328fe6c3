/** Congruences and primes: the elementary number theory that the field, the ladder and the
    Elligator map rest on. Everything here is proved; nothing is assumed. */
module Modular {

  ghost predicate Cong(p: int, a: int, b: int)
    requires p > 0
  {
    (a - b) % p == 0
  }

  lemma MulAtLeast(p: int, d: int)
    requires p > 0 && d >= 1
    ensures p * d >= p
  {
    assert p * d == p + p * (d - 1);
  }

  /** A multiple of p strictly between -p and p is zero. */
  lemma SmallMultiple(p: int, d: int)
    requires p > 0 && -p < p * d < p
    ensures d == 0
  {
    if d >= 1 {
      MulAtLeast(p, d);
      assert false;
    }
    if d <= -1 {
      MulAtLeast(p, -d);
      assert false;
    }
  }

  lemma ModUnique(p: int, n: int, q: int, r: int)
    requires p > 0 && 0 <= r < p && n == p * q + r
    ensures n % p == r && n / p == q
  {
    var q', r' := n / p, n % p;
    assert n == p * q' + r';
    assert p * (q - q') == p * q - p * q' == r' - r;
    SmallMultiple(p, q - q');
  }

  lemma MultipleMod(p: int, k: int)
    requires p > 0
    ensures (p * k) % p == 0
  {
    ModUnique(p, p * k, k, 0);
  }

  lemma CongWitness(p: int, a: int, b: int, k: int)
    requires p > 0 && a - b == p * k
    ensures Cong(p, a, b)
  {
    MultipleMod(p, k);
  }

  lemma CongMod(p: int, a: int)
    requires p > 0
    ensures Cong(p, a % p, a) && Cong(p, a, a % p)
  {
    CongWitness(p, a % p, a, -(a / p));
    CongWitness(p, a, a % p, a / p);
  }

  lemma CongSym(p: int, a: int, b: int)
    requires p > 0 && Cong(p, a, b)
    ensures Cong(p, b, a)
  {
    CongWitness(p, b, a, -((a - b) / p));
  }

  lemma CongTrans(p: int, a: int, b: int, c: int)
    requires p > 0 && Cong(p, a, b) && Cong(p, b, c)
    ensures Cong(p, a, c)
  {
    var k, l := (a - b) / p, (b - c) / p;
    assert p * (k + l) == p * k + p * l;
    CongWitness(p, a, c, k + l);
  }

  lemma CongAdd(p: int, a: int, a': int, b: int, b': int)
    requires p > 0 && Cong(p, a, a') && Cong(p, b, b')
    ensures Cong(p, a + b, a' + b')
  {
    var k, l := (a - a') / p, (b - b') / p;
    assert p * (k + l) == p * k + p * l;
    CongWitness(p, a + b, a' + b', k + l);
  }

  lemma CongSub(p: int, a: int, a': int, b: int, b': int)
    requires p > 0 && Cong(p, a, a') && Cong(p, b, b')
    ensures Cong(p, a - b, a' - b')
  {
    var k, l := (a - a') / p, (b - b') / p;
    assert p * (k - l) == p * k - p * l;
    CongWitness(p, a - b, a' - b', k - l);
  }

  lemma CongMul(p: int, a: int, a': int, b: int, b': int)
    requires p > 0 && Cong(p, a, a') && Cong(p, b, b')
    ensures Cong(p, a * b, a' * b')
  {
    var k, l := (a - a') / p, (b - b') / p;
    assert a == a' + p * k && b == b' + p * l;
    calc {
      a * b - a' * b';
      (a - a') * b + a' * (b - b');
      (p * k) * b + a' * (p * l);
      p * (k * b) + p * (a' * l);
      p * (k * b + a' * l);
    }
    CongWitness(p, a * b, a' * b', k * b + a' * l);
  }

  /** If x == c * z and w is the inverse of z, then x * w == c. */
  lemma CongRatio(p: int, x: int, z: int, w: int, c: int)
    requires p > 0 && Cong(p, x, c * z) && Cong(p, z * w, 1)
    ensures Cong(p, x * w, c)
  {
    CongWitness(p, w, w, 0);
    CongWitness(p, c, c, 0);
    CongMul(p, x, c * z, w, w);
    CongMul(p, c, c, z * w, 1);
    assert (c * z) * w == c * (z * w);
    CongTrans(p, x * w, (c * z) * w, c);
  }

  /** Congruent numbers have the same canonical residue. */
  lemma CongSameMod(p: int, a: int, b: int)
    requires p > 0 && Cong(p, a, b)
    ensures a % p == b % p
  {
    var k := (a - b) / p;
    assert a == p * k + b == p * k + (p * (b / p) + b % p) == p * (k + b / p) + b % p;
    ModUnique(p, a, k + b / p, b % p);
  }

  lemma SameModCong(p: int, a: int, b: int)
    requires p > 0 && a % p == b % p
    ensures Cong(p, a, b)
  {
    assert a - b == p * (a / p) - p * (b / p) == p * (a / p - b / p);
    CongWitness(p, a, b, a / p - b / p);
  }

  lemma CongUnique(p: int, a: int, b: int)
    requires p > 0 && Cong(p, a, b) && 0 <= a < p && 0 <= b < p
    ensures a == b
  {
    SmallMultiple(p, (a - b) / p);
  }

  lemma Distribute(a: int, b: int, s: int, t: int)
    ensures a * (b * s + t) == (a * b) * s + a * t
  {
    assert a * (b * s + t) == a * (b * s) + a * t;
    assert a * (b * s) == (a * b) * s;
  }

  lemma RemainderBound(a: int, b: int, t: int)
    requires 0 < a && 0 <= t < b
    ensures 0 <= a * t <= a * b - a
  {
    assert a * b - a - a * t == a * (b - 1 - t);
    assert a * (b - 1 - t) >= 0 && a * t >= 0;
  }

  // ------------------------------------------------------------------ primes

  ghost predicate IsPrime(p: int) {
    p > 1 && forall d :: 1 < d < p ==> p % d != 0
  }

  /** Euclid's lemma, by descent on the remainders of p. */
  lemma {:induction false} EuclidSmall(p: int, a: int, b: int)
    requires IsPrime(p) && 0 < a < p && (a * b) % p == 0
    ensures b % p == 0
    decreases a
  {
    if a > 1 {
      var q, r := p / a, p % a;
      assert r * b == p * b - q * (a * b) by {
        assert p == a * q + r;
        assert p * b == (a * q + r) * b == a * q * b + r * b;
      }
      var k := a * b / p;
      assert a * b == p * k;
      assert p * b - q * (p * k) == p * (b - q * k);
      MultipleMod(p, b - q * k);
      EuclidSmall(p, r, b);
    }
  }

  lemma Euclid(p: int, a: int, b: int)
    requires IsPrime(p) && (a * b) % p == 0
    ensures a % p == 0 || b % p == 0
  {
    if a % p != 0 {
      CongMod(p, a);
      CongMul(p, a, a % p, b, b);
      CongSameMod(p, a * b, (a % p) * b);
      EuclidSmall(p, a % p, b);
    }
  }

  /** Euclid's lemma for congruence to zero. */
  lemma NonZeroMul(p: int, a: int, b: int)
    requires IsPrime(p) && !Cong(p, a, 0) && !Cong(p, b, 0)
    ensures !Cong(p, a * b, 0)
  {
    if Cong(p, a * b, 0) {
      Euclid(p, a, b);
    }
  }

  lemma Cancel(p: int, c: int, a: int, b: int)
    requires IsPrime(p) && !Cong(p, c, 0) && Cong(p, c * a, c * b)
    ensures Cong(p, a, b)
  {
    assert c * a - c * b == c * (a - b);
    Euclid(p, c, a - b);
  }

  /** The inverse by the Euclidean descent; zero where the descent finds none. */
  function InverseFrom(p: nat, a: nat): (w: int)
    requires p > 0
    ensures 0 <= w < p || p == 1
    decreases a
  {
    if a == 0 then 0
    else if a == 1 then 1
    else (-(p / a) * InverseFrom(p, p % a)) % p
  }

  lemma InverseStep(p: int, a: int, q: int, r: int, v: int)
    requires p > 0 && p == a * q + r
    ensures Cong(p, a * (-q * v), r * v)
  {
    calc {
      a * (-q * v) - r * v;
      -((a * q) * v) - r * v;
      -(a * q + r) * v;
      p * (-v);
    }
    CongWitness(p, a * (-q * v), r * v, -v);
  }

  lemma InverseCombine(p: int, a: int, q: int, r: int, v: int, w: int)
    requires p > 0 && p == a * q + r && Cong(p, w, -q * v) && Cong(p, r * v, 1)
    ensures Cong(p, a * w, 1)
  {
    CongWitness(p, a, a, 0);
    CongMul(p, a, a, w, -q * v);
    InverseStep(p, a, q, r, v);
    CongTrans(p, a * w, a * (-q * v), r * v);
    CongTrans(p, a * w, r * v, 1);
  }

  lemma PrimeRemainder(p: nat, a: nat) returns (q: int, r: nat)
    requires IsPrime(p) && 1 < a < p
    ensures q == p / a && r == p % a && p == a * q + r && 0 < r < a
  {
    q, r := p / a, p % a;
  }

  lemma InverseFromStep(p: nat, a: nat, q: int, r: nat)
    requires 1 < a < p && q == p / a && r == p % a
    ensures Cong(p, InverseFrom(p, a), -q * InverseFrom(p, r))
  {
    CongMod(p, -q * InverseFrom(p, r));
  }

  lemma {:induction false} InverseCorrect(p: nat, a: nat)
    requires IsPrime(p) && 0 < a < p
    ensures Cong(p, a * InverseFrom(p, a), 1)
    decreases a
  {
    if a == 1 {
      CongWitness(p, 1, 1, 0);
    } else {
      var q, r := PrimeRemainder(p, a);
      InverseCorrect(p, r);
      InverseFromStep(p, a, q, r);
      InverseCombine(p, a, q, r, InverseFrom(p, r), InverseFrom(p, a));
    }
  }

  /** A number that the prime q does not divide has a multiple one above a multiple of q. */
  lemma Bezout(q: nat, n: nat) returns (w: nat, t: nat)
    requires IsPrime(q) && n % q != 0
    ensures w * n == t * q + 1
  {
    var r := n % q;
    w := InverseFrom(q, r);
    InverseCorrect(q, r);
    CongMod(q, n);
    CongWitness(q, w, w, 0);
    CongMul(q, w, w, n, r);
    assert r * w == w * r;
    CongTrans(q, w * n, w * r, 1);
    t := Quotient(q, w * n);
  }

  lemma Quotient(q: nat, m: nat) returns (t: nat)
    requires q > 1 && Cong(q, m, 1)
    ensures m == t * q + 1
  {
    var k := (m - 1) / q;
    assert m == q * k + 1;
    if k < 0 {
      MulAtLeast(q, -k);
      assert false;
    }
    t := k;
  }
}
