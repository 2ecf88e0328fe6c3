/** elligator2Curve25519 of crypto.go: the map of Appendix A.5 of draft-irtf-cfrg-cpace-21, with Z = 2,
    and the proof that every input lands on the curve. */
module Elligator {
  import opened Modular
  import opened Bytes
  import opened Field25519
  import opened XAlgebra
  import opened XGroup
  import opened Fermat

  /** SqrtRatio(x, 1) reports a root exactly if x is a square (zero included). */
  predicate HasRoot(x: Element) {
    exists b: int :: 0 <= b < P && Square(b) == x
  }

  /** The curve's right-hand side x^3 + A x^2 + x. */
  function RightHandSide(v: Element): Element {
    var v2 := Square(v);
    Add(Add(Mul(v2, v), Mul(A, v2)), v)
  }

  function Denominator(r: Element): Element {
    Add(Mul(2, Square(r)), 1)
  }

  /** v = -A / (1 + 2 r^2) */
  function Candidate(r: Element): Element {
    Neg(Mul(Invert(Denominator(r)), A))
  }

  /** The quadratic character: 1 on non-zero squares, -1 on non-squares, 0 on zero. */
  function Character(x: Element): int {
    if x == 0 then 0 else if HasRoot(x) then 1 else -1
  }

  /** The draft's formula e v - (1 - e) A/2 with e the character of the right-hand side at v. */
  function DraftMap(r: Element): Element {
    var v := Candidate(r);
    var e := Character(RightHandSide(v));
    (e * v - (1 - e) * 243331) % P
  }

  function Select(a: Element, b: Element, cond: bool): Element {
    if cond then a else b
  }

  method Elligator2Curve25519(encodedR: bytes) returns (out: bytes)
    requires |encodedR| == POINT_SIZE
    ensures out == ToBytes(DraftMap(SetBytes(encodedR)))
  {
    var r := SetBytes(encodedR);
    var one: Element, two: Element, a: Element, halfA: Element := 1, 2, 486662, 243331;

    var r2 := Square(r);
    var denominator := Mul(two, r2);
    denominator := Add(denominator, one);
    var v := Invert(denominator);
    v := Mul(v, a);
    v := Neg(v);

    var v2 := Square(v);
    var v3 := Mul(v2, v);
    var av2 := Mul(a, v2);
    var rhs := Add(v3, av2);
    rhs := Add(rhs, v);

    var wasSquare := HasRoot(rhs);
    var squareX := v;
    var nonSquareX := Neg(v);
    nonSquareX := Sub(nonSquareX, a);
    var zeroX := Neg(halfA);

    var x := Select(squareX, nonSquareX, wasSquare);
    x := Select(zeroX, x, rhs == 0);
    assert v == Candidate(r) && rhs == RightHandSide(v);
    SelectIsDraft(v, rhs);
    return ToBytes(x);
  }

  /** The two selects are the draft's formula. */
  lemma SelectIsDraft(v: Element, rhs: Element)
    ensures Select(Neg(243331), Select(v, Sub(Neg(v), A), HasRoot(rhs)), rhs == 0)
         == (Character(rhs) * v - (1 - Character(rhs)) * 243331) % P
  {
    if rhs != 0 && !HasRoot(rhs) {
      assert Character(rhs) * v - (1 - Character(rhs)) * 243331 == 0 - v - 486662;
      CongMod(P, 0 - v);
      CongSub(P, Neg(v), 0 - v, A, A);
      CongSameMod(P, Neg(v) - A, 0 - v - A);
    } else if rhs != 0 {
      assert Character(rhs) * v - (1 - Character(rhs)) * 243331 == v;
      ModUnique(P, v, 0, v);
    }
  }

  // ------------------------------------------------------- assumptions about the constants

  /** P is prime and A^2 - 4 is not a square modulo P. */
  ghost predicate CurveConstants() {
    IsPrime(P) && !IsSquare(P, A * A - 4)
  }

  /** A square root of -1 modulo P. */
  const SQRT_M1: int := 19681161376707505956807079304988542015446066515923890162744021073123829784752

  lemma SqrtMinusOne()
    requires IsPrime(P)
    ensures EulerPrime(P, SQRT_M1)
  {
    PIs();
    assert P == 57896044618658097711785492504343953926634992332820282019728792003956564819949;
    assert (19681161376707505956807079304988542015446066515923890162744021073123829784752
            * 19681161376707505956807079304988542015446066515923890162744021073123829784752 + 1)
           % 57896044618658097711785492504343953926634992332820282019728792003956564819949 == 0;
  }

  // ------------------------------------------------------- squares

  lemma HasRootIsSquare(x: Element, n: int)
    requires Cong(P, x, n)
    ensures HasRoot(x) <==> IsSquare(P, n)
  {
    if HasRoot(x) {
      var b: int :| 0 <= b < P && Square(b) == x;
      CongMod(P, b * b);
      CongTrans(P, b * b, x, n);
      assert SquareRoot(P, b, n);
    }
    if IsSquare(P, n) {
      var b :| SquareRoot(P, b, n);
      CongMod(P, b);
      CongMul(P, b % P, b, b % P, b);
      CongTrans(P, (b % P) * (b % P), b * b, n);
      CongSym(P, x, n);
      CongTrans(P, (b % P) * (b % P), n, x);
      CongSameMod(P, (b % P) * (b % P), x);
      ModUnique(P, x, 0, x);
      assert Square(b % P) == x;
    }
  }

  // ------------------------------------------------------- the polynomial argument, modulo any p

  function Rhs(v: int): int {
    v * v * v + A * (v * v) + v
  }

  lemma RhsFactor(v: int)
    ensures Rhs(v) == v * (v * v + A * v + 1)
  {
  }

  /** If v (1 + w) == -A, the other candidate -v - A is w v, and its right-hand side is w times that of v. */
  lemma OtherCandidate(p: int, w: int, v: int)
    requires p > 0 && Cong(p, v * (1 + w), -A)
    ensures Cong(p, Rhs(-v - A), w * Rhs(v))
  {
    var x, s := -v - A, v * v + A * v + 1;
    assert x * x + A * x + 1 == s by {
      assert x * x + A * x == x * (x + A);
      assert x * (x + A) == (-v - A) * (-v);
    }
    RhsFactor(x);
    RhsFactor(v);
    assert v * (1 + w) == v + w * v;
    CongWitness(p, v, v, 0);
    CongSub(p, v * (1 + w), -A, v, v);
    CongSym(p, w * v, x);
    CongWitness(p, s, s, 0);
    CongMul(p, x, w * v, s, s);
    assert (w * v) * s == w * (v * s);
  }

  /** A number that is twice a non-zero square is not a square. */
  lemma TwiceSquare(p: int, im: int, r: int)
    requires EulerPrime(p, im) && !Cong(p, r, 0)
    ensures !IsSquare(p, 2 * (r * r))
  {
    if IsSquare(p, 2 * (r * r)) {
      var c :| SquareRoot(p, c, 2 * (r * r));
      NotTwice(p, im, r, c);
      assert false;
    }
  }

  lemma NotTwice(p: int, im: int, r: int, c: int)
    requires EulerPrime(p, im) && !Cong(p, r, 0)
    ensures !Cong(p, c * c, 2 * (r * r))
  {
    if Cong(p, c * c, 2 * (r * r)) {
      NonZeroMul(p, r, r);
      CongWitness(p, r * r, r * r, 0);
      assert SquareRoot(p, r, r * r);
      var j := DivideOut(p, c, r, r * r);
      CongSym(p, c * c, j * j * (r * r));
      CongTrans(p, j * j * (r * r), c * c, 2 * (r * r));
      assert j * j * (r * r) == (r * r) * (j * j) && 2 * (r * r) == (r * r) * 2;
      Cancel(p, r * r, j * j, 2);
      assert SquareRoot(p, j, 2);
      TwoNonSquare(p, im);
      assert false;
    }
  }

  /** 1 + 2 r^2 is never zero: otherwise 2 would be a square. */
  lemma DenominatorInt(p: int, im: int, r: int)
    requires EulerPrime(p, im)
    ensures !Cong(p, 2 * (r * r) + 1, 0)
  {
    if Cong(p, 2 * (r * r) + 1, 0) {
      if Cong(p, r, 0) {
        CongMul(p, r, 0, r, 0);
        CongWitness(p, 2, 2, 0);
        CongMul(p, 2, 2, r * r, 0);
        CongSub(p, 2 * (r * r) + 1, 0, 2 * (r * r), 0);
        OneNonZero(p);
        assert false;
      }
      CongSub(p, 2 * (r * r) + 1, 0, 1, 1);
      CongSym(p, 2 * (r * r), -1);
      CongTrans(p, im * im, -1, 2 * (r * r));
      NotTwice(p, im, r, im);
      assert false;
    }
  }

  /** The right-hand side at the candidate is not zero. */
  lemma RhsNonZero(p: int, d: int, v: int)
    requires IsPrime(p) && !IsSquare(p, A * A - 4) && !Cong(p, A, 0) && Cong(p, v * d, -A)
    ensures !Cong(p, Rhs(v), 0)
  {
    if Cong(p, Rhs(v), 0) {
      RhsFactor(v);
      Euclid(p, v, v * v + A * v + 1);
      if Cong(p, v, 0) {
        CongWitness(p, d, d, 0);
        CongMul(p, v, 0, d, d);
        CongSym(p, v * d, -A);
        CongTrans(p, -A, v * d, 0);
        CongSub(p, 0, 0, -A, 0);
        assert false;
      }
      CompleteSquare(p, v);
      assert false;
    }
  }

  lemma CompleteSquare(p: int, v: int)
    requires p > 0 && Cong(p, v * v + A * v + 1, 0)
    ensures IsSquare(p, A * A - 4)
  {
    var s := 2 * v + A;
    assert s * s - (A * A - 4) == 4 * (v * v + A * v + 1) by {
      assert s * s == 4 * (v * v) + 4 * (A * v) + A * A;
    }
    CongWitness(p, 4, 4, 0);
    CongMul(p, 4, 4, v * v + A * v + 1, 0);
    assert SquareRoot(p, s, A * A - 4);
  }

  /** Whichever candidate the map selects, its right-hand side is a square. */
  lemma SelectedIsSquare(p: int, im: int, r: int, v: int)
    requires EulerPrime(p, im) && Cong(p, v * (1 + 2 * (r * r)), -A) && !IsSquare(p, Rhs(v))
    ensures IsSquare(p, Rhs(-v - A))
  {
    var w := 2 * (r * r);
    OtherCandidate(p, w, v);
    if Cong(p, r, 0) {
      CongMul(p, r, 0, r, 0);
      CongWitness(p, 2, 2, 0);
      CongMul(p, 2, 2, r * r, 0);
      CongWitness(p, Rhs(v), Rhs(v), 0);
      CongMul(p, w, 0, Rhs(v), Rhs(v));
      CongTrans(p, Rhs(-v - A), w * Rhs(v), 0);
      ZeroIsSquare(p, Rhs(-v - A));
    } else {
      TwiceSquare(p, im, r);
      NonSquareProduct(p, im, w, Rhs(v));
      SquareTransfer(p, w * Rhs(v), Rhs(-v - A));
    }
  }

  lemma SquareTransfer(p: int, a: int, b: int)
    requires p > 0 && IsSquare(p, a) && Cong(p, b, a)
    ensures IsSquare(p, b)
  {
    var c :| SquareRoot(p, c, a);
    CongSym(p, b, a);
    CongTrans(p, c * c, a, b);
    assert SquareRoot(p, c, b);
  }

  // ------------------------------------------------------- the map

  lemma DenominatorRep(r: Element)
    ensures Cong(P, Denominator(r), 2 * (r * r) + 1)
  {
    Self(r);
    Self(2);
    Self(1);
    MulRep(r, r, r, r);
    MulRep(2, 2, Square(r), r * r);
    AddRep(Mul(2, Square(r)), 2 * (r * r), 1, 1);
  }

  /** The denominator that the map inverts is never zero. */
  lemma DenominatorNonZero(r: Element)
    requires IsPrime(P)
    ensures Denominator(r) != 0
  {
    SqrtMinusOne();
    DenominatorInt(P, SQRT_M1, r);
    DenominatorRep(r);
    CongZeroTransfer(P, Denominator(r), 2 * (r * r) + 1);
    ZeroRep(Denominator(r));
  }

  /** v (1 + 2 r^2) == -A */
  lemma CandidateRep(r: Element)
    requires IsPrime(P)
    ensures Cong(P, Candidate(r) * (1 + 2 * (r * r)), -A)
  {
    var d := Denominator(r);
    var i, v := Invert(d), Candidate(r);
    DenominatorNonZero(r);
    InvertCorrect(d);
    DenominatorRep(r);
    Self(i);
    Self(A);
    MulRep(i, i, A, A);
    NegRep(Mul(i, A), i * A);
    CandidateAlgebra(P, d, 2 * (r * r) + 1, i, v);
  }

  lemma CandidateAlgebra(p: int, d: int, d': int, i: int, v: int)
    requires p > 0 && Cong(p, d * i, 1) && Cong(p, v, -(i * A)) && Cong(p, d, d')
    ensures Cong(p, v * d', -A)
  {
    CongSym(p, d, d');
    CongMul(p, v, -(i * A), d', d);
    assert (-(i * A)) * d == (-A) * (d * i);
    CongWitness(p, -A, -A, 0);
    CongMul(p, -A, -A, d * i, 1);
    CongTrans(p, v * d', (-A) * (d * i), -A);
  }

  lemma RightHandSideRep(v: Element)
    ensures Cong(P, RightHandSide(v), Rhs(v))
  {
    Self(v);
    Self(A);
    MulRep(v, v, v, v);
    MulRep(Square(v), v * v, v, v);
    MulRep(A, A, Square(v), v * v);
    AddRep(Mul(Square(v), v), v * v * v, Mul(A, Square(v)), A * (v * v));
    AddRep(Add(Mul(Square(v), v), Mul(A, Square(v))), v * v * v + A * (v * v), v, v);
  }

  lemma ANonZero()
    ensures !Cong(P, A, 0)
  {
    ModUnique(P, A, 0, A);
  }

  /** The degenerate branch, where the right-hand side is zero, is never taken. */
  lemma NeverDegenerate(r: Element)
    requires CurveConstants()
    ensures RightHandSide(Candidate(r)) != 0
  {
    var v := Candidate(r);
    CandidateRep(r);
    ANonZero();
    RhsNonZero(P, 1 + 2 * (r * r), v);
    RightHandSideRep(v);
    CongZeroTransfer(P, RightHandSide(v), Rhs(v));
    ZeroRep(RightHandSide(v));
  }

  /** Which of the two candidates the map selects: the one with v (1 + 2 r^2) == -A if the curve's
      right-hand side there is a square, and the other, -v - A, if not. */
  lemma MapSelects(r: Element)
    requires CurveConstants()
    ensures exists v: int ::
              && Cong(P, v * (1 + 2 * (r * r)), -486662)
              && Cong(P, DraftMap(r), if IsSquare(P, Rhs(v)) then v else -v - 486662)
  {
    var v: int := Candidate(r);
    var y := RightHandSide(v);
    CandidateRep(r);
    NeverDegenerate(r);
    RightHandSideRep(v);
    HasRootIsSquare(y, Rhs(v));
    if HasRoot(y) {
      assert Character(y) * v - (1 - Character(y)) * 243331 == v;
      CongMod(P, v);
    } else {
      assert Character(y) * v - (1 - Character(y)) * 243331 == -v - A;
      CongMod(P, -v - A);
    }
  }

  /** The defining equation of the result x: x (1 + 2 r^2) == -A or (x + A)(1 + 2 r^2) == A, the first
      exactly if the right-hand side at the solution of v (1 + 2 r^2) == -A is a square. */
  lemma MapEquation(r: Element, v: int)
    requires CurveConstants() && Cong(P, v * (1 + 2 * (r * r)), -486662)
    ensures var x: int := DraftMap(r);
            if IsSquare(P, Rhs(v)) then Cong(P, x, v) && Cong(P, x * (1 + 2 * (r * r)), -486662)
            else Cong(P, x, -v - 486662) && Cong(P, (x + 486662) * (1 + 2 * (r * r)), 486662)
  {
    MapSelects(r);
    var d := 1 + 2 * (r * r);
    var w: int :| Cong(P, w * d, -486662) && Cong(P, DraftMap(r), if IsSquare(P, Rhs(w)) then w else -w - 486662);
    SqrtMinusOne();
    DenominatorInt(P, SQRT_M1, r);
    SameSolution(P, d, v, w);
    RhsCong(P, v, w);
    RhsCong(P, w, v);
    if IsSquare(P, Rhs(v)) { SquareTransfer(P, Rhs(v), Rhs(w)); }
    if IsSquare(P, Rhs(w)) { SquareTransfer(P, Rhs(w), Rhs(v)); }
    EquationOf(P, d, v, w, DraftMap(r), IsSquare(P, Rhs(v)));
  }

  lemma SameSolution(p: int, d: int, v: int, w: int)
    requires IsPrime(p) && !Cong(p, d, 0) && Cong(p, v * d, -486662) && Cong(p, w * d, -486662)
    ensures Cong(p, v, w) && Cong(p, w, v)
  {
    CongSym(p, w * d, -486662);
    CongTrans(p, v * d, -486662, w * d);
    assert v * d == d * v && w * d == d * w;
    Cancel(p, d, v, w);
    CongSym(p, v, w);
  }

  lemma EquationOf(p: int, d: int, v: int, w: int, x: int, square: bool)
    requires p > 0 && Cong(p, v * d, -486662) && Cong(p, w, v) && Cong(p, x, if square then w else -w - 486662)
    ensures if square then Cong(p, x, v) && Cong(p, x * d, -486662)
            else Cong(p, x, -v - 486662) && Cong(p, (x + 486662) * d, 486662)
  {
    CongWitness(p, d, d, 0);
    if square {
      CongTrans(p, x, w, v);
      CongMul(p, x, v, d, d);
      CongTrans(p, x * d, v * d, -486662);
    } else {
      CongWitness(p, -486662, -486662, 0);
      CongSub(p, -486662, -486662, w, v);
      assert -486662 - w == -w - 486662 && -486662 - v == -v - 486662;
      CongTrans(p, x, -w - 486662, -v - 486662);
      CongWitness(p, 486662, 486662, 0);
      CongAdd(p, x, -v - 486662, 486662, 486662);
      CongMul(p, x + 486662, -v, d, d);
      CongWitness(p, 0, 0, 0);
      CongSub(p, 0, 0, v * d, -486662);
      assert (-v) * d == 0 - v * d;
      CongTrans(p, (x + 486662) * d, 0 - v * d, 486662);
    }
  }

  /** Every input is mapped to the x-coordinate of a point of the curve. */
  lemma MapLandsOnCurve(r: Element)
    requires CurveConstants()
    ensures OnCurve(DraftMap(r))
  {
    var v: int := Candidate(r);
    var y := RightHandSide(v);
    NeverDegenerate(r);
    RightHandSideRep(v);
    HasRootIsSquare(y, Rhs(v));
    if HasRoot(y) {
      assert Character(y) * v - (1 - Character(y)) * 243331 == v;
      ModUnique(P, v, 0, v);
    } else {
      assert Character(y) * v - (1 - Character(y)) * 243331 == -v - A;
      SqrtMinusOne();
      CandidateRep(r);
      SelectedIsSquare(P, SQRT_M1, r, v);
      CongMod(P, -v - A);
      RhsCong(P, DraftMap(r), -v - A);
      SquareTransfer(P, Rhs(-v - A), Rhs(DraftMap(r)));
    }
  }

  lemma RhsCong(p: int, a: int, b: int)
    requires p > 0 && Cong(p, a, b)
    ensures Cong(p, Rhs(a), Rhs(b))
  {
    CongMul(p, a, b, a, b);
    CongMul(p, a * a, b * b, a, b);
    CongWitness(p, A, A, 0);
    CongMul(p, A, A, a * a, b * b);
    CongAdd(p, a * a * a, b * b * b, A * (a * a), A * (b * b));
    CongAdd(p, a * a * a + A * (a * a), b * b * b + A * (b * b), a, b);
  }
}
