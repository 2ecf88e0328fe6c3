/** The Montgomery ladder of section 5 of RFC 7748 as a two-branch recursion on the scalar, and the
    proof that it computes x-coordinates of multiples in any group with the curve's laws. */
module XLadder {
  import opened Modular
  import opened Bytes
  import opened Field25519
  import opened XAlgebra
  import opened XGroup

  /** The projective x-coordinate x / z. */
  datatype Pair = Pair(x: Element, z: Element)

  function XDouble(r: Pair): Pair {
    var aa := Square(Add(r.x, r.z));
    var bb := Square(Sub(r.x, r.z));
    var e := Sub(aa, bb);
    Pair(Mul(aa, bb), Mul(e, Add(aa, Mult32(e, 121665))))
  }

  function XDiffAdd(u: Element, r0: Pair, r1: Pair): Pair {
    var da := Mul(Sub(r1.x, r1.z), Add(r0.x, r0.z));
    var cb := Mul(Add(r1.x, r1.z), Sub(r0.x, r0.z));
    Pair(Square(Add(da, cb)), Mul(u, Square(Sub(da, cb))))
  }

  /** The textbook ladder: from x(mP), x((m+1)P) at m/2 to the same at m, one bit at a time. */
  function Ladder(u: Element, m: nat, start: (Pair, Pair)): (Pair, Pair) {
    if m == 0 then start
    else
      var (r0, r1) := Ladder(u, m / 2, start);
      if m % 2 == 0 then (XDouble(r0), XDiffAdd(u, r0, r1))
      else (XDiffAdd(u, r0, r1), XDouble(r1))
  }

  function Start(u: Element): (Pair, Pair) {
    (Pair(1, 0), Pair(u, 1))
  }

  /** x / z, with x / 0 = 0 as Invert(0) is 0. */
  function Ratio(r: Pair): Element {
    Mul(r.x, Invert(r.z))
  }

  /** What the scalar multiplication returns for the scalar k at the coordinate u. */
  function LadderOutput(k: nat, u: Element): Element {
    Ratio(Ladder(u, k, Start(u)).0)
  }

  // ------------------------------------------------------- polynomial form of the steps

  lemma SquareSum(x: Element, z: Element)
    ensures Cong(P, Square(Add(x, z)), (x + z) * (x + z))
    ensures Cong(P, Square(Sub(x, z)), (x - z) * (x - z))
  {
    Self(x);
    Self(z);
    AddRep(x, x, z, z);
    SubRep(x, x, z, z);
    MulRep(Add(x, z), x + z, Add(x, z), x + z);
    MulRep(Sub(x, z), x - z, Sub(x, z), x - z);
  }

  lemma DoubleZRep(aa: Element, aa': int, bb: Element, bb': int, e: Element)
    requires Cong(P, aa, aa') && Cong(P, bb, bb') && e == Sub(aa, bb)
    ensures Cong(P, Mul(e, Add(aa, Mult32(e, 121665))), (aa' - bb') * (aa' + (aa' - bb') * 121665))
  {
    var e' := aa' - bb';
    SubRep(aa, aa', bb, bb');
    Mult32Rep(e, e', 121665);
    AddRep(aa, aa', Mult32(e, 121665), e' * 121665);
    MulRep(e, e', Add(aa, Mult32(e, 121665)), aa' + e' * 121665);
  }

  lemma XDoublePoly(r: Pair)
    ensures Cong(P, XDouble(r).x, DoubleX(r.x, r.z))
    ensures Cong(P, XDouble(r).z, DoubleZ(r.x, r.z))
  {
    var x: int, z: int := r.x, r.z;
    var aa': int, bb': int := (x + z) * (x + z), (x - z) * (x - z);
    SquareSum(x, z);
    MulRep(Square(Add(x, z)), aa', Square(Sub(x, z)), bb');
    DoubleZRep(Square(Add(x, z)), aa', Square(Sub(x, z)), bb', Sub(Square(Add(x, z)), Square(Sub(x, z))));
    DoubleSchedule(x, z);
  }

  lemma CrossProducts(x0: Element, z0: Element, x1: Element, z1: Element)
    ensures Cong(P, Mul(Sub(x1, z1), Add(x0, z0)), (x1 - z1) * (x0 + z0))
    ensures Cong(P, Mul(Add(x1, z1), Sub(x0, z0)), (x1 + z1) * (x0 - z0))
  {
    Self(x0);
    Self(z0);
    Self(x1);
    Self(z1);
    AddRep(x0, x0, z0, z0);
    SubRep(x0, x0, z0, z0);
    AddRep(x1, x1, z1, z1);
    SubRep(x1, x1, z1, z1);
    MulRep(Sub(x1, z1), x1 - z1, Add(x0, z0), x0 + z0);
    MulRep(Add(x1, z1), x1 + z1, Sub(x0, z0), x0 - z0);
  }

  lemma SumAndDifferenceRep(u: Element, da: Element, da': int, cb: Element, cb': int)
    requires Cong(P, da, da') && Cong(P, cb, cb')
    ensures Cong(P, Square(Add(da, cb)), (da' + cb') * (da' + cb'))
    ensures Cong(P, Mul(u, Square(Sub(da, cb))), u * ((da' - cb') * (da' - cb')))
  {
    Self(u);
    AddRep(da, da', cb, cb');
    SubRep(da, da', cb, cb');
    MulRep(Add(da, cb), da' + cb', Add(da, cb), da' + cb');
    MulRep(Sub(da, cb), da' - cb', Sub(da, cb), da' - cb');
    MulRep(u, u, Square(Sub(da, cb)), (da' - cb') * (da' - cb'));
  }

  lemma XDiffAddPoly(u: Element, r0: Pair, r1: Pair)
    ensures Cong(P, XDiffAdd(u, r0, r1).x, DiffX(r0.x, r0.z, r1.x, r1.z))
    ensures Cong(P, XDiffAdd(u, r0, r1).z, DiffZ(u, r0.x, r0.z, r1.x, r1.z))
  {
    var x0: int, z0: int, x1: int, z1: int := r0.x, r0.z, r1.x, r1.z;
    var da': int, cb': int := (x1 - z1) * (x0 + z0), (x1 + z1) * (x0 - z0);
    CrossProducts(x0, z0, x1, z1);
    SumAndDifferenceRep(u, Mul(Sub(x1, z1), Add(x0, z0)), da', Mul(Add(x1, z1), Sub(x0, z0)), cb');
    DiffSchedule(x0, z0, x1, z1);
    DiffSquares(da' + cb', da' - cb', x0, z0, x1, z1, u);
  }

  // ------------------------------------------------------- pairs that represent points

  /** r is a projective form of the x-coordinate of g; (x : 0) with x != 0 stands for infinity. */
  ghost predicate Represents<G>(c: Group<G>, r: Pair, g: G) {
    match c.x(g)
    case None => r.z == 0 && r.x != 0
    case Some(a) => r.z != 0 && Cong(P, r.x, a * r.z)
  }

  /** A pair congruent to (X : Z) represents the point with coordinate s. */
  lemma RepresentsFinite<G>(c: Group<G>, r: Pair, X: int, Z: int, g: G)
    requires Cong(P, r.x, X) && Cong(P, r.z, Z)
    requires c.x(g).Some? && !Cong(P, Z, 0) && Cong(P, X, c.x(g).value * Z)
    ensures Represents(c, r, g)
  {
    var s := c.x(g).value;
    CongZeroTransfer(P, r.z, Z);
    ZeroRep(r.z);
    CongTrans(P, r.x, X, s * Z);
    CongSym(P, r.z, Z);
    Self(s);
    CongMul(P, s, s, Z, r.z);
    CongTrans(P, r.x, s * Z, s * r.z);
  }

  lemma RepresentsInfinity<G>(c: Group<G>, r: Pair, X: int, Z: int, g: G)
    requires Cong(P, r.x, X) && Cong(P, r.z, Z)
    requires c.x(g).None? && Cong(P, Z, 0) && !Cong(P, X, 0)
    ensures Represents(c, r, g)
  {
    CongZeroTransfer(P, r.z, Z);
    ZeroRep(r.z);
    CongZeroTransfer(P, r.x, X);
    ZeroRep(r.x);
  }

  lemma DoubleStep<G(!new)>(c: Group<G>, r: Pair, g: G)
    requires IsCurve(c) && Represents(c, r, g)
    ensures Represents(c, XDouble(r), c.add(g, g))
  {
    var X, Z := DoubleX(r.x, r.z), DoubleZ(r.x, r.z);
    XDoublePoly(r);
    GoodP();
    assert XLaw(c, g) && DoubleLaw(c, g) && Unit(c, c.zero);
    match c.x(g)
    case None =>
      ZeroRep(r.x);
      DoubleInfinity(P, r.x);
      RepresentsInfinity(c, XDouble(r), X, Z, c.add(g, g));
    case Some(a) =>
      ZeroRep(r.z);
      DoubleFinite(P, r.x, r.z, a);
      if Cong(P, DoubleDen(a), 0) {
        RepresentsInfinity(c, XDouble(r), X, Z, c.add(g, g));
      } else {
        RepresentsFinite(c, XDouble(r), X, Z, c.add(g, g));
      }
  }

  /** Two finite points with equal x-coordinates whose difference has x-coordinate u != 0 are
      opposite, and their coordinate is not a square root of 1. */
  lemma OppositePoints<G(!new)>(c: Group<G>, g: G, h: G)
    requires IsCurve(c) && c.x(g).Some? && c.x(h) == c.x(g) && c.x(c.add(h, c.neg(g))).Some?
    requires c.x(c.add(h, c.neg(g))).value != 0
    ensures !Cong(P, c.x(g).value * c.x(g).value - 1, 0)
  {
    if Cong(P, c.x(g).value * c.x(g).value - 1, 0) {
      assert DiffLaw(c, g, h) && XLaw(c, c.add(g, h));
      InverseUnique(c, g, h);
      DoubleOfRootOfOne(c, h);
      assert false;
    }
  }

  /** A point with coordinate 1 or -1 doubles to infinity or to the point (0, 0). */
  lemma DoubleOfRootOfOne<G(!new)>(c: Group<G>, h: G)
    requires IsCurve(c) && c.x(h).Some? && Cong(P, c.x(h).value * c.x(h).value - 1, 0)
    ensures c.x(c.add(h, h)).Some? ==> c.x(c.add(h, h)).value == 0
  {
    var a, s := c.x(h).value, c.x(c.add(h, h));
    assert DoubleLaw(c, h);
    if s.Some? {
      NumeratorVanishes(P, a);
      CongTrans(P, s.value * DoubleDen(a), DoubleNum(a), 0);
      Euclid(P, s.value, DoubleDen(a));
      ZeroRep(s.value);
    }
  }

  lemma NumeratorVanishes(p: int, a: int)
    requires p > 0 && Cong(p, a * a - 1, 0)
    ensures Cong(p, DoubleNum(a), 0)
  {
    CongMul(p, a * a - 1, 0, a * a - 1, 0);
  }

  lemma DiffStep<G(!new)>(c: Group<G>, u: Element, r0: Pair, g: G, r1: Pair, h: G)
    requires IsCurve(c) && Represents(c, r0, g) && Represents(c, r1, h)
    requires u != 0 && c.x(c.add(h, c.neg(g))) == Some(u)
    ensures Represents(c, XDiffAdd(u, r0, r1), c.add(g, h))
  {
    XDiffAddPoly(u, r0, r1);
    GoodP();
    ZeroRep(u);
    assert XLaw(c, g) && XLaw(c, h) && XLaw(c, c.zero) && Unit(c, g);
    if c.x(g).None? {
      DiffFromInfinity(c, u, r0, g, r1, h);
    } else if c.x(h).None? {
      DiffToInfinity(c, u, r0, g, r1, h);
    } else {
      DiffBothFinite(c, u, r0, g, r1, h);
    }
  }

  lemma DiffFromInfinity<G(!new)>(c: Group<G>, u: Element, r0: Pair, g: G, r1: Pair, h: G)
    requires IsCurve(c) && Represents(c, r0, g) && Represents(c, r1, h) && g == c.zero && c.x(g).None?
    requires u != 0 && c.x(c.add(h, c.neg(g))) == Some(u)
    ensures Represents(c, XDiffAdd(u, r0, r1), c.add(g, h))
  {
    ZeroLeft(c, c.neg(c.zero));
    ZeroLeft(c, h);
    assert Unit(c, c.zero) && Unit(c, h);
    XDiffAddPoly(u, r0, r1);
    GoodP();
    ZeroRep(u);
    ZeroRep(r0.x);
    ZeroRep(r1.z);
    DiffInfinity(P, u, r0.x, r1.x, r1.z);
    RepresentsFinite(c, XDiffAdd(u, r0, r1), DiffX(r0.x, 0, r1.x, r1.z), DiffZ(u, r0.x, 0, r1.x, r1.z), h);
  }

  lemma DiffToInfinity<G(!new)>(c: Group<G>, u: Element, r0: Pair, g: G, r1: Pair, h: G)
    requires IsCurve(c) && Represents(c, r0, g) && Represents(c, r1, h) && h == c.zero && c.x(h).None?
    requires u != 0 && c.x(c.add(h, c.neg(g))) == Some(u)
    ensures Represents(c, XDiffAdd(u, r0, r1), c.add(g, h))
  {
    ZeroLeft(c, c.neg(g));
    assert Unit(c, g) && XLaw(c, g);
    XDiffAddPoly(u, r0, r1);
    GoodP();
    ZeroRep(u);
    ZeroRep(r1.x);
    ZeroRep(r0.z);
    DiffInfinity(P, u, r1.x, r0.x, r0.z);
    RepresentsFinite(c, XDiffAdd(u, r0, r1), DiffX(r0.x, r0.z, r1.x, 0), DiffZ(u, r0.x, r0.z, r1.x, 0), g);
  }

  lemma DiffBothFinite<G(!new)>(c: Group<G>, u: Element, r0: Pair, g: G, r1: Pair, h: G)
    requires IsCurve(c) && Represents(c, r0, g) && Represents(c, r1, h) && c.x(g).Some? && c.x(h).Some?
    requires u != 0 && c.x(c.add(h, c.neg(g))) == Some(u)
    ensures Represents(c, XDiffAdd(u, r0, r1), c.add(g, h))
  {
    var a, b := c.x(g).value, c.x(h).value;
    var X, Z := DiffX(r0.x, r0.z, r1.x, r1.z), DiffZ(u, r0.x, r0.z, r1.x, r1.z);
    XDiffAddPoly(u, r0, r1);
    GoodP();
    ZeroRep(u);
    ZeroRep(r0.z);
    ZeroRep(r1.z);
    assert DiffLaw(c, g, h);
    if a == b {
      OppositePoints(c, g, h);
      DiffEqual(P, u, r0.x, r0.z, a, r1.x, r1.z);
      RepresentsInfinity(c, XDiffAdd(u, r0, r1), X, Z, c.add(g, h));
    } else {
      if Cong(P, a, b) { CongUnique(P, a, b); }
      DiffFinite(P, u, r0.x, r0.z, a, r1.x, r1.z, b, c.x(c.add(g, h)).value);
      RepresentsFinite(c, XDiffAdd(u, r0, r1), X, Z, c.add(g, h));
    }
  }

  // ------------------------------------------------------- the ladder invariant

  /** After the bits of m, the two pairs represent mg and (m+1)g. */
  lemma {:induction false} LadderInvariant<G(!new)>(c: Group<G>, u: Element, m: nat, g: G)
    requires IsCurve(c) && c.x(g) == Some(u) && u != 0
    ensures Represents(c, Ladder(u, m, Start(u)).0, Times(c, m, g))
    ensures Represents(c, Ladder(u, m, Start(u)).1, Times(c, m + 1, g))
  {
    if m == 0 {
      assert XLaw(c, c.zero);
      TimesOne(c, g);
      Self(u);
    } else {
      var h := m / 2;
      var (r0, r1) := Ladder(u, h, Start(u));
      LadderInvariant(c, u, h, g);
      LadderStep(c, u, r0, r1, h, g);
      assert m == if m % 2 == 0 then 2 * h else 2 * h + 1;
    }
  }

  /** One bit: from hg and (h+1)g to 2hg, (2h+1)g and (2h+2)g. */
  lemma LadderStep<G(!new)>(c: Group<G>, u: Element, r0: Pair, r1: Pair, h: nat, g: G)
    requires IsCurve(c) && c.x(g) == Some(u) && u != 0
    requires Represents(c, r0, Times(c, h, g)) && Represents(c, r1, Times(c, h + 1, g))
    ensures Represents(c, XDouble(r0), Times(c, 2 * h, g))
    ensures Represents(c, XDiffAdd(u, r0, r1), Times(c, 2 * h + 1, g))
    ensures Represents(c, XDouble(r1), Times(c, 2 * h + 2, g))
  {
    LadderSum(c, u, r0, r1, h, g);
    LadderDouble(c, r0, h, g);
    LadderDouble(c, r1, h + 1, g);
  }

  lemma LadderSum<G(!new)>(c: Group<G>, u: Element, r0: Pair, r1: Pair, h: nat, g: G)
    requires IsCurve(c) && c.x(g) == Some(u) && u != 0
    requires Represents(c, r0, Times(c, h, g)) && Represents(c, r1, Times(c, h + 1, g))
    ensures Represents(c, XDiffAdd(u, r0, r1), Times(c, 2 * h + 1, g))
  {
    AddSub(c, Times(c, h, g), g);
    DiffStep(c, u, r0, Times(c, h, g), r1, Times(c, h + 1, g));
    TimesAdd(c, h, h + 1, g);
  }

  lemma LadderDouble<G(!new)>(c: Group<G>, r: Pair, h: nat, g: G)
    requires IsCurve(c) && Represents(c, r, Times(c, h, g))
    ensures Represents(c, XDouble(r), Times(c, 2 * h, g))
  {
    DoubleStep(c, r, Times(c, h, g));
    TimesAdd(c, h, h, g);
  }

  /** The x-coordinate of a point, with infinity sent to 0. */
  ghost function XOrZero<G>(c: Group<G>, g: G): Element {
    match c.x(g) case None => 0 case Some(a) => a
  }

  /** The ladder computes scalar multiplication. */
  lemma LadderMultiplies<G(!new)>(c: Group<G>, u: Element, k: nat, g: G)
    requires IsCurve(c) && c.x(g) == Some(u) && u != 0
    ensures LadderOutput(k, u) == XOrZero(c, Times(c, k, g))
  {
    LadderInvariant(c, u, k, g);
    var r := Ladder(u, k, Start(u)).0;
    match c.x(Times(c, k, g))
    case None => RatioZero(r.x);
    case Some(a) => RatioCorrect(r.x, r.z, a);
  }

  lemma RatioZero(x: Element)
    ensures Ratio(Pair(x, 0)) == 0
  {
    assert Invert(0) == 0 && x * 0 == 0;
    ModUnique(P, 0, 0, 0);
  }

  // ------------------------------------------------------- rescaling does not matter

  /** r' is r with both registers multiplied by c. */
  ghost predicate ScaledBy(r: Pair, c: int, r': Pair) {
    !Cong(P, c, 0) && Cong(P, r'.x, c * r.x) && Cong(P, r'.z, c * r.z)
  }

  lemma ScaledDouble(r: Pair, c: int, r': Pair)
    requires IsPrime(P) && ScaledBy(r, c, r')
    ensures ScaledBy(XDouble(r), Fourth(c), XDouble(r'))
  {
    XDoublePoly(r);
    XDoublePoly(r');
    FourthNonZero(P, c);
    DoubleCongBoth(P, r'.x, c * r.x, r'.z, c * r.z);
    DoubleScale(c, r.x, r.z);
    ScaleTransfer(P, XDouble(r').x, DoubleX(r'.x, r'.z), Fourth(c), DoubleX(r.x, r.z), XDouble(r).x);
    ScaleTransfer(P, XDouble(r').z, DoubleZ(r'.x, r'.z), Fourth(c), DoubleZ(r.x, r.z), XDouble(r).z);
  }

  lemma ScaledDiffAdd(u: Element, r0: Pair, c: int, r0': Pair, r1: Pair, d: int, r1': Pair)
    requires IsPrime(P) && ScaledBy(r0, c, r0') && ScaledBy(r1, d, r1')
    ensures ScaledBy(XDiffAdd(u, r0, r1), (c * d) * (c * d), XDiffAdd(u, r0', r1'))
  {
    XDiffAddPoly(u, r0, r1);
    XDiffAddPoly(u, r0', r1');
    var w := (c * d) * (c * d);
    NonZeroMul(P, c, d);
    NonZeroMul(P, c * d, c * d);
    DiffCongAll(P, u, r0'.x, c * r0.x, r0'.z, c * r0.z, r1'.x, d * r1.x, r1'.z, d * r1.z);
    DiffScale(u, c, r0.x, r0.z, d, r1.x, r1.z);
    ScaleTransfer(P, XDiffAdd(u, r0', r1').x, DiffX(r0'.x, r0'.z, r1'.x, r1'.z), w,
                  DiffX(r0.x, r0.z, r1.x, r1.z), XDiffAdd(u, r0, r1).x);
    ScaleTransfer(P, XDiffAdd(u, r0', r1').z, DiffZ(u, r0'.x, r0'.z, r1'.x, r1'.z), w,
                  DiffZ(u, r0.x, r0.z, r1.x, r1.z), XDiffAdd(u, r0, r1).z);
  }

  lemma ScaleTransfer(p: int, a': int, b': int, w: int, b: int, a: int)
    requires p > 0 && Cong(p, a', b') && Cong(p, b', w * b) && Cong(p, a, b)
    ensures Cong(p, a', w * a)
  {
    CongTrans(p, a', b', w * b);
    CongSym(p, a, b);
    CongWitness(p, w, w, 0);
    CongMul(p, w, w, b, a);
    CongTrans(p, a', w * b, w * a);
  }

  /** Multiplying each start pair by a non-zero factor multiplies each final pair by one. */
  lemma {:induction false} RescaledLadder(u: Element, m: nat, s: (Pair, Pair), c0: int, c1: int, s': (Pair, Pair))
    returns (d0: int, d1: int)
    requires IsPrime(P) && ScaledBy(s.0, c0, s'.0) && ScaledBy(s.1, c1, s'.1)
    ensures ScaledBy(Ladder(u, m, s).0, d0, Ladder(u, m, s').0)
    ensures ScaledBy(Ladder(u, m, s).1, d1, Ladder(u, m, s').1)
  {
    if m == 0 {
      d0, d1 := c0, c1;
    } else {
      var e0, e1 := RescaledLadder(u, m / 2, s, c0, c1, s');
      var (r0, r1) := Ladder(u, m / 2, s);
      var (r0', r1') := Ladder(u, m / 2, s');
      ScaledDiffAdd(u, r0, e0, r0', r1, e1, r1');
      if m % 2 == 0 {
        ScaledDouble(r0, e0, r0');
        d0, d1 := Fourth(e0), (e0 * e1) * (e0 * e1);
      } else {
        ScaledDouble(r1, e1, r1');
        d0, d1 := (e0 * e1) * (e0 * e1), Fourth(e1);
      }
    }
  }

  lemma ScaledZero(r: Pair, c: int, r': Pair)
    requires IsPrime(P) && ScaledBy(r, c, r')
    ensures r.z == 0 <==> r'.z == 0
  {
    ZeroRep(r.z);
    ZeroRep(r'.z);
    CongZeroTransfer(P, r'.z, c * r.z);
    if r.z == 0 {
      assert c * r.z == 0;
    } else {
      NonZeroMul(P, c, r.z);
    }
  }

  /** The ratio of a pair does not change when both registers are multiplied by a non-zero factor. */
  lemma RescaledRatio(r: Pair, c: int, r': Pair)
    requires IsPrime(P) && ScaledBy(r, c, r')
    ensures Ratio(r') == Ratio(r)
  {
    ScaledZero(r, c, r');
    if r.z == 0 {
      RatioZero(r.x);
      RatioZero(r'.x);
    } else {
      var t := Ratio(r);
      RatioOf(r);
      TransferRatio(P, r.x, r.z, c, r'.x, r'.z, t);
      RatioCorrect(r'.x, r'.z, t);
    }
  }

  /** x == (x / z) z for z != 0. */
  lemma RatioOf(r: Pair)
    requires IsPrime(P) && r.z != 0
    ensures Cong(P, r.x, Ratio(r) * r.z)
  {
    InvertCorrect(r.z);
    CongMod(P, r.x * Invert(r.z));
    UndoRatio(P, r.x, r.z, Invert(r.z), Ratio(r));
  }

  lemma UndoRatio(p: int, x: int, z: int, w: int, t: int)
    requires p > 0 && Cong(p, z * w, 1) && Cong(p, t, x * w)
    ensures Cong(p, x, t * z)
  {
    CongWitness(p, z, z, 0);
    CongWitness(p, x, x, 0);
    CongMul(p, t, x * w, z, z);
    CongMul(p, x, x, z * w, 1);
    assert (x * w) * z == x * (z * w);
    CongTrans(p, t * z, x * (z * w), x);
    CongSym(p, t * z, x);
  }

  lemma TransferRatio(p: int, x: int, z: int, c: int, x': int, z': int, t: int)
    requires p > 0 && Cong(p, x, t * z) && Cong(p, x', c * x) && Cong(p, z', c * z)
    ensures Cong(p, x', t * z')
  {
    CongWitness(p, c, c, 0);
    CongWitness(p, t, t, 0);
    CongMul(p, c, c, x, t * z);
    CongTrans(p, x', c * x, c * (t * z));
    CongMul(p, t, t, z', c * z);
    CongSym(p, t * z', t * (c * z));
    assert c * (t * z) == t * (c * z);
    CongTrans(p, x', t * (c * z), t * z');
  }

  /** Any non-zero projective form of the starting pairs gives the same output for every scalar. */
  lemma RescaledOutput(u: Element, k: nat, s': (Pair, Pair), c0: int, c1: int)
    requires IsPrime(P) && ScaledBy(Start(u).0, c0, s'.0) && ScaledBy(Start(u).1, c1, s'.1)
    ensures Ratio(Ladder(u, k, s').0) == LadderOutput(k, u)
  {
    var d0, d1 := RescaledLadder(u, k, Start(u), c0, c1, s');
    RescaledRatio(Ladder(u, k, Start(u)).0, d0, Ladder(u, k, s').0);
  }
}
