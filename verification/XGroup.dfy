/** The assumptions about Curve25519 and its quadratic twist, all in one place, and the group
    arithmetic that follows from them.

    A point group is known here only through its abelian group laws and the affine x-coordinate
    laws of doubling and differential addition. None of this is asserted of any particular
    group: each theorem that needs it takes a group with these laws as a hypothesis. */
module XGroup {
  import opened Modular
  import opened Bytes
  import opened Field25519
  import opened XAlgebra
  import Fermat

  datatype Group<!G> = Group(zero: G, add: (G, G) -> G, neg: G -> G, x: G -> Option<Element>)

  // Each law is a named predicate on its points, so that a proof instantiates it by name.

  ghost predicate Assoc<G>(c: Group<G>, g: G, h: G, k: G) {
    c.add(c.add(g, h), k) == c.add(g, c.add(h, k))
  }

  ghost predicate Comm<G>(c: Group<G>, g: G, h: G) {
    c.add(g, h) == c.add(h, g)
  }

  ghost predicate Unit<G>(c: Group<G>, g: G) {
    c.add(g, c.zero) == g && c.add(g, c.neg(g)) == c.zero
  }

  /** Infinity is the only point without an x-coordinate, and -g has the x-coordinate of g. */
  ghost predicate XLaw<G>(c: Group<G>, g: G) {
    (c.x(g).None? <==> g == c.zero) && c.x(c.neg(g)) == c.x(g)
  }

  /** Affine doubling: x(2g) = (a^2 - 1)^2 / 4a(a^2 + Aa + 1), infinity where the denominator is 0. */
  ghost predicate DoubleLaw<G>(c: Group<G>, g: G) {
    c.x(g).Some? ==>
      var a, s := c.x(g).value, c.x(c.add(g, g));
      if Cong(P, DoubleDen(a), 0) then s.None?
      else s.Some? && Cong(P, s.value * DoubleDen(a), DoubleNum(a))
  }

  /** Affine differential addition: x(g + h) x(h - g) (a - b)^2 = (ab - 1)^2. */
  ghost predicate DiffLaw<G>(c: Group<G>, g: G, h: G) {
    c.x(g).Some? && c.x(h).Some? && c.x(c.add(h, c.neg(g))).Some? && c.x(c.add(h, c.neg(g))).value != 0 ==>
      var a, b, u, s := c.x(g).value, c.x(h).value, c.x(c.add(h, c.neg(g))).value, c.x(c.add(g, h));
      if a == b then s.None?
      else s.Some? && Cong(P, s.value * (u * ((a - b) * (a - b))), (a * b - 1) * (a * b - 1))
  }

  ghost predicate IsCurve<G(!new)>(c: Group<G>) {
    && IsPrime(P)
    && (forall g, h, k :: Assoc(c, g, h, k))
    && (forall g, h :: Comm(c, g, h))
    && (forall g :: Unit(c, g))
    && (forall g :: XLaw(c, g))
    && (forall g :: DoubleLaw(c, g))
    && (forall g, h :: DiffLaw(c, g, h))
  }

  lemma GoodP()
    requires IsPrime(P)
    ensures GoodPrime(P)
  {
    ModUnique(P, 4, 0, 4);
    ModUnique(P, A * A - 4, 0, A * A - 4);
  }

  // ------------------------------------------------------------------ group arithmetic

  lemma ZeroLeft<G(!new)>(c: Group<G>, g: G)
    requires IsCurve(c)
    ensures c.add(c.zero, g) == g
  {
    assert Comm(c, c.zero, g) && Unit(c, g);
  }

  lemma InverseUnique<G(!new)>(c: Group<G>, g: G, h: G)
    requires IsCurve(c) && c.add(g, h) == c.zero
    ensures h == c.neg(g)
  {
    ZeroLeft(c, h);
    assert Unit(c, g) && Comm(c, c.neg(g), g) && Assoc(c, c.neg(g), g, h) && Unit(c, c.neg(g));
  }

  /** (g + d) - g = d */
  lemma AddSub<G(!new)>(c: Group<G>, g: G, d: G)
    requires IsCurve(c)
    ensures c.add(c.add(g, d), c.neg(g)) == d
  {
    assert Comm(c, g, d) && Assoc(c, d, g, c.neg(g)) && Unit(c, g) && Unit(c, d);
  }

  ghost function Times<G>(c: Group<G>, n: nat, g: G): G {
    if n == 0 then c.zero else c.add(Times(c, n - 1, g), g)
  }

  lemma {:induction false} TimesAdd<G(!new)>(c: Group<G>, m: nat, n: nat, g: G)
    requires IsCurve(c)
    ensures Times(c, m + n, g) == c.add(Times(c, m, g), Times(c, n, g))
  {
    if n == 0 {
      assert Unit(c, Times(c, m, g));
    } else {
      TimesAdd(c, m, n - 1, g);
      assert Assoc(c, Times(c, m, g), Times(c, n - 1, g), g);
    }
  }

  lemma {:induction false} TimesTimes<G(!new)>(c: Group<G>, m: nat, n: nat, g: G)
    requires IsCurve(c)
    ensures Times(c, m * n, g) == Times(c, m, Times(c, n, g))
  {
    if m > 0 {
      TimesTimes(c, m - 1, n, g);
      var k := OneLess(m, n);
      TimesAdd(c, k, n, g);
    }
  }

  lemma OneLess(m: nat, n: nat) returns (k: nat)
    requires m > 0
    ensures k == (m - 1) * n && m * n == k + n
  {
    k := (m - 1) * n;
  }

  lemma {:induction false} TimesZero<G(!new)>(c: Group<G>, n: nat)
    requires IsCurve(c)
    ensures Times(c, n, c.zero) == c.zero
  {
    if n > 0 {
      TimesZero(c, n - 1);
      assert Unit(c, c.zero);
    }
  }

  lemma TimesOne<G(!new)>(c: Group<G>, g: G)
    requires IsCurve(c)
    ensures Times(c, 1, g) == g
  {
    assert Times(c, 1, g) == c.add(Times(c, 0, g), g);
    ZeroLeft(c, g);
  }

  lemma MultipleKills<G(!new)>(c: Group<G>, t: nat, q: nat, h: G)
    requires IsCurve(c) && Times(c, q, h) == c.zero
    ensures Times(c, t * q, h) == c.zero
  {
    TimesTimes(c, t, q, h);
    TimesZero(c, t);
  }

  /** A point killed by a prime q and by a number q does not divide is the identity. */
  lemma CoprimeKills<G(!new)>(c: Group<G>, q: nat, n: nat, h: G)
    requires IsCurve(c) && IsPrime(q) && n % q != 0
    requires Times(c, q, h) == c.zero && Times(c, n, h) == c.zero
    ensures h == c.zero
  {
    var w, t := Bezout(q, n);
    MultipleKills(c, w, n, h);
    MultipleKills(c, t, q, h);
    TimesAdd(c, t * q, 1, h);
    TimesOne(c, h);
    ZeroLeft(c, h);
  }

  // ------------------------------------------------------------------ the assumptions as one bundle

  /** u^3 + A u^2 + u is a square: u is an x-coordinate of the curve rather than of its twist. */
  ghost predicate OnCurve(u: Element) {
    Fermat.IsSquare(P, u * u * u + A * (u * u) + u)
  }

  ghost predicate HasPoint<G(!new)>(c: Group<G>, u: Element) {
    exists g :: c.x(g) == Some(u)
  }

  ghost predicate KilledBy<G>(c: Group<G>, n: nat, g: G) {
    Times(c, n, g) == c.zero
  }

  /** The group has exponent dividing 8q for a prime q above 2^252: the curve has order 8q, its
      twist order 4q'. */
  ghost predicate HasOrder<G(!new)>(c: Group<G>, q: nat) {
    IsPrime(q) && q > TWO_255 / 8 && forall g :: KilledBy(c, 8 * q, g)
  }

  /** A group with the laws and the order, and a point for every coordinate of the curve. */
  ghost predicate CurveGroup<G(!new)>(c: Group<G>, q: nat) {
    IsCurve(c) && HasOrder(c, q) && forall u: Element :: OnCurve(u) ==> HasPoint(c, u)
  }

  /** The same for every coordinate that is not of the curve. */
  ghost predicate TwistGroup<G(!new)>(c: Group<G>, q: nat) {
    IsCurve(c) && HasOrder(c, q) && forall u: Element :: !OnCurve(u) ==> HasPoint(c, u)
  }

  /** The curve and its twist are different groups with different numbers of points, so each has its
      own carrier: G is the points of the curve and H those of the twist. */
  datatype Setting<!G, !H> = Setting(curve: Group<G>, q: nat, twist: Group<H>, q': nat)

  /** Everything assumed of Curve25519 and its twist. */
  ghost predicate Curve25519<G(!new), H(!new)>(s: Setting<G, H>) {
    CurveGroup(s.curve, s.q) && TwistGroup(s.twist, s.q')
  }
}
