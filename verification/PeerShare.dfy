/** peer_share.go: the low-order check on peer shares, and why validating a share once with the fixed
    public scalar settles it for every later secret scalar. */
module PeerShare {
  import opened Modular
  import opened Bytes
  import opened Errors
  import opened Field25519
  import opened XAlgebra
  import opened XGroup
  import opened XLadder
  import opened X25519

  const IDENTITY_ENCODING: bytes := Zeros(POINT_SIZE)

  /** peerShareValidationScalar */
  const VALIDATION_SCALAR: bytes := [1] + Zeros(SCALAR_SIZE - 1)

  lemma {:induction false} LittleEndianZeros(n: nat)
    ensures LittleEndian(Zeros(n)) == 0
  {
    if n > 0 {
      LittleEndianZeros(n - 1);
      assert Zeros(n)[1..] == Zeros(n - 1);
    }
  }

  /** The fixed encoding clamps to 2^254. */
  lemma ValidationScalarClamps()
    ensures ClampedScalar(VALIDATION_SCALAR) == TWO_255 / 2
  {
    var n: nat := SCALAR_SIZE - 1;
    ClampsToTop(n);
  }

  lemma ClampsToTop(n: nat)
    requires n == SCALAR_SIZE - 1
    ensures ClampedScalar([1] + Zeros(n)) == TWO_255 / 2
  {
    var v: bytes := [1] + Zeros(n);
    assert Clamp(v) == Zeros(n) + [64];
    LittleEndianZeros(n);
    LittleEndianAppend(Zeros(n), 64);
    var e: nat := 8 * n;
    Power2At255(e + 7);
    Power2Halves(e);
    Power2Halves(e + 3);
  }

  function ScalarMultVFY(s: bytes, encoded: bytes): Result<bytes> {
    if |encoded| != POINT_SIZE then Err({ErrAbort})
    else
      match ScalarMult(s, encoded)
      case Err(e) => Err(e)
      case Ok(out) =>
        if out == IDENTITY_ENCODING then Err({ErrAbort, ErrPeerShareIdentity}) else Ok(out)
  }

  function WrapError(e: Error): Error {
    if ErrPeerShareEncoding in e then {ErrAbort, ErrPeerShareEncoding}
    else if ErrPeerShareIdentity in e then {ErrAbort, ErrPeerShareIdentity}
    else e
  }

  /** validatePublicShare, with the fixed scalar as a parameter. */
  function ValidateWith(v: bytes, encoded: bytes): Result<()> {
    if |encoded| != POINT_SIZE then Err({ErrAbort})
    else
      match ScalarMultVFY(v, encoded)
      case Err(e) => Err(WrapError(e))
      case Ok(_) => Ok(())
  }

  /** peerShareRole.validate */
  function Validate(encoded: bytes): Result<()> {
    ValidateWith(VALIDATION_SCALAR, encoded)
  }

  function SharedSecret(s: bytes, encoded: bytes): Result<bytes> {
    match ScalarMultVFY(s, encoded)
    case Err(e) => Err(WrapError(e))
    case Ok(k) => Ok(k)
  }

  // ------------------------------------------------------------------ the coordinate 0

  /** On the coordinate 0 both z registers are 0 after the first step and stay 0. */
  lemma {:induction false} ZeroCoordinateLadder(m: nat)
    requires m > 0
    ensures Ladder(0, m, Start(0)).0.z == 0 && Ladder(0, m, Start(0)).1.z == 0
  {
    if m == 1 {
      assert Ladder(0, m / 2, Start(0)) == Start(0);
      ZeroSteps(Pair(1, 0), Pair(0, 1));
    } else {
      ZeroCoordinateLadder(m / 2);
      var (r0, r1) := Ladder(0, m / 2, Start(0));
      ZeroSteps(r0, r1);
    }
  }

  lemma ZeroSteps(r0: Pair, r1: Pair)
    requires r0.z == 0 && (r1.z == 0 || r1.x == 0)
    ensures XDouble(r0).z == 0 && XDouble(r1).z == 0 && XDiffAdd(0, r0, r1).z == 0
  {
    DoubleVanishes(r0);
    DoubleVanishes(r1);
    MulZero(Square(Sub(Mul(Sub(r1.x, r1.z), Add(r0.x, r0.z)), Mul(Add(r1.x, r1.z), Sub(r0.x, r0.z)))));
  }

  lemma MulZero(a: Element)
    ensures Mul(0, a) == 0
  {
    assert 0 * a == 0;
    ModUnique(P, 0, 0, 0);
  }

  lemma DoubleVanishes(r: Pair)
    requires r.z == 0 || r.x == 0
    ensures XDouble(r).z == 0
  {
    var aa, bb := Square(Add(r.x, r.z)), Square(Sub(r.x, r.z));
    assert aa == bb by {
      if r.z == 0 {
        assert Add(r.x, 0) == Sub(r.x, 0);
      } else {
        assert Add(0, r.z) == Sub(r.z, 0);
        SubSquareSym(0, r.z);
      }
    }
    MulZero(Add(aa, Mult32(0, 121665)));
  }

  lemma ZeroCoordinateOutput(k: nat)
    requires k > 0
    ensures LadderOutput(k, 0) == 0
  {
    ZeroCoordinateLadder(k);
    RatioZero(Ladder(0, k, Start(0)).0.x);
  }

  // ------------------------------------------------------------------ what the calls return

  /** The multiple that a secret stands for: bit 254 set, bit 255 and the three lowest bits cleared. */
  ghost function Multiplier(s: bytes): nat {
    TWO_255 / 2 + 8 * ((LittleEndian(s) % (TWO_255 / 2)) / 8)
  }

  lemma MultiplierIsClamped(s: bytes)
    requires |s| == SCALAR_SIZE
    ensures Multiplier(s) == ClampedScalar(s)
  {
    ClampedValue(s);
  }

  /** Scalar multiplication of the coordinate of a point g of either group, masked top bit included:
      the encoded coordinate of the multiple of g, 0 if that is infinity or g is (0, 0). */
  lemma ScalarMultIsMultiple<G(!new)>(c: Group<G>, g: G, s: bytes, point: bytes)
    requires IsCurve(c) && |s| == SCALAR_SIZE && |point| == POINT_SIZE && c.x(g) == Some(SetBytes(point))
    ensures ScalarMult(s, point) ==
            Ok(ToBytes(if SetBytes(point) == 0 then 0 else XOrZero(c, Times(c, Multiplier(s), g))))
  {
    MultiplierIsClamped(s);
    var k := ClampedScalar(s);
    ClampedRange(s);
    if SetBytes(point) == 0 {
      ZeroCoordinateOutput(k);
    } else {
      LadderMultiplies(c, SetBytes(point), k, g);
    }
  }

  /** Every outcome of the checked secret: a wrong share length, a wrong scalar length, a vanishing
      output, and otherwise the coordinate of the multiple. */
  lemma SharedSecretExact<G(!new)>(c: Group<G>, g: G, s: bytes, encoded: bytes)
    requires IsCurve(c) && (|encoded| == POINT_SIZE ==> c.x(g) == Some(SetBytes(encoded)))
    ensures |encoded| != 32 ==> SharedSecret(s, encoded) == Err({ErrAbort})
    ensures |encoded| == 32 && |s| != 32 ==> SharedSecret(s, encoded) == Err({ErrInvalidInput})
    ensures |encoded| == 32 && |s| == 32 ==>
            var out := if SetBytes(encoded) == 0 then 0 else XOrZero(c, Times(c, Multiplier(s), g));
            SharedSecret(s, encoded) == if out == 0 then Err({ErrAbort, ErrPeerShareIdentity}) else Ok(ToBytes(out))
  {
    if |encoded| == POINT_SIZE && |s| == SCALAR_SIZE {
      ScalarMultIsMultiple(c, g, s, encoded);
      IdentityIsZero(if SetBytes(encoded) == 0 then 0 else XOrZero(c, Times(c, Multiplier(s), g)));
    }
  }

  // ------------------------------------------------------------------ low order

  lemma SmallNotDivisible(q: nat, m: nat)
    requires IsPrime(q) && q > 2 && 0 < m < q
    ensures m % q != 0 && (2 * m) % q != 0
  {
    ModUnique(q, m, 0, m);
    ModUnique(q, 2, 0, 2);
    if (2 * m) % q == 0 {
      Euclid(q, 2, m);
    }
  }

  /** The point (0, 0) doubles to infinity. */
  lemma ZeroDoubles<G(!new)>(c: Group<G>, g: G)
    requires IsCurve(c) && c.x(g) == Some(0)
    ensures c.add(g, g) == c.zero
  {
    assert DoubleLaw(c, g) && XLaw(c, c.add(g, g));
    ZeroDen(0);
  }

  lemma ZeroDen(a: int)
    requires a == 0
    ensures Cong(P, DoubleDen(a), 0)
  {
    assert DoubleDen(a) == 0 * (a * a + A * a + 1);
    CongWitness(P, DoubleDen(a), 0, 0);
  }

  /** A multiple by k = 8m, m < q, has no or zero x-coordinate exactly if the point is killed by 8. */
  lemma MultipleVanishes<G(!new)>(c: Group<G>, q: nat, m: nat, g: G)
    requires IsCurve(c) && HasOrder(c, q) && 0 < m < q
    ensures XOrZero(c, Times(c, m * 8, g)) == 0 <==> Times(c, 8, g) == c.zero
  {
    var h := Times(c, 8, g);
    var r := Times(c, m * 8, g);
    TimesTimes(c, m, 8, g);
    assert XLaw(c, r) && XLaw(c, c.zero) && KilledBy(c, 8 * q, g);
    assert q * 8 == 8 * q;
    TimesTimes(c, q, 8, g);
    SmallNotDivisible(q, m);
    if h == c.zero {
      TimesZero(c, m);
    } else if XOrZero(c, r) == 0 {
      if r == c.zero {
        CoprimeKills(c, q, m, h);
      } else {
        ZeroDoubles(c, r);
        TimesAdd(c, m, m, h);
        CoprimeKills(c, q, 2 * m, h);
      }
      assert false;
    }
  }

  /** The output for a clamped scalar is 0 exactly if the coordinate is 0 or its point has order
      dividing 8; it does not depend on the scalar. */
  lemma OutputVanishes<G(!new)>(c: Group<G>, q: nat, k: nat, u: Element, g: G)
    requires IsCurve(c) && HasOrder(c, q) && c.x(g) == Some(u) && IsClamped(k)
    ensures LadderOutput(k, u) == 0 <==> u == 0 || Times(c, 8, g) == c.zero
  {
    if u == 0 {
      ZeroCoordinateOutput(k);
    } else {
      LadderMultiplies(c, u, k, g);
      assert k == (k / 8) * 8;
      MultipleVanishes(c, q, k / 8, g);
    }
  }

  lemma IdentityIsZero(a: Element)
    ensures ToBytes(a) == IDENTITY_ENCODING <==> a == 0
  {
    ZeroEncoding(POINT_SIZE);
    if ToBytes(a) == IDENTITY_ENCODING { ToBytesInjective(a, 0); }
  }

  lemma {:induction false} ZeroEncoding(n: nat)
    ensures FromNat(0, n) == Zeros(n)
  {
    if n > 0 { ZeroEncoding(n - 1); }
  }

  /** The coordinate of a point of either group is rejected by one scalar exactly if by every other. */
  lemma PointRejection<G(!new)>(c: Group<G>, q: nat, g: G, encoded: bytes, s: bytes, t: bytes)
    requires IsCurve(c) && HasOrder(c, q) && |encoded| == POINT_SIZE && c.x(g) == Some(SetBytes(encoded))
    requires |s| == SCALAR_SIZE && |t| == SCALAR_SIZE
    ensures ScalarMultVFY(s, encoded).Ok? <==> ScalarMultVFY(t, encoded).Ok?
  {
    var u := SetBytes(encoded);
    ClampedRange(s);
    ClampedRange(t);
    OutputVanishes(c, q, ClampedScalar(s), u, g);
    OutputVanishes(c, q, ClampedScalar(t), u, g);
    IdentityIsZero(LadderOutput(ClampedScalar(s), u));
    IdentityIsZero(LadderOutput(ClampedScalar(t), u));
  }

  /** A 32-byte share is rejected by one 32-byte scalar exactly if it is rejected by every other. */
  lemma RejectionIsUniform<G(!new), H(!new)>(st: Setting<G, H>, encoded: bytes, s: bytes, t: bytes)
    requires Curve25519(st) && |encoded| == POINT_SIZE && |s| == SCALAR_SIZE && |t| == SCALAR_SIZE
    ensures ScalarMultVFY(s, encoded).Ok? <==> ScalarMultVFY(t, encoded).Ok?
  {
    var u := SetBytes(encoded);
    if OnCurve(u) {
      assert HasPoint(st.curve, u);
      var g :| st.curve.x(g) == Some(u);
      PointRejection(st.curve, st.q, g, encoded, s, t);
    } else {
      assert HasPoint(st.twist, u);
      var g :| st.twist.x(g) == Some(u);
      PointRejection(st.twist, st.q', g, encoded, s, t);
    }
  }

  /** If s is a 32-byte scalar, then it maps the share to an output other than the neutral one,
      which is then the shared secret. */
  ghost predicate Survives(encoded: bytes, s: bytes) {
    |s| == SCALAR_SIZE ==>
      && ScalarMult(s, encoded) != Ok(IDENTITY_ENCODING)
      && SharedSecret(s, encoded) == ScalarMult(s, encoded)
  }

  lemma SurvivesIff(encoded: bytes, s: bytes)
    requires |encoded| == POINT_SIZE && |s| == SCALAR_SIZE
    ensures Survives(encoded, s) <==> ScalarMultVFY(s, encoded).Ok?
  {
  }

  /** Any 32-byte scalar would do for prevalidation. */
  lemma PrevalidationWith<G(!new), H(!new)>(st: Setting<G, H>, v: bytes, encoded: bytes)
    requires Curve25519(st) && |v| == SCALAR_SIZE
    ensures ValidateWith(v, encoded).Ok? <==> |encoded| == POINT_SIZE && forall s: bytes :: Survives(encoded, s)
  {
    if |encoded| == POINT_SIZE {
      SurvivesIff(encoded, v);
      forall s: bytes ensures Survives(encoded, v) ==> Survives(encoded, s) {
        if |s| == SCALAR_SIZE {
          RejectionIsUniform(st, encoded, v, s);
          SurvivesIff(encoded, s);
        }
      }
    }
  }

  /** Responder prevalidation accepts a share exactly if no 32-byte secret maps it to the neutral
      output, so a shared secret computed later from an accepted share cannot fail. */
  lemma PrevalidationExact<G(!new), H(!new)>(st: Setting<G, H>, encoded: bytes)
    requires Curve25519(st)
    ensures Validate(encoded).Ok? <==> |encoded| == POINT_SIZE && forall s: bytes :: Survives(encoded, s)
  {
    PrevalidationWith(st, VALIDATION_SCALAR, encoded);
  }

  /** A rejected share always reports the abort and, for a share of the right length, the identity. */
  lemma RejectionError(v: bytes, encoded: bytes)
    requires |v| == SCALAR_SIZE && ValidateWith(v, encoded).Err?
    ensures ValidateWith(v, encoded).error ==
            if |encoded| == POINT_SIZE then {ErrAbort, ErrPeerShareIdentity} else {ErrAbort}
  {
  }

  // ------------------------------------------------------------------ Diffie-Hellman

  /** A share made from an accepted base is accepted, and the two orders of multiplying agree; the
      base is the coordinate of a point of either group. */
  lemma PointSharesAgree<G(!new)>(c: Group<G>, q: nat, g: G, v: bytes, base: bytes, s: bytes, t: bytes)
    requires IsCurve(c) && HasOrder(c, q) && |v| == SCALAR_SIZE && ValidateWith(v, base).Ok?
    requires c.x(g) == Some(SetBytes(base)) && |s| == SCALAR_SIZE && |t| == SCALAR_SIZE
    ensures ScalarMult(s, base).Ok? && ScalarMult(t, base).Ok?
    ensures ValidateWith(v, ScalarMult(s, base).value).Ok?
    ensures SharedSecret(t, ScalarMult(s, base).value).Ok?
    ensures SharedSecret(t, ScalarMult(s, base).value) == SharedSecret(s, ScalarMult(t, base).value)
  {
    var u := SetBytes(base);
    BaseIsGood(c, q, v, base, g);
    var k, l := ClampedScalar(s), ClampedScalar(t);
    ClampedRange(s);
    ClampedRange(t);
    ShareIsGood(c, q, k, u, g);
    ShareIsGood(c, q, l, u, g);
    ShareAccepted(c, q, LadderOutput(k, u), Times(c, k, g), t);
    ShareAccepted(c, q, LadderOutput(k, u), Times(c, k, g), v);
    ShareAccepted(c, q, LadderOutput(l, u), Times(c, l, g), s);
    TimesCommute(c, k, l, g);
  }

  /** The same for any accepted base, whichever group its coordinate belongs to. */
  lemma SharesAgree<G(!new), H(!new)>(st: Setting<G, H>, v: bytes, base: bytes, s: bytes, t: bytes)
    requires Curve25519(st) && |v| == SCALAR_SIZE && ValidateWith(v, base).Ok?
    requires |s| == SCALAR_SIZE && |t| == SCALAR_SIZE
    ensures ScalarMult(s, base).Ok? && ScalarMult(t, base).Ok?
    ensures ValidateWith(v, ScalarMult(s, base).value).Ok?
    ensures SharedSecret(t, ScalarMult(s, base).value).Ok?
    ensures SharedSecret(t, ScalarMult(s, base).value) == SharedSecret(s, ScalarMult(t, base).value)
  {
    var u := SetBytes(base);
    if OnCurve(u) {
      assert HasPoint(st.curve, u);
      var g :| st.curve.x(g) == Some(u);
      PointSharesAgree(st.curve, st.q, g, v, base, s, t);
    } else {
      assert HasPoint(st.twist, u);
      var g :| st.twist.x(g) == Some(u);
      PointSharesAgree(st.twist, st.q', g, v, base, s, t);
    }
  }

  lemma TimesCommute<G(!new)>(c: Group<G>, k: nat, l: nat, g: G)
    requires IsCurve(c)
    ensures Times(c, k, Times(c, l, g)) == Times(c, l, Times(c, k, g))
  {
    TimesTimes(c, l, k, g);
    TimesTimes(c, k, l, g);
    assert k * l == l * k;
  }

  lemma BaseIsGood<G(!new)>(c: Group<G>, q: nat, v: bytes, base: bytes, g: G)
    requires IsCurve(c) && HasOrder(c, q) && |v| == SCALAR_SIZE && ValidateWith(v, base).Ok?
    requires c.x(g) == Some(SetBytes(base))
    ensures SetBytes(base) != 0 && Times(c, 8, g) != c.zero
  {
    ClampedRange(v);
    OutputVanishes(c, q, ClampedScalar(v), SetBytes(base), g);
    IdentityIsZero(LadderOutput(ClampedScalar(v), SetBytes(base)));
  }

  /** A clamped multiple of a good point is a good point with a non-zero coordinate. */
  lemma ShareIsGood<G(!new)>(c: Group<G>, q: nat, k: nat, u: Element, g: G)
    requires IsCurve(c) && HasOrder(c, q) && c.x(g) == Some(u) && IsClamped(k)
    requires u != 0 && Times(c, 8, g) != c.zero
    ensures c.x(Times(c, k, g)) == Some(LadderOutput(k, u)) && LadderOutput(k, u) != 0
    ensures Times(c, 8, Times(c, k, g)) != c.zero
  {
    var r := Times(c, k, g);
    OutputVanishes(c, q, k, u, g);
    LadderMultiplies(c, u, k, g);
    if Times(c, 8, r) == c.zero {
      KillTwice(c, q, k, g);
    }
  }

  lemma KillTwice<G(!new)>(c: Group<G>, q: nat, k: nat, g: G)
    requires IsCurve(c) && HasOrder(c, q) && IsClamped(k)
    requires Times(c, 8, Times(c, k, g)) == c.zero
    ensures Times(c, 8, g) == c.zero
  {
    var m, h := k / 8, Times(c, 8, g);
    TimesTimes(c, 8, k, g);
    assert 8 * k == k * 8 == (8 * m) * 8;
    TimesTimes(c, k, 8, g);
    assert KilledBy(c, 8 * q, g);
    assert q * 8 == 8 * q;
    TimesTimes(c, q, 8, g);
    EightTimes(q, m);
    CoprimeKills(c, q, k, h);
  }

  lemma EightTimes(q: nat, m: nat)
    requires IsPrime(q) && q > 8 && 0 < m < q
    ensures (8 * m) % q != 0
  {
    ModUnique(q, m, 0, m);
    ModUnique(q, 8, 0, 8);
    if (8 * m) % q == 0 {
      Euclid(q, 8, m);
    }
  }

  /** The encoding of a good point's coordinate is accepted, and multiplying it multiplies the point. */
  lemma ShareAccepted<G(!new)>(c: Group<G>, q: nat, v: Element, r: G, t: bytes)
    requires IsCurve(c) && HasOrder(c, q) && c.x(r) == Some(v) && |t| == SCALAR_SIZE
    requires v != 0 && Times(c, 8, r) != c.zero
    ensures ScalarMultVFY(t, ToBytes(v)) == Ok(ToBytes(XOrZero(c, Times(c, ClampedScalar(t), r))))
  {
    var l := ClampedScalar(t);
    ClampedRange(t);
    SetBytesToBytes(v);
    OutputVanishes(c, q, l, v, r);
    LadderMultiplies(c, v, l, r);
    IdentityIsZero(LadderOutput(l, v));
  }
}
