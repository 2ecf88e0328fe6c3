/** What complete runs of the protocol guarantee. */
module Agreement {
  import opened Bytes
  import opened Errors
  import opened Field25519
  import opened XGroup
  import opened XLadder
  import opened X25519
  import opened PeerShare
  import opened Elligator
  import opened Caps
  import opened Framing
  import opened HashInputs
  import opened Protocol

  // ------------------------------------------------------- matching inputs and generators

  ghost predicate Matching(a: Input, b: Input) {
    && a.password == b.password && a.context == b.context && a.sessionID == b.sessionID
    && a.selfID == b.peerID && a.peerID == b.selfID
  }

  /** The generator string that a role hashes. */
  ghost function RoleGeneratorString(nc: Normalized): bytes {
    GeneratorString(nc.password, nc.ci, nc.sid)
  }

  /** Start and Respond hash the same generator string exactly if their inputs match. */
  lemma GeneratorStringsAgree(a: Input, b: Input)
    requires AcceptInput(a) == {} && AcceptInput(b) == {}
    ensures RoleGeneratorString(Normalize(a, InitiatorRole).value) == RoleGeneratorString(Normalize(b, ResponderRole).value)
            <==> Matching(a, b)
  {
    var x, y := Normalize(a, InitiatorRole).value, Normalize(b, ResponderRole).value;
    if RoleGeneratorString(x) == RoleGeneratorString(y) {
      GeneratorStringInjective(x.password, x.ci, x.sid, y.password, y.ci, y.sid);
      BuildCIInjective(a.selfID, a.peerID, a.context, b.peerID, b.selfID, b.context);
    }
  }

  // ------------------------------------------------------- complete runs

  /** Start, Respond, the initiator's Finish and the responder's Finish, in that order. */
  ghost function Run(h: Primitives, a: Input, b: Input, ra: Scalar, rb: Scalar): Result<(Session, Session)> {
    match StartCall(h, a, Some(ra))
    case Err(e) => Err(e)
    case Ok((ic, messageA)) =>
      match RespondCall(h, b, messageA, Some(rb))
      case Err(e) => Err(e)
      case Ok((rc, messageB)) =>
        match InitiatorFinishCall(h, ic, messageB)
        case Err(e) => Err(e)
        case Ok((messageC, sa)) =>
          match ResponderFinishCall(h, rc, messageC)
          case Err(e) => Err(e)
          case Ok(sb) => Ok((sa, sb))
  }

  ghost function InputGenerator(h: Primitives, a: Input): bytes {
    CalculateGenerator(h, a.password, BuildCI(a.selfID, a.peerID, a.context), a.sessionID)
  }

  /** The exchange after the shares ya, yb and the common secret k are fixed. */
  lemma CoreExchange(h: Primitives, sid: bytes, y: bytes, ya: bytes, ada: bytes, yb: bytes, adb: bytes, k: bytes, idI: bytes, idR: bytes)
    requires SharedSecret(y, yb) == Ok(k)
    ensures var tr := Transcript(ya, ada, yb, adb);
            var isk := DeriveISK(h, sid, k, tr);
            var ic := InitiatorCore(y, sid, ya, ada, idR);
            var rc := ResponderCore(isk, tr, sid, idI);
            && InitiatorFinish(h, ic, yb, adb, ResponderTag(h, isk, sid, tr))
               == Ok((InitiatorTag(h, isk, sid, tr), Session(isk, TranscriptID(h, tr), adb, idR)))
            && ResponderFinish(h, rc, InitiatorTag(h, isk, sid, tr)) == Ok(Session(isk, TranscriptID(h, tr), ada, idI))
  {
  }

  lemma RespondAccepts(h: Primitives, b: Input, sid: bytes, ya: bytes, ada: bytes, rb: Scalar, yb: bytes, k: bytes)
    requires AcceptInput(b) == {} && b.sessionID == sid && |ya| == POINT && |ada| <= MAX_ASSOCIATED_DATA
    requires Validate(ya).Ok? && SharedSecret(rb, ya) == Ok(k)
    requires ScalarMult(rb, CalculateGenerator(h, b.password, BuildCI(b.peerID, b.selfID, b.context), sid)) == Ok(yb)
    ensures var tr := Transcript(ya, ada, yb, b.localAD);
            var isk := DeriveISK(h, sid, k, tr);
            RespondCall(h, b, Encode(SPEC_A, [sid, ya, ada]), Some(rb))
            == Ok((ResponderCore(isk, tr, sid, b.peerID), Encode(SPEC_B, [yb, b.localAD, ResponderTag(h, isk, sid, tr)])))
  {
    DecodeEmittedA(sid, ya, ada);
  }

  lemma RespondRejects(h: Primitives, b: Input, sid: bytes, ya: bytes, ada: bytes, rb: Scalar)
    requires AcceptInput(b) == {} && b.sessionID == sid && |ya| == POINT && |ada| <= MAX_ASSOCIATED_DATA
    requires Validate(ya).Err?
    ensures RespondCall(h, b, Encode(SPEC_A, [sid, ya, ada]), Some(rb)) == Err(Validate(ya).error)
  {
    DecodeEmittedA(sid, ya, ada);
  }

  /** A share from a generator that fails validation is the neutral encoding, which the responder
      rejects. */
  lemma BadGeneratorShare<G(!new)>(c: Group<G>, q: nat, p: G, v: bytes, g: bytes, s: bytes)
    requires IsCurve(c) && HasOrder(c, q) && |g| == POINT_SIZE && c.x(p) == Some(SetBytes(g))
    requires |v| == SCALAR_SIZE && |s| == SCALAR_SIZE && ValidateWith(v, g).Err?
    ensures ScalarMult(s, g) == Ok(IDENTITY_ENCODING)
    ensures ValidateWith(v, IDENTITY_ENCODING) == Err({ErrAbort, ErrPeerShareIdentity})
  {
    PointRejection(c, q, p, g, v, s);
    IdentityRejected(v);
  }

  lemma IdentityRejected(v: bytes)
    requires |v| == SCALAR_SIZE
    ensures ValidateWith(v, IDENTITY_ENCODING) == Err({ErrAbort, ErrPeerShareIdentity})
  {
    IdentityIsZero(0);
    SetBytesToBytes(0);
    ClampedRange(v);
    ZeroCoordinateOutput(ClampedScalar(v));
  }

  /** With matching accepted inputs a run succeeds exactly if the common generator is not of low
      order, and then the two sessions agree; otherwise the responder aborts. The generator is always
      a point of the curve, so nothing is assumed of the twist. */
  lemma HonestRun<G(!new)>(c: Group<G>, q: nat, h: Primitives, a: Input, b: Input, ra: Scalar, rb: Scalar)
    requires CurveConstants() && CurveGroup(c, q)
    requires AcceptInput(a) == {} && AcceptInput(b) == {} && Matching(a, b)
    ensures Run(h, a, b, ra, rb).Ok? <==> Validate(InputGenerator(h, a)).Ok?
    ensures Run(h, a, b, ra, rb).Err? ==> Run(h, a, b, ra, rb).error == {ErrAbort, ErrPeerShareIdentity}
    ensures Run(h, a, b, ra, rb).Ok? ==>
            var (sa, sb) := Run(h, a, b, ra, rb).value;
            && sa.isk == sb.isk && sa.transcriptID == sb.transcriptID
            && sa.peerAD == b.localAD && sb.peerAD == a.localAD
            && sa.peerID == b.selfID && sb.peerID == a.selfID
  {
    var g, sid := InputGenerator(h, a), a.sessionID;
    GeneratorOnCurve(h, a);
    assert HasPoint(c, SetBytes(g));
    var p :| c.x(p) == Some(SetBytes(g));
    var ya := ScalarMult(ra, g).value;
    if Validate(g).Ok? {
      PointSharesAgree(c, q, p, VALIDATION_SCALAR, g, ra, rb);
      var yb := ScalarMult(rb, g).value;
      var k := SharedSecret(rb, ya).value;
      GoodRun(h, a, b, ra, rb, ya, yb, k);
    } else {
      BadGeneratorShare(c, q, p, VALIDATION_SCALAR, g, ra);
      RespondRejects(h, b, sid, ya, a.localAD, rb);
    }
  }

  lemma GoodRun(h: Primitives, a: Input, b: Input, ra: Scalar, rb: Scalar, ya: bytes, yb: bytes, k: bytes)
    requires AcceptInput(a) == {} && AcceptInput(b) == {} && Matching(a, b)
    requires ScalarMult(ra, InputGenerator(h, a)) == Ok(ya) && ScalarMult(rb, InputGenerator(h, a)) == Ok(yb)
    requires Validate(ya).Ok? && SharedSecret(rb, ya) == Ok(k) && SharedSecret(ra, yb) == Ok(k)
    ensures var tr := Transcript(ya, a.localAD, yb, b.localAD);
            var isk := DeriveISK(h, a.sessionID, k, tr);
            Run(h, a, b, ra, rb) == Ok((Session(isk, TranscriptID(h, tr), b.localAD, a.peerID),
                                        Session(isk, TranscriptID(h, tr), a.localAD, b.peerID)))
  {
    var sid := a.sessionID;
    var tr := Transcript(ya, a.localAD, yb, b.localAD);
    var isk := DeriveISK(h, sid, k, tr);
    assert StartCall(h, a, Some(ra)) == Ok((InitiatorCore(ra, sid, ya, a.localAD, a.peerID), Encode(SPEC_A, [sid, ya, a.localAD])));
    RespondAccepts(h, b, sid, ya, a.localAD, rb, yb, k);
    CoreExchange(h, sid, ra, ya, a.localAD, yb, b.localAD, k, b.peerID, a.peerID);
    DecodeEmittedB(yb, b.localAD, ResponderTag(h, isk, sid, tr));
    DecodeEmittedC(InitiatorTag(h, isk, sid, tr));
  }

  /** Sessions of one run export the same keys for every label, context and length. */
  lemma ExportsAgree<G(!new)>(c: Group<G>, q: nat, h: Primitives, a: Input, b: Input, ra: Scalar, rb: Scalar,
                              exportLabel: bytes, context: bytes, length: int)
    requires CurveConstants() && CurveGroup(c, q)
    requires AcceptInput(a) == {} && AcceptInput(b) == {} && Matching(a, b) && Run(h, a, b, ra, rb).Ok?
    ensures var (sa, sb) := Run(h, a, b, ra, rb).value;
            ExportCall(h, sa.isk, exportLabel, context, length) == ExportCall(h, sb.isk, exportLabel, context, length)
  {
    HonestRun(c, q, h, a, b, ra, rb);
  }

  // ------------------------------------------------------- what an accepted tag implies

  /** One side's view of an exchange: session id, shared secret and transcript. */
  datatype View = View(sid: bytes, k: bytes, transcript: Transcript)

  ghost function ViewISK(h: Primitives, v: View): Digest {
    DeriveISK(h, v.sid, v.k, v.transcript)
  }

  /** SHA-512 and HMAC do not collide on the strings that the two views feed to them. */
  ghost predicate NoCollision(h: Primitives, v: View, w: View) {
    var iv, iw := IskInput(v.sid, v.k, v.transcript.Encoded()), IskInput(w.sid, w.k, w.transcript.Encoded());
    var kv, kw := MacKeyInput(v.sid, ViewISK(h, v)), MacKeyInput(w.sid, ViewISK(h, w));
    && (h.sha512(iv) == h.sha512(iw) ==> iv == iw)
    && (h.sha512(kv) == h.sha512(kw) ==> kv == kw)
    && NoMacCollision(h, h.sha512(kv), v.transcript.yb, v.transcript.adb, h.sha512(kw), w.transcript.yb, w.transcript.adb)
    && NoMacCollision(h, h.sha512(kv), v.transcript.ya, v.transcript.ada, h.sha512(kw), w.transcript.ya, w.transcript.ada)
  }

  ghost predicate NoMacCollision(h: Primitives, key: bytes, y: bytes, ad: bytes, key': bytes, y': bytes, ad': bytes) {
    h.hmac(key, MacMessage(y, ad)) == h.hmac(key', MacMessage(y', ad')) ==>
      key == key' && MacMessage(y, ad) == MacMessage(y', ad')
  }

  /** Equal session keys under equal session ids come only from equal views. */
  lemma EqualKeys(h: Primitives, v: View, w: View)
    requires NoCollision(h, v, w) && h.sha512(MacKeyInput(v.sid, ViewISK(h, v))) == h.sha512(MacKeyInput(w.sid, ViewISK(h, w)))
    ensures v == w
  {
    MacKeyInputInjective(v.sid, ViewISK(h, v), w.sid, ViewISK(h, w));
    var s, t := v.transcript, w.transcript;
    IskInputInjective(v.sid, v.k, s.ya, s.ada, s.yb, s.adb, w.sid, w.k, t.ya, t.ada, t.yb, t.adb);
  }

  /** An initiator core accepts the tag of a responder that holds the view w exactly if its own view
      of the exchange is w. */
  lemma InitiatorAcceptsIff(h: Primitives, c: InitiatorCore, yb: bytes, adb: bytes, k: bytes, w: View)
    requires SharedSecret(c.scalar, yb) == Ok(k)
    requires NoCollision(h, View(c.sid, k, Transcript(c.ya, c.ada, yb, adb)), w)
    ensures InitiatorFinish(h, c, yb, adb, ResponderTag(h, ViewISK(h, w), w.sid, w.transcript)).Ok?
            <==> View(c.sid, k, Transcript(c.ya, c.ada, yb, adb)) == w
  {
    var v := View(c.sid, k, Transcript(c.ya, c.ada, yb, adb));
    if InitiatorFinish(h, c, yb, adb, ResponderTag(h, ViewISK(h, w), w.sid, w.transcript)).Ok? {
      EqualKeys(h, v, w);
    }
  }

  /** A responder core that holds the view v accepts the tag of an initiator that holds the view w
      exactly if the views are the same. */
  lemma ResponderAcceptsIff(h: Primitives, c: ResponderCore, v: View, w: View)
    requires c.isk == ViewISK(h, v) && c.sid == v.sid && c.transcript == v.transcript
    requires NoCollision(h, v, w)
    ensures ResponderFinish(h, c, InitiatorTag(h, ViewISK(h, w), w.sid, w.transcript)).Ok? <==> v == w
  {
    if ResponderFinish(h, c, InitiatorTag(h, ViewISK(h, w), w.sid, w.transcript)).Ok? {
      EqualKeys(h, v, w);
    }
  }

  /** The two tags of a view carry no role, so each side could be offered the other kind: neither does
      HMAC collide between an expected tag of one kind and an offered one of the other. */
  ghost predicate NoCrossCollision(h: Primitives, v: View, w: View) {
    var kv, kw := MacKeyInput(v.sid, ViewISK(h, v)), MacKeyInput(w.sid, ViewISK(h, w));
    && NoMacCollision(h, h.sha512(kv), v.transcript.yb, v.transcript.adb, h.sha512(kw), w.transcript.ya, w.transcript.ada)
    && NoMacCollision(h, h.sha512(kv), v.transcript.ya, v.transcript.ada, h.sha512(kw), w.transcript.yb, w.transcript.adb)
  }

  /** An initiator core accepts an initiator's tag exactly if the view is its own and the two sides of
      the transcript coincide. */
  lemma InitiatorTagReflected(h: Primitives, c: InitiatorCore, yb: bytes, adb: bytes, k: bytes, w: View)
    requires SharedSecret(c.scalar, yb) == Ok(k)
    requires var v := View(c.sid, k, Transcript(c.ya, c.ada, yb, adb)); NoCollision(h, v, w) && NoCrossCollision(h, v, w)
    ensures InitiatorFinish(h, c, yb, adb, InitiatorTag(h, ViewISK(h, w), w.sid, w.transcript)).Ok?
            <==> View(c.sid, k, Transcript(c.ya, c.ada, yb, adb)) == w && (c.ya, c.ada) == (yb, adb)
  {
    var v := View(c.sid, k, Transcript(c.ya, c.ada, yb, adb));
    if InitiatorFinish(h, c, yb, adb, InitiatorTag(h, ViewISK(h, w), w.sid, w.transcript)).Ok? {
      EqualKeys(h, v, w);
      MacMessageInjective(yb, adb, w.transcript.ya, w.transcript.ada);
    }
  }

  /** The same for a responder core and a responder's tag. */
  lemma ResponderTagReflected(h: Primitives, c: ResponderCore, v: View, w: View)
    requires c.isk == ViewISK(h, v) && c.sid == v.sid && c.transcript == v.transcript
    requires NoCollision(h, v, w) && NoCrossCollision(h, v, w)
    ensures ResponderFinish(h, c, ResponderTag(h, ViewISK(h, w), w.sid, w.transcript)).Ok?
            <==> v == w && (v.transcript.ya, v.transcript.ada) == (v.transcript.yb, v.transcript.adb)
  {
    if ResponderFinish(h, c, ResponderTag(h, ViewISK(h, w), w.sid, w.transcript)).Ok? {
      EqualKeys(h, v, w);
      MacMessageInjective(v.transcript.ya, v.transcript.ada, w.transcript.yb, w.transcript.adb);
    }
  }

  /** Every responder core that Respond constructs holds a view, and its tag is that view's. */
  lemma ResponderHoldsView(h: Primitives, nc: Normalized, ya: bytes, ada: bytes, random: Option<Scalar>)
    requires NewResponderCore(h, nc, ya, ada, random).Ok?
    ensures var (core, yb, tagB) := NewResponderCore(h, nc, ya, ada, random).value;
            exists k :: var v := View(nc.sid, k, Transcript(ya, ada, yb, nc.ad));
              && SharedSecret(random.value, ya) == Ok(k)
              && core.isk == ViewISK(h, v) && core.sid == v.sid && core.transcript == v.transcript
              && tagB == ResponderTag(h, ViewISK(h, v), v.sid, v.transcript)
  {
    var k := SharedSecret(random.value, ya).value;
    assert SharedSecret(random.value, ya) == Ok(k);
  }

  // ------------------------------------------------------- an arbitrary network

  ghost function SecretOf(y: bytes, share: bytes): bytes {
    match SharedSecret(y, share) case Ok(k) => k case Err(_) => []
  }

  ghost function FieldsOf(spec: MessageSpec, message: bytes): seq<bytes> {
    match Decode(spec, message) case Ok(f) => f case Err(_) => []
  }

  /** The confirmation tag of a message B. */
  ghost function TagOf(messageB: bytes): bytes {
    var f := FieldsOf(SPEC_B, messageB);
    if |f| == 3 then f[2] else []
  }

  const NO_VIEW := View([], [], Transcript([], [], [], []))

  /** An initiator core's view once it has received message B. */
  ghost function InitiatorView(c: InitiatorCore, messageB: bytes): View {
    var f := FieldsOf(SPEC_B, messageB);
    if |f| != 3 then NO_VIEW else View(c.sid, SecretOf(c.scalar, f[0]), Transcript(c.ya, c.ada, f[0], f[1]))
  }

  /** The responder's view of its input, its scalar and the message A it received. */
  ghost function ResponderView(h: Primitives, b: Input, messageA: bytes, rb: Scalar): View {
    var f := FieldsOf(SPEC_A, messageA);
    if |f| != 3 then NO_VIEW
    else
      var yb := match MakeShare(h, NormalizedFor(b, ResponderRole), Some(rb)) case Ok((_, y)) => y case Err(_) => [];
      View(b.sessionID, SecretOf(rb, f[1]), Transcript(f[1], f[2], yb, b.localAD))
  }

  ghost predicate HoldsView(h: Primitives, c: ResponderCore, v: View) {
    c.isk == ViewISK(h, v) && c.sid == v.sid && c.transcript == v.transcript
  }

  /** The session that a side with the view v ends with. */
  ghost function ViewSession(h: Primitives, v: View, peerAD: bytes, peerID: bytes): Session {
    Session(ViewISK(h, v), TranscriptID(h, v.transcript), peerAD, peerID)
  }

  /** Whatever message A the network delivered, a responder core holds the view above, and message B
      carries that view's tag. */
  lemma RespondHoldsView(h: Primitives, b: Input, messageA: bytes, rb: Scalar, rc: ResponderCore, sentB: bytes)
    requires RespondCall(h, b, messageA, Some(rb)) == Ok((rc, sentB))
    ensures var v := ResponderView(h, b, messageA, rb);
            && HoldsView(h, rc, v) && v.sid == b.sessionID && v.transcript.adb == b.localAD
            && FieldsOf(SPEC_B, sentB) == [v.transcript.yb, b.localAD, ResponderTag(h, ViewISK(h, v), v.sid, v.transcript)]
  {
    var f := Decode(SPEC_A, messageA).value;
    var nc := NormalizedFor(b, ResponderRole);
    ResponderHoldsView(h, nc, f[1], f[2], Some(rb));
    var v := ResponderView(h, b, messageA, rb);
    DecodeEmittedB(v.transcript.yb, b.localAD, ResponderTag(h, ViewISK(h, v), v.sid, v.transcript));
  }

  /** An initiator that accepts message B ends with its view's session and sends its view's tag. */
  lemma FinishHoldsView(h: Primitives, c: InitiatorCore, messageB: bytes, sentC: bytes, sa: Session)
    requires InitiatorFinishCall(h, c, messageB) == Ok((sentC, sa))
    ensures var v, f := InitiatorView(c, messageB), FieldsOf(SPEC_B, messageB);
            && |f| == 3 && SharedSecret(c.scalar, f[0]) == Ok(v.k) && InitiatorFinish(h, c, f[0], f[1], f[2]).Ok?
            && sa == ViewSession(h, v, f[1], c.peerID)
            && FieldsOf(SPEC_C, sentC) == [InitiatorTag(h, ViewISK(h, v), v.sid, v.transcript)]
  {
    var v := InitiatorView(c, messageB);
    DecodeEmittedC(InitiatorTag(h, ViewISK(h, v), v.sid, v.transcript));
  }

  lemma ResponderAccepted(h: Primitives, rc: ResponderCore, w: View, messageC: bytes, sb: Session)
    requires HoldsView(h, rc, w) && ResponderFinishCall(h, rc, messageC) == Ok(sb)
    ensures var f := FieldsOf(SPEC_C, messageC); |f| == 1 && ResponderFinish(h, rc, f[0]).Ok?
    ensures sb == ViewSession(h, w, w.transcript.ada, rc.peerID)
  {
  }

  /** If both sides accept and one of the two tags was the other side's own, the views are equal. */
  lemma TagsAgree(h: Primitives, c: InitiatorCore, yb: bytes, adb: bytes, k: bytes, tagB: bytes, rc: ResponderCore, w: View, tagC: bytes)
    requires SharedSecret(c.scalar, yb) == Ok(k) && HoldsView(h, rc, w)
    requires InitiatorFinish(h, c, yb, adb, tagB).Ok? && ResponderFinish(h, rc, tagC).Ok?
    requires var v := View(c.sid, k, Transcript(c.ya, c.ada, yb, adb));
             && NoCollision(h, v, w) && NoCollision(h, w, v)
             && (tagB == ResponderTag(h, ViewISK(h, w), w.sid, w.transcript) || tagC == InitiatorTag(h, ViewISK(h, v), v.sid, v.transcript))
    ensures View(c.sid, k, Transcript(c.ya, c.ada, yb, adb)) == w
  {
    var v := View(c.sid, k, Transcript(c.ya, c.ada, yb, adb));
    if tagB == ResponderTag(h, ViewISK(h, w), w.sid, w.transcript) {
      InitiatorAcceptsIff(h, c, yb, adb, k, w);
    } else {
      ResponderAcceptsIff(h, rc, w, v);
    }
  }

  /** Over an arbitrary network the messages A, B and C may be anything. If both Finish calls accept
      and either message B carried the responder's own tag or message C was the initiator's own, then
      both sides have the same view: the sessions hold the same ISK and transcript ID, and each side's
      peer data is what the other side bound. */
  lemma AcceptedFinishesAgree(h: Primitives, c: InitiatorCore, b: Input, rb: Scalar, messageA: bytes, messageB: bytes, messageC: bytes,
                              rc: ResponderCore, sentB: bytes, sentC: bytes, sa: Session, sb: Session)
    requires RespondCall(h, b, messageA, Some(rb)) == Ok((rc, sentB))
    requires InitiatorFinishCall(h, c, messageB) == Ok((sentC, sa))
    requires ResponderFinishCall(h, rc, messageC) == Ok(sb)
    requires TagOf(messageB) == TagOf(sentB) || messageC == sentC
    requires var v, w := InitiatorView(c, messageB), ResponderView(h, b, messageA, rb); NoCollision(h, v, w) && NoCollision(h, w, v)
    ensures InitiatorView(c, messageB) == ResponderView(h, b, messageA, rb)
    ensures sa.isk == sb.isk && sa.transcriptID == sb.transcriptID
    ensures sa.peerAD == b.localAD && sb.peerAD == c.ada && c.sid == b.sessionID
  {
    var v, w := InitiatorView(c, messageB), ResponderView(h, b, messageA, rb);
    RespondHoldsView(h, b, messageA, rb, rc, sentB);
    FinishHoldsView(h, c, messageB, sentC, sa);
    ResponderAccepted(h, rc, w, messageC, sb);
    var f := FieldsOf(SPEC_B, messageB);
    TagsAgree(h, c, f[0], f[1], v.k, f[2], rc, w, FieldsOf(SPEC_C, messageC)[0]);
  }

  /** Whatever the password, channel info and session id hash to, the generator is a point of the
      curve and not of its twist. */
  lemma GeneratorOnCurve(h: Primitives, a: Input)
    requires CurveConstants()
    ensures OnCurve(SetBytes(InputGenerator(h, a)))
  {
    var r := SetBytes(h.sha512(GeneratorString(a.password, BuildCI(a.selfID, a.peerID, a.context), a.sessionID))[..POINT_SIZE]);
    MapLandsOnCurve(r);
    SetBytesToBytes(DraftMap(r));
  }
}
