/** What each call returns, from the bytes on the wire and the hash primitives to the error sentinels:
    every failure with its exact condition, and every success with its exact bytes. */
module Outcomes {
  import opened Modular
  import opened Fermat
  import opened Bytes
  import opened Errors
  import opened Field25519
  import opened XGroup
  import opened XLadder
  import opened X25519
  import opened PeerShare
  import opened Elligator
  import opened LengthValue
  import opened Framing
  import opened HashInputs
  import opened Protocol
  import opened Agreement

  // ------------------------------------------------------- messages

  /** Bytes decode as message A with these fields exactly if they are the header, the three lengths in
      canonical form and the fields, within the caps. */
  lemma MessageAIs(input: bytes, sid: bytes, ya: bytes, ad: bytes)
    ensures Decode(SPEC_A, input) == Ok([sid, ya, ad]) <==>
            |sid| <= 1024 && |ya| == 32 && |ad| <= 65536 && input == [0xc1, 0x02, 0x01] + Lv(sid) + Lv(ya) + Lv(ad)
  {
    DecodeExact(SPEC_A, input, [sid, ya, ad]);
    LvCatThree(sid, ya, ad);
    if |sid| <= 1024 && |ya| == 32 && |ad| <= 65536 {
      CapsFit(|sid|);
      CapsFit(|ya|);
      CapsFit(|ad|);
    }
    if AllAcceptable(SPEC_A.fields, [sid, ya, ad]) {
      assert Acceptable(SPEC_A.fields[0], [sid, ya, ad][0]) && Acceptable(SPEC_A.fields[1], [sid, ya, ad][1])
             && Acceptable(SPEC_A.fields[2], [sid, ya, ad][2]);
    }
    assert [0xc1, 0x02, 0x01] + (Lv(sid) + Lv(ya) + Lv(ad)) == [0xc1, 0x02, 0x01] + Lv(sid) + Lv(ya) + Lv(ad);
  }

  lemma MessageBIs(input: bytes, yb: bytes, ad: bytes, tag: bytes)
    ensures Decode(SPEC_B, input) == Ok([yb, ad, tag]) <==>
            |yb| == 32 && |ad| <= 65536 && |tag| == 64 && input == [0xc1, 0x02, 0x02] + Lv(yb) + Lv(ad) + Lv(tag)
  {
    DecodeExact(SPEC_B, input, [yb, ad, tag]);
    LvCatThree(yb, ad, tag);
    if |yb| == 32 && |ad| <= 65536 && |tag| == 64 {
      CapsFit(|yb|);
      CapsFit(|ad|);
      CapsFit(|tag|);
    }
    if AllAcceptable(SPEC_B.fields, [yb, ad, tag]) {
      assert Acceptable(SPEC_B.fields[0], [yb, ad, tag][0]) && Acceptable(SPEC_B.fields[1], [yb, ad, tag][1])
             && Acceptable(SPEC_B.fields[2], [yb, ad, tag][2]);
    }
    assert [0xc1, 0x02, 0x02] + (Lv(yb) + Lv(ad) + Lv(tag)) == [0xc1, 0x02, 0x02] + Lv(yb) + Lv(ad) + Lv(tag);
  }

  lemma MessageCIs(input: bytes, tag: bytes)
    ensures Decode(SPEC_C, input) == Ok([tag]) <==> |tag| == 64 && input == [0xc1, 0x02, 0x03, 64] + tag
  {
    DecodeExact(SPEC_C, input, [tag]);
    assert LvCat([tag]) == Lv(tag) + LvCat([tag][1..]);
    if |tag| == 64 {
      CapsFit(|tag|);
      ShortLv(tag);
    }
    if AllAcceptable(SPEC_C.fields, [tag]) {
      assert Acceptable(SPEC_C.fields[0], [tag][0]);
    }
    assert [0xc1, 0x02, 0x03] + ([64] + tag) == [0xc1, 0x02, 0x03, 64] + tag;
  }

  /** Decoding yields the specified number of fields or a message error, and nothing else. */
  lemma DecodeOutcome(spec: MessageSpec, input: bytes)
    requires InCatalogue(spec)
    ensures Decode(spec, input).Err? ==> Decode(spec, input) == Err({ErrMessage})
    ensures Decode(spec, input).Ok? ==> |Decode(spec, input).value| == |spec.fields|
  {
    if Decode(spec, input).Ok? {
      DecodeExact(spec, input, Decode(spec, input).value);
    }
  }

  // ------------------------------------------------------- the generator

  /** The generator's coordinate x from the digest that is mapped: with r its first 32 bytes and any v
      with v (1 + 2 r^2) == -A, x is v if the curve has a point there, and -v - A if not. */
  lemma GeneratorEquation(h: Primitives, prs: bytes, ci: bytes, sid: bytes, v: int)
    requires CurveConstants()
    requires var pad := Zeros(if |Lv(prs)| < 118 then 118 - |Lv(prs)| else 0);
             var r: int := SetBytes(h.sha512([8] + Ascii("CPace255") + Lv(prs) + Lv(pad) + Lv(ci) + Lv(sid))[..32]);
             Cong(P, v * (1 + 2 * (r * r)), -486662)
    ensures |CalculateGenerator(h, prs, ci, sid)| == 32
    ensures Cong(P, SetBytes(CalculateGenerator(h, prs, ci, sid)), if IsSquare(P, v * v * v + 486662 * (v * v) + v) then v else -v - 486662)
  {
    GeneratorStringLayout(prs, ci, sid);
    var r := SetBytes(h.sha512(GeneratorString(prs, ci, sid))[..32]);
    MapEquation(r, v);
    SetBytesToBytes(DraftMap(r));
  }

  // ------------------------------------------------------- the hashed values

  /** The session key, tags and transcript ID as the hash primitives of the draft's strings. */
  lemma DerivedValues(h: Primitives, sid: bytes, k: bytes, t: Transcript, isk: bytes)
    ensures DeriveISK(h, sid, k, t)
            == h.sha512([12] + Ascii("CPace255_ISK") + Lv(sid) + Lv(k) + (Lv(t.ya) + Lv(t.ada) + Lv(t.yb) + Lv(t.adb)))
    ensures InitiatorTag(h, isk, sid, t) == h.hmac(h.sha512(Ascii("CPaceMac") + sid + isk), Lv(t.ya) + Lv(t.ada))
    ensures ResponderTag(h, isk, sid, t) == h.hmac(h.sha512(Ascii("CPaceMac") + sid + isk), Lv(t.yb) + Lv(t.adb))
    ensures TranscriptID(h, t) == h.sha512(Ascii("CPaceSidOutput") + (Lv(t.ya) + Lv(t.ada) + Lv(t.yb) + Lv(t.adb)))
  {
    TranscriptLayout(t.ya, t.ada, t.yb, t.adb);
    IskInputLayout(sid, k, t.Encoded());
    MacLayout(sid, isk, t.ya, t.ada);
    MacLayout(sid, isk, t.yb, t.adb);
  }

  /** Different transcripts have different transcript IDs unless SHA-512 collides on their strings. */
  lemma TranscriptIDsSeparate(h: Primitives, t: Transcript, u: Transcript)
    requires h.sha512(TranscriptIdInput(t.Encoded())) == h.sha512(TranscriptIdInput(u.Encoded()))
             ==> TranscriptIdInput(t.Encoded()) == TranscriptIdInput(u.Encoded())
    ensures TranscriptID(h, t) == TranscriptID(h, u) <==> t == u
  {
    if TranscriptID(h, t) == TranscriptID(h, u) {
      TranscriptIdInputInjective(t.Encoded(), u.Encoded());
      TranscriptInjective(t.ya, t.ada, t.yb, t.adb, u.ya, u.ada, u.yb, u.adb);
    }
  }

  // ------------------------------------------------------- Start

  /** Start fails exactly on rejected input or a failing randomness source; otherwise message A carries
      the session ID, the share of the sampled scalar, and the local data, and the core keeps them with
      the peer's identity. */
  lemma StartOutcome(h: Primitives, a: Input, random: Option<Scalar>)
    ensures AcceptInput(a) != {} ==> StartCall(h, a, random) == Err(AcceptInput(a))
    ensures AcceptInput(a) == {} && random.None? ==> StartCall(h, a, random) == Err({ErrRandomness})
    ensures AcceptInput(a) == {} && random.Some? ==>
            var share := ScalarMult(random.value, CalculateGenerator(h, a.password, BuildCI(a.selfID, a.peerID, a.context), a.sessionID));
            && share.Ok?
            && StartCall(h, a, random) ==
               Ok((InitiatorCore(random.value, a.sessionID, share.value, a.localAD, a.peerID),
                   [0xc1, 0x02, 0x01] + Lv(a.sessionID) + Lv(share.value) + Lv(a.localAD)))
  {
    if AcceptInput(a) == {} && random.Some? {
      var g := CalculateGenerator(h, a.password, BuildCI(a.selfID, a.peerID, a.context), a.sessionID);
      ScalarMultErrors(random.value, g);
      var share := ScalarMult(random.value, g).value;
      LvCatThree(a.sessionID, share, a.localAD);
      assert [0xc1, 0x02, 0x01] + (Lv(a.sessionID) + Lv(share) + Lv(a.localAD))
             == [0xc1, 0x02, 0x01] + Lv(a.sessionID) + Lv(share) + Lv(a.localAD);
    }
  }

  // ------------------------------------------------------- Respond

  /** A message A that does not decode, or that carries another session ID, is a message error whatever
      the share and the randomness are. */
  lemma RespondNeedsItsSession(h: Primitives, b: Input, m: bytes, random: Option<Scalar>)
    requires AcceptInput(b) == {}
    requires Decode(SPEC_A, m).Err? || FieldsOf(SPEC_A, m)[..1] != [b.sessionID]
    ensures RespondCall(h, b, m, random) == Err({ErrMessage})
  {
    DecodeOutcome(SPEC_A, m);
    if Decode(SPEC_A, m).Ok? {
      var f := Decode(SPEC_A, m).value;
      assert f[..1] == [f[0]];
    }
  }

  /** The share is checked before the randomness is read: an invalid one aborts in the same way
      whatever the source of randomness does. */
  lemma RespondChecksShareFirst(h: Primitives, b: Input, m: bytes, random: Option<Scalar>, ya: bytes, ada: bytes)
    requires AcceptInput(b) == {} && Decode(SPEC_A, m) == Ok([b.sessionID, ya, ada]) && Validate(ya).Err?
    ensures RespondCall(h, b, m, random) == Err({ErrAbort, ErrPeerShareIdentity})
  {
    MessageAIs(m, b.sessionID, ya, ada);
    RejectionError(VALIDATION_SCALAR, ya);
  }

  /** Respond succeeds exactly if the input is accepted, message A decodes with the input's session ID
      and a valid share, and randomness is there; nothing that happens after validation can fail. */
  lemma RespondSucceedsIff<G(!new), H(!new)>(st: Setting<G, H>, h: Primitives, b: Input, m: bytes, random: Option<Scalar>)
    requires Curve25519(st)
    ensures RespondCall(h, b, m, random).Ok? <==>
            && AcceptInput(b) == {} && random.Some? && |FieldsOf(SPEC_A, m)| == 3
            && FieldsOf(SPEC_A, m)[0] == b.sessionID && Validate(FieldsOf(SPEC_A, m)[1]).Ok?
    ensures RespondCall(h, b, m, random).Err? ==>
            RespondCall(h, b, m, random).error ==
            if AcceptInput(b) != {} then AcceptInput(b)
            else if |FieldsOf(SPEC_A, m)| != 3 || FieldsOf(SPEC_A, m)[0] != b.sessionID then {ErrMessage}
            else if Validate(FieldsOf(SPEC_A, m)[1]).Err? then {ErrAbort, ErrPeerShareIdentity}
            else {ErrRandomness}
  {
    DecodeOutcome(SPEC_A, m);
    if AcceptInput(b) == {} && |FieldsOf(SPEC_A, m)| == 3 && FieldsOf(SPEC_A, m)[0] == b.sessionID {
      var f := FieldsOf(SPEC_A, m);
      assert f == [b.sessionID, f[1], f[2]];
      if Validate(f[1]).Err? {
        RespondChecksShareFirst(h, b, m, random, f[1], f[2]);
      } else if random.Some? {
        PrevalidationExact(st, f[1]);
        assert Survives(f[1], random.value);
        ScalarMultErrors(random.value, CalculateGenerator(h, b.password, BuildCI(b.peerID, b.selfID, b.context), b.sessionID));
        ScalarMultErrors(random.value, f[1]);
      }
    }
  }

  /** What a successful Respond computes and sends: its share, the session key from its own secret and
      the received share, and the responder's tag, in message B. */
  lemma RespondOutcome(h: Primitives, b: Input, m: bytes, rb: Scalar, rc: ResponderCore, sent: bytes)
    requires RespondCall(h, b, m, Some(rb)) == Ok((rc, sent))
    ensures var f := FieldsOf(SPEC_A, m);
            && |f| == 3 && f[0] == b.sessionID
            && var yb := ScalarMult(rb, CalculateGenerator(h, b.password, BuildCI(b.peerID, b.selfID, b.context), b.sessionID));
               var k := SharedSecret(rb, f[1]);
               && yb.Ok? && k.Ok?
               && var t := Transcript(f[1], f[2], yb.value, b.localAD);
                  rc == ResponderCore(DeriveISK(h, b.sessionID, k.value, t), t, b.sessionID, b.peerID)
                  && sent == [0xc1, 0x02, 0x02] + Lv(yb.value) + Lv(b.localAD) + Lv(ResponderTag(h, rc.isk, b.sessionID, t))
  {
    DecodeOutcome(SPEC_A, m);
    var yb := ScalarMult(rb, CalculateGenerator(h, b.password, BuildCI(b.peerID, b.selfID, b.context), b.sessionID)).value;
    var tag := ResponderTag(h, rc.isk, b.sessionID, rc.transcript);
    LvCatThree(yb, b.localAD, tag);
    assert [0xc1, 0x02, 0x02] + (Lv(yb) + Lv(b.localAD) + Lv(tag)) == [0xc1, 0x02, 0x02] + Lv(yb) + Lv(b.localAD) + Lv(tag);
  }

  // ------------------------------------------------------- Finish

  lemma CheckedSecret(s: bytes, encoded: bytes)
    requires |s| == 32 && |encoded| == 32
    ensures ScalarMult(s, encoded).Ok?
    ensures SharedSecret(s, encoded) ==
            if ScalarMult(s, encoded).value == Zeros(32) then Err({ErrAbort, ErrPeerShareIdentity}) else ScalarMult(s, encoded)
  {
  }

  lemma EncodedC(tag: bytes)
    requires |tag| == 64
    ensures Encode(SPEC_C, [tag]) == [0xc1, 0x02, 0x03, 64] + tag
  {
    ShortLv(tag);
    assert LvCat([tag]) == Lv(tag) + LvCat([tag][1..]);
    assert [0xc1, 0x02, 0x03] + ([64] + tag) == [0xc1, 0x02, 0x03, 64] + tag;
  }

  /** Initiator.finish for a secret and the fields of message B. */
  lemma ConfirmationOutcome(h: Primitives, c: InitiatorCore, yb: bytes, adb: bytes, tag: bytes, k: bytes)
    ensures SharedSecret(c.scalar, yb).Err? ==> InitiatorFinish(h, c, yb, adb, tag) == Err(SharedSecret(c.scalar, yb).error)
    ensures SharedSecret(c.scalar, yb) == Ok(k) ==>
            var t := Transcript(c.ya, c.ada, yb, adb);
            var isk := DeriveISK(h, c.sid, k, t);
            InitiatorFinish(h, c, yb, adb, tag) ==
            if ResponderTag(h, isk, c.sid, t) != tag then Err({ErrConfirmationFailed})
            else Ok((InitiatorTag(h, isk, c.sid, t), Session(isk, TranscriptID(h, t), adb, c.peerID)))
  {
  }

  /** Initiator.Finish on every message B: a message error, an aborted share, a failed confirmation, or
      message C with the initiator's tag and the session of the exchange. */
  lemma InitiatorFinishOutcome(h: Primitives, c: InitiatorCore, m: bytes)
    requires |c.scalar| == 32
    ensures var f := FieldsOf(SPEC_B, m);
            if |f| != 3 then InitiatorFinishCall(h, c, m) == Err({ErrMessage})
            else
              && ScalarMult(c.scalar, f[0]).Ok?
              && var k := ScalarMult(c.scalar, f[0]).value;
                 var t := Transcript(c.ya, c.ada, f[0], f[1]);
                 var isk := DeriveISK(h, c.sid, k, t);
                 InitiatorFinishCall(h, c, m) ==
                 if k == Zeros(32) then Err({ErrAbort, ErrPeerShareIdentity})
                 else if ResponderTag(h, isk, c.sid, t) != f[2] then Err({ErrConfirmationFailed})
                 else Ok(([0xc1, 0x02, 0x03, 64] + InitiatorTag(h, isk, c.sid, t), Session(isk, TranscriptID(h, t), f[1], c.peerID)))
  {
    DecodeOutcome(SPEC_B, m);
    var f := FieldsOf(SPEC_B, m);
    if |f| == 3 {
      assert f == [f[0], f[1], f[2]];
      MessageBIs(m, f[0], f[1], f[2]);
      CheckedSecret(c.scalar, f[0]);
      var k := ScalarMult(c.scalar, f[0]).value;
      ConfirmationOutcome(h, c, f[0], f[1], f[2], k);
      var t := Transcript(c.ya, c.ada, f[0], f[1]);
      EncodedC(InitiatorTag(h, DeriveISK(h, c.sid, k, t), c.sid, t));
    }
  }

  /** Responder.Finish on every message C. */
  lemma ResponderFinishOutcome(h: Primitives, c: ResponderCore, m: bytes)
    ensures ResponderFinishCall(h, c, m) ==
            if |m| != 68 || m[..4] != [0xc1, 0x02, 0x03, 64] then Err({ErrMessage})
            else if m[4..] != InitiatorTag(h, c.isk, c.sid, c.transcript) then Err({ErrConfirmationFailed})
            else Ok(Session(c.isk, TranscriptID(h, c.transcript), c.transcript.ada, c.peerID))
  {
    DecodeOutcome(SPEC_C, m);
    if |m| == 68 && m[..4] == [0xc1, 0x02, 0x03, 64] {
      assert m == [0xc1, 0x02, 0x03, 64] + m[4..];
      MessageCIs(m, m[4..]);
    } else if Decode(SPEC_C, m).Ok? {
      var f := Decode(SPEC_C, m).value;
      assert f == [f[0]];
      MessageCIs(m, f[0]);
    }
  }

  // ------------------------------------------------------- Export

  /** A length from 0 to 16320 exports what HKDF makes of the draft's info string, if it makes anything;
      every other length is invalid input. */
  lemma ExportOutcome(h: Primitives, isk: bytes, exportLabel: bytes, context: bytes, length: int)
    ensures ExportCall(h, isk, exportLabel, context, length) ==
            if !(0 <= length <= 16320) then Err({ErrInvalidInput})
            else match h.hkdf(isk, [11] + Ascii("CPaceExport") + Lv(exportLabel) + Lv(context), length)
                 case None => Err({ErrInvalidInput})
                 case Some(out) => Ok(out)
  {
    ExportInfoLayout(exportLabel, context);
  }

  /** Exports of one key under different labels or contexts are different, unless HKDF collides. */
  lemma ExportsSeparate(h: Primitives, isk: bytes, l: bytes, c: bytes, l': bytes, c': bytes, n: nat)
    requires ExportCall(h, isk, l, c, n).Ok? && ExportCall(h, isk, l, c, n) == ExportCall(h, isk, l', c', n)
    requires h.hkdf(isk, ExportInfo(l, c), n) == h.hkdf(isk, ExportInfo(l', c'), n) ==> ExportInfo(l, c) == ExportInfo(l', c')
    ensures l == l' && c == c'
  {
    ExportInfoInjective(l, c, l', c');
  }
}
