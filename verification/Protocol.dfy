/** The protocol of input.go, core.go, transcript.go and api.go as functions on values: four calls
    between two roles. SHA-512, HMAC-SHA-512 and HKDF are parameters of the model; randomness is an
    argument, absent when the reader fails. A nil slice is the empty byte string here. */
module Protocol {
  import opened Bytes
  import opened Errors
  import opened Field25519
  import opened X25519
  import opened PeerShare
  import opened Elligator
  import opened LengthValue
  import opened Caps
  import opened Framing
  import opened HashInputs

  type Digest = b: bytes | |b| == 64 witness Zeros(64)
  type Scalar = b: bytes | |b| == 32 witness Zeros(32)

  datatype Primitives = Primitives(
    sha512: bytes -> Digest,
    hmac: (bytes, bytes) -> Digest,
    hkdf: (bytes, bytes, nat) -> Option<bytes>)

  // ------------------------------------------------------- inputs

  datatype Input = Input(
    password: bytes, selfID: bytes, peerID: bytes, context: bytes, sessionID: bytes, localAD: bytes,
    allowEmptySessionID: bool)

  datatype Role = InitiatorRole | ResponderRole

  datatype Normalized = Normalized(
    password: bytes, initiatorID: bytes, responderID: bytes, ci: bytes, sid: bytes, ad: bytes)

  /** acceptInput: the error, or none. */
  function AcceptInput(input: Input): (e: Error)
    ensures e == {} <==>
            && 0 < |input.password| <= 4096 && 0 < |input.selfID| <= 4096 && 0 < |input.peerID| <= 4096
            && |input.context| <= 1024 && |input.sessionID| <= 1024 && |input.localAD| <= 65536
            && (|input.sessionID| > 0 || input.allowEmptySessionID)
    ensures e == {ErrInvalidInput, ErrEmptySessionID} <==>
            && |input.password| > 0 && |input.selfID| > 0 && |input.peerID| > 0
            && |input.sessionID| == 0 && !input.allowEmptySessionID
    ensures e != {} && e != {ErrInvalidInput, ErrEmptySessionID} ==> e == {ErrInvalidInput}
  {
    if |input.password| == 0 || |input.selfID| == 0 || |input.peerID| == 0 then {ErrInvalidInput}
    else if |input.sessionID| == 0 && !input.allowEmptySessionID then {ErrInvalidInput, ErrEmptySessionID}
    else if
      && WithinInputCap(CapField(MAX_PASSWORD, false), |input.password|)
      && WithinInputCap(CapField(MAX_ID, false), |input.selfID|)
      && WithinInputCap(CapField(MAX_ID, false), |input.peerID|)
      && WithinInputCap(CapField(MAX_CONTEXT, false), |input.context|)
      && WithinInputCap(CapField(MAX_SESSION_ID, false), |input.sessionID|)
      && WithinInputCap(CapField(MAX_ASSOCIATED_DATA, false), |input.localAD|)
    then {}
    else {ErrInvalidInput}
  }

  function Normalize(input: Input, role: Role): Result<Normalized> {
    var e := AcceptInput(input);
    if e != {} then Err(e)
    else Ok(NormalizedFor(input, role))
  }

  /** handoff: which identity is whose depends on the role. */
  function NormalizedFor(input: Input, role: Role): Normalized {
    var initiatorID := if role.InitiatorRole? then input.selfID else input.peerID;
    var responderID := if role.InitiatorRole? then input.peerID else input.selfID;
    Normalized(input.password, initiatorID, responderID,
               BuildCI(initiatorID, responderID, input.context), input.sessionID, input.localAD)
  }

  // ------------------------------------------------------- derivations

  function CalculateGenerator(h: Primitives, prs: bytes, ci: bytes, sid: bytes): (g: bytes)
    ensures |g| == POINT_SIZE
  {
    ToBytes(DraftMap(SetBytes(h.sha512(GeneratorString(prs, ci, sid))[..POINT_SIZE])))
  }

  datatype Transcript = Transcript(ya: bytes, ada: bytes, yb: bytes, adb: bytes) {
    function Encoded(): bytes { TranscriptBytes(ya, ada, yb, adb) }
  }

  function DeriveISK(h: Primitives, sid: bytes, k: bytes, tr: Transcript): Digest {
    h.sha512(IskInput(sid, k, tr.Encoded()))
  }

  function ConfirmationTag(h: Primitives, isk: bytes, sid: bytes, y: bytes, ad: bytes): Digest {
    h.hmac(h.sha512(MacKeyInput(sid, isk)), MacMessage(y, ad))
  }

  function InitiatorTag(h: Primitives, isk: bytes, sid: bytes, tr: Transcript): Digest {
    ConfirmationTag(h, isk, sid, tr.ya, tr.ada)
  }

  function ResponderTag(h: Primitives, isk: bytes, sid: bytes, tr: Transcript): Digest {
    ConfirmationTag(h, isk, sid, tr.yb, tr.adb)
  }

  function TranscriptID(h: Primitives, tr: Transcript): Digest {
    h.sha512(TranscriptIdInput(tr.Encoded()))
  }

  // ------------------------------------------------------- cores

  datatype InitiatorCore = InitiatorCore(scalar: bytes, sid: bytes, ya: bytes, ada: bytes, peerID: bytes)
  datatype ResponderCore = ResponderCore(isk: bytes, transcript: Transcript, sid: bytes, peerID: bytes)
  datatype Session = Session(isk: bytes, transcriptID: bytes, peerAD: bytes, peerID: bytes)

  /** The part that both core constructors share: the sampled scalar and its public share. */
  function MakeShare(h: Primitives, nc: Normalized, random: Option<Scalar>): Result<(bytes, bytes)> {
    if random.None? then Err({ErrRandomness})
    else
      match ScalarMult(random.value, CalculateGenerator(h, nc.password, nc.ci, nc.sid))
      case Err(e) => Err(e)
      case Ok(share) => Ok((random.value, share))
  }

  function NewInitiatorCore(h: Primitives, nc: Normalized, random: Option<Scalar>): Result<(InitiatorCore, bytes)> {
    match MakeShare(h, nc, random)
    case Err(e) => Err(e)
    case Ok((y, ya)) => Ok((InitiatorCore(y, nc.sid, ya, nc.ad, nc.responderID), ya))
  }

  function InitiatorFinish(h: Primitives, c: InitiatorCore, yb: bytes, adb: bytes, tag: bytes): Result<(bytes, Session)> {
    match SharedSecret(c.scalar, yb)
    case Err(e) => Err(e)
    case Ok(k) =>
      var tr := Transcript(c.ya, c.ada, yb, adb);
      var isk := DeriveISK(h, c.sid, k, tr);
      if ResponderTag(h, isk, c.sid, tr) != tag then Err({ErrConfirmationFailed})
      else Ok((InitiatorTag(h, isk, c.sid, tr), Session(isk, TranscriptID(h, tr), adb, c.peerID)))
  }

  function CompleteResponderCore(h: Primitives, nc: Normalized, ya: bytes, ada: bytes, random: Option<Scalar>):
    Result<(ResponderCore, bytes, bytes)>
  {
    match MakeShare(h, nc, random)
    case Err(e) => Err(e)
    case Ok((y, yb)) =>
      match SharedSecret(y, ya)
      case Err(e) => Err(e)
      case Ok(k) =>
        var tr := Transcript(ya, ada, yb, nc.ad);
        var isk := DeriveISK(h, nc.sid, k, tr);
        Ok((ResponderCore(isk, tr, nc.sid, nc.initiatorID), yb, ResponderTag(h, isk, nc.sid, tr)))
  }

  /** The responder core, its share and its confirmation tag. The peer share is validated before the
      generator is derived or randomness is read. */
  function NewResponderCore(h: Primitives, nc: Normalized, ya: bytes, ada: bytes, random: Option<Scalar>):
    Result<(ResponderCore, bytes, bytes)>
  {
    match Validate(ya)
    case Err(e) => Err(e)
    case Ok(_) => CompleteResponderCore(h, nc, ya, ada, random)
  }

  function ResponderFinish(h: Primitives, c: ResponderCore, tag: bytes): Result<Session> {
    if InitiatorTag(h, c.isk, c.sid, c.transcript) != tag then Err({ErrConfirmationFailed})
    else Ok(Session(c.isk, TranscriptID(h, c.transcript), c.transcript.ada, c.peerID))
  }

  // ------------------------------------------------------- the four calls

  function StartFrom(h: Primitives, nc: Normalized, random: Option<Scalar>): Result<(InitiatorCore, bytes)> {
    match NewInitiatorCore(h, nc, random)
    case Err(e) => Err(e)
    case Ok((core, ya)) => Ok((core, Encode(SPEC_A, [nc.sid, ya, nc.ad])))
  }

  function StartCall(h: Primitives, input: Input, random: Option<Scalar>): Result<(InitiatorCore, bytes)> {
    match Normalize(input, InitiatorRole)
    case Err(e) => Err(e)
    case Ok(nc) => StartFrom(h, nc, random)
  }

  function RespondFrom(h: Primitives, nc: Normalized, messageA: bytes, random: Option<Scalar>): Result<(ResponderCore, bytes)> {
    match Decode(SPEC_A, messageA)
    case Err(e) => Err(e)
    case Ok(fields) =>
      if |fields| != 3 || fields[0] != nc.sid then Err({ErrMessage})
      else
        match NewResponderCore(h, nc, fields[1], fields[2], random)
        case Err(e) => Err(e)
        case Ok((core, yb, tagB)) => Ok((core, Encode(SPEC_B, [yb, nc.ad, tagB])))
  }

  function RespondCall(h: Primitives, input: Input, messageA: bytes, random: Option<Scalar>): Result<(ResponderCore, bytes)> {
    match Normalize(input, ResponderRole)
    case Err(e) => Err(e)
    case Ok(nc) => RespondFrom(h, nc, messageA, random)
  }

  function InitiatorFinishCall(h: Primitives, core: InitiatorCore, messageB: bytes): Result<(bytes, Session)> {
    match Decode(SPEC_B, messageB)
    case Err(e) => Err(e)
    case Ok(fields) =>
      if |fields| != 3 then Err({ErrMessage})
      else
        match InitiatorFinish(h, core, fields[0], fields[1], fields[2])
        case Err(e) => Err(e)
        case Ok((tagA, session)) => Ok((Encode(SPEC_C, [tagA]), session))
  }

  function ResponderFinishCall(h: Primitives, core: ResponderCore, messageC: bytes): Result<Session> {
    match Decode(SPEC_C, messageC)
    case Err(e) => Err(e)
    case Ok(fields) =>
      if |fields| != 1 then Err({ErrMessage}) else ResponderFinish(h, core, fields[0])
  }

  const MAX_HKDF_OUTPUT := 16320

  function ExportCall(h: Primitives, isk: bytes, exportLabel: bytes, context: bytes, length: int): Result<bytes> {
    if length < 0 || length > MAX_HKDF_OUTPUT then Err({ErrInvalidInput})
    else
      match h.hkdf(isk, ExportInfo(exportLabel, context), length)
      case None => Err({ErrInvalidInput})
      case Some(out) => Ok(out)
  }

  // ------------------------------------------------------- emitted messages decode

  lemma CapsFit(n: nat)
    requires n <= MAX_ASSOCIATED_DATA
    ensures n < Pow128(MAX_LEB128_BYTES)
  {
    assert Pow128(1) == 128 && Pow128(2) == 16384;
  }

  lemma DecodeEmittedA(sid: bytes, ya: bytes, ad: bytes)
    requires |sid| <= MAX_SESSION_ID && |ya| == POINT && |ad| <= MAX_ASSOCIATED_DATA
    ensures Decode(SPEC_A, Encode(SPEC_A, [sid, ya, ad])) == Ok([sid, ya, ad])
  {
    CapsFit(|sid|);
    CapsFit(|ya|);
    CapsFit(|ad|);
    DecodeExact(SPEC_A, Encode(SPEC_A, [sid, ya, ad]), [sid, ya, ad]);
  }

  lemma DecodeEmittedB(yb: bytes, ad: bytes, tag: bytes)
    requires |yb| == POINT && |ad| <= MAX_ASSOCIATED_DATA && |tag| == TAG
    ensures Decode(SPEC_B, Encode(SPEC_B, [yb, ad, tag])) == Ok([yb, ad, tag])
  {
    CapsFit(|yb|);
    CapsFit(|ad|);
    CapsFit(|tag|);
    DecodeExact(SPEC_B, Encode(SPEC_B, [yb, ad, tag]), [yb, ad, tag]);
  }

  lemma DecodeEmittedC(tag: bytes)
    requires |tag| == TAG
    ensures Decode(SPEC_C, Encode(SPEC_C, [tag])) == Ok([tag])
  {
    CapsFit(|tag|);
    DecodeExact(SPEC_C, Encode(SPEC_C, [tag]), [tag]);
  }

  lemma StartMessageDecodes(h: Primitives, input: Input, random: Option<Scalar>)
    requires StartCall(h, input, random).Ok?
    ensures Decode(SPEC_A, StartCall(h, input, random).value.1).Ok?
  {
    var nc := Normalize(input, InitiatorRole).value;
    var ya := NewInitiatorCore(h, nc, random).value.1;
    DecodeEmittedA(nc.sid, ya, nc.ad);
  }

  lemma RespondMessageDecodes(h: Primitives, input: Input, peer: bytes, random: Option<Scalar>)
    requires RespondCall(h, input, peer, random).Ok?
    ensures Decode(SPEC_B, RespondCall(h, input, peer, random).value.1).Ok?
  {
    var nc := Normalize(input, ResponderRole).value;
    var fields := Decode(SPEC_A, peer).value;
    var (_, yb, tagB) := NewResponderCore(h, nc, fields[1], fields[2], random).value;
    DecodeEmittedB(yb, nc.ad, tagB);
  }

  lemma FinishMessageDecodes(h: Primitives, core: InitiatorCore, peer: bytes)
    requires InitiatorFinishCall(h, core, peer).Ok?
    ensures Decode(SPEC_C, InitiatorFinishCall(h, core, peer).value.0).Ok?
  {
    var fields := Decode(SPEC_B, peer).value;
    DecodeEmittedC(InitiatorFinish(h, core, fields[0], fields[1], fields[2]).value.0);
  }

  /** Every message the package emits decodes: Start's as A, Respond's as B, Finish's as C. */
  lemma EmittedMessagesDecode(h: Primitives, input: Input, random: Option<Scalar>, peer: bytes, core: InitiatorCore)
    ensures StartCall(h, input, random).Ok? ==> Decode(SPEC_A, StartCall(h, input, random).value.1).Ok?
    ensures RespondCall(h, input, peer, random).Ok? ==> Decode(SPEC_B, RespondCall(h, input, peer, random).value.1).Ok?
    ensures InitiatorFinishCall(h, core, peer).Ok? ==> Decode(SPEC_C, InitiatorFinishCall(h, core, peer).value.0).Ok?
  {
    if StartCall(h, input, random).Ok? { StartMessageDecodes(h, input, random); }
    if RespondCall(h, input, peer, random).Ok? { RespondMessageDecodes(h, input, peer, random); }
    if InitiatorFinishCall(h, core, peer).Ok? { FinishMessageDecodes(h, core, peer); }
  }
}
