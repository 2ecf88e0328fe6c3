/** input.go, core.go, transcript.go and api.go on the heap: which arrays are cloned, who owns them, and
    what is zero when a call returns. Each method also computes what Protocol says it computes. */
module Ownership {
  import opened Bytes
  import opened Heap
  import opened Errors
  import opened Field25519
  import opened X25519
  import opened PeerShare
  import opened Elligator
  import opened LengthValue
  import opened Framing
  import opened HashInputs
  import opened SessionState
  import Spec = Protocol

  // ------------------------------------------------------- inputs

  /** The caller's arrays. No method below has them in its modifies clause. */
  datatype InputArrays = InputArrays(
    password: Slice, selfID: Slice, peerID: Slice, context: Slice, sessionID: Slice, localAD: Slice,
    allowEmptySessionID: bool)

  function InputValue(i: InputArrays): Spec.Input
    reads i.password, i.selfID, i.peerID, i.context, i.sessionID, i.localAD
  {
    Spec.Input(Value(i.password), Value(i.selfID), Value(i.peerID), Value(i.context), Value(i.sessionID),
            Value(i.localAD), i.allowEmptySessionID)
  }

  class CallerInput {
    var password: Slice
    var selfID: Slice
    var peerID: Slice
    var context: Slice
    var sid: Slice
    var localAD: Slice

    constructor (password: Slice, selfID: Slice, peerID: Slice, context: Slice, sid: Slice, localAD: Slice)
      ensures this.password == password && this.selfID == selfID && this.peerID == peerID
      ensures this.context == context && this.sid == sid && this.localAD == localAD
      ensures forall a: array<byte> :: Tracked(a) && fresh(a) ==> Zeroed(a)
    {
      this.password, this.selfID, this.peerID := password, selfID, peerID;
      this.context, this.sid, this.localAD := context, sid, localAD;
    }

    ghost predicate Owns(a: array<byte>)
      reads this
    {
      a == password || a == selfID || a == peerID || a == context || a == sid || a == localAD
    }

    /** The password and the context share no array with another field. */
    ghost predicate Apart()
      reads this
    {
      && (password != null ==> password != selfID && password != peerID && password != context && password != sid && password != localAD)
      && (context != null ==> context != selfID && context != peerID && context != sid && context != localAD)
    }

    /** The bytes held, as an input that needs no further checks. */
    ghost function Current(): Spec.Input
      reads this, password, selfID, peerID, context, sid, localAD
    {
      Spec.Input(Value(password), Value(selfID), Value(peerID), Value(context), Value(sid), Value(localAD), true)
    }

    method Wipe()
      modifies password, selfID, peerID, context, sid, localAD
      ensures forall a: array<byte> :: Owns(a) ==> Zeroed(a)
      ensures forall a: array<byte> :: Tracked(a) && fresh(a) ==> Zeroed(a)
    {
      ClearBytes(password);
      ClearBytes(selfID);
      ClearBytes(peerID);
      ClearBytes(context);
      ClearBytes(sid);
      ClearBytes(localAD);
    }

    /** handoff: the arrays move to the normalized input, the context is wiped, and no reference stays. */
    method Handoff(role: Spec.Role) returns (nc: NormalizedInput)
      requires Apart()
      modifies this, context
      ensures password == null && selfID == null && peerID == null && context == null && sid == null && localAD == null
      ensures forall a: array<byte> :: Tracked(a) && (fresh(a) || old(Owns(a))) ==> nc.Owns(a) || Zeroed(a)
      ensures forall a: array<byte> :: nc.Owns(a) ==> fresh(a) || old(Owns(a))
      ensures nc.PasswordApart() && nc.Val() == Spec.NormalizedFor(old(Current()), role)
    {
      var initiatorID := if role.InitiatorRole? then selfID else peerID;
      var responderID := if role.InitiatorRole? then peerID else selfID;
      var ci := Alloc(BuildCI(Value(initiatorID), Value(responderID), Value(context)));
      ClearBytes(context);
      context := null;
      nc := NormalizedInput(password, initiatorID, responderID, ci, sid, localAD);
      password, selfID, peerID, sid, localAD := null, null, null, null, null;
    }
  }

  datatype NormalizedInput = NormalizedInput(
    password: Slice, initiatorID: Slice, responderID: Slice, ci: Slice, sid: Slice, ad: Slice)
  {
    ghost predicate Owns(a: array<byte>) {
      a == password || a == initiatorID || a == responderID || a == ci || a == sid || a == ad
    }

    ghost function Val(): Spec.Normalized
      reads password, initiatorID, responderID, ci, sid, ad
    {
      Spec.Normalized(Value(password), Value(initiatorID), Value(responderID), Value(ci), Value(sid), Value(ad))
    }

    /** Mentions every array, so that facts about all owned arrays apply to each. */
    ghost predicate AllTracked() {
      && (password != null ==> Tracked(password)) && (initiatorID != null ==> Tracked(initiatorID))
      && (responderID != null ==> Tracked(responderID)) && (ci != null ==> Tracked(ci))
      && (sid != null ==> Tracked(sid)) && (ad != null ==> Tracked(ad))
    }

    /** The password array is shared with no other field. */
    ghost predicate PasswordApart() {
      password != null ==> password != initiatorID && password != responderID && password != ci && password != sid && password != ad
    }

    method Wipe()
      modifies password, initiatorID, responderID, ci, sid, ad
      ensures forall a: array<byte> :: Owns(a) ==> Zeroed(a)
      ensures forall a: array<byte> :: Tracked(a) && fresh(a) ==> Zeroed(a)
    {
      ClearBytes(password);
      ClearBytes(initiatorID);
      ClearBytes(responderID);
      ClearBytes(ci);
      ClearBytes(sid);
      ClearBytes(ad);
    }
  }

  // ------------------------------------------------------- accepting input

  method CloneThree(a: Slice, b: Slice, c: Slice) returns (x: Slice, y: Slice, z: Slice)
    ensures Value(x) == Value(a) && Value(y) == Value(b) && Value(z) == Value(c)
    ensures (x != null ==> fresh(x) && x != y && x != z) && (y != null ==> fresh(y) && y != z) && (z != null ==> fresh(z))
    ensures forall a: array<byte> :: Tracked(a) && fresh(a) ==> a == x || a == y || a == z || Zeroed(a)
  {
    x := Clone(a);
    y := Clone(b);
    z := Clone(c);
  }

  /** acceptInput: validation reads the caller's arrays, then every field is cloned. */
  method AcceptInput(input: InputArrays) returns (e: Error, c: CallerInput?)
    ensures e == Spec.AcceptInput(old(InputValue(input)))
    ensures e != {} ==> c == null
    ensures e == {} ==> c != null && fresh(c) && c.Apart() && forall a: array<byte> :: c.Owns(a) ==> fresh(a)
    ensures e == {} ==> c.Current() == old(InputValue(input)).(allowEmptySessionID := true)
    ensures forall a: array<byte> :: Tracked(a) && fresh(a) ==> (c != null && c.Owns(a)) || Zeroed(a)
  {
    c := null;
    e := Spec.AcceptInput(InputValue(input));
    if e != {} {
      return;
    }
    var password, selfID, peerID := CloneThree(input.password, input.selfID, input.peerID);
    var context, sid, localAD := CloneThree(input.context, input.sessionID, input.localAD);
    c := new CallerInput(password, selfID, peerID, context, sid, localAD);
  }

  /** normalizeInput. Every array of the accepted input ends up in the normalized input or is zero. */
  method NormalizeInput(input: InputArrays, role: Spec.Role) returns (r: Result<NormalizedInput>)
    ensures match Spec.Normalize(old(InputValue(input)), role)
            case Err(e) => r == Err(e)
            case Ok(v) => r.Ok? && r.value.Val() == v && r.value.PasswordApart()
    ensures r.Ok? ==> forall a: array<byte> :: Tracked(a) && r.value.Owns(a) ==> fresh(a)
    ensures forall a: array<byte> :: Tracked(a) && fresh(a) ==> (r.Ok? && r.value.Owns(a)) || Zeroed(a)
  {
    var e, caller := AcceptInput(input);
    if e != {} {
      return Err(e);
    }
    assert caller.context != null ==> caller.Owns(caller.context);
    var nc := caller.Handoff(role);
    assert nc.Val() == Spec.NormalizedFor(old(InputValue(input)), role);
    caller.Wipe();
    return Ok(nc);
  }

  // ------------------------------------------------------- derivations

  method CalculateGenerator(h: Spec.Primitives, password: Slice, ci: Slice, sid: Slice) returns (g: array<byte>)
    ensures fresh(g) && g[..] == Spec.CalculateGenerator(h, Value(password), Value(ci), Value(sid))
    ensures forall a: array<byte> :: Tracked(a) && fresh(a) ==> a == g || Zeroed(a)
  {
    var genStr := Alloc(GeneratorString(Value(password), Value(ci), Value(sid)));
    var hash := Alloc(h.sha512(genStr[..]));
    ClearBytes(genStr);
    g := Alloc(ToBytes(DraftMap(SetBytes(hash[..POINT_SIZE]))));
    ClearBytes(hash);
  }

  /** sampleScalar: a failing reader leaves nothing behind. */
  method SampleScalar(random: Option<Spec.Scalar>) returns (r: Result<array<byte>>)
    ensures r.Err? <==> random.None?
    ensures r.Err? ==> r.error == {ErrRandomness}
    ensures r.Ok? ==> fresh(r.value) && r.value[..] == random.value
    ensures forall a: array<byte> :: Tracked(a) && fresh(a) ==> (r.Ok? && a == r.value) || Zeroed(a)
  {
    if random.None? {
      var b := Alloc(Zeros(SCALAR_SIZE));
      ClearBytes(b);
      return Err({ErrRandomness});
    }
    var b := Alloc(random.value);
    return Ok(b);
  }

  method Multiply(s: Slice, point: bytes) returns (r: Result<array<byte>>)
    ensures match ScalarMult(Value(s), point)
            case Err(e) => r == Err(e)
            case Ok(out) => r.Ok? && fresh(r.value) && r.value[..] == out
    ensures forall a: array<byte> :: Tracked(a) && fresh(a) ==> (r.Ok? && a == r.value) || Zeroed(a)
  {
    var out := X25519ScalarMult(Value(s), point);
    if out.Err? {
      return Err(out.error);
    }
    var b := Alloc(out.value);
    return Ok(b);
  }

  /** scalarMultVFY and the role's error wrapping. */
  method Secret(s: Slice, encoded: bytes) returns (r: Result<array<byte>>)
    ensures match SharedSecret(Value(s), encoded)
            case Err(e) => r == Err(e)
            case Ok(out) => r.Ok? && fresh(r.value) && r.value[..] == out
    ensures forall a: array<byte> :: Tracked(a) && fresh(a) ==> (r.Ok? && a == r.value) || Zeroed(a)
  {
    if |encoded| != POINT_SIZE {
      return Err(WrapError({ErrAbort}));
    }
    var out := Multiply(s, encoded);
    if out.Err? {
      return Err(WrapError(out.error));
    }
    if out.value[..] == IDENTITY_ENCODING {
      assert forall i :: 0 <= i < out.value.Length ==> out.value[i] == out.value[..][i];
      return Err(WrapError({ErrAbort, ErrPeerShareIdentity}));
    }
    return out;
  }

  /** validatePublicShare: the scratch output is wiped. */
  method ValidateShare(encoded: bytes) returns (r: Result<()>)
    ensures r == Validate(encoded)
    ensures forall a: array<byte> :: Tracked(a) && fresh(a) ==> Zeroed(a)
  {
    r := ValidateShareWith(VALIDATION_SCALAR, encoded);
  }

  method ValidateShareWith(v: bytes, encoded: bytes) returns (r: Result<()>)
    ensures r == ValidateWith(v, encoded)
    ensures forall a: array<byte> :: Tracked(a) && fresh(a) ==> Zeroed(a)
  {
    if |encoded| != POINT_SIZE {
      return Err({ErrAbort});
    }
    var scalar := Alloc(v);
    var out := Secret(scalar, encoded);
    ClearBytes(scalar);
    if out.Err? {
      return Err(out.error);
    }
    ClearBytes(out.value);
    return Ok(());
  }

  /** deriveISK: the prefix, the material and the digest are wiped. */
  method DeriveISK(h: Spec.Primitives, sid: bytes, k: bytes, transcript: bytes) returns (out: array<byte>)
    ensures fresh(out) && out[..] == h.sha512(IskInput(sid, k, transcript))
    ensures forall a: array<byte> :: Tracked(a) && fresh(a) ==> a == out || Zeroed(a)
  {
    var prefix := Alloc(LvCat([DSI_ISK, sid, k]));
    var material := Alloc(prefix[..] + transcript);
    ClearBytes(prefix);
    var sum := Alloc(h.sha512(material[..]));
    ClearBytes(material);
    out := Alloc(sum[..]);
    ClearBytes(sum);
  }

  /** confirmationTag: the key input and the MAC key are wiped. */
  method ConfirmationTag(h: Spec.Primitives, isk: bytes, sid: bytes, y: bytes, ad: bytes) returns (tag: array<byte>)
    ensures fresh(tag) && tag[..] == Spec.ConfirmationTag(h, isk, sid, y, ad)
    ensures forall a: array<byte> :: Tracked(a) && fresh(a) ==> a == tag || Zeroed(a)
  {
    var keyInput := Alloc(MacKeyInput(sid, isk));
    var macKey := Alloc(h.sha512(keyInput[..]));
    ClearBytes(keyInput);
    tag := Alloc(h.hmac(macKey[..], MacMessage(y, ad)));
    ClearBytes(macKey);
  }

  // ------------------------------------------------------- the initiator

  class InitiatorCore {
    var scalar: Slice
    var sid: Slice
    var ya: Slice
    var ada: Slice
    var peerID: Slice

    constructor (scalar: Slice, sid: Slice, ya: Slice, ada: Slice, peerID: Slice)
      ensures this.scalar == scalar && this.sid == sid && this.ya == ya && this.ada == ada && this.peerID == peerID
      ensures forall a: array<byte> :: Tracked(a) && fresh(a) ==> Zeroed(a)
    {
      this.scalar, this.sid, this.ya, this.ada, this.peerID := scalar, sid, ya, ada, peerID;
    }

    ghost predicate Owns(a: array<byte>)
      reads this
    {
      a == scalar || a == sid || a == ya || a == ada || a == peerID
    }

    ghost function Val(): Spec.InitiatorCore
      reads this, scalar, sid, ya, ada, peerID
    {
      Spec.InitiatorCore(Value(scalar), Value(sid), Value(ya), Value(ada), Value(peerID))
    }

    /** Mentions every array, so that facts about all owned arrays apply to each. */
    ghost predicate AllTracked()
      reads this
    {
      && (scalar != null ==> Tracked(scalar)) && (sid != null ==> Tracked(sid)) && (ya != null ==> Tracked(ya))
      && (ada != null ==> Tracked(ada)) && (peerID != null ==> Tracked(peerID))
    }

    /** The scalar is shared with no public field. */
    ghost predicate ScalarApart()
      reads this
    {
      scalar != null ==> scalar != sid && scalar != ya && scalar != ada && scalar != peerID
    }

    /** clear: the scalar's array is zeroed and dropped; a second call is a no-op. */
    method Clear()
      modifies this, scalar
      ensures scalar == null && sid == old(sid) && ya == old(ya) && ada == old(ada) && peerID == old(peerID)
      ensures old(scalar) != null ==> Zeroed(old(scalar))
      ensures forall a: array<byte> :: Tracked(a) && fresh(a) ==> Zeroed(a)
    {
      ClearBytes(scalar);
      scalar := null;
    }
  }

  method BuildInitiatorCore(scalar: array<byte>, nc: NormalizedInput, ya: array<byte>) returns (core: InitiatorCore)
    ensures fresh(core) && core.scalar == scalar
    ensures core.Val() == Spec.InitiatorCore(scalar[..], Value(nc.sid), ya[..], Value(nc.ad), Value(nc.responderID))
    ensures (core.sid != null ==> fresh(core.sid)) && (core.ya != null ==> fresh(core.ya))
    ensures (core.ada != null ==> fresh(core.ada)) && (core.peerID != null ==> fresh(core.peerID))
    ensures core.ScalarApart()
    ensures forall a: array<byte> :: Tracked(a) && fresh(a) ==> core.Owns(a) || Zeroed(a)
  {
    var sid, share, ada := CloneThree(nc.sid, ya, nc.ad);
    var peerID := Clone(nc.responderID);
    core := new InitiatorCore(scalar, sid, share, ada, peerID);
  }

  /** The part that both core constructors share: derive the generator, wipe the password, sample the
      scalar and compute the public share. The generator is zero on every exit, the scalar on failure. */
  method MakeShare(h: Spec.Primitives, nc: NormalizedInput, random: Option<Spec.Scalar>)
    returns (r: Result<(array<byte>, array<byte>)>)
    requires nc.PasswordApart()
    modifies nc.password
    ensures nc.password != null ==> Zeroed(nc.password)
    ensures match Spec.MakeShare(h, old(nc.Val()), random)
            case Err(e) => r == Err(e)
            case Ok((y, share)) => r.Ok? && fresh(r.value.0) && fresh(r.value.1) && r.value.0[..] == y && r.value.1[..] == share
    ensures r.Ok? ==> r.value.0 != r.value.1
    ensures forall a: array<byte> :: Tracked(a) && fresh(a) ==> (r.Ok? && (a == r.value.0 || a == r.value.1)) || Zeroed(a)
  {
    var g := CalculateGenerator(h, nc.password, nc.ci, nc.sid);
    ClearBytes(nc.password);
    var y := SampleScalar(random);
    if y.Err? {
      ClearBytes(g);
      return Err(y.error);
    }
    var share := Multiply(y.value, g[..]);
    ClearBytes(g);
    assert share.Ok?;  // both sizes are right, so the source's clearScalar on this error is never reached
    return Ok((y.value, share.value));
  }

  /** newInitiatorCore */
  method NewInitiatorCore(h: Spec.Primitives, nc: NormalizedInput, random: Option<Spec.Scalar>)
    returns (r: Result<(InitiatorCore, array<byte>)>)
    requires nc.PasswordApart()
    modifies nc.password
    ensures nc.password != null ==> Zeroed(nc.password)
    ensures match Spec.NewInitiatorCore(h, old(nc.Val()), random)
            case Err(e) => r == Err(e)
            case Ok((c, ya)) => r.Ok? && fresh(r.value.0) && fresh(r.value.1) && r.value.0.Val() == c && r.value.1[..] == ya && r.value.0.ScalarApart()
    ensures r.Ok? ==> forall a: array<byte> :: Tracked(a) && r.value.0.Owns(a) ==> fresh(a)
    ensures forall a: array<byte> :: Tracked(a) && fresh(a) ==> (r.Ok? && (r.value.0.Owns(a) || a == r.value.1)) || Zeroed(a)
  {
    var made := MakeShare(h, nc, random);
    if made.Err? {
      return Err(made.error);
    }
    var (y, ya) := made.value;
    var core := BuildInitiatorCore(y, nc, ya);
    return Ok((core, ya));
  }

  method EncodeA(sid: Slice, ya: array<byte>, ad: Slice) returns (message: array<byte>)
    ensures fresh(message) && message[..] == Encode(SPEC_A, [Value(sid), ya[..], Value(ad)])
    ensures forall a: array<byte> :: Tracked(a) && fresh(a) ==> a == message || Zeroed(a)
  {
    message := Alloc(Encode(SPEC_A, [Value(sid), ya[..], Value(ad)]));
  }

  /** The body of startWithRandom before its deferred wipe. */
  method BuildStart(h: Spec.Primitives, nc: NormalizedInput, random: Option<Spec.Scalar>)
    returns (r: Result<(InitiatorCore, array<byte>)>, ghost share: Slice)
    requires nc.PasswordApart()
    modifies nc.password
    ensures match Spec.StartFrom(h, old(nc.Val()), random)
            case Err(e) => r == Err(e)
            case Ok((c, m)) => r.Ok? && fresh(r.value.0) && fresh(r.value.1) && r.value.0.Val() == c && r.value.1[..] == m
    ensures r.Ok? ==> r.value.0.ScalarApart()
    ensures r.Ok? ==> forall a: array<byte> :: Tracked(a) && r.value.0.Owns(a) ==> fresh(a) && a != r.value.1 && !nc.Owns(a)
    ensures if r.Ok? then share != null && fresh(share) && share[..] == Value(r.value.0.ya) else share == null
    ensures forall a: array<byte> :: Tracked(a) && fresh(a) ==>
              (r.Ok? && (r.value.0.Owns(a) || a == r.value.1 || a == share)) || Zeroed(a)
  {
    var built := NewInitiatorCore(h, nc, random);
    if built.Err? {
      return Err(built.error), null;
    }
    var (core, ya) := built.value;
    var message := EncodeA(nc.sid, ya, nc.ad);
    return Ok((core, message)), ya;
  }

  /** The deferred wipe beside a core that shares no array with the wiped input. */
  method WipeBeside(nc: NormalizedInput, core: InitiatorCore)
    requires forall a: array<byte> :: Tracked(a) && core.Owns(a) ==> !nc.Owns(a)
    modifies nc.password, nc.initiatorID, nc.responderID, nc.ci, nc.sid, nc.ad
    ensures forall a: array<byte> :: nc.Owns(a) ==> Zeroed(a)
    ensures core.Val() == old(core.Val())
    ensures forall a: array<byte> :: Tracked(a) && fresh(a) ==> Zeroed(a)
  {
    assert core.AllTracked();
    nc.Wipe();
  }

  /** The body of startWithRandom with its deferred wipe: every array of nc is zero on every exit. */
  method StartAndWipe(h: Spec.Primitives, nc: NormalizedInput, random: Option<Spec.Scalar>)
    returns (r: Result<(InitiatorCore, array<byte>)>, ghost share: Slice)
    requires nc.PasswordApart()
    modifies nc.password, nc.initiatorID, nc.responderID, nc.ci, nc.sid, nc.ad
    ensures forall a: array<byte> :: nc.Owns(a) ==> Zeroed(a)
    ensures match Spec.StartFrom(h, old(nc.Val()), random)
            case Err(e) => r == Err(e)
            case Ok((c, m)) => r.Ok? && fresh(r.value.0) && fresh(r.value.1) && r.value.0.Val() == c && r.value.1[..] == m
    ensures r.Ok? ==> r.value.0.ScalarApart()
    ensures r.Ok? ==> forall a: array<byte> :: Tracked(a) && r.value.0.Owns(a) ==> fresh(a) && a != r.value.1
    ensures if r.Ok? then share != null && fresh(share) && share[..] == Value(r.value.0.ya) else share == null
    ensures forall a: array<byte> :: Tracked(a) && fresh(a) ==>
              (r.Ok? && (r.value.0.Owns(a) || a == r.value.1 || a == share)) || Zeroed(a)
  {
    r, share := BuildStart(h, nc, random);
    ghost var message, sent := if r.Ok? then r.value.1[..] else [], Value(share);
    if r.Err? {
      nc.Wipe();
    } else {
      WipeBeside(nc, r.value.0);
      assert r.value.1[..] == message && share[..] == sent;
    }
  }

  /** startWithRandom. On every exit, every byte array that the call allocated is zero, except the
      arrays of the returned core, the returned message and the one array of the public share. The
      caller's arrays are not in the modifies clause, which is empty. */
  method StartWithRandom(h: Spec.Primitives, input: InputArrays, random: Option<Spec.Scalar>)
    returns (r: Result<(InitiatorCore, array<byte>)>, ghost share: Slice)
    ensures match Spec.StartCall(h, old(InputValue(input)), random)
            case Err(e) => r == Err(e)
            case Ok((c, m)) => r.Ok? && fresh(r.value.0) && fresh(r.value.1) && r.value.0.Val() == c && r.value.1[..] == m
    ensures r.Ok? ==> r.value.0.ScalarApart()
    ensures r.Ok? ==> forall a: array<byte> :: Tracked(a) && r.value.0.Owns(a) ==> fresh(a) && a != r.value.1
    ensures if r.Ok? then share != null && fresh(share) && share[..] == Value(r.value.0.ya) else share == null
    ensures forall a: array<byte> :: Tracked(a) && fresh(a) ==>
              (r.Ok? && (r.value.0.Owns(a) || a == r.value.1 || a == share)) || Zeroed(a)
  {
    var normalized := NormalizeInput(input, Spec.InitiatorRole);
    if normalized.Err? {
      return Err(normalized.error), null;
    }
    var nc := normalized.value;
    assert nc.AllTracked();
    r, share := StartAndWipe(h, nc, random);
  }

  // ------------------------------------------------------- the responder

  /** irTranscript: the encoded transcript and its four fields, all cloned. */
  datatype TranscriptArrays = TranscriptArrays(transcript: Slice, ya: Slice, ada: Slice, yb: Slice, adb: Slice) {
    ghost predicate Owns(a: array<byte>) {
      a == transcript || a == ya || a == ada || a == yb || a == adb
    }

    ghost function Val(): Spec.Transcript
      reads ya, ada, yb, adb
    {
      Spec.Transcript(Value(ya), Value(ada), Value(yb), Value(adb))
    }

    /** The stored encoding is that of the four fields. */
    ghost predicate Encodes()
      reads transcript, ya, ada, yb, adb
    {
      Value(transcript) == Val().Encoded()
    }

    ghost predicate AllTracked() {
      && (transcript != null ==> Tracked(transcript)) && (ya != null ==> Tracked(ya)) && (ada != null ==> Tracked(ada))
      && (yb != null ==> Tracked(yb)) && (adb != null ==> Tracked(adb))
    }

    /** clear's zeroing; the owner drops the fields. */
    method Wipe()
      modifies transcript, ya, ada, yb, adb
      ensures forall a: array<byte> :: Owns(a) ==> Zeroed(a)
      ensures forall a: array<byte> :: Tracked(a) && fresh(a) ==> Zeroed(a)
    {
      ClearBytes(transcript);
      ClearBytes(ya);
      ClearBytes(ada);
      ClearBytes(yb);
      ClearBytes(adb);
    }
  }

  method NewIRTranscript(ya: bytes, ada: bytes, yb: bytes, adb: bytes) returns (t: TranscriptArrays)
    ensures t.Val() == Spec.Transcript(ya, ada, yb, adb) && t.Encodes()
    ensures forall a: array<byte> :: Tracked(a) && t.Owns(a) ==> fresh(a)
    ensures forall a: array<byte> :: Tracked(a) && fresh(a) ==> t.Owns(a) || Zeroed(a)
  {
    var a1 := Alloc(ya);
    var a2 := Alloc(ada);
    var a3 := Alloc(yb);
    var a4 := Alloc(adb);
    var tr := Alloc(TranscriptBytes(ya, ada, yb, adb));
    t := TranscriptArrays(tr, a1, a2, a3, a4);
  }

  class ResponderCore {
    var isk: Slice
    var transcript: TranscriptArrays
    var sid: Slice
    var peerID: Slice

    constructor (isk: Slice, transcript: TranscriptArrays, sid: Slice, peerID: Slice)
      ensures this.isk == isk && this.transcript == transcript && this.sid == sid && this.peerID == peerID
      ensures forall a: array<byte> :: Tracked(a) && fresh(a) ==> Zeroed(a)
    {
      this.isk, this.transcript, this.sid, this.peerID := isk, transcript, sid, peerID;
    }

    ghost predicate Owns(a: array<byte>)
      reads this
    {
      a == isk || transcript.Owns(a) || a == sid || a == peerID
    }

    ghost function Val(): Spec.ResponderCore
      reads this, isk, transcript.ya, transcript.ada, transcript.yb, transcript.adb, sid, peerID
    {
      Spec.ResponderCore(Value(isk), transcript.Val(), Value(sid), Value(peerID))
    }

    /** The core holds exactly c, and its stored transcript encoding is consistent. */
    ghost predicate Holds(c: Spec.ResponderCore)
      reads this, isk, transcript.transcript, transcript.ya, transcript.ada, transcript.yb, transcript.adb, sid, peerID
    {
      Val() == c && transcript.Encodes()
    }

    ghost predicate AllTracked()
      reads this
    {
      && (isk != null ==> Tracked(isk)) && transcript.AllTracked()
      && (sid != null ==> Tracked(sid)) && (peerID != null ==> Tracked(peerID))
    }

    /** clear: the ISK and the stored transcript are zeroed and dropped; a second call is a no-op. */
    method Clear()
      modifies this, isk, transcript.transcript, transcript.ya, transcript.ada, transcript.yb, transcript.adb
      ensures isk == null && transcript == TranscriptArrays(null, null, null, null, null)
      ensures sid == old(sid) && peerID == old(peerID)
      ensures old(isk) != null ==> Zeroed(old(isk))
      ensures forall a: array<byte> :: old(transcript).Owns(a) ==> Zeroed(a)
      ensures forall a: array<byte> :: Tracked(a) && fresh(a) ==> Zeroed(a)
    {
      ClearBytes(isk);
      isk := null;
      transcript.Wipe();
      transcript := TranscriptArrays(null, null, null, null, null);
    }
  }

  /** The responder's keys from its scalar: the shared secret and the scalar are zero on every exit. */
  method ResponderKeys(h: Spec.Primitives, sid: bytes, y: array<byte>, ya: bytes, ada: bytes, yb: bytes, ad: bytes)
    returns (r: Result<(array<byte>, TranscriptArrays, array<byte>)>)
    modifies y
    ensures Zeroed(y)
    ensures match SharedSecret(old(y[..]), ya)
            case Err(e) => r == Err(e)
            case Ok(k) =>
              var tr := Spec.Transcript(ya, ada, yb, ad);
              var isk := Spec.DeriveISK(h, sid, k, tr);
              && r.Ok? && fresh(r.value.0) && r.value.0[..] == isk && r.value.1.Val() == tr && r.value.1.Encodes()
              && fresh(r.value.2) && r.value.2[..] == Spec.ResponderTag(h, isk, sid, tr)
    ensures r.Ok? ==> forall a: array<byte> :: Tracked(a) && r.value.1.Owns(a) ==> fresh(a) && a != r.value.0
    ensures forall a: array<byte> :: Tracked(a) && fresh(a) ==>
              (r.Ok? && (a == r.value.0 || r.value.1.Owns(a) || a == r.value.2)) || Zeroed(a)
  {
    var k := Secret(y, ya);
    if k.Err? {
      ClearBytes(y);
      return Err(k.error);
    }
    var tr := NewIRTranscript(ya, ada, yb, ad);
    assert tr.AllTracked();
    var isk := DeriveISK(h, sid, k.value[..], Value(tr.transcript));
    var tagB := ConfirmationTag(h, isk[..], sid, Value(tr.yb), Value(tr.adb));
    ClearBytes(k.value);
    ClearBytes(y);
    return Ok((isk, tr, tagB));
  }

  method BuildResponderCore(isk: array<byte>, tr: TranscriptArrays, nc: NormalizedInput) returns (core: ResponderCore)
    requires tr.Encodes()
    ensures fresh(core) && core.isk == isk && core.transcript == tr
    ensures core.Holds(old(Spec.ResponderCore(isk[..], tr.Val(), Value(nc.sid), Value(nc.initiatorID))))
    ensures (core.sid != null ==> fresh(core.sid)) && (core.peerID != null ==> fresh(core.peerID))
    ensures forall a: array<byte> :: Tracked(a) && fresh(a) ==> core.Owns(a) || Zeroed(a)
  {
    var sid := Clone(nc.sid);
    var peerID := Clone(nc.initiatorID);
    core := new ResponderCore(isk, tr, sid, peerID);
  }

  /** The core and the tag from the responder's scalar and share. */
  method CoreFromShare(h: Spec.Primitives, nc: NormalizedInput, y: array<byte>, yb: bytes, ya: bytes, ada: bytes)
    returns (r: Result<(ResponderCore, array<byte>)>)
    requires !nc.Owns(y)
    modifies y
    ensures Zeroed(y)
    ensures match SharedSecret(old(y[..]), ya)
            case Err(e) => r == Err(e)
            case Ok(k) =>
              var c := old(nc.Val());
              var tr := Spec.Transcript(ya, ada, yb, c.ad);
              var isk := Spec.DeriveISK(h, c.sid, k, tr);
              && r.Ok? && fresh(r.value.0) && r.value.0.Holds(Spec.ResponderCore(isk, tr, c.sid, c.initiatorID))
              && fresh(r.value.1) && r.value.1[..] == Spec.ResponderTag(h, isk, c.sid, tr)
    ensures r.Ok? ==> forall a: array<byte> :: Tracked(a) && r.value.0.Owns(a) ==> fresh(a)
    ensures forall a: array<byte> :: Tracked(a) && fresh(a) ==> (r.Ok? && (r.value.0.Owns(a) || a == r.value.1)) || Zeroed(a)
  {
    var keys := ResponderKeys(h, Value(nc.sid), y, ya, ada, yb, Value(nc.ad));
    if keys.Err? {
      return Err(keys.error);
    }
    var (isk, tr, tagB) := keys.value;
    assert tr.AllTracked();
    var core := BuildResponderCore(isk, tr, nc);
    return Ok((core, tagB));
  }

  /** The bytes of what the constructor computes and never wipes: its share and its tag, both sent. */
  ghost function ShareAndTag(h: Spec.Primitives, nc: Spec.Normalized, ya: bytes, ada: bytes, random: Option<Spec.Scalar>): set<bytes> {
    match Spec.MakeShare(h, nc, random)
    case Err(_) => {}
    case Ok((_, yb)) =>
      match Spec.CompleteResponderCore(h, nc, ya, ada, random)
      case Err(_) => {yb}
      case Ok((_, _, tagB)) => {yb, tagB}
  }

  ghost function RespondResidue(h: Spec.Primitives, nc: Spec.Normalized, messageA: bytes, random: Option<Spec.Scalar>): set<bytes> {
    match Decode(SPEC_A, messageA)
    case Err(_) => {}
    case Ok(fields) => if |fields| != 3 then {} else ShareAndTag(h, nc, fields[1], fields[2], random)
  }

  /** The arrays of the share and of the tag, if there are any, hold bytes that are sent. */
  ghost predicate Sent(share: Slice, tag: Slice, sent: set<bytes>)
    reads share, tag
  {
    (share != null ==> share[..] in sent) && (tag != null ==> tag[..] in sent)
  }

  /** newResponderCore after the peer share was validated: the password, the generator, the scalar and
      the shared secret are zero on every exit. */
  method CompleteResponderCore(h: Spec.Primitives, nc: NormalizedInput, ya: bytes, ada: bytes, random: Option<Spec.Scalar>)
    returns (r: Result<(ResponderCore, array<byte>, array<byte>)>, ghost share: Slice, ghost tag: Slice)
    requires nc.PasswordApart()
    modifies nc.password
    ensures match Spec.CompleteResponderCore(h, old(nc.Val()), ya, ada, random)
            case Err(e) => r == Err(e)
            case Ok((c, yb, tagB)) =>
              && r.Ok? && fresh(r.value.0) && r.value.0.Holds(c) && r.value.1[..] == yb && r.value.2[..] == tagB
    ensures r.Ok? ==> fresh(r.value.1) && fresh(r.value.2) && share == r.value.1 && tag == r.value.2
    ensures r.Ok? ==> forall a: array<byte> :: Tracked(a) && r.value.0.Owns(a) ==> fresh(a)
    ensures Sent(share, tag, ShareAndTag(h, old(nc.Val()), ya, ada, random))
    ensures (share != null ==> fresh(share)) && (tag != null ==> fresh(tag))
    ensures forall a: array<byte> :: Tracked(a) && fresh(a) ==> (r.Ok? && r.value.0.Owns(a)) || a == share || a == tag || Zeroed(a)
  {
    var made := MakeShare(h, nc, random);
    if made.Err? {
      return Err(made.error), null, null;
    }
    var (y, yb) := made.value;
    var keyed := CoreFromShare(h, nc, y, yb[..], ya, ada);
    if keyed.Err? {
      return Err(keyed.error), yb, null;
    }
    return Ok((keyed.value.0, yb, keyed.value.1)), yb, keyed.value.1;
  }

  /** newResponderCore: the peer share is validated before anything secret is derived. */
  method NewResponderCore(h: Spec.Primitives, nc: NormalizedInput, ya: bytes, ada: bytes, random: Option<Spec.Scalar>)
    returns (r: Result<(ResponderCore, array<byte>, array<byte>)>, ghost share: Slice, ghost tag: Slice)
    requires nc.PasswordApart()
    modifies nc.password
    ensures match Spec.NewResponderCore(h, old(nc.Val()), ya, ada, random)
            case Err(e) => r == Err(e)
            case Ok((c, yb, tagB)) =>
              && r.Ok? && fresh(r.value.0) && r.value.0.Holds(c) && r.value.1[..] == yb && r.value.2[..] == tagB
    ensures r.Ok? ==> fresh(r.value.1) && fresh(r.value.2) && share == r.value.1 && tag == r.value.2
    ensures r.Ok? ==> forall a: array<byte> :: Tracked(a) && r.value.0.Owns(a) ==> fresh(a)
    ensures Sent(share, tag, ShareAndTag(h, old(nc.Val()), ya, ada, random))
    ensures (share != null ==> fresh(share)) && (tag != null ==> fresh(tag))
    ensures forall a: array<byte> :: Tracked(a) && fresh(a) ==> (r.Ok? && r.value.0.Owns(a)) || a == share || a == tag || Zeroed(a)
  {
    var valid := ValidateShare(ya);
    if valid.Err? {
      return Err(valid.error), null, null;
    }
    r, share, tag := CompleteResponderCore(h, nc, ya, ada, random);
  }

  method EncodeB(yb: array<byte>, ad: Slice, tag: array<byte>) returns (message: array<byte>)
    ensures fresh(message) && message[..] == Encode(SPEC_B, [yb[..], Value(ad), tag[..]])
    ensures forall a: array<byte> :: Tracked(a) && fresh(a) ==> a == message || Zeroed(a)
  {
    message := Alloc(Encode(SPEC_B, [yb[..], Value(ad), tag[..]]));
  }

  /** respondWithRandom after message A was decoded: the core and message B. */
  method RespondTo(h: Spec.Primitives, nc: NormalizedInput, ya: bytes, ada: bytes, random: Option<Spec.Scalar>)
    returns (r: Result<(ResponderCore, array<byte>)>, ghost share: Slice, ghost tag: Slice)
    requires nc.PasswordApart()
    modifies nc.password
    ensures match Spec.NewResponderCore(h, old(nc.Val()), ya, ada, random)
            case Err(e) => r == Err(e)
            case Ok((c, yb, tagB)) =>
              && r.Ok? && fresh(r.value.0) && fresh(r.value.1) && r.value.0.Holds(c)
              && r.value.1[..] == Encode(SPEC_B, [yb, old(Value(nc.ad)), tagB])
    ensures r.Ok? ==> forall a: array<byte> :: Tracked(a) && r.value.0.Owns(a) ==> fresh(a) && a != r.value.1
    ensures Sent(share, tag, ShareAndTag(h, old(nc.Val()), ya, ada, random))
    ensures (share != null ==> fresh(share)) && (tag != null ==> fresh(tag))
    ensures forall a: array<byte> :: Tracked(a) && fresh(a) ==>
              (r.Ok? && (r.value.0.Owns(a) || a == r.value.1)) || a == share || a == tag || Zeroed(a)
  {
    var built;
    built, share, tag := NewResponderCore(h, nc, ya, ada, random);
    if built.Err? {
      r := Err(built.error);
      return;
    }
    var (core, yb, tagB) := built.value;
    var message := EncodeB(yb, nc.ad, tagB);
    r := Ok((core, message));
  }

  /** The body of respondWithRandom before its deferred wipe. */
  method BuildRespond(h: Spec.Primitives, nc: NormalizedInput, messageA: bytes, random: Option<Spec.Scalar>)
    returns (r: Result<(ResponderCore, array<byte>)>, ghost share: Slice, ghost tag: Slice)
    requires nc.PasswordApart()
    modifies nc.password
    ensures match Spec.RespondFrom(h, old(nc.Val()), messageA, random)
            case Err(e) => r == Err(e)
            case Ok((c, m)) => r.Ok? && fresh(r.value.0) && fresh(r.value.1) && r.value.0.Holds(c) && r.value.1[..] == m
    ensures r.Ok? ==> forall a: array<byte> :: Tracked(a) && r.value.0.Owns(a) ==> fresh(a) && a != r.value.1 && !nc.Owns(a)
    ensures Sent(share, tag, RespondResidue(h, old(nc.Val()), messageA, random))
    ensures (share != null ==> fresh(share)) && (tag != null ==> fresh(tag))
    ensures forall a: array<byte> :: Tracked(a) && fresh(a) ==>
              (r.Ok? && (r.value.0.Owns(a) || a == r.value.1)) || a == share || a == tag || Zeroed(a)
  {
    var decoded := Decode(SPEC_A, messageA);
    if decoded.Err? {
      return Err(decoded.error), null, null;
    }
    if |decoded.value| != 3 || decoded.value[0] != Value(nc.sid) {
      return Err({ErrMessage}), null, null;
    }
    r, share, tag := RespondTo(h, nc, decoded.value[1], decoded.value[2], random);
  }

  method WipeBesideResponder(nc: NormalizedInput, core: ResponderCore)
    requires forall a: array<byte> :: Tracked(a) && core.Owns(a) ==> !nc.Owns(a)
    modifies nc.password, nc.initiatorID, nc.responderID, nc.ci, nc.sid, nc.ad
    ensures forall a: array<byte> :: nc.Owns(a) ==> Zeroed(a)
    ensures forall c: Spec.ResponderCore :: old(core.Holds(c)) ==> core.Holds(c)
    ensures forall a: array<byte> :: Tracked(a) && fresh(a) ==> Zeroed(a)
  {
    assert core.AllTracked();
    nc.Wipe();
    assert Value(core.isk) == old(Value(core.isk)) && Value(core.sid) == old(Value(core.sid)) && Value(core.peerID) == old(Value(core.peerID));
    assert Value(core.transcript.transcript) == old(Value(core.transcript.transcript));
    assert core.transcript.Val() == old(core.transcript.Val());
  }

  /** The call's result is what the protocol says. */
  ghost predicate RespondIs(r: Result<(ResponderCore, array<byte>)>, spec: Result<(Spec.ResponderCore, bytes)>)
    reads *
  {
    match spec
    case Err(e) => r == Err(e)
    case Ok((c, m)) => r.Ok? && r.value.0.Holds(c) && r.value.1[..] == m
  }

  /** The deferred wipe beside a result that shares no array with the wiped input. */
  method WipeAfterRespond(nc: NormalizedInput, r: Result<(ResponderCore, array<byte>)>, ghost spec: Result<(Spec.ResponderCore, bytes)>,
                          ghost share: Slice, ghost tag: Slice, ghost sent: set<bytes>)
    requires RespondIs(r, spec) && Sent(share, tag, sent)
    requires r.Ok? ==> !nc.Owns(r.value.1) && forall a: array<byte> :: Tracked(a) && r.value.0.Owns(a) ==> !nc.Owns(a)
    requires (share != null ==> !nc.Owns(share)) && (tag != null ==> !nc.Owns(tag))
    modifies nc.password, nc.initiatorID, nc.responderID, nc.ci, nc.sid, nc.ad
    ensures forall a: array<byte> :: nc.Owns(a) ==> Zeroed(a)
    ensures RespondIs(r, spec) && Sent(share, tag, sent)
    ensures forall a: array<byte> :: Tracked(a) && (fresh(a) || old(Zeroed(a))) ==> Zeroed(a)
  {
    ghost var s, t := Value(share), Value(tag);
    if r.Err? {
      nc.Wipe();
    } else {
      ghost var m := r.value.1[..];
      WipeBesideResponder(nc, r.value.0);
      assert r.value.1[..] == m;
    }
    assert Value(share) == s && Value(tag) == t;
  }

  /** The body of respondWithRandom with its deferred wipe: every array of nc is zero on every exit. */
  method RespondAndWipe(h: Spec.Primitives, nc: NormalizedInput, messageA: bytes, random: Option<Spec.Scalar>)
    returns (r: Result<(ResponderCore, array<byte>)>, ghost share: Slice, ghost tag: Slice)
    requires nc.PasswordApart()
    modifies nc.password, nc.initiatorID, nc.responderID, nc.ci, nc.sid, nc.ad
    ensures forall a: array<byte> :: nc.Owns(a) ==> Zeroed(a)
    ensures match Spec.RespondFrom(h, old(nc.Val()), messageA, random)
            case Err(e) => r == Err(e)
            case Ok((c, m)) => r.Ok? && fresh(r.value.0) && fresh(r.value.1) && r.value.0.Holds(c) && r.value.1[..] == m
    ensures r.Ok? ==> forall a: array<byte> :: Tracked(a) && r.value.0.Owns(a) ==> fresh(a) && a != r.value.1
    ensures Sent(share, tag, RespondResidue(h, old(nc.Val()), messageA, random))
    ensures (share != null ==> fresh(share)) && (tag != null ==> fresh(tag))
    ensures forall a: array<byte> :: Tracked(a) && fresh(a) ==>
              (r.Ok? && (r.value.0.Owns(a) || a == r.value.1)) || a == share || a == tag || Zeroed(a)
  {
    r, share, tag := BuildRespond(h, nc, messageA, random);
    WipeAfterRespond(nc, r, Spec.RespondFrom(h, old(nc.Val()), messageA, random), share, tag,
                     RespondResidue(h, old(nc.Val()), messageA, random));
  }

  /** respondWithRandom. On every exit, every byte array that the call allocated is zero, except the
      arrays of the returned core, the returned message, and the one array each of the responder's own
      share and tag, both of which are sent. The caller's arrays are not modified. */
  method RespondWithRandom(h: Spec.Primitives, input: InputArrays, messageA: bytes, random: Option<Spec.Scalar>)
    returns (r: Result<(ResponderCore, array<byte>)>, ghost share: Slice, ghost tag: Slice, ghost sent: set<bytes>)
    ensures match Spec.RespondCall(h, old(InputValue(input)), messageA, random)
            case Err(e) => r == Err(e)
            case Ok((c, m)) => r.Ok? && fresh(r.value.0) && fresh(r.value.1) && r.value.0.Holds(c) && r.value.1[..] == m
    ensures r.Ok? ==> forall a: array<byte> :: Tracked(a) && r.value.0.Owns(a) ==> fresh(a) && a != r.value.1
    ensures Sent(share, tag, sent)
    ensures sent == match Spec.Normalize(old(InputValue(input)), Spec.ResponderRole)
                    case Err(_) => {}
                    case Ok(nc) => RespondResidue(h, nc, messageA, random)
    ensures forall a: array<byte> :: Tracked(a) && fresh(a) ==>
              (r.Ok? && (r.value.0.Owns(a) || a == r.value.1)) || a == share || a == tag || Zeroed(a)
  {
    share, tag, sent := null, null, {};
    var normalized := NormalizeInput(input, Spec.ResponderRole);
    if normalized.Err? {
      r := Err(normalized.error);
      return;
    }
    var nc := normalized.value;
    assert nc.AllTracked();
    sent := RespondResidue(h, nc.Val(), messageA, random);
    r, share, tag := RespondAndWipe(h, nc, messageA, random);
  }
}
