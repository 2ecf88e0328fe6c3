/** api.go, core.go and session.go on the heap, from a claimed core to a session: what Finish and
    Close wipe, and why the returned session is unaffected. */
module Finishing {
  import opened Bytes
  import opened Heap
  import opened Errors
  import opened PeerShare
  import opened Framing
  import opened HashInputs
  import opened Ownership
  import opened SessionState
  import Spec = Protocol

  // ------------------------------------------------------- sessions

  /** A confirmed session. Copies share the state; the metadata arrays are private and never written. */
  class Session {
    const state: SessionCell
    const transcriptID: Slice
    const peerAD: Slice
    const peerID: Slice

    constructor (state: SessionCell, transcriptID: Slice, peerAD: Slice, peerID: Slice)
      ensures this.state == state && this.transcriptID == transcriptID && this.peerAD == peerAD && this.peerID == peerID
      ensures forall a: array<byte> :: Tracked(a) && fresh(a) ==> Zeroed(a)
    {
      this.state, this.transcriptID, this.peerAD, this.peerID := state, transcriptID, peerAD, peerID;
    }

    ghost predicate Owns(a: array<byte>)
      reads state
    {
      a == state.isk || a == transcriptID || a == peerAD || a == peerID
    }

    /** The ISK array is no metadata array, and a closed session has none. */
    ghost predicate Valid()
      reads state
    {
      && (state.isk != null ==> state.isk != transcriptID && state.isk != peerAD && state.isk != peerID)
      && (state.closed ==> state.isk == null)
    }

    /** Mentions every array, so that facts about all owned arrays apply to each. */
    ghost predicate AllTracked()
      reads state
    {
      && (state.isk != null ==> Tracked(state.isk)) && (transcriptID != null ==> Tracked(transcriptID))
      && (peerAD != null ==> Tracked(peerAD)) && (peerID != null ==> Tracked(peerID))
    }

    ghost function Val(): Spec.Session
      reads state, state.isk, transcriptID, peerAD, peerID
    {
      Spec.Session(Value(state.isk), Value(transcriptID), Value(peerAD), Value(peerID))
    }

    /** An open session that holds exactly s. */
    ghost predicate Holds(s: Spec.Session)
      reads state, state.isk, transcriptID, peerAD, peerID
    {
      Valid() && !state.closed && Val() == s
    }

    /** Close: the ISK is wiped and dropped, and the metadata keeps its value. */
    method Close()
      requires Valid()
      modifies state, state.isk
      ensures Valid() && state.closed && Val() == old(Val()).(isk := [])
      ensures old(state.isk) != null ==> Zeroed(old(state.isk))
    {
      state.Close();
    }
  }

  /** newSession: everything is cloned, so the session shares no array with its arguments. */
  method NewSession(isk: Slice, transcriptID: Slice, peerAD: Slice, peerID: Slice) returns (s: Session)
    ensures fresh(s) && fresh(s.state)
    ensures s.Holds(old(Spec.Session(Value(isk), Value(transcriptID), Value(peerAD), Value(peerID))))
    ensures forall a: array<byte> :: Tracked(a) && s.Owns(a) ==> fresh(a)
    ensures forall a: array<byte> :: Tracked(a) && fresh(a) ==> s.Owns(a) || Zeroed(a)
  {
    var key := Clone(isk);
    var id, ad, peer := CloneThree(transcriptID, peerAD, peerID);
    var cell := new SessionCell(key);
    s := new Session(cell, id, ad, peer);
  }

  // ------------------------------------------------------- the initiator's finish

  /** The arrays that the initiator's finish allocates and never wipes: the transcript it built, the
      responder tag it expected, and on success its own tag and the transcript ID. */
  datatype Leftover = Leftover(tr: TranscriptArrays, expected: Slice, tagA: Slice, id: Slice) {
    ghost predicate Owns(a: array<byte>) {
      tr.Owns(a) || a == expected || a == tagA || a == id
    }

    /** Mentions every array, so that facts about all owned arrays apply to each. */
    ghost predicate AllTracked() {
      && tr.AllTracked() && (expected != null ==> Tracked(expected)) && (tagA != null ==> Tracked(tagA))
      && (id != null ==> Tracked(id))
    }

    ghost function Values(): seq<bytes>
      reads tr.transcript, tr.ya, tr.ada, tr.yb, tr.adb, expected, tagA, id
    {
      [Value(tr.transcript), Value(tr.ya), Value(tr.ada), Value(tr.yb), Value(tr.adb), Value(expected), Value(tagA), Value(id)]
    }

    /** Each array holds what its name says: public bytes or a confirmation tag. */
    ghost predicate Holds(h: Spec.Primitives, isk: bytes, sid: bytes, t: Spec.Transcript)
      reads tr.transcript, tr.ya, tr.ada, tr.yb, tr.adb, expected, tagA, id
    {
      && tr.Val() == t && tr.Encodes()
      && expected != null && expected[..] == Spec.ResponderTag(h, isk, sid, t)
      && (tagA != null ==> tagA[..] == Spec.InitiatorTag(h, isk, sid, t))
      && (id != null ==> id[..] == Spec.TranscriptID(h, t))
    }
  }

  const NO_ARRAYS := TranscriptArrays(null, null, null, null, null)
  const NOTHING := Leftover(NO_ARRAYS, null, null, null)

  /** What is left for a core and the fields of message B. */
  ghost predicate CoreLeaves(left: Leftover, h: Spec.Primitives, c: Spec.InitiatorCore, yb: bytes, adb: bytes)
    reads left.tr.transcript, left.tr.ya, left.tr.ada, left.tr.yb, left.tr.adb, left.expected, left.tagA, left.id
  {
    match SharedSecret(c.scalar, yb)
    case Err(_) => left == NOTHING
    case Ok(k) =>
      var t := Spec.Transcript(c.ya, c.ada, yb, adb);
      left.Holds(h, Spec.DeriveISK(h, c.sid, k, t), c.sid, t)
  }

  ghost predicate FinishLeaves(left: Leftover, h: Spec.Primitives, c: Spec.InitiatorCore, messageB: bytes)
    reads left.tr.transcript, left.tr.ya, left.tr.ada, left.tr.yb, left.tr.adb, left.expected, left.tagA, left.id
  {
    match Decode(SPEC_B, messageB)
    case Err(_) => left == NOTHING
    case Ok(f) => if |f| != 3 then left == NOTHING else CoreLeaves(left, h, c, f[0], f[1])
  }

  /** The confirmation step of the initiator's finish, before the ISK is wiped. */
  method ConfirmAndBuild(h: Spec.Primitives, isk: array<byte>, sid: bytes, tr: TranscriptArrays, tag: bytes, peerID: Slice)
    returns (r: Result<(array<byte>, Session)>, ghost left: Leftover)
    requires tr.Encodes() && !tr.Owns(isk)
    ensures var t := old(tr.Val());
            if Spec.ResponderTag(h, old(isk[..]), sid, t) != tag then r == Err({ErrConfirmationFailed})
            else
              && r.Ok? && fresh(r.value.0) && r.value.0[..] == Spec.InitiatorTag(h, old(isk[..]), sid, t)
              && fresh(r.value.1) && fresh(r.value.1.state)
              && r.value.1.Holds(Spec.Session(old(isk[..]), Spec.TranscriptID(h, t), t.adb, old(Value(peerID))))
    ensures r.Ok? ==> forall a: array<byte> :: Tracked(a) && r.value.1.Owns(a) ==> fresh(a)
    ensures left.tr == tr && left.Holds(h, old(isk[..]), sid, old(tr.Val())) && !left.Owns(isk)
    ensures r.Ok? ==> r.value.0 != isk && !r.value.1.Owns(isk)
    ensures fresh(left.expected) && (left.tagA != null ==> fresh(left.tagA)) && (left.id != null ==> fresh(left.id))
    ensures forall a: array<byte> :: Tracked(a) && fresh(a) ==> (r.Ok? && r.value.1.Owns(a)) || left.Owns(a) || Zeroed(a)
  {
    var expected := ConfirmationTag(h, isk[..], sid, Value(tr.yb), Value(tr.adb));
    if expected[..] != tag {
      return Err({ErrConfirmationFailed}), Leftover(tr, expected, null, null);
    }
    var tagA := ConfirmationTag(h, isk[..], sid, Value(tr.ya), Value(tr.ada));
    var id := Alloc(h.sha512(TranscriptIdInput(Value(tr.transcript))));
    var session := NewSession(isk, id, tr.adb, peerID);
    return Ok((tagA, session)), Leftover(tr, expected, tagA, id);
  }

  /** A deferred wipe of scratch, which touches neither the result nor the left-over arrays. */
  method WipeScratch(b: array<byte>, r: Result<(array<byte>, Session)>, ghost left: Leftover)
    requires !left.Owns(b) && (r.Ok? ==> r.value.0 != b && !r.value.1.Owns(b))
    modifies b
    ensures Zeroed(b)
    ensures r.Ok? ==> r.value.0[..] == old(r.value.0[..]) && forall s: Spec.Session :: old(r.value.1.Holds(s)) ==> r.value.1.Holds(s)
    ensures left.Values() == old(left.Values())
    ensures forall a: array<byte> :: Tracked(a) && fresh(a) ==> Zeroed(a)
  {
    ClearBytes(b);
    if r.Ok? {
      assert r.value.1.Val() == old(r.value.1.Val());
    }
  }

  /** The initiator's finish once the shared secret and the transcript are known: the ISK scratch is
      zero on every exit. */
  method FinishWithTranscript(h: Spec.Primitives, k: bytes, sid: bytes, peerID: Slice, tr: TranscriptArrays, tag: bytes)
    returns (r: Result<(array<byte>, Session)>, ghost left: Leftover)
    requires tr.Encodes()
    ensures var t := old(tr.Val());
            var isk := Spec.DeriveISK(h, sid, k, t);
            if Spec.ResponderTag(h, isk, sid, t) != tag then r == Err({ErrConfirmationFailed})
            else
              && r.Ok? && fresh(r.value.0) && r.value.0[..] == Spec.InitiatorTag(h, isk, sid, t)
              && fresh(r.value.1) && fresh(r.value.1.state)
              && r.value.1.Holds(Spec.Session(isk, Spec.TranscriptID(h, t), t.adb, old(Value(peerID))))
    ensures r.Ok? ==> forall a: array<byte> :: Tracked(a) && r.value.1.Owns(a) ==> fresh(a)
    ensures left.tr == tr && left.Holds(h, Spec.DeriveISK(h, sid, k, old(tr.Val())), sid, old(tr.Val()))
    ensures fresh(left.expected) && (left.tagA != null ==> fresh(left.tagA)) && (left.id != null ==> fresh(left.id))
    ensures forall a: array<byte> :: Tracked(a) && fresh(a) ==> (r.Ok? && r.value.1.Owns(a)) || left.Owns(a) || Zeroed(a)
  {
    var isk := DeriveISK(h, sid, k, Value(tr.transcript));
    r, left := ConfirmAndBuild(h, isk, sid, tr, tag, peerID);
    WipeScratch(isk, r, left);
  }

  /** The initiator's finish once the shared secret is known. */
  method FinishWithKey(h: Spec.Primitives, k: bytes, sid: bytes, peerID: Slice, t: Spec.Transcript, tag: bytes)
    returns (r: Result<(array<byte>, Session)>, ghost left: Leftover)
    ensures var isk := Spec.DeriveISK(h, sid, k, t);
            if Spec.ResponderTag(h, isk, sid, t) != tag then r == Err({ErrConfirmationFailed})
            else
              && r.Ok? && fresh(r.value.0) && r.value.0[..] == Spec.InitiatorTag(h, isk, sid, t)
              && fresh(r.value.1) && fresh(r.value.1.state)
              && r.value.1.Holds(Spec.Session(isk, Spec.TranscriptID(h, t), t.adb, old(Value(peerID))))
    ensures r.Ok? ==> forall a: array<byte> :: Tracked(a) && r.value.1.Owns(a) ==> fresh(a)
    ensures left.Holds(h, Spec.DeriveISK(h, sid, k, t), sid, t)
    ensures forall a: array<byte> :: Tracked(a) && left.Owns(a) ==> fresh(a)
    ensures forall a: array<byte> :: Tracked(a) && fresh(a) ==> (r.Ok? && r.value.1.Owns(a)) || left.Owns(a) || Zeroed(a)
  {
    var tr := NewIRTranscript(t.ya, t.ada, t.yb, t.adb);
    assert tr.AllTracked();
    r, left := FinishWithTranscript(h, k, sid, peerID, tr, tag);
  }

  /** initiatorCore.finish: the shared secret and the ISK scratch are zero on every exit. */
  method CoreFinish(h: Spec.Primitives, core: InitiatorCore, yb: bytes, adb: bytes, tag: bytes)
    returns (r: Result<(array<byte>, Session)>, ghost left: Leftover)
    ensures match Spec.InitiatorFinish(h, old(core.Val()), yb, adb, tag)
            case Err(e) => r == Err(e)
            case Ok((tagA, s)) =>
              r.Ok? && fresh(r.value.0) && fresh(r.value.1) && fresh(r.value.1.state) && r.value.0[..] == tagA && r.value.1.Holds(s)
    ensures r.Ok? ==> forall a: array<byte> :: Tracked(a) && r.value.1.Owns(a) ==> fresh(a)
    ensures CoreLeaves(left, h, old(core.Val()), yb, adb)
    ensures forall a: array<byte> :: Tracked(a) && left.Owns(a) ==> fresh(a)
    ensures forall a: array<byte> :: Tracked(a) && fresh(a) ==> (r.Ok? && r.value.1.Owns(a)) || left.Owns(a) || Zeroed(a)
  {
    var k := Secret(core.scalar, yb);
    if k.Err? {
      return Err(k.error), NOTHING;
    }
    var t := Spec.Transcript(Value(core.ya), Value(core.ada), yb, adb);
    r, left := FinishWithKey(h, k.value[..], Value(core.sid), core.peerID, t, tag);
    assert Tracked(k.value);
    WipeScratch(k.value, r, left);
  }

  /** Initiator.Finish before its deferred clear. */
  method InitiatorFinishBody(h: Spec.Primitives, core: InitiatorCore, messageB: bytes)
    returns (r: Result<(array<byte>, Session)>, ghost left: Leftover)
    ensures match Spec.InitiatorFinishCall(h, old(core.Val()), messageB)
            case Err(e) => r == Err(e)
            case Ok((m, s)) =>
              r.Ok? && fresh(r.value.0) && fresh(r.value.1) && fresh(r.value.1.state) && r.value.0[..] == m && r.value.1.Holds(s)
    ensures r.Ok? ==> forall a: array<byte> :: Tracked(a) && r.value.1.Owns(a) ==> fresh(a) && a != core.scalar
    ensures FinishLeaves(left, h, old(core.Val()), messageB)
    ensures forall a: array<byte> :: Tracked(a) && left.Owns(a) ==> fresh(a) && a != core.scalar
    ensures forall a: array<byte> :: Tracked(a) && fresh(a) ==>
              (r.Ok? && (r.value.1.Owns(a) || a == r.value.0)) || left.Owns(a) || Zeroed(a)
  {
    var decoded := Decode(SPEC_B, messageB);
    if decoded.Err? {
      return Err(decoded.error), NOTHING;
    }
    if |decoded.value| != 3 {
      return Err({ErrMessage}), NOTHING;
    }
    var done;
    done, left := CoreFinish(h, core, decoded.value[0], decoded.value[1], decoded.value[2]);
    if done.Err? {
      r := Err(done.error);
      return;
    }
    var (tagA, session) := done.value;
    var message := Alloc(Encode(SPEC_C, [tagA[..]]));
    r := Ok((message, session));
  }

  /** The deferred clear, which touches neither the result nor the left-over arrays. */
  method ClearInitiatorAfter(core: InitiatorCore, r: Result<(array<byte>, Session)>, ghost left: Leftover)
    requires r.Ok? ==> r.value.0 != core.scalar && forall a: array<byte> :: Tracked(a) && r.value.1.Owns(a) ==> a != core.scalar
    requires forall a: array<byte> :: Tracked(a) && left.Owns(a) ==> a != core.scalar
    modifies core, core.scalar
    ensures core.scalar == null && (old(core.scalar) != null ==> Zeroed(old(core.scalar)))
    ensures r.Ok? ==> r.value.0[..] == old(r.value.0[..]) && forall s: Spec.Session :: old(r.value.1.Holds(s)) ==> r.value.1.Holds(s)
    ensures left.Values() == old(left.Values())
    ensures forall a: array<byte> :: Tracked(a) && fresh(a) ==> Zeroed(a)
  {
    assert left.AllTracked();
    if r.Ok? {
      assert r.value.1.AllTracked();
    }
    core.Clear();
    if r.Ok? {
      assert r.value.1.Val() == old(r.value.1.Val());
    }
  }

  /** Initiator.Finish once the core is claimed, for arbitrary message bytes. On every exit the scalar
      is zeroed and dropped, and every array the call allocated is zero unless the session owns it,
      it is the returned message, or it is one of the named left-over arrays of public bytes and tags. */
  method FinishClaimedInitiator(h: Spec.Primitives, core: InitiatorCore, messageB: bytes)
    returns (r: Result<(array<byte>, Session)>, ghost left: Leftover)
    modifies core, core.scalar
    ensures core.scalar == null && (old(core.scalar) != null ==> Zeroed(old(core.scalar)))
    ensures match Spec.InitiatorFinishCall(h, old(core.Val()), messageB)
            case Err(e) => r == Err(e)
            case Ok((m, s)) =>
              r.Ok? && fresh(r.value.0) && fresh(r.value.1) && fresh(r.value.1.state) && r.value.0[..] == m && r.value.1.Holds(s)
    ensures r.Ok? ==> forall a: array<byte> :: Tracked(a) && r.value.1.Owns(a) ==> fresh(a)
    ensures FinishLeaves(left, h, old(core.Val()), messageB)
    ensures forall a: array<byte> :: Tracked(a) && fresh(a) ==>
              (r.Ok? && (r.value.1.Owns(a) || a == r.value.0)) || left.Owns(a) || Zeroed(a)
  {
    r, left := InitiatorFinishBody(h, core, messageB);
    ClearInitiatorAfter(core, r, left);
  }

  // ------------------------------------------------------- the responder's finish

  /** The arrays that the responder's finish allocates and never wipes: the tag it expected, and on
      success the transcript ID and the copy of the initiator's data that it passes to the session. */
  datatype ResponderLeftover = ResponderLeftover(expected: Slice, id: Slice, ad: Slice) {
    ghost predicate Owns(a: array<byte>) {
      a == expected || a == id || a == ad
    }

    /** Mentions every array, so that facts about all owned arrays apply to each. */
    ghost predicate AllTracked() {
      && (expected != null ==> Tracked(expected)) && (id != null ==> Tracked(id)) && (ad != null ==> Tracked(ad))
    }

    ghost predicate Holds(h: Spec.Primitives, c: Spec.ResponderCore)
      reads expected, id, ad
    {
      && (expected != null ==> expected[..] == Spec.InitiatorTag(h, c.isk, c.sid, c.transcript))
      && (id != null ==> id[..] == Spec.TranscriptID(h, c.transcript))
      && (ad != null ==> ad[..] == c.transcript.ada)
    }
  }

  /** responderCore.finish before the deferred clear. */
  method ResponderCoreFinish(h: Spec.Primitives, core: ResponderCore, tag: bytes)
    returns (r: Result<Session>, ghost left: ResponderLeftover)
    requires core.transcript.Encodes()
    ensures match Spec.ResponderFinish(h, old(core.Val()), tag)
            case Err(e) => r == Err(e)
            case Ok(s) => r.Ok? && fresh(r.value) && fresh(r.value.state) && r.value.Holds(s)
    ensures r.Ok? ==> forall a: array<byte> :: Tracked(a) && r.value.Owns(a) ==> fresh(a) && a != core.isk && !core.transcript.Owns(a)
    ensures left.Holds(h, old(core.Val()))
    ensures forall a: array<byte> :: Tracked(a) && left.Owns(a) ==> fresh(a) && a != core.isk && !core.transcript.Owns(a)
    ensures forall a: array<byte> :: Tracked(a) && fresh(a) ==> (r.Ok? && r.value.Owns(a)) || left.Owns(a) || Zeroed(a)
  {
    var expected := ConfirmationTag(h, Value(core.isk), Value(core.sid), Value(core.transcript.ya), Value(core.transcript.ada));
    if expected[..] != tag {
      return Err({ErrConfirmationFailed}), ResponderLeftover(expected, null, null);
    }
    var id := Alloc(h.sha512(TranscriptIdInput(Value(core.transcript.transcript))));
    var ad := Clone(core.transcript.ada);
    var session := NewSession(core.isk, id, ad, core.peerID);
    return Ok(session), ResponderLeftover(expected, id, ad);
  }

  /** Responder.Finish before its deferred clear. */
  method ResponderFinishBody(h: Spec.Primitives, core: ResponderCore, messageC: bytes)
    returns (r: Result<Session>, ghost left: ResponderLeftover)
    requires core.transcript.Encodes()
    ensures match Spec.ResponderFinishCall(h, old(core.Val()), messageC)
            case Err(e) => r == Err(e)
            case Ok(s) => r.Ok? && fresh(r.value) && fresh(r.value.state) && r.value.Holds(s)
    ensures r.Ok? ==> forall a: array<byte> :: Tracked(a) && r.value.Owns(a) ==> fresh(a) && a != core.isk && !core.transcript.Owns(a)
    ensures left.Holds(h, old(core.Val()))
    ensures forall a: array<byte> :: Tracked(a) && left.Owns(a) ==> fresh(a) && a != core.isk && !core.transcript.Owns(a)
    ensures forall a: array<byte> :: Tracked(a) && fresh(a) ==> (r.Ok? && r.value.Owns(a)) || left.Owns(a) || Zeroed(a)
  {
    var decoded := Decode(SPEC_C, messageC);
    if decoded.Err? {
      return Err(decoded.error), ResponderLeftover(null, null, null);
    }
    if |decoded.value| != 1 {
      return Err({ErrMessage}), ResponderLeftover(null, null, null);
    }
    r, left := ResponderCoreFinish(h, core, decoded.value[0]);
  }

  /** The deferred clear, which touches neither the session nor the left-over arrays. */
  method ClearResponderAfter(core: ResponderCore, r: Result<Session>, ghost left: ResponderLeftover)
    requires r.Ok? ==> forall a: array<byte> :: Tracked(a) && r.value.Owns(a) ==> a != core.isk && !core.transcript.Owns(a)
    requires forall a: array<byte> :: Tracked(a) && left.Owns(a) ==> a != core.isk && !core.transcript.Owns(a)
    modifies core, core.isk, core.transcript.transcript, core.transcript.ya, core.transcript.ada, core.transcript.yb, core.transcript.adb
    ensures core.isk == null && core.transcript == NO_ARRAYS
    ensures old(core.isk) != null ==> Zeroed(old(core.isk))
    ensures forall a: array<byte> :: old(core.transcript).Owns(a) ==> Zeroed(a)
    ensures r.Ok? ==> forall s: Spec.Session :: old(r.value.Holds(s)) ==> r.value.Holds(s)
    ensures Value(left.expected) == old(Value(left.expected)) && Value(left.id) == old(Value(left.id)) && Value(left.ad) == old(Value(left.ad))
    ensures forall a: array<byte> :: Tracked(a) && fresh(a) ==> Zeroed(a)
  {
    assert left.AllTracked();
    if r.Ok? {
      assert r.value.AllTracked();
    }
    core.Clear();
    if r.Ok? {
      var session := r.value;
      assert Value(session.state.isk) == old(Value(session.state.isk)) && Value(session.transcriptID) == old(Value(session.transcriptID));
      assert Value(session.peerAD) == old(Value(session.peerAD)) && Value(session.peerID) == old(Value(session.peerID));
    }
  }

  /** Responder.Finish once the core is claimed, for arbitrary message bytes. On every exit the ISK and
      the stored transcript are zeroed and dropped, and the session keeps the values it was built from.
      Every array the call allocated is zero unless the session owns it or it is one of the named
      left-over arrays. */
  method FinishClaimedResponder(h: Spec.Primitives, core: ResponderCore, messageC: bytes)
    returns (r: Result<Session>, ghost left: ResponderLeftover)
    requires core.transcript.Encodes()
    modifies core, core.isk, core.transcript.transcript, core.transcript.ya, core.transcript.ada, core.transcript.yb, core.transcript.adb
    ensures core.isk == null && core.transcript == NO_ARRAYS
    ensures old(core.isk) != null ==> Zeroed(old(core.isk))
    ensures forall a: array<byte> :: old(core.transcript).Owns(a) ==> Zeroed(a)
    ensures match Spec.ResponderFinishCall(h, old(core.Val()), messageC)
            case Err(e) => r == Err(e)
            case Ok(s) => r.Ok? && fresh(r.value) && fresh(r.value.state) && r.value.Holds(s)
    ensures r.Ok? ==> forall a: array<byte> :: Tracked(a) && r.value.Owns(a) ==> fresh(a)
    ensures left.Holds(h, old(core.Val()))
    ensures forall a: array<byte> :: Tracked(a) && fresh(a) ==> (r.Ok? && r.value.Owns(a)) || left.Owns(a) || Zeroed(a)
  {
    r, left := ResponderFinishBody(h, core, messageC);
    ClearResponderAfter(core, r, left);
  }
}
