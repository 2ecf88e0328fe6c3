/** api.go: the exported calls on handles. Copies of an Initiator or Responder are equal handles, which
    share one single-use state and so one core. */
module PublicCalls {
  import opened Bytes
  import opened Heap
  import opened Errors
  import opened Framing
  import opened HashInputs
  import opened Ownership
  import opened SessionState
  import opened Finishing
  import opened TerminalState
  import Spec = Protocol

  /** A possibly nil *Initiator or *Responder; a zero value has no state. */
  datatype Handle<C> = NilHandle | Handle(state: SingleUseState?<C>)

  function StateOf<C>(i: Handle<C>): SingleUseState?<C> {
    if i.NilHandle? then null else i.state
  }

  function InitiatorOf(i: Handle<InitiatorCore>): InitiatorCore? {
    if StateOf(i) != null && i.state.core.Some? then i.state.core.value else null
  }

  function ResponderOf(i: Handle<ResponderCore>): ResponderCore? {
    if StateOf(i) != null && i.state.core.Some? then i.state.core.value else null
  }

  /** Whether a terminal call on this handle would obtain the core. */
  ghost predicate Claimable<C>(i: Handle<C>)
    reads StateOf(i)
  {
    StateOf(i) != null && !i.state.used && i.state.core.Some?
  }

  ghost function ScalarOf(i: Handle<InitiatorCore>): Slice
    reads InitiatorOf(i)
  {
    if InitiatorOf(i) == null then null else InitiatorOf(i).scalar
  }

  ghost function TranscriptOf(i: Handle<ResponderCore>): TranscriptArrays
    reads ResponderOf(i)
  {
    if ResponderOf(i) == null then TranscriptArrays(null, null, null, null, null) else ResponderOf(i).transcript
  }

  ghost function IskOf(i: Handle<ResponderCore>): Slice
    reads ResponderOf(i)
  {
    if ResponderOf(i) == null then null else ResponderOf(i).isk
  }

  // ------------------------------------------------------- the initiator

  /** Start: a successful call returns a handle whose one core is still to be claimed. */
  method Start(h: Spec.Primitives, input: InputArrays, random: Option<Spec.Scalar>)
    returns (r: Result<(Handle<InitiatorCore>, array<byte>)>)
    ensures match Spec.StartCall(h, old(InputValue(input)), random)
            case Err(e) => r == Err(e)
            case Ok((c, m)) =>
              && r.Ok? && Claimable(r.value.0) && fresh(StateOf(r.value.0)) && fresh(InitiatorOf(r.value.0))
              && InitiatorOf(r.value.0).Val() == c && fresh(r.value.1) && r.value.1[..] == m
  {
    var built, _ := StartWithRandom(h, input, random);
    if built.Err? {
      return Err(built.error);
    }
    var state := new SingleUseState(Some(built.value.0));
    return Ok((Handle(state), built.value.1));
  }

  /** Initiator.Finish. A call that obtains the core uses the state up, leaves the scalar zeroed and
      dropped whatever the message is, and returns exactly what the protocol computes from the core.
      A call that does not obtain it touches nothing. */
  method FinishInitiator(h: Spec.Primitives, i: Handle<InitiatorCore>, messageB: bytes) returns (r: Result<(array<byte>, Session)>)
    modifies StateOf(i), InitiatorOf(i), ScalarOf(i)
    ensures !Claimable(i)
    ensures !old(Claimable(i)) ==> r == Err(if StateOf(i) != null && old(i.state.used) then {ErrStateUsed} else {ErrInvalidInput})
    ensures !old(Claimable(i)) && InitiatorOf(i) != null ==> unchanged(InitiatorOf(i)) && InitiatorOf(i).Val() == old(InitiatorOf(i).Val())
    ensures old(Claimable(i)) ==>
              && i.state.used && InitiatorOf(i).scalar == null
              && (old(ScalarOf(i)) != null ==> Zeroed(old(ScalarOf(i))))
              && match Spec.InitiatorFinishCall(h, old(InitiatorOf(i).Val()), messageB)
                 case Err(e) => r == Err(e)
                 case Ok((m, s)) => r.Ok? && fresh(r.value.1) && r.value.0[..] == m && r.value.1.Holds(s)
    ensures r.Ok? ==> forall a: array<byte> :: Tracked(a) && r.value.1.Owns(a) ==> fresh(a)
  {
    if StateOf(i) == null {
      return Err({ErrInvalidInput});
    }
    var core := i.state.ClaimFinish();
    if core.Err? {
      return Err(core.error);
    }
    ghost var left;
    r, left := FinishClaimedInitiator(h, core.value, messageB);
  }

  /** Initiator.Close and closeCore; the answer is the error, none for nil. */
  method CloseInitiator(i: Handle<InitiatorCore>) returns (e: Error)
    modifies StateOf(i), InitiatorOf(i), ScalarOf(i)
    ensures !Claimable(i)
    ensures !old(Claimable(i)) ==>
              e == if i.NilHandle? || (StateOf(i) != null && old(i.state.used)) then {} else {ErrInvalidInput}
    ensures !old(Claimable(i)) && InitiatorOf(i) != null ==> unchanged(InitiatorOf(i)) && InitiatorOf(i).Val() == old(InitiatorOf(i).Val())
    ensures old(Claimable(i)) ==>
              && e == {} && i.state.used && InitiatorOf(i).scalar == null
              && (old(ScalarOf(i)) != null ==> Zeroed(old(ScalarOf(i))))
  {
    if i.NilHandle? {
      return {};
    }
    if i.state == null {
      return {ErrInvalidInput};
    }
    var core := i.state.ClaimClose();
    if core.Err? {
      return core.error;
    }
    if core.value.Some? {
      core.value.value.Clear();
    }
    return {};
  }

  // ------------------------------------------------------- the responder

  /** Respond: as Start, for a core with a consistent transcript. */
  method Respond(h: Spec.Primitives, input: InputArrays, messageA: bytes, random: Option<Spec.Scalar>)
    returns (r: Result<(Handle<ResponderCore>, array<byte>)>)
    ensures match Spec.RespondCall(h, old(InputValue(input)), messageA, random)
            case Err(e) => r == Err(e)
            case Ok((c, m)) =>
              && r.Ok? && Claimable(r.value.0) && fresh(StateOf(r.value.0)) && fresh(ResponderOf(r.value.0))
              && ResponderOf(r.value.0).Holds(c) && fresh(r.value.1) && r.value.1[..] == m
  {
    var built, _, _, _ := RespondWithRandom(h, input, messageA, random);
    if built.Err? {
      return Err(built.error);
    }
    var state := new SingleUseState(Some(built.value.0));
    return Ok((Handle(state), built.value.1));
  }

  /** Responder.Finish, with the guarantees of the initiator's for the ISK and the stored transcript. */
  method FinishResponder(h: Spec.Primitives, i: Handle<ResponderCore>, messageC: bytes) returns (r: Result<Session>)
    requires Claimable(i) ==> ResponderOf(i).transcript.Encodes()
    modifies StateOf(i), ResponderOf(i), IskOf(i)
    modifies TranscriptOf(i).transcript, TranscriptOf(i).ya, TranscriptOf(i).ada, TranscriptOf(i).yb, TranscriptOf(i).adb
    ensures !Claimable(i)
    ensures !old(Claimable(i)) ==> r == Err(if StateOf(i) != null && old(i.state.used) then {ErrStateUsed} else {ErrInvalidInput})
    ensures !old(Claimable(i)) && ResponderOf(i) != null ==> unchanged(ResponderOf(i)) && ResponderOf(i).Val() == old(ResponderOf(i).Val())
    ensures old(Claimable(i)) ==>
              && i.state.used && IskOf(i) == null && TranscriptOf(i) == TranscriptArrays(null, null, null, null, null)
              && (old(IskOf(i)) != null ==> Zeroed(old(IskOf(i))))
              && (forall a: array<byte> :: old(TranscriptOf(i)).Owns(a) ==> Zeroed(a))
              && match Spec.ResponderFinishCall(h, old(ResponderOf(i).Val()), messageC)
                 case Err(e) => r == Err(e)
                 case Ok(s) => r.Ok? && fresh(r.value) && r.value.Holds(s)
    ensures r.Ok? ==> forall a: array<byte> :: Tracked(a) && r.value.Owns(a) ==> fresh(a)
  {
    if StateOf(i) == null {
      return Err({ErrInvalidInput});
    }
    var core := i.state.ClaimFinish();
    if core.Err? {
      return Err(core.error);
    }
    ghost var left;
    r, left := FinishClaimedResponder(h, core.value, messageC);
  }

  /** Responder.Close and closeCore. */
  method CloseResponder(i: Handle<ResponderCore>) returns (e: Error)
    modifies StateOf(i), ResponderOf(i), IskOf(i)
    modifies TranscriptOf(i).transcript, TranscriptOf(i).ya, TranscriptOf(i).ada, TranscriptOf(i).yb, TranscriptOf(i).adb
    ensures !Claimable(i)
    ensures !old(Claimable(i)) ==>
              e == if i.NilHandle? || (StateOf(i) != null && old(i.state.used)) then {} else {ErrInvalidInput}
    ensures !old(Claimable(i)) && ResponderOf(i) != null ==> unchanged(ResponderOf(i)) && ResponderOf(i).Val() == old(ResponderOf(i).Val())
    ensures old(Claimable(i)) ==>
              && e == {} && i.state.used && IskOf(i) == null && TranscriptOf(i) == TranscriptArrays(null, null, null, null, null)
              && (old(IskOf(i)) != null ==> Zeroed(old(IskOf(i))))
              && (forall a: array<byte> :: old(TranscriptOf(i)).Owns(a) ==> Zeroed(a))
  {
    if i.NilHandle? {
      return {};
    }
    if i.state == null {
      return {ErrInvalidInput};
    }
    var core := i.state.ClaimClose();
    if core.Err? {
      return core.error;
    }
    if core.value.Some? {
      core.value.value.Clear();
    }
    return {};
  }

  // ------------------------------------------------------- sessions

  /** A possibly nil *Session. A zero value has neither state nor metadata. */
  datatype SessionHandle = NilSession | ZeroSession | SessionHandle(session: Session)

  ghost function CellOf(s: SessionHandle): SessionCell? {
    if s.SessionHandle? then s.session.state else null
  }

  ghost function KeyOf(s: SessionHandle): Slice
    reads CellOf(s)
  {
    if s.SessionHandle? then s.session.state.isk else null
  }

  /** Session.Close: nil-safe; a zero value is an error; otherwise the ISK is wiped and the metadata stays. */
  method CloseSession(s: SessionHandle) returns (e: Error)
    requires s.SessionHandle? ==> s.session.Valid()
    modifies CellOf(s), KeyOf(s)
    ensures e == if s.ZeroSession? then {ErrInvalidInput} else {}
    ensures s.SessionHandle? ==>
              && s.session.Valid() && s.session.state.closed && s.session.Val() == old(s.session.Val()).(isk := [])
              && (old(KeyOf(s)) != null ==> Zeroed(old(KeyOf(s))))
  {
    match s
    case NilSession => e := {};
    case ZeroSession => e := {ErrInvalidInput};
    case SessionHandle(session) =>
      session.Close();
      e := {};
  }

  /** Session.Export */
  method ExportSession(h: Spec.Primitives, s: SessionHandle, exportLabel: bytes, context: bytes, length: int) returns (r: Result<bytes>)
    ensures r == if !s.SessionHandle? then Err({ErrInvalidInput})
                 else if s.session.state.closed then Err({ErrSessionClosed})
                 else Spec.ExportCall(h, s.session.Val().isk, exportLabel, context, length)
  {
    if !s.SessionHandle? {
      return Err({ErrInvalidInput});
    }
    r := s.session.state.Export(h, exportLabel, context, length);
  }

  /** A copy of one of the session's private arrays, nil for a nil or zero session. */
  method TranscriptIDOf(s: SessionHandle) returns (out: Slice)
    ensures Value(out) == if s.SessionHandle? then s.session.Val().transcriptID else []
    ensures (out != null ==> fresh(out)) && (!s.SessionHandle? ==> out == null)
  {
    out := Clone(if s.SessionHandle? then s.session.transcriptID else null);
  }

  method PeerAssociatedDataOf(s: SessionHandle) returns (out: Slice)
    ensures Value(out) == if s.SessionHandle? then s.session.Val().peerAD else []
    ensures (out != null ==> fresh(out)) && (!s.SessionHandle? ==> out == null)
  {
    out := Clone(if s.SessionHandle? then s.session.peerAD else null);
  }

  method PeerIDOf(s: SessionHandle) returns (out: Slice)
    ensures Value(out) == if s.SessionHandle? then s.session.Val().peerID else []
    ensures (out != null ==> fresh(out)) && (!s.SessionHandle? ==> out == null)
  {
    out := Clone(if s.SessionHandle? then s.session.peerID else null);
  }

  // ------------------------------------------------------- interleaved calls

  /** What an owning Finish computes from the secret fields it read. */
  ghost function InitiatorWork(h: Spec.Primitives, c: Spec.InitiatorCore): (seq<bytes>, bytes) -> Result<(bytes, Spec.Session)> {
    (secrets: seq<bytes>, m: bytes) =>
      if |secrets| != 1 then Err({}) else Spec.InitiatorFinishCall(h, c.(scalar := secrets[0]), m)
  }

  /** Finish on the six fields that it reads: the ISK, the stored encoding and the four transcript
      fields. The transcript ID is computed from the stored encoding. */
  ghost function FinishFromFields(h: Spec.Primitives, isk: bytes, encoded: bytes, tr: Spec.Transcript, c: Spec.ResponderCore, m: bytes):
    Result<Spec.Session>
  {
    match Decode(SPEC_C, m)
    case Err(e) => Err(e)
    case Ok(f) =>
      if |f| != 1 then Err({ErrMessage})
      else if Spec.InitiatorTag(h, isk, c.sid, tr) != f[0] then Err({ErrConfirmationFailed})
      else Ok(Spec.Session(isk, h.sha512(TranscriptIdInput(encoded)), tr.ada, c.peerID))
  }

  ghost function ResponderWork(h: Spec.Primitives, c: Spec.ResponderCore): (seq<bytes>, bytes) -> Result<Spec.Session> {
    (fields: seq<bytes>, m: bytes) =>
      if |fields| != 6 then Err({})
      else FinishFromFields(h, fields[0], fields[1], Spec.Transcript(fields[2], fields[3], fields[4], fields[5]), c, m)
  }

  /** The fields that the responder's clear wipes, in its order. */
  ghost function ResponderFields(c: Spec.ResponderCore): seq<bytes> {
    [c.isk, c.transcript.Encoded(), c.transcript.ya, c.transcript.ada, c.transcript.yb, c.transcript.adb]
  }

  /** In every interleaving of Finish and Close calls on copies of an Initiator, a returned call that
      obtained the core got exactly the protocol's result, and any other the lost-claim answer. */
  lemma EveryInitiatorCall(h: Spec.Primitives, c: Spec.InitiatorCore, run: seq<State<Result<(bytes, Spec.Session)>>>, n: nat, i: nat)
    requires IsRun(InitiatorWork(h, c), [c.scalar], run) && n < |run| && i < |run[n].calls| && run[n].calls[i].Done?
    ensures var call := run[n].calls[i];
            call.outcome == match call.kind
                            case Finish(m) => if call.owned then Finished(Spec.InitiatorFinishCall(h, c, m)) else ErrUsed
                            case Close => Nil
  {
    OutcomesAreRight(InitiatorWork(h, c), [c.scalar], run, n, i);
    assert c.(scalar := [c.scalar][0]) == c;
  }

  lemma EveryResponderCall(h: Spec.Primitives, c: Spec.ResponderCore, run: seq<State<Result<Spec.Session>>>, n: nat, i: nat)
    requires IsRun(ResponderWork(h, c), ResponderFields(c), run) && n < |run| && i < |run[n].calls| && run[n].calls[i].Done?
    ensures var call := run[n].calls[i];
            call.outcome == match call.kind
                            case Finish(m) => if call.owned then Finished(Spec.ResponderFinishCall(h, c, m)) else ErrUsed
                            case Close => Nil
  {
    OutcomesAreRight(ResponderWork(h, c), ResponderFields(c), run, n, i);
    var f := ResponderFields(c);
    assert Spec.Transcript(f[2], f[3], f[4], f[5]) == c.transcript;
  }
}
