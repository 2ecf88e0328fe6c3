# CPace verification model

This project models a Go implementation of CPace (draft-irtf-cfrg-cpace-21, suite
CPACE-X25519-SHA512) and of two checkers that guard its repository, and proves properties that hold
for all inputs, all runs and all interleavings. `dafny verify dfyconfig.toml` checks everything.

## How the project is laid out

- Number theory: `Modular` (congruences, Euclid's lemma, inverses), `Fermat` (Fermat's little theorem,
  Euler's criterion, 2 is not a square), `Bytes` (little-endian numbers), `Field25519` (residues modulo
  p = 2^255 - 19; `Invert(0)` is 0).
- Scalar multiplication: `XAlgebra` and `XGroup` (x-only formulas, the assumed groups), `XLadder` (the
  two-branch ladder of section 5 of RFC 7748 computes scalar multiplication), `X25519` (the in-place loop
  with delayed swaps refines it), `PeerShare` (the low-order check), `Elligator` (the generator map).
- Encodings: `LengthValue`, `Caps` and `Framing`, `HashInputs`.
- The protocol on values: `Protocol` (the four calls as functions), `Agreement` (what runs guarantee).
- State and memory: `TerminalState` and `SessionState` (interleavings), `Heap`, `Ownership`, `Finishing`
  and `PublicCalls` (byte arrays on the heap: what is cloned, aliased and zeroed). Each heap method is
  proved to compute what `Protocol` says, and to leave no byte array it allocated non-zero except the
  ones its contract names.
- What every call returns, in terms of bytes, hash primitives and error sentinels: `Outcomes`.
- The checkers: `Strings`, `EvidenceBundle` and `EvidenceText`; `Yaml`, `ReleasePolicy` and
  `WorkflowMeaning`.

The main results are the honest run (`Agreement.HonestRun`), the meaning of an accepted tag
(`Agreement.InitiatorAcceptsIff`, `Agreement.ResponderAcceptsIff`), agreement over an arbitrary network
(`Agreement.AcceptedFinishesAgree`), what Respond needs to succeed (`Outcomes.RespondSucceedsIff`), the ladder
(`XLadder.LadderMultiplies` with `X25519.X25519ScalarMult`), prevalidation
(`PeerShare.PrevalidationExact`), the map (`Elligator.MapLandsOnCurve`), single use
(`TerminalState.ExactlyOneOwner` and its companions), wiping (`Ownership.StartWithRandom`,
`Ownership.RespondWithRandom`, `PublicCalls.FinishInitiator`, `PublicCalls.FinishResponder`) and the two
checkers (`EvidenceBundle.CheckBundle`, `WorkflowMeaning.AcceptedIsPolicy`).

## What is assumed

Nothing is declared without a proof. What is taken from outside appears as a precondition:

- `XGroup.Curve25519`: the points of the curve and the points of its quadratic twist, each on a carrier
  type of its own, are abelian groups; doubling and differential addition have their affine
  x-coordinate laws; each group has exponent dividing 8q for its own prime q > 2^252; every field element
  is an x-coordinate of one of the two. `XGroup.CurveGroup` is the half about the curve, which is all that
  the honest run needs. The hypothesis is met by the groups of RFC 7748: v^2 = u^3 + 486662 u^2 + u with
  its point at infinity has 8q points for the prime q = 2^252 + 27742317777372353535851937790883648493,
  and d v^2 = u^3 + 486662 u^2 + u for a non-square d has 4q' = 2p + 2 - 8q points for a prime
  q' > 2^252. Both have the same x-coordinate formulas, which do not mention d.
- `Elligator.CurveConstants`: p is prime and A^2 - 4 is not a square modulo p. That -1 is a square and
  that 2 is not are proved.
- `Agreement.NoCollision`: SHA-512 and HMAC do not collide on the particular strings of the two views
  compared, and for the tags of the other kind `Agreement.NoCrossCollision`. Full injectivity would be
  false, since both functions shorten their input.
- SHA-512, HMAC, HKDF and SHA-256 are function parameters; randomness is an argument that may be missing.

## Reading notes

- A nil slice is the empty byte string at the value level; on the heap it is `null`.
- An error is the set of sentinels that `errors.Is` sees in it.
- The bit operations of clamping, bit extraction and LEB128 are written as arithmetic on bytes.
- Where the source says that a scalar multiplication may fail after both lengths are fixed
  (core.go:41-45, core.go:96-99), the model proves that branch unreachable.
- The documentation at crypto.go:26-28 says that the padding field is shorter than 128 bytes;
  `HashInputs.PaddingFillsBlock` states the exact total for every password.
- `sameStringSet` is not a comparison of multisets for every wanted list; `WorkflowMeaning.SameSetExact`
  gives the exact condition, and `WorkflowMeaning.RepeatsAreNotCompared` the failing lists.

## Model

| member | source | states |
|---|---|---|
| `XLadder.DoubleStep` | crypto.go:152-170 | If a register pair represents the x-coordinate of g, with (x : 0), x != 0, standing for infinity, doubling it represents x(2g), with no exceptional case. |
| `XLadder.DiffStep` | crypto.go:152-170 | Differential addition of pairs for g and h whose difference has coordinate u != 0 represents x(g + h), including the cases where g, h or g + h is infinity. |
| `XLadder.LadderStep` | crypto.go:144-171 | One bit: from pairs for hg and (h+1)g the step yields pairs for 2hg, (2h+1)g and (2h+2)g. |
| `XLadder.LadderInvariant` | crypto.go:139-171 | For every u != 0 and every m, after the bits of m the two pairs represent x(mg) and x((m+1)g). |
| `XLadder.LadderMultiplies` | crypto.go:121-180 | For u != 0 and every scalar k, the output is x(kg), or 0 if kg is infinity. |
| `XLadder.RescaledLadder` | crypto.go:139-171 | Multiplying each start pair by a non-zero factor multiplies each final pair by a non-zero factor. |
| `XLadder.RescaledRatio` | crypto.go:175-176 | The ratio of a pair is unchanged when both registers are multiplied by a non-zero factor, also when z = 0. |
| `XLadder.RescaledOutput` | crypto.go:139-176 | Any non-zero projective form of the start pairs gives the same output for every scalar. |
| `X25519.ClampedRange` | crypto.go:129-133 | The clamped scalar is a multiple of 8 with 2^254 <= k < 2^255. |
| `X25519.ClampedValue` | crypto.go:129-133 | The clamped scalar is 2^254 plus the scalar's value below 2^254 without its three lowest bits, so clamping fixes five bits and keeps every other. |
| `X25519.ScalarMultErrors` | crypto.go:121-127 | A wrong scalar length is invalid input, otherwise a wrong point length aborts, and every other pair of inputs yields 32 bytes. |
| `X25519.ScheduleIdentity` | crypto.go:163-170 | BB + 121666 E equals AA + 121665 E for E = AA - BB, so the source's constant and the RFC's give the same step. |
| `X25519.XDiffAddSym` | crypto.go:147-169 | Differential addition does not depend on the order of the two pairs, which is what lets a swap be delayed. |
| `X25519.LoopBit` | crypto.go:144-150 | The textbook pairs before and after each bit of the clamped scalar, in terms of the bit read from the byte array. |
| `X25519.StepRegisters` | crypto.go:152-170 | The in-place register schedule of one iteration leaves the RFC's double in (x2 : z2) and the RFC's differential sum in (x3 : z3). |
| `X25519.LadderIteration` | crypto.go:144-170 | With the swap still pending from the last bit, one iteration takes the registers from table entry pos + 1 to entry pos. |
| `X25519.LadderLoop` | crypto.go:139-174 | The 255-step loop with delayed swaps ends with the first pair of table entry 0. |
| `X25519.LadderTable` | crypto.go:139-174 | Such a table exists for every clamped scalar, and its entry 0 is the two-branch RFC ladder on that scalar. |
| `X25519.X25519ScalarMult` | crypto.go:121-180 | Length errors as in the source; otherwise the encoded RFC ladder output for the clamped scalar, with the scalar copy zeroed. |
| `Field25519.SetBytesToBytes` | crypto.go:135-177 | Encoding a field element and reading it back gives the element. |
| `Field25519.ToBytesInjective` | crypto.go:175-177 | Two elements with equal encodings are equal, so an all-zero output means the element 0. |
| `Field25519.SetBytesIgnoresTopBit` | crypto.go:135-138 | Encodings that differ only in the top bit are the same element. |
| `Field25519.SetBytesValue` | crypto.go:135-138 | Without the top bit the element is the residue of the little-endian number, non-canonical encodings included. |
| `PeerShare.ZeroCoordinateLadder` | crypto.go:135-171 | At the coordinate 0 both z registers are 0 after the first step and stay 0. |
| `PeerShare.ZeroCoordinateOutput` | peer_share.go:59-71 | The output at the coordinate 0 is 0 for every positive scalar. |
| `PeerShare.ScalarMultIsMultiple` | crypto.go:121-180 | For every 32-byte scalar and point, the encoded coordinate of the multiple of the point by 2^254 + 8 floor((s mod 2^254) / 8), or zero bytes if that is infinity or the coordinate is 0. |
| `PeerShare.SharedSecretExact` | peer_share.go:34-71 | Every outcome of the checked secret: wrong share length, wrong scalar length, vanishing output, or the coordinate of the multiple. |
| `PeerShare.ValidationScalarClamps` | peer_share.go:16-25 | The fixed validation encoding clamps to 2^254. |
| `PeerShare.MultipleVanishes` | peer_share.go:73-83 | For k = 8m with 0 < m < q, kg has no coordinate or the coordinate 0 exactly if 8g is infinity. |
| `PeerShare.OutputVanishes` | peer_share.go:59-71 | For a clamped scalar the output is 0 exactly if the coordinate is 0 or its point is killed by 8. |
| `PeerShare.RejectionIsUniform` | peer_share.go:59-83 | A 32-byte share is rejected under one 32-byte scalar exactly if it is rejected under every other. |
| `PeerShare.PrevalidationExact` | peer_share.go:27-83 | validate accepts a share exactly if it has 32 bytes and every 32-byte scalar gives it a non-zero output, so a later sharedSecret on it cannot fail. |
| `PeerShare.RejectionError` | peer_share.go:48-90 | A rejected share reports the abort and, at the right length, also the identity sentinel. |
| `PeerShare.SharesAgree` | core.go:82-104 | From an accepted base, each side's share is accepted and both orders of multiplying give the same secret. |
| `PeerShare.PointRejection` | peer_share.go:59-83 | The coordinate of a point of one group is rejected under one scalar exactly if under every other, from that group's laws alone. |
| `PeerShare.PointSharesAgree` | core.go:82-104 | The agreement of shares for a base that is a point of one group, from that group's laws alone. |
| `PeerShare.ShareIsGood` | core.go:41-45 | A clamped multiple of a point outside the 8-torsion has a non-zero coordinate and is again outside it. |
| `Elligator.Elligator2Curve25519` | crypto.go:43-82 | The field-element updates and the two selects compute the encoding of the draft's formula. |
| `Elligator.SelectIsDraft` | crypto.go:72-80 | The selects equal e v - (1 - e) A/2 with e the quadratic character of the right-hand side, in all three cases. |
| `Elligator.DenominatorNonZero` | crypto.go:57-61 | 1 + 2 r^2 is never 0 modulo p. |
| `Elligator.NeverDegenerate` | crypto.go:65-80 | The right-hand side at the candidate is never 0, so the degenerate select is never taken. |
| `Elligator.MapSelects` | crypto.go:57-80 | The result is the solution v of v (1 + 2 r^2) = -A if the right-hand side there is a square, and -v - A if not. |
| `Elligator.MapEquation` | crypto.go:43-82 | The result x satisfies x (1 + 2 r^2) = -A or (x + A)(1 + 2 r^2) = A, and which of the two is decided by whether the right-hand side is a square. |
| `Elligator.MapLandsOnCurve` | crypto.go:43-82 | For every input the output x makes x^3 + 486662 x^2 + x a square. |
| `Fermat.TwoNonSquare` | crypto.go:55-60 | 2 is not a square modulo a prime p = 5 mod 8 with a root of -1, from Fermat's little theorem. |
| `Elligator.SqrtMinusOne` | crypto.go:72-72 | The constant squares to -1 modulo p, and p has the form that Euler's criterion needs. |
| `LengthValue.AppendLEB128` | length_value.go:30-42 | The loop appends the canonical encoding of n. |
| `LengthValue.ReadLEB128` | length_value.go:47-64 | At every start offset, also one beyond the buffer, the value and the new offset of the recursive reader, or the message error. |
| `LengthValue.Leb128LenInt` | length_value.go:66-73 | The result is the exact length of the canonical encoding. |
| `LengthValue.ReadExact` | length_value.go:47-64 | A read yields n after l bytes exactly if the input starts with the canonical encoding of n, of l <= maxBytes bytes. |
| `LengthValue.LebRoundTrip` | length_value.go:30-64 | At any offset and before any suffix, every n < 128^max reads back to n and to the encoding's length. |
| `LengthValue.LebLength` | length_value.go:66-73 | The encoding of n fits in k bytes exactly if n < 128^k. |
| `LengthValue.LebDigits` | length_value.go:30-42 | Byte i is the i-th base-128 digit, with the top bit set on every byte but the last. |
| `LengthValue.LebPrefixFree` | length_value.go:30-42 | Two encodings that start the same bytes encode the same number. |
| `LengthValue.AppendLengthValue` | length_value.go:21-24 | The destination is extended by the length prefix and the data. |
| `LengthValue.LvCatMethod` | length_value.go:9-19 | The second loop fills the concatenation of all length-value fields, and the first loop computed exactly its length. |
| `LengthValue.LvCatInjective` | length_value.go:9-28 | Equal concatenations come from equal lists, whatever their arities. |
| `LengthValue.LvCatSplit` | length_value.go:9-28 | Equally many fields followed by a rest: equal strings have equal fields and equal rests. |
| `Framing.EncodeMessage` | framing.go:113-127 | The loop emits the header and the length-value fields of the specification. |
| `Framing.MessageReader.Read` | framing.go:195-209 | A successful read returns the field at the offset and moves past it; a failed one does not move. |
| `Framing.MessageReader.Done` | framing.go:211-216 | Trailing bytes are an error, and only they. |
| `Framing.DecodeMessage` | framing.go:153-193 | The reader loop computes the recursive decoding of the whole input, error cases included. |
| `Framing.FieldsExact` | framing.go:153-169 | A field list is read exactly if every field is acceptable and their concatenation is the whole rest. |
| `Framing.EncodingFits` | framing.go:25-43 | Acceptable fields of any catalogue message encode to fewer than 128 KiB. |
| `Framing.DecodeExact` | framing.go:113-216 | Bytes decode to fields exactly if the fields are acceptable and the bytes are their encoding. |
| `Framing.RolesDisjoint` | framing.go:176-193 | Bytes that decode under one role are a message error under every other. |
| `Protocol.EmittedMessagesDecode` | api.go:57-118 | Every message that Start, Respond or Initiator.Finish emits decodes as A, B or C. |
| `HashInputs.TranscriptInjective` | transcript.go:13-27 | The encoded transcript determines ya, ada, yb and adb. |
| `HashInputs.IskInputInjective` | crypto.go:182-190 | The ISK input determines sid, K and the four transcript fields. |
| `HashInputs.MacKeyInputInjective` | crypto.go:199-208 | For 64-byte ISKs the raw concatenation determines sid and ISK. |
| `HashInputs.MacMessageInjective` | crypto.go:212-213 | The MAC message determines the share and the associated data. |
| `HashInputs.TranscriptIdInputInjective` | transcript.go:76-81 | The transcript-ID input determines the transcript. |
| `HashInputs.ExportInfoInjective` | session.go:92-92 | Distinct label and context pairs give distinct HKDF info strings. |
| `HashInputs.BuildCIInjective` | input.go:197-209 | The channel info determines both identities and the context. |
| `HashInputs.GeneratorStringInjective` | crypto.go:25-32 | The generator string determines password, channel info and session ID, although the padding depends on the password. |
| `HashInputs.PaddingFillsBlock` | crypto.go:25-32 | Domain, password and padding fields fill exactly max(128, unpadded length) bytes for every password. |
| `HashInputs.HashInputsDisjoint` | crypto.go:25-208 | Generator, ISK, MAC-key and transcript-ID inputs never coincide. |
| `HashInputs.GeneratorStringLayout` | crypto.go:25-38 | The generator string byte by byte: the domain CPace255, the password, 118 minus the password field's length zero bytes if that is positive, the channel info and the session ID. |
| `HashInputs.BuildCILayout` | input.go:197-209 | The channel info byte by byte: package, draft and suite names and the labelled identities and context. |
| `HashInputs.TranscriptLayout` | transcript.go:13-27 | The four length-value fields in the order ya, ada, yb, adb. |
| `HashInputs.IskInputLayout` | crypto.go:182-190 | The domain CPace255_ISK, sid and K as fields, then the transcript. |
| `HashInputs.MacLayout` | crypto.go:199-213 | CPaceMac, sid and ISK raw for the key, and the share and data as fields for the message. |
| `HashInputs.ExportInfoLayout` | session.go:92-92 | CPaceExport, label and context as fields. |
| `Protocol.AcceptInput` | input.go:51-99 | No error exactly if password and identities are present, every cap holds and an empty session ID is allowed; the empty-session sentinel exactly if only that is wrong among the first checks; every other error is plain invalid input. |
| `Agreement.GeneratorStringsAgree` | input.go:116-209 | Start and Respond build equal generator strings exactly if passwords, contexts and session IDs agree and each SelfID is the other's PeerID. |
| `Agreement.HonestRun` | api.go:57-147 | With matching accepted inputs the run Start, Respond, Finish, Finish succeeds for all randomness exactly if the generator is not low-order; both sessions then hold the same ISK and transcript ID and crosswise peer data, and otherwise the responder aborts with the identity error. Only the curve is assumed, since the generator is proved to be on it. |
| `Agreement.ExportsAgree` | session.go:76-98 | The two sessions of a run export equal keys for every label, context and length. |
| `Agreement.InitiatorAcceptsIff` | core.go:55-73 | Without collisions on the strings involved, an initiator core accepts a responder's tag exactly if both hold the same sid, K and transcript. |
| `Agreement.ResponderAcceptsIff` | core.go:116-122 | The same for a responder core and an initiator's tag. |
| `Agreement.InitiatorTagReflected` | core.go:55-73 | Offered a tag of its own kind, an initiator core accepts exactly if the view is its own and (ya, ada) equals (yb, adb). |
| `Agreement.ResponderTagReflected` | core.go:116-122 | The same for a responder core and a responder's tag. |
| `Agreement.RespondHoldsView` | api.go:79-97 | Whatever message A is delivered, the responder's core holds the view of its own input, scalar and received fields, and message B carries that view's tag. |
| `Agreement.FinishHoldsView` | api.go:102-118 | An accepting initiator ends with the session of its view of message B, and message C carries that view's tag. |
| `Agreement.AcceptedFinishesAgree` | api.go:102-147 | Over an arbitrary network, if both Finish calls accept and one of the two tags was the other side's own, both sides have the same view: equal ISK, transcript ID and session ID, and each peer AD is what the other side bound. |
| `Agreement.ResponderHoldsView` | core.go:75-114 | Every constructed responder core holds such a view, and the tag it sends is that view's. |
| `Agreement.GeneratorOnCurve` | crypto.go:34-41 | Whatever the inputs hash to, the generator is the coordinate of a curve point. |
| `Agreement.BadGeneratorShare` | core.go:75-84 | Every share made from a low-order generator, on the curve or its twist, is the neutral encoding, which validation rejects. |
| `Outcomes.MessageAIs` | framing.go:70-78 | Bytes decode as message A with given fields exactly if they are c1 02 01 and the three canonical fields, of at most 1024, exactly 32 and at most 65536 bytes. |
| `Outcomes.MessageBIs` | framing.go:79-87 | The same for message B: c1 02 02, 32 bytes, at most 65536 bytes, 64 bytes. |
| `Outcomes.MessageCIs` | framing.go:88-94 | The same for message C: c1 02 03, the length 64 and 64 bytes. |
| `Outcomes.DecodeOutcome` | framing.go:153-193 | Decoding gives the specified number of fields or a message error. |
| `Outcomes.GeneratorEquation` | crypto.go:34-41 | The generator's coordinate solves the map's equation for the digest of the generator string, password, channel info and session ID included. |
| `Outcomes.DerivedValues` | crypto.go:182-214 | ISK, both tags and the transcript ID as SHA-512 and HMAC of the draft's strings, each tag over its own role's share and data. |
| `Outcomes.TranscriptIDsSeparate` | transcript.go:76-81 | Transcript IDs are equal exactly if the transcripts are, unless SHA-512 collides on the two strings. |
| `Outcomes.StartOutcome` | api.go:57-69 | Start fails exactly on rejected input or missing randomness; otherwise the exact bytes of message A and the exact core. |
| `Outcomes.RespondNeedsItsSession` | api.go:84-91 | A message A that does not decode or carries another session ID is a message error, whatever else it holds. |
| `Outcomes.RespondChecksShareFirst` | core.go:79-84 | An invalid share aborts before randomness is read: the answer is the same whatever the randomness source does. |
| `Outcomes.RespondSucceedsIff` | api.go:79-97 | Respond succeeds exactly on accepted input, a decodable message A with the input's session ID, a valid share and randomness, and each failure has the error of the first check that fails. |
| `Outcomes.RespondOutcome` | core.go:75-114 | A successful Respond's core and the exact bytes of message B, from the received share and the sampled scalar. |
| `Outcomes.ConfirmationOutcome` | core.go:55-73 | Initiator finish by secret and tag: the secret's error, a failed confirmation, or the tag and the session. |
| `Outcomes.InitiatorFinishOutcome` | api.go:102-118 | Every outcome of Initiator.Finish, with the exact bytes of message C and the session. |
| `Outcomes.ResponderFinishOutcome` | api.go:136-147 | Every outcome of Responder.Finish: only c1 02 03 40 and the 64 bytes of the expected tag are accepted. |
| `Outcomes.ExportOutcome` | session.go:76-98 | Lengths from 0 to 16320 give HKDF of the exact info string, or invalid input if HKDF fails; every other length is invalid input. |
| `Outcomes.ExportsSeparate` | session.go:92-97 | Equal exports of one key come from equal labels and contexts, unless HKDF collides on the two strings. |
| `TerminalState.SingleUseState.ClaimFinish` | terminal_state.go:29-41 | The core for the first terminal call, the used error afterwards, the uninitialized error without a core; the flag is set accordingly. |
| `TerminalState.SingleUseState.ClaimClose` | terminal_state.go:43-55 | The core for the first terminal call, nothing afterwards, the uninitialized error without a core. |
| `TerminalState.ClaimStepIsMethod` | terminal_state.go:29-55 | The atomic claim step of the interleaving model wins, loses and sets the flag as the two methods do. |
| `TerminalState.ExactlyOneOwner` | terminal_state.go:29-70 | In every interleaving, once any call has run its claim exactly one call has the core. |
| `TerminalState.OutcomesAreRight` | api.go:102-175 | Every returned call got the result computed from the untouched secrets if it owned the core, and otherwise the used error (Finish) or nil (Close). |
| `TerminalState.AtMostOneResult` | api.go:102-147 | At most one call of a run returns a finish result. |
| `TerminalState.ClearedAfterUse` | core.go:126-144 | When the owner has returned, every secret field is cleared. |
| `TerminalState.OnlyOwnerTouches` | terminal_state.go:17-20 | A step that reads or changes core fields is a step of the only owner, and reads see the constructed secrets. |
| `TerminalState.LaterClaimsLose` | terminal_state.go:29-55 | After any claim every later claim loses and returns at once. |
| `PublicCalls.EveryInitiatorCall` | api.go:102-131 | In every interleaving on copies of an Initiator the owner's result is the protocol's, and every other call gets the lost-claim answer. |
| `PublicCalls.EveryResponderCall` | api.go:136-161 | The same for copies of a Responder, with the ISK, the stored transcript encoding and the four transcript fields as the fields that are read and cleared. |
| `SessionState.ExportsFollowClose` | session.go:49-98 | In every interleaving each export before the first Close uses the original ISK and each later one fails with the closed error. |
| `SessionState.SessionCell.Close` | session.go:49-66 | The shared ISK array is zeroed and dropped; closing again changes nothing. |
| `SessionState.SessionCell.Export` | session.go:76-98 | The answer of the shared state, with the closed, length and HKDF errors; nothing changes. |
| `Finishing.Session.Close` | session.go:49-66 | For a constructed session: closed, its ISK array zero, and transcript ID, peer AD and peer ID keep their values. |
| `PublicCalls.CloseSession` | session.go:49-66 | Nil sessions close without error, zero values report invalid input, and otherwise the ISK is wiped, the session closed and the metadata kept. |
| `PublicCalls.ExportSession` | session.go:76-98 | Invalid input for nil and zero sessions, the closed error after Close, and otherwise the export of the ISK. |
| `PublicCalls.TranscriptIDOf` | session.go:15-20 | A fresh copy of the transcript ID, nil for nil and zero sessions. |
| `PublicCalls.PeerAssociatedDataOf` | session.go:25-30 | A fresh copy of the peer's associated data, nil for nil and zero sessions. |
| `PublicCalls.PeerIDOf` | session.go:36-41 | A fresh copy of the peer identity, nil for nil and zero sessions. |
| `Heap.ClearBytes` | crypto.go:217-222 | Every byte of the array is zero. |
| `Heap.Clone` | api.go:186-193 | Nil stays nil; otherwise a fresh array with the same bytes. |
| `Ownership.CallerInput.Wipe` | input.go:101-111 | Every owned array is zero. |
| `Ownership.CallerInput.Handoff` | input.go:116-136 | The arrays move by reference to the normalized input in the order of the role, the context is zeroed, and no reference stays behind. |
| `Ownership.NormalizedInput.Wipe` | input.go:160-167 | Every array of the normalized input is zero. |
| `Ownership.AcceptInput` | input.go:51-70 | Validation as specified; the accepted input holds fresh clones with the caller's bytes. |
| `Ownership.NormalizeInput` | input.go:177-184 | The normalized values of the role; every array the call allocated is owned by the result or zero. |
| `Ownership.CalculateGenerator` | crypto.go:34-41 | The generator of the protocol; every other array the call allocated is zero. |
| `Ownership.SampleScalar` | crypto.go:92-99 | A fresh scalar, or the randomness error with nothing left behind. |
| `Ownership.Secret` | peer_share.go:34-71 | The checked shared secret or its error; no other non-zero array is left behind. |
| `Ownership.ValidateShare` | peer_share.go:27-90 | The validation verdict; every array the call allocated is zero. |
| `Ownership.DeriveISK` | crypto.go:182-197 | The ISK in a fresh array; prefix, material and digest are zero. |
| `Ownership.ConfirmationTag` | crypto.go:199-214 | The tag in a fresh array; key input and MAC key are zero. |
| `Ownership.MakeShare` | core.go:28-45 | Scalar and share of the protocol; the password and the generator are zero on every exit. |
| `Ownership.NewInitiatorCore` | core.go:24-53 | The protocol's core in fresh arrays, its scalar shared with no public field, and the password zero on every exit. |
| `Ownership.InitiatorCore.Clear` | core.go:126-132 | The scalar array is zeroed and dropped and the public fields stay. |
| `Ownership.StartWithRandom` | api.go:57-69 | The protocol's result; on every exit each array the call allocated is zero unless it belongs to the returned core, is the message, or is the one array of the public share. No existing array is written. |
| `Ownership.NewIRTranscript` | transcript.go:13-27 | Five fresh arrays whose encoding matches the four fields. |
| `Ownership.TranscriptArrays.Wipe` | transcript.go:52-66 | All five arrays are zero. |
| `Ownership.ResponderCore.Clear` | core.go:137-144 | ISK and transcript arrays are zeroed and dropped. |
| `Ownership.ResponderKeys` | core.go:95-107 | ISK, transcript and tag from the scalar; the scalar and the shared secret are zero on every exit. |
| `Ownership.NewResponderCore` | core.go:75-114 | The protocol's core, share and tag; apart from the core's arrays and the one array each of share and tag, every array the call allocated is zero. |
| `Ownership.RespondWithRandom` | api.go:79-97 | The protocol's result; on every exit each array the call allocated is zero unless it belongs to the returned core, is the message, or is the one array of the responder's own share or tag. No existing array is written. |
| `Finishing.NewSession` | api.go:177-184 | A fresh open session with the given values that shares no array with its arguments. |
| `Finishing.CoreFinish` | core.go:55-73 | The protocol's result; shared secret and ISK scratch are zero on every exit, and what is left over is named array by array with its contents. |
| `Finishing.FinishClaimedInitiator` | api.go:107-118 | For arbitrary message bytes the scalar ends zeroed and nil, the returned session holds the protocol's values in fresh arrays, and every other array the call allocated is zero unless it is the message or one of the named left-over arrays of transcript, tags and transcript ID. |
| `Finishing.ResponderCoreFinish` | core.go:116-122 | The protocol's result in a session of fresh arrays. |
| `Finishing.FinishClaimedResponder` | api.go:141-147 | For arbitrary message bytes ISK and transcript end zeroed and nil, the returned session holds the protocol's values in fresh arrays, and the left-over arrays are named with their contents. |
| `PublicCalls.Start` | api.go:53-69 | A claimable handle on a fresh core that holds the protocol's values. |
| `PublicCalls.Respond` | api.go:75-97 | A claimable handle on a fresh core with a consistent transcript. |
| `PublicCalls.FinishInitiator` | api.go:102-168 | A call that obtains the core uses the state up, wipes the scalar and returns the protocol's result; any other call touches nothing and gets the used or uninitialized error. |
| `PublicCalls.CloseInitiator` | api.go:123-131 | A call that obtains the core wipes it; any other call touches nothing and answers nil, or an error for an uninitialized state. |
| `PublicCalls.FinishResponder` | api.go:136-175 | As for the initiator, with the ISK and the transcript. |
| `PublicCalls.CloseResponder` | api.go:153-161 | As for the initiator, with the ISK and the transcript. |
| `EvidenceBundle.ParseLine` | tools/evidencebaseline/main.go:694-735 | The entry of a line that lists a path, and findings unless the line is blank or well formed. |
| `EvidenceBundle.ParseLines` | tools/evidencebaseline/main.go:684-736 | The entries of all lines; no findings exactly if every line is blank or well formed and no path repeats. |
| `EvidenceBundle.SafePathNames` | tools/evidencebaseline/main.go:482-501 | Without a trailing slash a path is safe exactly if its parts are proper file names and it has no backslash, NUL or colon. |
| `EvidenceBundle.SafeWithSlash` | tools/evidencebaseline/main.go:482-501 | Where a trailing slash is allowed, one slash behind a safe path is all that is added. |
| `EvidenceBundle.IgnoredIsExempt` | tools/evidencebaseline/main.go:839-845 | A path is ignored exactly if it is one of the three control files of the bundle itself, or its last name is .DS_Store. |
| `EvidenceBundle.AcceptedControlFiles` | tools/evidencebaseline/main.go:603-614 | An accepted bundle has regular README.md and SHA256SUMS files, and no other kind of SHA256SUMS.sig than a regular file. |
| `EvidenceText.HexDigits` | tools/evidencebaseline/main.go:33-33 | A hash is 64 characters from 0-9 and a-f. |
| `EvidenceText.ListableIs` | tools/evidencebaseline/main.go:714-725 | A listable path has proper file names, no white space, backslash, NUL or colon, and no leading star. |
| `EvidenceText.GoodLineIs` | tools/evidencebaseline/main.go:702-725 | A line that is not blank is accepted exactly if it is a hash, two spaces and a listable path. |
| `EvidenceText.LineRoundTrip` | tools/evidencebaseline/main.go:710-731 | The line written for an entry reads back as that entry. |
| `EvidenceText.BlankIs` | tools/evidencebaseline/main.go:699-701 | A line is skipped exactly if it is white space only. |
| `EvidenceText.BlankLine` | tools/evidencebaseline/main.go:699-701 | A line of white space lists nothing and is no defect. |
| `EvidenceText.ScanText` | tools/evidencebaseline/main.go:694-699 | A text of lines with newline or carriage-return newline endings scans to the lines, unless one has 65536 bytes or more. |
| `EvidenceText.ScanUnterminated` | tools/evidencebaseline/main.go:694-699 | The newline after the last line may be missing. |
| `EvidenceText.WrittenSumsConform` | tools/evidencebaseline/main.go:613-642 | A written-out listing is accepted exactly if it is not empty, repeats no path, matches every file it names and covers every file that needs it. |
| `EvidenceBundle.LstatChecksumEntry` | tools/evidencebaseline/main.go:764-792 | The node at the path exactly if every parent is a directory and the node is no symlink. |
| `EvidenceBundle.LstatRepoRelative` | tools/evidencebaseline/main.go:517-549 | The node at a safe path exactly if every parent is a directory. |
| `EvidenceBundle.VerifyEntry` | tools/evidencebaseline/main.go:738-762 | No findings exactly if the path is a regular file behind directories with the listed digest. |
| `EvidenceBundle.BundleRawFiles` | tools/evidencebaseline/main.go:794-837 | The regular files of the walk that are not ignored; no findings exactly if everything else is ignored or a directory. |
| `EvidenceBundle.ControlFile` | tools/evidencebaseline/main.go:645-660 | Accepted exactly if the name is a regular file. |
| `EvidenceBundle.OptionalControlFile` | tools/evidencebaseline/main.go:662-677 | Accepted exactly if the name is absent or a regular file. |
| `EvidenceBundle.WalkSound` | tools/evidencebaseline/main.go:797-812 | What the walk visits exists at the path it reports. |
| `EvidenceBundle.WalkComplete` | tools/evidencebaseline/main.go:797-812 | The walk visits everything that exists, at any depth. |
| `EvidenceBundle.CheckSums` | tools/evidencebaseline/main.go:615-642 | No findings exactly if the checksum file conforms to the tree. |
| `EvidenceBundle.CheckBundle` | tools/evidencebaseline/main.go:585-643 | No findings exactly if the bundle is a directory reached through directories that conforms, over trees of any size. |
| `EvidenceBundle.AcceptedFilesAreListedOnce` | tools/evidencebaseline/main.go:626-642 | In an accepted bundle every entry that is not ignored and no directory is a regular file, listed exactly once, beside its own digest. |
| `EvidenceBundle.ParentsAreDirectories` | tools/evidencebaseline/main.go:764-792 | Every proper prefix of an existing path is a directory, so no symlink is on it. |
| `ReleasePolicy.SameStringSet` | tools/releasepolicy/main.go:730-745 | True exactly if the lists have equal lengths and the same elements. |
| `WorkflowMeaning.SameSetIsPermutation` | tools/releasepolicy/main.go:730-745 | Against a list without repeats it accepts exactly the permutations. |
| `WorkflowMeaning.RepeatsAreNotCompared` | tools/releasepolicy/main.go:730-745 | A wanted list with a repeat beside another element lets a different multiset through. |
| `WorkflowMeaning.SameSetExact` | tools/releasepolicy/main.go:730-745 | It compares multisets correctly for every list if and only if the wanted list has no repeats or one element only. |
| `ReleasePolicy.ScriptLines` | tools/releasepolicy/main.go:589-599 | The trimmed lines of the script that are neither blank nor comments, in order. |
| `WorkflowMeaning.ScriptOfBlocks` | tools/releasepolicy/main.go:589-599 | The lines of two blocks in a row are the lines of the first and then of the second. |
| `WorkflowMeaning.ScriptOfLine` | tools/releasepolicy/main.go:589-599 | One line counts, trimmed, unless it is blank or a comment. |
| `Strings.TrimSpaceParts` | tools/releasepolicy/main.go:592-592 | Trimming takes only white space off the two ends. |
| `Strings.TrimSpaceEnds` | tools/releasepolicy/main.go:592-592 | What is left neither starts nor ends with white space. |
| `Strings.SpaceIsWhiteSpace` | tools/releasepolicy/main.go:592-592 | White space is recognized at every encoding of a code point with the White_Space property. |
| `Strings.SpaceHasCodePoint` | tools/releasepolicy/main.go:592-592 | Nothing else is recognized as white space. |
| `WorkflowMeaning.ScriptIsCanonical` | tools/releasepolicy/main.go:589-599 | The compared lines are a canonical form: written out, they are compared as themselves. |
| `ReleasePolicy.Checker.CheckCatalogue` | tools/releasepolicy/main.go:116-149 | No finding added exactly if concepts and config paths are present and distinct and source names are present. |
| `ReleasePolicy.Checker.CheckDuplicateKeys` | tools/releasepolicy/main.go:151-175 | No finding added exactly if no mapping in the tree repeats a scalar key. |
| `ReleasePolicy.Checker.CheckRoot` | tools/releasepolicy/main.go:177-188 | No finding added exactly if root keys, name, env and concurrency are as wanted. |
| `ReleasePolicy.Checker.CheckTriggers` | tools/releasepolicy/main.go:190-214 | No finding added exactly if the trigger block, its push block and its tags are as wanted. |
| `ReleasePolicy.Checker.CheckTopPermissions` | tools/releasepolicy/main.go:216-229 | No finding added exactly if contents has the wanted permission and every other key is known. |
| `ReleasePolicy.Checker.CheckJobSet` | tools/releasepolicy/main.go:231-243 | No finding added exactly if the job names are the policy's. |
| `ReleasePolicy.Checker.CheckAcceptedJobs` | tools/releasepolicy/main.go:245-253 | No finding added exactly if every present policy job is accepted. |
| `ReleasePolicy.Checker.CheckAcceptedJob` | tools/releasepolicy/main.go:255-301 | No finding added exactly if envelope, needs, permissions, outputs and steps are accepted. |
| `ReleasePolicy.Checker.CheckAcceptedJobSteps` | tools/releasepolicy/main.go:303-320 | No finding added exactly if the step identities equal the policy's in order and every step is accepted. |
| `ReleasePolicy.Checker.CheckAcceptedStep` | tools/releasepolicy/main.go:322-366 | No finding added exactly if keys, texts, uses, run, with and env are the policy's. |
| `ReleasePolicy.Checker.ExpectExactScalars` | tools/releasepolicy/main.go:505-529 | No finding added exactly if the node is a mapping with the wanted texts and no other key. |
| `ReleasePolicy.Checker.CheckEveryStep` | tools/releasepolicy/main.go:368-400 | No finding added exactly if every step of every job meets the demand: a pinned action, or no expression in a script. |
| `ReleasePolicy.Checker.CheckCheckoutCredentials` | tools/releasepolicy/main.go:377-392 | No finding added exactly if checkouts of jobs outside the policy keep no credentials. |
| `ReleasePolicy.Checker.CheckWorkflow` | tools/releasepolicy/main.go:78-104 | No findings exactly if the workflow is accepted, with the early exits of the source. |
| `Yaml.LookupIsField` | tools/releasepolicy/main.go:672-682 | On a scalar-keyed mapping without repeated keys the first match is also the value that a last-wins reader sees. |
| `Yaml.LastPair` | tools/releasepolicy/main.go:672-682 | The meaning of a mapping: a pair with a scalar key sets that key and no other. |
| `Yaml.OtherKeys` | tools/releasepolicy/main.go:672-682 | An alias key is looked up by the name of its anchor and a collection key by the empty text. |
| `Yaml.SeqStringsAt` | tools/releasepolicy/main.go:696-705 | Item i contributes its text if it is a scalar and the empty text otherwise. |
| `WorkflowMeaning.PinnedUses` | tools/releasepolicy/main.go:333-375 | A reference that starts with action@ and is pinned is that action at a 40-character commit, and conversely. |
| `WorkflowMeaning.PinnedIs` | tools/releasepolicy/main.go:368-375 | A reference is pinned exactly if it is a non-empty action, an @ and a commit. |
| `WorkflowMeaning.ShaDigits` | tools/releasepolicy/policy.go:5-5 | A commit is 40 characters from 0-9 and a-f. |
| `WorkflowMeaning.CutWithout` | tools/releasepolicy/main.go:639-648 | Without an @ the whole reference is the action, and it is not pinned. |
| `WorkflowMeaning.ContainsAt` | tools/releasepolicy/main.go:394-400 | A script is found to contain an expression opener exactly if it occurs somewhere in it. |
| `WorkflowMeaning.KnownKeys` | tools/releasepolicy/main.go:263-323 | The keys that a job and a step may have. |
| `WorkflowMeaning.CheckoutIs` | tools/releasepolicy/main.go:377-392 | Outside the policy's jobs a step passes exactly if it is no checkout or has persist-credentials false and no other argument. |
| `WorkflowMeaning.AcceptedCatalogue` | tools/releasepolicy/main.go:116-149 | An accepted workflow was checked under a catalogue with distinct, non-empty concepts and paths. |
| `WorkflowMeaning.TextsAreExact` | tools/releasepolicy/main.go:505-529 | With non-empty expectations the check holds exactly if the mapping means the wanted map. |
| `WorkflowMeaning.StepExact` | tools/releasepolicy/main.go:322-400 | The checks on one step accept exactly the policy's step, up to the commit and the script's layout. |
| `WorkflowMeaning.JobExact` | tools/releasepolicy/main.go:255-320 | The checks on one job accept exactly the policy's job with its steps in order. |
| `WorkflowMeaning.AcceptedIsPolicy` | tools/releasepolicy/main.go:78-104 | A scalar-keyed workflow is accepted exactly if no mapping in it repeats a key and it is the policy: the same head, the same job names, each job with the same steps in the same order. |

## Left out

- SHA-512, HMAC, HKDF, the system randomness source and the limb arithmetic of the field package: foreign code.
- The group law of the curve, the orders of curve and twist and the primality of p: assumed as listed above.
- Secrecy, timing, compiler or garbage-collector copies and `runtime.KeepAlive`: only the program's own heap is modelled.
- The transient buffers of the hash and MAC objects, the LEB128 and length-value buffers that only hold public bytes, and the decoded message fields: modelled as values, not as arrays.
- Ownership.MakeShare: clears the generator before the core's fields are cloned, where the source defers it to the return; no clone reads the generator.
- Finishing.Session.Close: is the call on a constructed session; nil and zero-value sessions are handled by PublicCalls.CloseSession.
- SessionState.SessionCell.Export: the export key is a value, not an array.
- TerminalState.SingleUseState.ClaimFinish: the mutex is not modelled; a claim is one atomic step of the interleaving model.
- Error text and the paths inside findings: findings carry a location and a kind, and their order after sorting is not modelled.
- EvidenceBundle.CheckBundle: the tree does not change during the check, a directory listing cannot fail, and SHA-256 is a parameter.
- EvidenceBundle.BundleRawFiles: the final sort of the paths is left out, since only membership is used afterwards.
- ReleasePolicy.Checker.CheckEveryStep: visits jobs in document order instead of collecting and sorting references first.
- Reading files and YAML, flags, writing manifests, the baseline index and the discovery of bundles in tools/evidencebaseline, and allowed signers, helper scripts and the Syft configuration in tools/releasepolicy: not part of this model.
- The contents of tools/releasepolicy/policy.go: the policy is an arbitrary parameter; `WorkflowMeaning.GoodPolicy` states the shape that file has.
- Tests, benchmarks, fuzzing, shell scripts, workflows and release documents: they would add no harder property.
