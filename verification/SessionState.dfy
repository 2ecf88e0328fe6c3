/** session.go: exporting from and closing a confirmed session that copies share. */
module SessionState {
  import opened Bytes
  import opened Heap
  import opened Errors
  import opened HashInputs
  import opened Protocol

  /** The state that all copies of one Session share. */
  datatype Shared = Shared(closed: bool, isk: bytes)

  datatype Op = Export(exportLabel: bytes, context: bytes, length: int) | CloseSession

  datatype Answer = Key(result: Result<bytes>) | Closed

  /** One operation under the mutex. */
  function Step(h: Primitives, s: Shared, op: Op): (Shared, Answer) {
    match op
    case Export(l, c, n) => (s, Key(if s.closed then Err({ErrSessionClosed}) else ExportCall(h, s.isk, l, c, n)))
    case CloseSession => (Shared(true, []), Closed)
  }

  /** The mutex makes any interleaving on any copies a sequence of operations. */
  function Answers(h: Primitives, s: Shared, ops: seq<Op>): seq<Answer>
    decreases |ops|
  {
    if ops == [] then [] else
      var (t, a) := Step(h, s, ops[0]);
      [a] + Answers(h, t, ops[1..])
  }

  lemma {:induction false} AnswersLength(h: Primitives, s: Shared, ops: seq<Op>)
    ensures |Answers(h, s, ops)| == |ops|
    decreases |ops|
  {
    if ops != [] { AnswersLength(h, Step(h, s, ops[0]).0, ops[1..]); }
  }

  /** Whether a Close came before position i. */
  ghost predicate ClosedBefore(ops: seq<Op>, i: nat) {
    exists j :: 0 <= j < i && j < |ops| && ops[j].CloseSession?
  }

  /** Every export ordered before the first Close uses the original ISK, and every later one fails. */
  lemma {:induction false} ExportsFollowClose(h: Primitives, s: Shared, ops: seq<Op>, i: nat)
    requires i < |ops| && ops[i].Export?
    ensures |Answers(h, s, ops)| == |ops|
    ensures Answers(h, s, ops)[i] ==
            Key(if s.closed || ClosedBefore(ops, i) then Err({ErrSessionClosed})
                else ExportCall(h, s.isk, ops[i].exportLabel, ops[i].context, ops[i].length))
    decreases |ops|
  {
    AnswersLength(h, s, ops);
    if i > 0 {
      var (t, a) := Step(h, s, ops[0]);
      var rest := ops[1..];
      ExportsFollowClose(h, t, rest, i - 1);
      if ClosedBefore(rest, i - 1) {
        var j :| 0 <= j < i - 1 && rest[j].CloseSession?;
        assert ops[j + 1].CloseSession?;
      }
      if ClosedBefore(ops, i) && !ops[0].CloseSession? {
        var j :| 0 <= j < i && ops[j].CloseSession?;
        assert rest[j - 1].CloseSession?;
      }
    }
  }

  /** sessionState: the ISK array is shared by every copy of the session. */
  class SessionCell {
    var closed: bool
    var isk: Slice

    ghost function Value(): Shared
      reads this, isk
    {
      Shared(closed, Heap.Value(isk))
    }

    constructor (key: Slice)
      ensures !closed && isk == key
      ensures forall a: array<byte> :: Tracked(a) && fresh(a) ==> Zeroed(a)
    {
      closed, isk := false, key;
    }

    /** Close wipes the ISK array in place before dropping it; a second Close changes nothing. */
    method Close()
      requires closed ==> isk == null
      modifies this, isk
      ensures closed && isk == null
      ensures forall h: Primitives :: Value() == Step(h, old(Value()), CloseSession).0
      ensures old(isk) != null ==> Zeroed(old(isk))
    {
      if closed {
        return;
      }
      ClearBytes(isk);
      isk := null;
      closed := true;
    }

    /** Export reads the ISK and changes nothing. */
    method Export(h: Primitives, exportLabel: bytes, context: bytes, length: int) returns (r: Result<bytes>)
      ensures Key(r) == Step(h, Value(), Op.Export(exportLabel, context, length)).1
    {
      if closed {
        return Err({ErrSessionClosed});
      }
      if length < 0 || length > MAX_HKDF_OUTPUT {
        return Err({ErrInvalidInput});
      }
      var out := h.hkdf(Heap.Value(isk), ExportInfo(exportLabel, context), length);
      if out.None? {
        return Err({ErrInvalidInput});
      }
      return Ok(out.value);
    }
  }
}
