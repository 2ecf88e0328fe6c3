/** terminal_state.go: the claim that makes protocol state single-use, and what it guarantees in every
    interleaving of any number of Finish and Close calls on copies of one state. */
module TerminalState {
  import opened Bytes
  import opened Errors

  /** The shared state behind every copy of an Initiator or Responder. Each claim runs under the
      mutex, so a call of a claim method is one atomic step. */
  class SingleUseState<C> {
    var used: bool
    const core: Option<C>

    constructor (core: Option<C>)
      ensures !used && this.core == core
    {
      this.core := core;
      used := false;
    }

    method ClaimFinish() returns (r: Result<C>)
      modifies this
      ensures r == ClaimFinishResult(old(used), core)
      ensures used == UsedAfter(old(used), core)
    {
      if used {
        return Err({ErrStateUsed});
      }
      if core.None? {
        return Err({ErrInvalidInput});
      }
      used := true;
      return Ok(core.value);
    }

    /** The claimed core, none when an earlier terminal call has it, or the uninitialized error. */
    method ClaimClose() returns (r: Result<Option<C>>)
      modifies this
      ensures r == ClaimCloseResult(old(used), core)
      ensures used == UsedAfter(old(used), core)
    {
      if used {
        return Ok(None);
      }
      if core.None? {
        return Err({ErrInvalidInput});
      }
      used := true;
      return Ok(core);
    }
  }

  function ClaimFinishResult<C>(used: bool, core: Option<C>): Result<C> {
    if used then Err({ErrStateUsed}) else if core.None? then Err({ErrInvalidInput}) else Ok(core.value)
  }

  function ClaimCloseResult<C>(used: bool, core: Option<C>): Result<Option<C>> {
    if used then Ok(None) else if core.None? then Err({ErrInvalidInput}) else Ok(core)
  }

  function UsedAfter<C>(used: bool, core: Option<C>): bool {
    used || core.Some?
  }

  // ------------------------------------------------------- interleavings

  datatype Kind = Finish(message: bytes) | Close

  /** What a call returns: the result of the owner's finish computation, or a lost claim. */
  datatype Outcome<+R> = Finished(result: R) | ErrUsed | Nil

  /** Where a call is. The claim is one locked step. Everything after it is unlocked: an owning Finish
      reads the core's fields one at a time, computes, and then clears the fields one at a time; an
      owning Close only clears. */
  datatype Call<+R> =
    | Pending(kind: Kind)
    | Reading(kind: Kind, seen: seq<bytes>)
    | Clearing(kind: Kind, cleared: nat, outcome: Outcome<R>)
    | Done(kind: Kind, owned: bool, outcome: Outcome<R>)

  predicate Owner<R>(c: Call<R>) {
    c.Reading? || c.Clearing? || (c.Done? && c.owned)
  }

  /** The claim flag, the core's secret fields (None once cleared), and the calls made so far. */
  datatype State<+R> = State(used: bool, fields: seq<Option<bytes>>, calls: seq<Call<R>>)

  /** A constructed state before any call: every field holds its secret. */
  function Initial<R>(secrets: seq<bytes>): State<R> {
    State(false, seq(|secrets|, i requires 0 <= i < |secrets| => Some(secrets[i])), [])
  }

  ghost predicate NewCall<R>(s: State<R>, t: State<R>) {
    exists k :: t == s.(calls := s.calls + [Pending(k)])
  }

  /** The locked claim of call i. */
  ghost predicate Claim<R>(s: State<R>, t: State<R>, i: nat) {
    && i < |s.calls| && s.calls[i].Pending?
    && var k := s.calls[i].kind;
       if s.used then
         t == s.(calls := s.calls[i := Done(k, false, if k.Finish? then ErrUsed else Nil)])
       else
         t == s.(used := true, calls := s.calls[i := if k.Finish? then Reading(k, []) else Clearing(k, 0, Nil)])
  }

  /** The claim step is the claim method: the same winner, the same flag and the same lost answer. */
  lemma ClaimStepIsMethod<R, C>(s: State<R>, t: State<R>, i: nat, core: C)
    requires Claim(s, t, i)
    ensures t.used == UsedAfter(s.used, Some(core))
    ensures Owner(t.calls[i]) <==>
            if s.calls[i].kind.Finish? then ClaimFinishResult(s.used, Some(core)) == Ok(core) else ClaimCloseResult(s.used, Some(core)) == Ok(Some(core))
    ensures !Owner(t.calls[i]) ==>
            if s.calls[i].kind.Finish? then
              ClaimFinishResult(s.used, Some(core)) == Err({ErrStateUsed}) && t.calls[i] == Done(s.calls[i].kind, false, ErrUsed)
            else
              ClaimCloseResult(s.used, Some(core)) == Ok(None) && t.calls[i] == Done(s.calls[i].kind, false, Nil)
  {
  }

  /** An owning Finish reads its next field, whatever is there. */
  ghost predicate Read<R>(s: State<R>, t: State<R>, i: nat) {
    && i < |s.calls| && s.calls[i].Reading?
    && var c := s.calls[i];
       && |c.seen| < |s.fields|
       && var x := match s.fields[|c.seen|] case None => [] case Some(v) => v;
          t == s.(calls := s.calls[i := c.(seen := c.seen + [x])])
  }

  /** An owning Finish has read every field and computes its result from what it saw. */
  ghost predicate Compute<R>(f: (seq<bytes>, bytes) -> R, s: State<R>, t: State<R>, i: nat) {
    && i < |s.calls| && s.calls[i].Reading? && s.calls[i].kind.Finish?
    && |s.calls[i].seen| == |s.fields|
    && t == s.(calls := s.calls[i := Clearing(s.calls[i].kind, 0, Finished(f(s.calls[i].seen, s.calls[i].kind.message)))])
  }

  ghost predicate ClearNext<R>(s: State<R>, t: State<R>, i: nat) {
    && i < |s.calls| && s.calls[i].Clearing?
    && var c := s.calls[i];
       && c.cleared < |s.fields|
       && t == s.(fields := s.fields[c.cleared := None], calls := s.calls[i := c.(cleared := c.cleared + 1)])
  }

  ghost predicate Return<R>(s: State<R>, t: State<R>, i: nat) {
    && i < |s.calls| && s.calls[i].Clearing? && s.calls[i].cleared == |s.fields|
    && t == s.(calls := s.calls[i := Done(s.calls[i].kind, true, s.calls[i].outcome)])
  }

  ghost predicate CallStep<R>(f: (seq<bytes>, bytes) -> R, s: State<R>, t: State<R>, i: nat) {
    Claim(s, t, i) || Read(s, t, i) || Compute(f, s, t, i) || ClearNext(s, t, i) || Return(s, t, i)
  }

  ghost predicate Next<R>(f: (seq<bytes>, bytes) -> R, s: State<R>, t: State<R>) {
    NewCall(s, t) || exists i: nat :: CallStep(f, s, t, i)
  }

  /** A run: any finite interleaving from the constructed state. */
  ghost predicate IsRun<R>(f: (seq<bytes>, bytes) -> R, secrets: seq<bytes>, run: seq<State<R>>) {
    && |run| > 0 && run[0] == Initial(secrets)
    && forall n :: 0 <= n < |run| - 1 ==> Next(f, run[n], run[n + 1])
  }

  // ------------------------------------------------------- the invariant

  /** The number of fields that the owner has cleared. */
  ghost function Progress<R>(c: Call<R>, n: nat): nat {
    match c
    case Clearing(_, cleared, _) => cleared
    case Done(_, owned, _) => if owned then n else 0
    case _ => 0
  }

  /** Exactly the first p fields are cleared and the others hold their secrets. */
  ghost predicate ClearedPrefix(secrets: seq<bytes>, fields: seq<Option<bytes>>, p: nat) {
    && |fields| == |secrets|
    && forall j :: 0 <= j < |secrets| ==> fields[j] == if j < p then None else Some(secrets[j])
  }

  /** What is known of one call, given the constructed secrets. */
  ghost predicate CallOk<R(!new)>(f: (seq<bytes>, bytes) -> R, secrets: seq<bytes>, c: Call<R>) {
    match c
    case Pending(_) => true
    case Reading(k, seen) => k.Finish? && seen <= secrets
    case Clearing(k, cleared, o) => cleared <= |secrets| && o == OwnerOutcome(f, secrets, k)
    case Done(k, owned, o) => o == if owned then OwnerOutcome(f, secrets, k) else if k.Finish? then ErrUsed else Nil
  }

  /** The owner's outcome is computed from the constructed secrets and nothing else. */
  ghost function OwnerOutcome<R>(f: (seq<bytes>, bytes) -> R, secrets: seq<bytes>, k: Kind): Outcome<R> {
    match k
    case Finish(m) => Finished(f(secrets, m))
    case Close => Nil
  }

  /** Before the first claim nothing is owned or cleared; afterwards call `owner` is the only owner. */
  ghost predicate Inv<R(!new)>(f: (seq<bytes>, bytes) -> R, secrets: seq<bytes>, s: State<R>, owner: int) {
    && (forall i :: 0 <= i < |s.calls| ==> CallOk(f, secrets, s.calls[i]))
    && (if s.used then
          && 0 <= owner < |s.calls| && Owner(s.calls[owner])
          && ClearedPrefix(secrets, s.fields, Progress(s.calls[owner], |secrets|))
          && (forall i :: 0 <= i < |s.calls| && Owner(s.calls[i]) ==> i == owner)
        else
          && ClearedPrefix(secrets, s.fields, 0)
          && forall i :: 0 <= i < |s.calls| ==> s.calls[i].Pending?)
  }

  lemma InvInitial<R(!new)>(f: (seq<bytes>, bytes) -> R, secrets: seq<bytes>)
    ensures Inv(f, secrets, Initial(secrets), -1)
  {
  }

  lemma InvClaim<R(!new)>(f: (seq<bytes>, bytes) -> R, secrets: seq<bytes>, s: State<R>, owner: int, t: State<R>, i: nat)
    returns (owner': int)
    requires Inv(f, secrets, s, owner) && Claim(s, t, i)
    ensures Inv(f, secrets, t, owner') && (s.used ==> owner' == owner)
  {
    owner' := if s.used then owner else i;
  }

  lemma InvRead<R(!new)>(f: (seq<bytes>, bytes) -> R, secrets: seq<bytes>, s: State<R>, owner: int, t: State<R>, i: nat)
    requires Inv(f, secrets, s, owner) && Read(s, t, i)
    ensures Inv(f, secrets, t, owner)
  {
    assert CallOk(f, secrets, s.calls[i]);
    assert s.used && i == owner;
    var c := s.calls[i];
    assert s.fields[|c.seen|] == Some(secrets[|c.seen|]);
    assert t.calls[i].seen == secrets[..|c.seen| + 1];
  }

  lemma InvCompute<R(!new)>(f: (seq<bytes>, bytes) -> R, secrets: seq<bytes>, s: State<R>, owner: int, t: State<R>, i: nat)
    requires Inv(f, secrets, s, owner) && Compute(f, s, t, i)
    ensures Inv(f, secrets, t, owner)
  {
    assert CallOk(f, secrets, s.calls[i]);
    assert s.calls[i].seen == secrets;
    assert s.used && i == owner;
  }

  lemma InvClear<R(!new)>(f: (seq<bytes>, bytes) -> R, secrets: seq<bytes>, s: State<R>, owner: int, t: State<R>, i: nat)
    requires Inv(f, secrets, s, owner) && ClearNext(s, t, i)
    ensures Inv(f, secrets, t, owner)
  {
    assert CallOk(f, secrets, s.calls[i]);
    assert s.used && i == owner;
  }

  lemma InvReturn<R(!new)>(f: (seq<bytes>, bytes) -> R, secrets: seq<bytes>, s: State<R>, owner: int, t: State<R>, i: nat)
    requires Inv(f, secrets, s, owner) && Return(s, t, i)
    ensures Inv(f, secrets, t, owner)
  {
    assert CallOk(f, secrets, s.calls[i]);
    assert s.used && i == owner;
  }

  lemma InvNext<R(!new)>(f: (seq<bytes>, bytes) -> R, secrets: seq<bytes>, s: State<R>, owner: int, t: State<R>)
    returns (owner': int)
    requires Inv(f, secrets, s, owner) && Next(f, s, t)
    ensures Inv(f, secrets, t, owner') && (s.used ==> owner' == owner)
  {
    owner' := owner;
    if NewCall(s, t) {
      assert |t.calls| == |s.calls| + 1 && t.calls[..|s.calls|] == s.calls;
    } else {
      var i: nat :| CallStep(f, s, t, i);
      if Claim(s, t, i) {
        owner' := InvClaim(f, secrets, s, owner, t, i);
      } else if Read(s, t, i) {
        InvRead(f, secrets, s, owner, t, i);
      } else if Compute(f, s, t, i) {
        InvCompute(f, secrets, s, owner, t, i);
      } else if ClearNext(s, t, i) {
        InvClear(f, secrets, s, owner, t, i);
      } else {
        InvReturn(f, secrets, s, owner, t, i);
      }
    }
  }

  lemma {:induction false} InvRun<R(!new)>(f: (seq<bytes>, bytes) -> R, secrets: seq<bytes>, run: seq<State<R>>, n: nat)
    returns (owner: int)
    requires IsRun(f, secrets, run) && n < |run|
    ensures Inv(f, secrets, run[n], owner)
  {
    if n == 0 {
      InvInitial(f, secrets);
      owner := -1;
    } else {
      var before := InvRun(f, secrets, run, n - 1);
      assert Next(f, run[n - 1], run[n - 1 + 1]);
      owner := InvNext(f, secrets, run[n - 1], before, run[n]);
    }
  }

  // ------------------------------------------------------- what every run guarantees

  /** Once any call has run its claim, exactly one call obtained the core. */
  lemma ExactlyOneOwner<R(!new)>(f: (seq<bytes>, bytes) -> R, secrets: seq<bytes>, run: seq<State<R>>, n: nat)
    requires IsRun(f, secrets, run) && n < |run|
    ensures var calls := run[n].calls;
            (exists i :: 0 <= i < |calls| && !calls[i].Pending?) ==>
              exists i :: 0 <= i < |calls| && Owner(calls[i]) && forall j :: 0 <= j < |calls| && Owner(calls[j]) ==> j == i
  {
    var owner := InvRun(f, secrets, run, n);
  }

  /** A returned call got the result of the untouched secrets if it was the owner, and otherwise the
      lost-claim answer of its kind. */
  lemma OutcomesAreRight<R(!new)>(f: (seq<bytes>, bytes) -> R, secrets: seq<bytes>, run: seq<State<R>>, n: nat, i: nat)
    requires IsRun(f, secrets, run) && n < |run| && i < |run[n].calls| && run[n].calls[i].Done?
    ensures var c := run[n].calls[i];
            c.outcome == if c.owned then OwnerOutcome(f, secrets, c.kind) else if c.kind.Finish? then ErrUsed else Nil
  {
    var owner := InvRun(f, secrets, run, n);
    assert CallOk(f, secrets, run[n].calls[i]);
  }

  /** At most one call ever returns a finish result, so at most one session. */
  lemma AtMostOneResult<R(!new)>(f: (seq<bytes>, bytes) -> R, secrets: seq<bytes>, run: seq<State<R>>, n: nat, i: nat, j: nat)
    requires IsRun(f, secrets, run) && n < |run| && i < |run[n].calls| && j < |run[n].calls|
    requires run[n].calls[i].Done? && run[n].calls[i].outcome.Finished?
    requires run[n].calls[j].Done? && run[n].calls[j].outcome.Finished?
    ensures i == j
  {
    var owner := InvRun(f, secrets, run, n);
    assert CallOk(f, secrets, run[n].calls[i]) && CallOk(f, secrets, run[n].calls[j]);
  }

  /** When the owner has returned, every secret field is cleared. */
  lemma ClearedAfterUse<R(!new)>(f: (seq<bytes>, bytes) -> R, secrets: seq<bytes>, run: seq<State<R>>, n: nat, i: nat)
    requires IsRun(f, secrets, run) && n < |run| && i < |run[n].calls|
    requires run[n].calls[i].Done? && run[n].calls[i].owned
    ensures forall j :: 0 <= j < |run[n].fields| ==> run[n].fields[j].None?
  {
    var owner := InvRun(f, secrets, run, n);
  }

  /** Only the owner touches the fields: a step that changes them is a step of the one owner, and the
      owner's reads see the constructed secrets. */
  lemma OnlyOwnerTouches<R(!new)>(f: (seq<bytes>, bytes) -> R, secrets: seq<bytes>, run: seq<State<R>>, n: nat, i: nat)
    requires IsRun(f, secrets, run) && n + 1 < |run| && CallStep(f, run[n], run[n + 1], i)
    requires run[n].fields != run[n + 1].fields || run[n].calls[i].Reading?
    ensures Owner(run[n].calls[i]) && forall j :: 0 <= j < |run[n].calls| && Owner(run[n].calls[j]) ==> j == i
    ensures run[n].calls[i].Reading? ==> ClearedPrefix(secrets, run[n].fields, 0)
  {
    var owner := InvRun(f, secrets, run, n);
    assert Owner(run[n].calls[i]);
  }

  lemma {:induction false} UsedStays<R(!new)>(f: (seq<bytes>, bytes) -> R, secrets: seq<bytes>, run: seq<State<R>>, n: nat, m: nat)
    requires IsRun(f, secrets, run) && n <= m < |run| && run[n].used
    ensures run[m].used
  {
    if n < m {
      UsedStays(f, secrets, run, n, m - 1);
      assert Next(f, run[m - 1], run[m - 1 + 1]);
    }
  }

  /** After any call has run its claim, every later claim loses and returns at once. */
  lemma LaterClaimsLose<R(!new)>(f: (seq<bytes>, bytes) -> R, secrets: seq<bytes>, run: seq<State<R>>, n: nat, j: nat, m: nat, i: nat)
    requires IsRun(f, secrets, run) && n <= m && m + 1 < |run|
    requires j < |run[n].calls| && !run[n].calls[j].Pending?
    requires Claim(run[m], run[m + 1], i)
    ensures run[m + 1].calls[i] == Done(run[m].calls[i].kind, false, if run[m].calls[i].kind.Finish? then ErrUsed else Nil)
  {
    var owner := InvRun(f, secrets, run, n);
    UsedStays(f, secrets, run, n, m);
  }
}
