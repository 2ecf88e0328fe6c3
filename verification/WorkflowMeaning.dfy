/** What the workflow checker guarantees: an accepted workflow is the policy, up to the pinned commits
    and the blank lines, indentation and comments of scripts. */
module WorkflowMeaning {
  import opened Bytes
  import opened Strings
  import opened Yaml
  import opened ReleasePolicy

  // ------------------------------------------------------- lists compared as sets

  ghost predicate NoRepeats(s: seq<string>) {
    forall i, j :: 0 <= i < j < |s| ==> s[i] != s[j]
  }

  ghost function Elements(s: seq<string>): set<string> {
    set x | x in s
  }

  lemma {:induction false} ElementCount(s: seq<string>)
    ensures |Elements(s)| <= |s|
    ensures |Elements(s)| == |s| <==> NoRepeats(s)
  {
    if s != [] {
      var n := |s| - 1;
      var init := s[..n];
      ElementCount(init);
      assert s == init + [s[n]];
      assert Elements(s) == Elements(init) + {s[n]};
      if s[n] in init {
        var i :| 0 <= i < n && init[i] == s[n];
        assert s[i] == s[n];
        assert Elements(s) == Elements(init);
      } else {
        assert |Elements(s)| == |Elements(init)| + 1;
        if NoRepeats(init) {
          forall i, j | 0 <= i < j < |s| ensures s[i] != s[j] {
            if j < n { assert init[i] != init[j]; } else { assert init[i] in init; }
          }
        }
        if NoRepeats(s) {
          forall i, j | 0 <= i < j < n ensures init[i] != init[j] { assert s[i] != s[j]; }
        }
      }
    }
  }

  lemma {:induction false} CountOnce(s: seq<string>, x: string)
    requires NoRepeats(s)
    ensures multiset(s)[x] == if x in s then 1 else 0
  {
    if s != [] {
      var n := |s| - 1;
      assert NoRepeats(s[..n]) by {
        forall i, j | 0 <= i < j < n ensures s[..n][i] != s[..n][j] { assert s[i] != s[j]; }
      }
      CountOnce(s[..n], x);
      assert s == s[..n] + [s[n]];
    }
  }

  /** Against a list without repeats, sameStringSet accepts exactly the permutations. */
  lemma SameSetIsPermutation(got: seq<string>, want: seq<string>)
    requires NoRepeats(want)
    ensures SameSet(got, want) <==> multiset(got) == multiset(want)
    ensures SameSet(got, want) ==> NoRepeats(got)
  {
    if SameSet(got, want) {
      assert Elements(got) == Elements(want);
      ElementCount(got);
      ElementCount(want);
      forall x ensures multiset(got)[x] == multiset(want)[x] {
        CountOnce(got, x);
        CountOnce(want, x);
      }
    }
    if multiset(got) == multiset(want) {
      assert |got| == |multiset(got)| == |multiset(want)| == |want|;
      forall x ensures x in got <==> x in want {
        assert x in multiset(got) <==> x in got;
        assert x in multiset(want) <==> x in want;
      }
    }
  }

  /** A wanted list with a repeat beside another element lets a different list through. */
  lemma RepeatsAreNotCompared(want: seq<string>, i: nat, j: nat, k: nat) returns (got: seq<string>)
    requires i < j < |want| && want[i] == want[j] && k < |want| && want[k] != want[i]
    ensures SameSet(got, want) && multiset(got) != multiset(want)
  {
    got := want[j := want[k]];
    forall x ensures x in got <==> x in want {
      if x in want {
        var l :| 0 <= l < |want| && want[l] == x;
        assert if l == j then got[i] == x else got[l] == x;
      }
    }
    assert multiset(got)[want[i]] == multiset(want)[want[i]] - 1;
  }

  /** sameStringSet compares a list with every other list correctly if and only if the wanted list has
      no repeats or holds one element only. */
  lemma SameSetExact(want: seq<string>)
    ensures (forall got :: SameSet(got, want) ==> multiset(got) == multiset(want)) <==>
            NoRepeats(want) || |Elements(want)| <= 1
  {
    if NoRepeats(want) {
      forall got | SameSet(got, want) ensures multiset(got) == multiset(want) { SameSetIsPermutation(got, want); }
    } else {
      var i, j :| 0 <= i < j < |want| && want[i] == want[j];
      if forall k :: 0 <= k < |want| ==> want[k] == want[i] {
        assert Elements(want) == {want[i]};
        forall got | SameSet(got, want) ensures multiset(got) == multiset(want) {
          forall k | 0 <= k < |got| ensures got[k] == want[k] { assert got[k] in got; }
          assert got == want;
        }
      } else {
        var k :| 0 <= k < |want| && want[k] != want[i];
        var got := RepeatsAreNotCompared(want, i, j, k);
        assert want[k] in Elements(want) - {want[i]};
        assert |Elements(want) - {want[i]}| == |Elements(want)| - 1;
      }
    }
  }

  // ------------------------------------------------------- scripts and pins

  lemma {:induction false} CutAtFirst(action: string, rest: string)
    requires '@' !in action
    ensures Cut(action + "@" + rest) == (action, Some(rest))
  {
    var uses := action + "@" + rest;
    if action == "" {
      assert uses[1..] == rest;
    } else {
      CutAtFirst(action[1..], rest);
      assert uses[1..] == action[1..] + "@" + rest;
      assert action == [action[0]] + action[1..];
    }
  }

  /** A reference that starts with the action and is pinned is the action at some commit, and nothing else. */
  lemma PinnedUses(uses: string, action: string)
    requires '@' !in action && action != ""
    ensures action + "@" <= uses && Pinned(uses) <==> exists sha :: IsSha(sha) && uses == action + "@" + sha
  {
    if action + "@" <= uses && Pinned(uses) {
      var rest := uses[|action| + 1..];
      assert uses == action + "@" + rest;
      CutAtFirst(action, rest);
    }
    if exists sha :: IsSha(sha) && uses == action + "@" + sha {
      var sha :| IsSha(sha) && uses == action + "@" + sha;
      CutAtFirst(action, sha);
    }
  }

  lemma {:induction false} KeptAll(lines: seq<string>)
    requires forall i :: 0 <= i < |lines| ==> KeptLine(lines[i])
    ensures Kept(lines) == lines
  {
    if lines != [] {
      KeptAll(lines[..|lines| - 1]);
      assert lines == lines[..|lines| - 1] + [lines[|lines| - 1]];
    }
  }

  lemma {:induction false} KeptFrom(lines: seq<string>, i: nat)
    requires i < |Kept(lines)|
    ensures KeptLine(Kept(lines)[i]) && Kept(lines)[i] in lines
  {
    var init := lines[..|lines| - 1];
    if i < |Kept(init)| { KeptFrom(init, i); }
  }

  /** The compared lines are a canonical form: written out one per line, they are compared as themselves. */
  lemma ScriptIsCanonical(run: string)
    requires Script(run) != []
    ensures Script(Join(Script(run), '\n')) == Script(run)
  {
    var parts := Split(run, '\n');
    var lines := Script(run);
    forall i | 0 <= i < |lines| ensures '\n' !in lines[i] && TrimSpace(lines[i]) == lines[i] && KeptLine(lines[i]) {
      KeptFrom(Trimmed(parts), i);
      var k :| 0 <= k < |parts| && Trimmed(parts)[k] == lines[i];
      PartsHaveNoSeparator(run, '\n', k);
      TrimTwice(parts[k]);
    }
    SplitJoin(lines, '\n');
    assert Trimmed(lines) == lines;
    KeptAll(lines);
  }

  lemma CutWithout(uses: string)
    requires '@' !in uses
    ensures Cut(uses) == (uses, None) && !Pinned(uses)
    decreases |uses|
  {
    if uses != "" {
      CutWithout(uses[1..]);
      assert uses == [uses[0]] + uses[1..];
    }
  }

  /** A pinned reference is a non-empty action without '@', an '@' and a commit. */
  lemma PinnedIs(uses: string)
    ensures Pinned(uses) <==> exists action, sha :: action != "" && '@' !in action && IsSha(sha) && uses == action + "@" + sha
  {
    if Pinned(uses) {
      CutParts(uses);
      var action, sha := Cut(uses).0, Cut(uses).1.value;
      assert action != "" && '@' !in action && IsSha(sha) && uses == action + "@" + sha;
    }
    if exists action, sha :: action != "" && '@' !in action && IsSha(sha) && uses == action + "@" + sha {
      var action, sha :| action != "" && '@' !in action && IsSha(sha) && uses == action + "@" + sha;
      CutAtFirst(action, sha);
    }
  }

  lemma {:induction false} CutParts(uses: string)
    requires Cut(uses).1.Some?
    ensures '@' !in Cut(uses).0 && uses == Cut(uses).0 + "@" + Cut(uses).1.value
    decreases |uses|
  {
    if uses[0] == '@' {
      assert uses == "" + "@" + uses[1..];
    } else {
      CutParts(uses[1..]);
      assert uses == [uses[0]] + uses[1..];
    }
  }

  lemma ShaDigits(s: string)
    ensures IsSha(s) <==> |s| == 40 && forall i :: 0 <= i < |s| ==> s[i] in "0123456789abcdef"
  {
  }

  lemma {:induction false} ContainsAt(s: string, part: string)
    ensures Contains(s, part) <==> exists before, after :: s == before + part + after
  {
    if Contains(s, part) {
      var before, after := FindPart(s, part);
      assert s == before + part + after;
    }
    if exists before, after :: s == before + part + after {
      var before, after :| s == before + part + after;
      HasPart(before, part, after);
    }
  }

  lemma {:induction false} FindPart(s: string, part: string) returns (before: string, after: string)
    requires Contains(s, part)
    ensures s == before + part + after
    decreases |s|
  {
    if part <= s {
      before, after := "", s[|part|..];
    } else {
      var b, a := FindPart(s[1..], part);
      before, after := [s[0]] + b, a;
      assert s == [s[0]] + s[1..] == [s[0]] + (b + part + a);
    }
  }

  lemma {:induction false} HasPart(before: string, part: string, after: string)
    ensures Contains(before + part + after, part)
    decreases |before|
  {
    var s := before + part + after;
    if before == "" {
      assert s[..|part|] == part;
    } else {
      HasPart(before[1..], part, after);
      assert s[1..] == before[1..] + part + after;
    }
  }

  lemma {:induction false} KeptConcat(a: seq<string>, b: seq<string>)
    ensures Kept(a + b) == Kept(a) + Kept(b)
    decreases |b|
  {
    if b == [] {
      assert a + b == a;
    } else {
      var init := b[..|b| - 1];
      KeptConcat(a, init);
      assert (a + b)[..|a + b| - 1] == a + init;
    }
  }

  /** The script of two lines or blocks in a row is the script of the first and then of the second. */
  lemma ScriptOfBlocks(a: string, b: string)
    requires '\n' !in a
    ensures Script(a + "\n" + b) == Script(a) + Script(b)
  {
    SplitAtSeparator(a, b, '\n');
    assert a + ['\n'] + b == a + "\n" + b;
    var rest := Split(b, '\n');
    assert Trimmed([a] + rest) == Trimmed([a]) + Trimmed(rest);
    KeptConcat(Trimmed([a]), Trimmed(rest));
  }

  /** A single line counts unless it is blank or a comment once trimmed. */
  lemma ScriptOfLine(a: string)
    requires '\n' !in a
    ensures Script(a) == if TrimSpace(a) == "" || TrimSpace(a)[0] == '#' then [] else [TrimSpace(a)]
  {
    SplitAtSeparator(a, "", '\n');
    assert Split(a, '\n') == [a] && Trimmed([a]) == [TrimSpace(a)];
    KeptOne(TrimSpace(a));
  }

  lemma KeptOne(line: string)
    ensures Kept([line]) == if line == "" || line[0] == '#' then [] else [line]
  {
    assert [line][..0] == [] && [line][|[line]| - 1] == line;
  }

  // ------------------------------------------------------- what a workflow says

  /** The keys that a step and a job may have. */
  lemma KnownKeys()
    ensures forall k :: k in STEP_KEYS <==>
              || k == "name" || k == "id" || k == "if" || k == "uses" || k == "run" || k == "with" || k == "env" || k == "shell"
              || k == "continue-on-error"
    ensures forall k :: k in JOB_KEYS <==>
              || k == "name" || k == "if" || k == "needs" || k == "runs-on" || k == "timeout-minutes" || k == "permissions"
              || k == "outputs" || k == "steps"
  {
  }

  ghost predicate Declares(n: Node, key: string, want: string) {
    Field(n, key) == if want == "" then None else Some(Scalar(want))
  }

  ghost predicate DeclaresTexts(n: Node, key: string, want: Option<Texts>) {
    if want.None? then Field(n, key).None? else Field(n, key).Some? && IsTextMap(Field(n, key).value, want.value)
  }

  ghost predicate DeclaresUses(n: Node, prefix: string) {
    if prefix == "" then Field(n, "uses").None?
    else exists sha :: IsSha(sha) && Field(n, "uses") == Some(Scalar(prefix + sha))
  }

  ghost predicate DeclaresRun(n: Node, lines: Option<seq<string>>) {
    if lines.None? then Field(n, "run").None?
    else exists run :: Field(n, "run") == Some(Scalar(run)) && Script(run) == lines.value && !Contains(run, "${{")
  }

  /** The step is exactly the policy's, up to the commit of its action and its script's layout. */
  ghost predicate StepIs(n: Node, p: StepPolicy) {
    && n.Mapping? && (forall k :: k in Meaning(n.pairs) ==> k in STEP_KEYS)
    && Declares(n, "name", p.name) && Declares(n, "id", p.id) && Declares(n, "if", p.ifCond)
    && Declares(n, "shell", p.shell) && Declares(n, "continue-on-error", p.continueOnError)
    && DeclaresUses(n, p.usesPrefix) && DeclaresRun(n, p.runLines)
    && DeclaresTexts(n, "with", p.withArgs) && DeclaresTexts(n, "env", p.env)
  }

  ghost predicate FullTexts(m: Texts) {
    forall k :: k in m ==> m[k] != ""
  }

  ghost predicate FullOptional(m: Option<Texts>) {
    m.Some? ==> FullTexts(m.value)
  }

  /** A step policy as policy.go writes them: the action is followed by '@', and the identity is the
      name or the action. */
  ghost predicate GoodStep(p: StepPolicy) {
    && FullOptional(p.withArgs) && FullOptional(p.env)
    && (p.usesPrefix != "" ==>
          var action := p.usesPrefix[..|p.usesPrefix| - 1];
          p.usesPrefix == action + "@" && action != "" && '@' !in action)
    && p.identity == if p.name != "" then p.name
                     else if p.usesPrefix != "" then "uses:" + p.usesPrefix[..|p.usesPrefix| - 1]
                     else "unnamed"
  }

  lemma TextsAreExact(n: Option<Node>, want: Texts)
    requires FullTexts(want) && (n.Some? ==> Plain(n.value))
    ensures ExactTexts(n, want) <==> n.Some? && IsTextMap(n.value, want)
  {
    if n.Some? && n.value.Mapping? {
      forall k: string
        ensures Lookup(n, k) == Field(n.value, k) && (k in Keys(n) <==> k in Meaning(n.value.pairs))
        ensures Lookup(n, k).Some? <==> k in Keys(n)
      {
        LookupIsField(n.value, k);
        KeysAreMeaning(n.value, k);
      }
      if ExactTexts(n, want) {
        forall k | k in want ensures k in Meaning(n.value.pairs) && Meaning(n.value.pairs)[k] == Scalar(want[k]) {
          assert ScalarIs(Lookup(n, k), want[k]);
        }
        assert Meaning(n.value.pairs).Keys == want.Keys;
      }
    }
  }

  lemma UsesAreExact(n: Node, p: StepPolicy)
    requires Plain(n) && GoodStep(p)
    ensures UsesIs(Lookup(Some(n), "uses"), p.usesPrefix) && StepPinned(n) <==> DeclaresUses(n, p.usesPrefix)
  {
    LookupIsField(n, "uses");
    var f := Field(n, "uses");
    if p.usesPrefix != "" {
      var action := p.usesPrefix[..|p.usesPrefix| - 1];
      if f.Some? && f.value.Scalar? {
        PinnedUses(f.value.value, action);
      }
    }
  }

  lemma RunIsExact(n: Node, lines: Option<seq<string>>)
    requires Plain(n)
    ensures RunIs(Lookup(Some(n), "run"), lines) && StepHasNoExpression(n) <==> DeclaresRun(n, lines)
  {
    LookupIsField(n, "run");
  }

  lemma OptionalTextsAreExact(n: Node, key: string, want: Option<Texts>)
    requires Plain(n) && FullOptional(want)
    ensures OptionalTexts(Lookup(Some(n), key), want) <==> DeclaresTexts(n, key, want)
  {
    LookupIsField(n, key);
    if want.Some? { TextsAreExact(Lookup(Some(n), key), want.value); }
  }

  lemma OptionalScalarIsExact(n: Node, key: string, want: string)
    requires Plain(n)
    ensures OptionalScalarIs(Lookup(Some(n), key), want) <==> Declares(n, key, want)
    ensures want != "" ==> (ScalarIs(Lookup(Some(n), key), want) <==> Declares(n, key, want))
  {
    LookupIsField(n, key);
  }

  lemma OnlyKeysAreExact(n: Node, want: seq<string>)
    ensures OnlyKeys(Some(n), want) <==> n.Mapping? && forall k :: k in Meaning(n.pairs) ==> k in want
  {
    if n.Mapping? {
      forall k: string ensures k in Keys(Some(n)) <==> k in Meaning(n.pairs) {
        KeysAreMeaning(n, k);
      }
    }
  }

  /** The checks on one step accept exactly the policy's step. */
  lemma StepExact(n: Node, p: StepPolicy)
    requires Plain(n) && GoodStep(p)
    ensures StepAccepted(n, p) && StepPinned(n) && StepHasNoExpression(n) <==> StepIs(n, p)
  {
    OnlyKeysAreExact(n, STEP_KEYS);
    OptionalScalarIsExact(n, "name", p.name);
    OptionalScalarIsExact(n, "id", p.id);
    OptionalScalarIsExact(n, "if", p.ifCond);
    OptionalScalarIsExact(n, "shell", p.shell);
    OptionalScalarIsExact(n, "continue-on-error", p.continueOnError);
    UsesAreExact(n, p);
    RunIsExact(n, p.runLines);
    OptionalTextsAreExact(n, "with", p.withArgs);
    OptionalTextsAreExact(n, "env", p.env);
  }

  /** A step that is the policy's has the identity that the policy lists. */
  lemma StepIdentityIs(n: Node, p: StepPolicy)
    requires Plain(n) && GoodStep(p) && StepIs(n, p)
    ensures StepIdentity(n) == p.identity
  {
    LookupIsField(n, "name");
    LookupIsField(n, "uses");
    if p.usesPrefix != "" {
      var sha :| IsSha(sha) && Field(n, "uses") == Some(Scalar(p.usesPrefix + sha));
      CutAtFirst(p.usesPrefix[..|p.usesPrefix| - 1], sha);
    }
  }

  // ------------------------------------------------------- jobs

  /** One needed job as a scalar, or a sequence of scalars in any order. */
  ghost predicate NeedsAre(n: Option<Node>, needs: Option<seq<string>>) {
    if needs.None? then n.None?
    else
      && n.Some?
      && match n.value
         case Scalar(text) => needs.value == [text]
         case Sequence(items) => (forall i :: 0 <= i < |items| ==> items[i].Scalar?) && multiset(SeqStrings(n)) == multiset(needs.value)
         case _ => false
  }

  ghost predicate StepsAre(n: Option<Node>, p: seq<StepPolicy>) {
    && n.Some? && n.value.Sequence? && |n.value.items| == |p|
    && forall i :: 0 <= i < |p| ==> StepIs(n.value.items[i], p[i])
  }

  /** The job is exactly the policy's, with its steps in order. */
  ghost predicate JobIs(n: Node, p: JobPolicy) {
    && n.Mapping? && (forall k :: k in Meaning(n.pairs) ==> k in JOB_KEYS)
    && Declares(n, "name", p.displayName) && Declares(n, "runs-on", p.runsOn)
    && Declares(n, "timeout-minutes", p.timeoutMinutes) && Declares(n, "if", p.ifCond)
    && NeedsAre(Field(n, "needs"), p.needs)
    && DeclaresTexts(n, "permissions", p.permissions) && DeclaresTexts(n, "outputs", p.outputs)
    && StepsAre(Field(n, "steps"), p.steps)
  }

  /** A list of distinct texts, none of them empty. */
  ghost predicate FullList(s: seq<string>) {
    |s| > 0 && NoRepeats(s) && "" !in s
  }

  ghost predicate GoodJob(p: JobPolicy) {
    && p.displayName != "" && p.runsOn != "" && p.timeoutMinutes != "" && p.ifCond != ""
    && (p.needs.Some? ==> FullList(p.needs.value))
    && FullOptional(p.permissions) && FullOptional(p.outputs)
    && |p.steps| > 0 && forall i :: 0 <= i < |p.steps| ==> GoodStep(p.steps[i])
  }

  /** Texts without an empty one come from scalars. */
  lemma SeqStringsAreScalars(n: Node, want: seq<string>)
    requires n.Sequence? && FullList(want) && SameSet(SeqStrings(Some(n)), want)
    ensures forall i :: 0 <= i < |n.items| ==> n.items[i].Scalar?
  {
    forall i | 0 <= i < |n.items| ensures n.items[i].Scalar? {
      assert SeqStrings(Some(n))[i] in want;
    }
  }

  lemma NeedsAreExact(n: Node, needs: Option<seq<string>>)
    requires Plain(n) && (needs.Some? ==> FullList(needs.value))
    ensures NeedsAccepted(Some(n), needs) <==> NeedsAre(Field(n, "needs"), needs)
  {
    LookupIsField(n, "needs");
    var f := Field(n, "needs");
    if needs.Some? {
      SameSetIsPermutation(Needs(Some(n)), needs.value);
      if f.Some? && f.value.Sequence? && SameSet(SeqStrings(f), needs.value) {
        SeqStringsAreScalars(f.value, needs.value);
      }
      if f.Some? && f.value.Scalar? && SameSet([f.value.value], needs.value) {
        assert needs.value[0] in [f.value.value];
        assert needs.value == [f.value.value];
      }
    }
  }

  lemma StepsAreExact(n: Node, p: seq<StepPolicy>)
    requires Plain(n) && |p| > 0 && forall i :: 0 <= i < |p| ==> GoodStep(p[i])
    ensures var steps := Steps(Some(n));
            StepsAccepted(steps, p) && StepsMeet(steps, StepPinned) && StepsMeet(steps, StepHasNoExpression)
            <==> StepsAre(Field(n, "steps"), p)
  {
    LookupIsField(n, "steps");
    var steps := Steps(Some(n));
    forall i | 0 <= i < |steps| ensures Plain(steps[i]) {
      assert Field(n, "steps").value.items[i] == steps[i];
    }
    if StepsAccepted(steps, p) && StepsMeet(steps, StepPinned) && StepsMeet(steps, StepHasNoExpression) {
      assert |steps| == |Identities(steps)| == |WantedIdentities(p)| == |p|;
      forall i | 0 <= i < |p| ensures StepIs(steps[i], p[i]) { StepExact(steps[i], p[i]); }
    }
    if StepsAre(Field(n, "steps"), p) {
      forall i | 0 <= i < |p|
        ensures StepAccepted(steps[i], p[i]) && StepPinned(steps[i]) && StepHasNoExpression(steps[i])
        ensures Identities(steps)[i] == WantedIdentities(p)[i]
      {
        StepExact(steps[i], p[i]);
        StepIdentityIs(steps[i], p[i]);
      }
      assert Identities(steps) == WantedIdentities(p);
    }
  }

  ghost predicate StepsClean(job: Node) {
    StepsMeet(Steps(Some(job)), StepPinned) && StepsMeet(Steps(Some(job)), StepHasNoExpression)
  }

  /** The checks on one job accept exactly the policy's job. */
  lemma JobExact(n: Node, p: JobPolicy)
    requires Plain(n) && GoodJob(p)
    ensures JobAccepted(Some(n), p) && StepsClean(n) <==> JobIs(n, p)
  {
    OnlyKeysAreExact(n, JOB_KEYS);
    OptionalScalarIsExact(n, "name", p.displayName);
    OptionalScalarIsExact(n, "runs-on", p.runsOn);
    OptionalScalarIsExact(n, "timeout-minutes", p.timeoutMinutes);
    OptionalScalarIsExact(n, "if", p.ifCond);
    NeedsAreExact(n, p.needs);
    OptionalTextsAreExact(n, "permissions", p.permissions);
    OptionalTextsAreExact(n, "outputs", p.outputs);
    StepsAreExact(n, p.steps);
  }

  /** The jobs are exactly the policy's: the same names, each with the policy's job. */
  ghost predicate JobsAre(jobs: Node, p: Policy) {
    && jobs.Mapping? && Meaning(jobs.pairs).Keys == Elements(JobNames(p))
    && forall i :: 0 <= i < |p.jobs| && p.jobs[i].name in Meaning(jobs.pairs) ==> JobIs(Meaning(jobs.pairs)[p.jobs[i].name], p.jobs[i])
  }

  ghost predicate JobChecks(p: Policy, jobs: Node) {
    && JobSetAccepted(p, jobs) && JobsAccepted(p, jobs)
    && EveryStep(jobs, StepPinned) && CheckoutsAccepted(p, jobs) && EveryStep(jobs, StepHasNoExpression)
  }

  lemma JobSetIsExact(p: Policy, jobs: Node)
    requires |p.jobs| > 0
    ensures JobSetAccepted(p, jobs) <==> jobs.Mapping? && Meaning(jobs.pairs).Keys == Elements(JobNames(p))
  {
    assert JobNames(p)[0] in JobNames(p);
    if jobs.Mapping? {
      forall k: string
        ensures (k in Keys(Some(jobs)) <==> k in Meaning(jobs.pairs)) && (k in Keys(Some(jobs)) <==> Lookup(Some(jobs), k).Some?)
      {
        KeysAreMeaning(jobs, k);
      }
    }
  }

  /** One named job: what the checks demand of it is that it is the policy's. */
  lemma NamedJob(p: Policy, jobs: Node, i: nat)
    requires Plain(jobs) && i < |p.jobs| && GoodJob(p.jobs[i]) && jobs.Mapping? && p.jobs[i].name in Meaning(jobs.pairs)
    ensures var job := Meaning(jobs.pairs)[p.jobs[i].name];
            && Lookup(Some(jobs), p.jobs[i].name) == Some(job) && p.jobs[i].name in Keys(Some(jobs))
            && (JobAccepted(Some(job), p.jobs[i]) && StepsClean(job) <==> JobIs(job, p.jobs[i]))
  {
    LookupIsField(jobs, p.jobs[i].name);
    KeysAreMeaning(jobs, p.jobs[i].name);
    JobExact(Meaning(jobs.pairs)[p.jobs[i].name], p.jobs[i]);
  }

  lemma JobsSound(p: Policy, jobs: Node)
    requires Plain(jobs) && |p.jobs| > 0 && (forall i :: 0 <= i < |p.jobs| ==> GoodJob(p.jobs[i])) && JobChecks(p, jobs)
    ensures JobsAre(jobs, p)
  {
    JobSetIsExact(p, jobs);
    forall i | 0 <= i < |p.jobs| && p.jobs[i].name in Meaning(jobs.pairs)
      ensures JobIs(Meaning(jobs.pairs)[p.jobs[i].name], p.jobs[i])
    {
      NamedJob(p, jobs, i);
      var name := p.jobs[i].name;
      assert Lookup(Some(jobs), name).Some?;
      assert StepsMeet(Steps(Lookup(Some(jobs), name)), StepPinned) && StepsMeet(Steps(Lookup(Some(jobs), name)), StepHasNoExpression);
    }
  }

  lemma JobsComplete(p: Policy, jobs: Node)
    requires Plain(jobs) && |p.jobs| > 0 && (forall i :: 0 <= i < |p.jobs| ==> GoodJob(p.jobs[i])) && JobsAre(jobs, p)
    ensures JobChecks(p, jobs)
  {
    JobSetIsExact(p, jobs);
    forall i | 0 <= i < |p.jobs|
      ensures var job := Lookup(Some(jobs), p.jobs[i].name); job.Some? && JobAccepted(job, p.jobs[i]) && StepsClean(job.value)
    {
      assert JobNames(p)[i] in JobNames(p);
      NamedJob(p, jobs, i);
    }
    forall name | name in Keys(Some(jobs))
      ensures name in JobNames(p) && Lookup(Some(jobs), name).Some? && StepsClean(Lookup(Some(jobs), name).value)
    {
      KeysAreMeaning(jobs, name);
      var i :| 0 <= i < |p.jobs| && JobNames(p)[i] == name;
      assert p.jobs[i].name == name;
    }
  }

  // ------------------------------------------------------- the workflow

  ghost predicate KeysAre(n: Node, want: seq<string>) {
    n.Mapping? && Meaning(n.pairs).Keys == Elements(want)
  }

  lemma KeySetIsExact(n: Node, want: seq<string>)
    requires Plain(n) && n.Mapping? && NoRepeats(want)
    ensures SameSet(Keys(Some(n)), want) <==> KeysAre(n, want)
  {
    var keys := Keys(Some(n));
    forall k: string ensures k in keys <==> k in Meaning(n.pairs) { KeysAreMeaning(n, k); }
    assert NoRepeats(keys) by {
      forall i, j | 0 <= i < j < |keys| ensures keys[i] != keys[j] {
        assert n.pairs[i].key.value != n.pairs[j].key.value;
      }
    }
    ElementCount(keys);
    ElementCount(want);
    if KeysAre(n, want) {
      assert Elements(keys) == Elements(want);
      forall x ensures x in keys <==> x in want { assert x in Elements(keys) <==> x in Elements(want); }
    }
    if SameSet(keys, want) {
      assert Meaning(n.pairs).Keys == Elements(want);
    }
  }

  ghost predicate TagsAre(n: Option<Node>, want: seq<string>) {
    && n.Some? && n.value.Sequence? && (forall i :: 0 <= i < |n.value.items| ==> n.value.items[i].Scalar?)
    && multiset(SeqStrings(n)) == multiset(want)
  }

  ghost predicate PushIs(on: Node, p: Policy) {
    var push := Field(on, "push");
    push.Some? && KeysAre(push.value, p.pushKeys) && TagsAre(Field(push.value, "tags"), p.pushTags)
  }

  ghost predicate TriggersAre(root: Node, p: Policy) {
    var on := Field(root, "on");
    on.Some? && KeysAre(on.value, p.triggerKeys) && PushIs(on.value, p) && Field(on.value, "workflow_dispatch").Some?
  }

  ghost predicate HeadIs(root: Node, p: Policy) {
    && KeysAre(root, p.rootKeys) && Declares(root, "name", p.workflowName)
    && DeclaresTexts(root, "env", Some(p.env)) && DeclaresTexts(root, "concurrency", Some(p.concurrency))
  }

  /** A policy as policy.go writes it: nothing expected is empty and no list repeats an element. */
  ghost predicate GoodPolicy(p: Policy) {
    && p.workflowName != "" && NoRepeats(p.rootKeys) && FullTexts(p.env) && FullTexts(p.concurrency)
    && NoRepeats(p.triggerKeys) && NoRepeats(p.pushKeys) && FullList(p.pushTags)
    && p.topPermission.Keys == {"contents"} && p.topPermission["contents"] != ""
    && |p.jobs| > 0 && forall i :: 0 <= i < |p.jobs| ==> GoodJob(p.jobs[i])
  }

  /** The workflow is exactly the policy. */
  ghost predicate WorkflowIs(root: Node, p: Policy) {
    && HeadIs(root, p) && TriggersAre(root, p) && DeclaresTexts(root, "permissions", Some(p.topPermission))
    && Field(root, "jobs").Some? && JobsAre(Field(root, "jobs").value, p)
  }

  lemma HeadExact(root: Node, p: Policy)
    requires Plain(root) && GoodPolicy(p)
    ensures RootAccepted(p, root) <==> HeadIs(root, p)
  {
    if root.Mapping? {
      KeySetIsExact(root, p.rootKeys);
      OptionalScalarIsExact(root, "name", p.workflowName);
      OptionalTextsAreExact(root, "env", Some(p.env));
      OptionalTextsAreExact(root, "concurrency", Some(p.concurrency));
    }
  }

  lemma PushExact(on: Node, p: Policy)
    requires Plain(on) && GoodPolicy(p)
    ensures var push := Lookup(Some(on), "push");
            push.Some? && SameSet(Keys(push), p.pushKeys) && SameSet(SeqStrings(Lookup(push, "tags")), p.pushTags)
            <==> PushIs(on, p)
  {
    LookupIsField(on, "push");
    var push := Lookup(Some(on), "push");
    if push.Some? && push.value.Mapping? {
      KeySetIsExact(push.value, p.pushKeys);
      LookupIsField(push.value, "tags");
      var tags := Lookup(push, "tags");
      SameSetIsPermutation(SeqStrings(tags), p.pushTags);
      if tags.Some? && tags.value.Sequence? && SameSet(SeqStrings(tags), p.pushTags) {
        SeqStringsAreScalars(tags.value, p.pushTags);
      }
    }
  }

  lemma TriggersExact(root: Node, p: Policy)
    requires Plain(root) && GoodPolicy(p)
    ensures TriggersAccepted(p, root) <==> TriggersAre(root, p)
  {
    LookupIsField(root, "on");
    var on := Lookup(Some(root), "on");
    if on.Some? {
      PushExact(on.value, p);
      LookupIsField(on.value, "workflow_dispatch");
      if on.value.Mapping? { KeySetIsExact(on.value, p.triggerKeys); }
    }
  }

  lemma PermissionsExact(root: Node, p: Policy)
    requires Plain(root) && GoodPolicy(p)
    ensures TopPermissionsAccepted(p, root) <==> DeclaresTexts(root, "permissions", Some(p.topPermission))
  {
    LookupIsField(root, "permissions");
    assert FullTexts(p.topPermission);
    TextsAreExact(Lookup(Some(root), "permissions"), p.topPermission);
  }

  /** The checker accepts a scalar-keyed workflow exactly when no mapping in it repeats a key and it is
      the policy: the same jobs, each with the same steps in the same order. */
  lemma AcceptedIsPolicy(root: Node, p: Policy)
    requires ScalarKeyed(root) && GoodPolicy(p) && CatalogueSound(p)
    ensures Accepted(p, root) <==> NoDuplicates(root) && WorkflowIs(root, p)
  {
    if NoDuplicates(root) {
      HeadExact(root, p);
      TriggersExact(root, p);
      PermissionsExact(root, p);
      LookupIsField(root, "jobs");
      if Lookup(Some(root), "jobs").Some? {
        var jobs := Lookup(Some(root), "jobs").value;
        if JobChecks(p, jobs) { JobsSound(p, jobs); }
        if JobsAre(jobs, p) { JobsComplete(p, jobs); }
      }
    }
  }

  /** The checkout check outside the policy's jobs: a step that uses actions/checkout has exactly the
      argument that keeps no credentials. */
  lemma CheckoutIs(step: Node)
    requires Plain(step)
    ensures CheckoutKeepsNoCredentials(step) <==>
            ((exists rest :: Field(step, "uses") == Some(Scalar("actions/checkout@" + rest))) ==>
               Field(step, "with").Some? && IsTextMap(Field(step, "with").value, map["persist-credentials" := "false"]))
  {
    LookupIsField(step, "uses");
    LookupIsField(step, "with");
    TextsAreExact(Lookup(Some(step), "with"), map["persist-credentials" := "false"]);
    var uses := ScalarText(Lookup(Some(step), "uses"));
    if "actions/checkout@" <= uses {
      assert uses == "actions/checkout@" + uses[17..];
      assert Field(step, "uses") == Some(Scalar("actions/checkout@" + uses[17..]));
    }
  }

  /** A workflow is accepted only under a policy whose catalogue is sound. */
  lemma AcceptedCatalogue(root: Node, p: Policy, i: nat, j: nat)
    requires Accepted(p, root)
    ensures i < j < |p.jobs| ==> p.jobs[i].concept != "" && p.jobs[j].concept != "" && p.jobs[i].concept != p.jobs[j].concept
    ensures i < j < |p.configs| ==> p.configs[i].path != "" && p.configs[i].sourceName != "" && p.configs[i].path != p.configs[j].path
  {
  }
}
