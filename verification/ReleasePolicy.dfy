/** The workflow checker of tools/releasepolicy/main.go against an arbitrary policy. Each method's
    contract says exactly when it adds no finding. */
module ReleasePolicy {
  import opened Bytes
  import opened Strings
  import opened Yaml

  // ------------------------------------------------------- policies

  type Texts = map<string, string>

  /** Empty strings and absent options stand for "not declared". */
  datatype StepPolicy = StepPolicy(
    identity: string, name: string, usesPrefix: string, runLines: Option<seq<string>>, withArgs: Option<Texts>,
    env: Option<Texts>, id: string, ifCond: string, shell: string, continueOnError: string)

  datatype JobPolicy = JobPolicy(
    concept: string, name: string, displayName: string, runsOn: string, timeoutMinutes: string, ifCond: string,
    needs: Option<seq<string>>, permissions: Option<Texts>, outputs: Option<Texts>, steps: seq<StepPolicy>)

  datatype ConfigPolicy = ConfigPolicy(path: string, sourceName: string)

  datatype Policy = Policy(
    workflowName: string, rootKeys: seq<string>, env: Texts, concurrency: Texts, triggerKeys: seq<string>,
    pushKeys: seq<string>, pushTags: seq<string>, topPermission: Texts, jobs: seq<JobPolicy>, configs: seq<ConfigPolicy>)

  // ------------------------------------------------------- queries

  /** sameStringSet: equal lengths and the same elements. */
  method SameStringSet(got: seq<string>, want: seq<string>) returns (same: bool)
    ensures same <==> SameSet(got, want)
  {
    if |got| != |want| {
      return false;
    }
    for i := 0 to |got|
      invariant forall k :: 0 <= k < i ==> got[k] in want
    {
      if got[i] !in want {
        return false;
      }
    }
    for i := 0 to |want|
      invariant forall k :: 0 <= k < i ==> want[k] in got
    {
      if want[i] !in got {
        return false;
      }
    }
    return true;
  }

  ghost predicate SameSet(got: seq<string>, want: seq<string>) {
    |got| == |want| && (forall x :: x in got <==> x in want)
  }

  /** scriptLines: trimmed lines without blanks and comments. */
  method ScriptLines(run: string) returns (out: seq<string>)
    ensures out == Script(run)
  {
    out := [];
    var parts := Split(run, '\n');
    ghost var trimmed := Trimmed(parts);
    for i := 0 to |parts|
      invariant out == Kept(trimmed[..i])
    {
      assert trimmed[..i + 1][..i] == trimmed[..i];
      var line := TrimSpace(parts[i]);
      assert line == trimmed[i];
      if line == "" || line[0] == '#' {
        continue;
      }
      out := out + [line];
    }
    assert trimmed[..|parts|] == trimmed;
  }

  function Trimmed(lines: seq<string>): seq<string> {
    seq(|lines|, i requires 0 <= i < |lines| => TrimSpace(lines[i]))
  }

  predicate KeptLine(line: string) {
    line != "" && line[0] != '#'
  }

  function Kept(lines: seq<string>): seq<string> {
    if lines == [] then []
    else
      var line := lines[|lines| - 1];
      Kept(lines[..|lines| - 1]) + if KeptLine(line) then [line] else []
  }

  function Script(run: string): seq<string> {
    Kept(Trimmed(Split(run, '\n')))
  }

  /** strings.Cut at the first '@': the part before it, and the part after it if there is one. */
  function Cut(uses: string): (string, Option<string>) {
    if uses == "" then ("", None)
    else if uses[0] == '@' then ("", Some(uses[1..]))
    else var (a, v) := Cut(uses[1..]); ([uses[0]] + a, v)
  }

  predicate IsSha(s: string) {
    |s| == 40 && forall i :: 0 <= i < 40 ==> '0' <= s[i] <= '9' || 'a' <= s[i] <= 'f'
  }

  /** An action reference with a 40-character commit. */
  predicate Pinned(uses: string) {
    var (action, version) := Cut(uses);
    version.Some? && action != "" && IsSha(version.value)
  }

  function Steps(job: Option<Node>): seq<Node> {
    var n := Lookup(job, "steps");
    if n.Some? && n.value.Sequence? then n.value.items else []
  }

  function StepIdentity(step: Node): string {
    var name := ScalarText(Lookup(Some(step), "name"));
    var uses := ScalarText(Lookup(Some(step), "uses"));
    if name != "" then name else if uses != "" then "uses:" + Cut(uses).0 else "unnamed"
  }

  function Needs(job: Option<Node>): seq<string> {
    var n := Lookup(job, "needs");
    if n.Some? && n.value.Scalar? then [n.value.value] else SeqStrings(n)
  }

  function JobNames(p: Policy): seq<string> {
    seq(|p.jobs|, i requires 0 <= i < |p.jobs| => p.jobs[i].name)
  }

  // ------------------------------------------------------- what each check demands

  /** An empty expectation is also met by an absent value. */
  predicate ScalarIs(n: Option<Node>, want: string) {
    n == Some(Scalar(want)) || (n.None? && want == "")
  }

  predicate OptionalScalarIs(n: Option<Node>, want: string) {
    if want == "" then n.None? else n == Some(Scalar(want))
  }

  predicate ExactTexts(n: Option<Node>, want: Texts) {
    && n.Some? && n.value.Mapping?
    && (forall k :: k in want ==> ScalarIs(Lookup(n, k), want[k]))
    && (forall k :: k in Keys(n) ==> k in want)
  }

  predicate OptionalTexts(n: Option<Node>, want: Option<Texts>) {
    if want.None? then n.None? else ExactTexts(n, want.value)
  }

  predicate OnlyKeys(n: Option<Node>, want: seq<string>) {
    n.Some? && n.value.Mapping? && forall k :: k in Keys(n) ==> k in want
  }

  const STEP_KEYS := ["name", "id", "if", "uses", "run", "with", "env", "shell", "continue-on-error"]
  const JOB_KEYS := ["name", "if", "needs", "runs-on", "timeout-minutes", "permissions", "outputs", "steps"]

  predicate UsesIs(n: Option<Node>, prefix: string) {
    if prefix == "" then n.None? else n.Some? && n.value.Scalar? && prefix <= n.value.value
  }

  predicate RunIs(n: Option<Node>, want: Option<seq<string>>) {
    if want.None? then n.None? else n.Some? && n.value.Scalar? && Script(n.value.value) == want.value
  }

  predicate StepAccepted(step: Node, p: StepPolicy) {
    var n := Some(step);
    && OnlyKeys(n, STEP_KEYS)
    && OptionalScalarIs(Lookup(n, "name"), p.name) && OptionalScalarIs(Lookup(n, "id"), p.id)
    && OptionalScalarIs(Lookup(n, "if"), p.ifCond) && OptionalScalarIs(Lookup(n, "shell"), p.shell)
    && OptionalScalarIs(Lookup(n, "continue-on-error"), p.continueOnError)
    && UsesIs(Lookup(n, "uses"), p.usesPrefix) && RunIs(Lookup(n, "run"), p.runLines)
    && OptionalTexts(Lookup(n, "with"), p.withArgs) && OptionalTexts(Lookup(n, "env"), p.env)
  }

  function Identities(steps: seq<Node>): (r: seq<string>)
    ensures |r| == |steps|
  {
    seq(|steps|, i requires 0 <= i < |steps| => StepIdentity(steps[i]))
  }

  /** stepIdentities */
  function WantedIdentities(p: seq<StepPolicy>): (r: seq<string>)
    ensures |r| == |p|
  {
    seq(|p|, i requires 0 <= i < |p| => p[i].identity)
  }

  ghost predicate StepsAccepted(steps: seq<Node>, p: seq<StepPolicy>) {
    && Identities(steps) == WantedIdentities(p)
    && (forall i :: 0 <= i < |p| ==> StepAccepted(steps[i], p[i]))
  }

  ghost predicate NeedsAccepted(job: Option<Node>, needs: Option<seq<string>>) {
    if needs.None? then Lookup(job, "needs").None? else SameSet(Needs(job), needs.value)
  }

  predicate EnvelopeAccepted(job: Option<Node>, p: JobPolicy) {
    && OnlyKeys(job, JOB_KEYS) && ScalarIs(Lookup(job, "name"), p.displayName)
    && ScalarIs(Lookup(job, "runs-on"), p.runsOn) && ScalarIs(Lookup(job, "timeout-minutes"), p.timeoutMinutes)
    && ScalarIs(Lookup(job, "if"), p.ifCond)
  }

  ghost predicate JobAccepted(job: Option<Node>, p: JobPolicy) {
    && EnvelopeAccepted(job, p) && NeedsAccepted(job, p.needs)
    && OptionalTexts(Lookup(job, "permissions"), p.permissions) && OptionalTexts(Lookup(job, "outputs"), p.outputs)
    && StepsAccepted(Steps(job), p.steps)
  }

  ghost predicate RootAccepted(p: Policy, root: Node) {
    && root.Mapping? && SameSet(Keys(Some(root)), p.rootKeys) && ScalarIs(Lookup(Some(root), "name"), p.workflowName)
    && ExactTexts(Lookup(Some(root), "env"), p.env) && ExactTexts(Lookup(Some(root), "concurrency"), p.concurrency)
  }

  ghost predicate TriggersAccepted(p: Policy, root: Node) {
    var on := Lookup(Some(root), "on");
    var push := Lookup(on, "push");
    && on.Some? && SameSet(Keys(on), p.triggerKeys) && push.Some? && SameSet(Keys(push), p.pushKeys)
    && SameSet(SeqStrings(Lookup(push, "tags")), p.pushTags) && Lookup(on, "workflow_dispatch").Some?
  }

  predicate TopPermissionsAccepted(p: Policy, root: Node) {
    var permissions := Lookup(Some(root), "permissions");
    && permissions.Some?
    && ScalarIs(Lookup(permissions, "contents"), if "contents" in p.topPermission then p.topPermission["contents"] else "")
    && forall k :: k in Keys(permissions) ==> k in p.topPermission
  }

  predicate JobSetAccepted(p: Policy, jobs: Node) {
    && (forall name :: name in JobNames(p) ==> Lookup(Some(jobs), name).Some?)
    && (forall name :: name in Keys(Some(jobs)) ==> name in JobNames(p))
  }

  ghost predicate JobsAccepted(p: Policy, jobs: Node) {
    forall i :: 0 <= i < |p.jobs| && Lookup(Some(jobs), p.jobs[i].name).Some? ==>
      JobAccepted(Lookup(Some(jobs), p.jobs[i].name), p.jobs[i])
  }

  predicate StepPinned(step: Node) {
    var uses := ScalarText(Lookup(Some(step), "uses"));
    uses == "" || Pinned(uses)
  }

  /** strings.Contains */
  predicate Contains(s: string, part: string) {
    part <= s || (s != "" && Contains(s[1..], part))
  }

  predicate StepHasNoExpression(step: Node) {
    !Contains(ScalarText(Lookup(Some(step), "run")), "${{")
  }

  predicate CheckoutKeepsNoCredentials(step: Node) {
    "actions/checkout@" <= ScalarText(Lookup(Some(step), "uses")) ==>
      ExactTexts(Lookup(Some(step), "with"), map["persist-credentials" := "false"])
  }

  ghost predicate StepsMeet(steps: seq<Node>, demand: Node -> bool) {
    forall i :: 0 <= i < |steps| ==> demand(steps[i])
  }

  /** Every step of every job satisfies a demand. */
  ghost predicate EveryStep(jobs: Node, demand: Node -> bool) {
    forall name :: name in Keys(Some(jobs)) ==> StepsMeet(Steps(Lookup(Some(jobs), name)), demand)
  }

  ghost predicate CheckoutsAccepted(p: Policy, jobs: Node) {
    forall name :: name in Keys(Some(jobs)) && name !in JobNames(p) ==>
      StepsMeet(Steps(Lookup(Some(jobs), name)), CheckoutKeepsNoCredentials)
  }

  /** checkAcceptedReleasePolicyCatalogue finds no defect in the policy itself. */
  ghost predicate CatalogueSound(p: Policy) {
    && (forall i :: 0 <= i < |p.jobs| ==> p.jobs[i].concept != "")
    && (forall i, j :: 0 <= i < j < |p.jobs| ==> p.jobs[i].concept != p.jobs[j].concept)
    && (forall i :: 0 <= i < |p.configs| ==> p.configs[i].path != "" && p.configs[i].sourceName != "")
    && (forall i, j :: 0 <= i < j < |p.configs| ==> p.configs[i].path != p.configs[j].path)
  }

  /** What a workflow without findings satisfies. */
  ghost predicate Accepted(p: Policy, root: Node) {
    && CatalogueSound(p) && NoDuplicates(root)
    && RootAccepted(p, root) && TriggersAccepted(p, root) && TopPermissionsAccepted(p, root)
    && var jobs := Lookup(Some(root), "jobs");
       && jobs.Some? && JobSetAccepted(p, jobs.value) && JobsAccepted(p, jobs.value)
       && EveryStep(jobs.value, StepPinned) && CheckoutsAccepted(p, jobs.value) && EveryStep(jobs.value, StepHasNoExpression)
  }

  // ------------------------------------------------------- the checker

  datatype PathPart = Key(name: string) | Index(i: nat)
  type NodePath = seq<PathPart>

  class Checker {
    var findings: seq<NodePath>
    const policy: Policy

    constructor (policy: Policy)
      ensures this.policy == policy && findings == []
    {
      this.policy, findings := policy, [];
    }

    predicate Clean()
      reads this
    {
      findings == []
    }

    method Fail(path: NodePath)
      modifies this
      ensures findings == old(findings) + [path]
    {
      findings := findings + [path];
    }

    method CheckCatalogue()
      modifies this
      ensures Clean() <==> old(Clean()) && CatalogueSound(policy)
    {
      CheckConcepts();
      CheckConfigs();
    }

    method CheckConcepts()
      modifies this
      ensures Clean() <==>
              && old(Clean())
              && (forall i :: 0 <= i < |policy.jobs| ==> policy.jobs[i].concept != "")
              && (forall i, j :: 0 <= i < j < |policy.jobs| ==> policy.jobs[i].concept != policy.jobs[j].concept)
    {
      var seen: set<string> := {};
      var jobs := policy.jobs;
      for i := 0 to |jobs|
        invariant forall c :: c in seen ==> exists k :: 0 <= k < i && jobs[k].concept == c
        invariant Clean() ==> forall k :: 0 <= k < i ==> jobs[k].concept in seen
        invariant Clean() <==>
                  && old(Clean()) && (forall k :: 0 <= k < i ==> jobs[k].concept != "")
                  && (forall k, l :: 0 <= k < l < i ==> jobs[k].concept != jobs[l].concept)
      {
        if jobs[i].concept == "" || jobs[i].concept in seen {
          Fail([Key("jobs"), Key(jobs[i].name)]);
          continue;
        }
        seen := seen + {jobs[i].concept};
      }
    }

    method CheckConfigs()
      modifies this
      ensures Clean() <==>
              && old(Clean())
              && (forall i :: 0 <= i < |policy.configs| ==> policy.configs[i].path != "" && policy.configs[i].sourceName != "")
              && (forall i, j :: 0 <= i < j < |policy.configs| ==> policy.configs[i].path != policy.configs[j].path)
    {
      var seen: set<string> := {};
      var configs := policy.configs;
      for i := 0 to |configs|
        invariant forall c :: c in seen ==> exists k :: 0 <= k < i && configs[k].path == c
        invariant Clean() ==> forall k :: 0 <= k < i ==> configs[k].path in seen
        invariant Clean() <==>
                  && old(Clean()) && (forall k :: 0 <= k < i ==> configs[k].path != "" && configs[k].sourceName != "")
                  && (forall k, l :: 0 <= k < l < i ==> configs[k].path != configs[l].path)
      {
        var path := [Key("required-configs"), Key(configs[i].path)];
        if configs[i].path == "" || configs[i].path in seen {
          Fail(path);
          continue;
        }
        seen := seen + {configs[i].path};
        if configs[i].sourceName == "" {
          Fail(path);
        }
      }
    }

    /** checkDuplicateKeys over a tree of any depth. */
    method CheckDuplicateKeys(path: NodePath, n: Node)
      modifies this
      ensures Clean() <==> old(Clean()) && NoDuplicates(n)
      decreases n
    {
      match n
      case Mapping(pairs) =>
        var seen: set<string> := {};
        for i := 0 to |pairs|
          invariant forall k :: 0 <= k < i && pairs[k].key.Scalar? ==> pairs[k].key.value in seen
          invariant forall t :: t in seen ==> exists k :: 0 <= k < i && pairs[k].key == Scalar(t)
          invariant Clean() <==>
                    && old(Clean()) && DistinctKeys(pairs[..i])
                    && forall k :: 0 <= k < i ==> NoDuplicates(pairs[k].value)
        {
          var key := pairs[i].key;
          DistinctAppend(pairs, i);
          if key.Scalar? {
            if key.value in seen {
              Fail(path + [Key(key.value)]);
            }
            seen := seen + {key.value};
          }
          CheckDuplicateKeys(path + [Key(Text(key))], pairs[i].value);
        }
        assert pairs[..|pairs|] == pairs;
      case Sequence(items) =>
        for i := 0 to |items|
          invariant Clean() <==> old(Clean()) && forall k :: 0 <= k < i ==> NoDuplicates(items[k])
        {
          CheckDuplicateKeys(path + [Index(i)], items[i]);
        }
      case _ =>
    }

    // ----------------------------------------------------- expectations

    method ExpectExactScalar(path: NodePath, n: Option<Node>, want: string)
      modifies this
      ensures Clean() <==> old(Clean()) && ScalarIs(n, want)
    {
      if n.Some? && !n.value.Scalar? {
        Fail(path);
        return;
      }
      if ScalarText(n) != want {
        Fail(path);
      }
    }

    method ExpectOptionalExactScalar(path: NodePath, n: Option<Node>, want: string)
      modifies this
      ensures Clean() <==> old(Clean()) && OptionalScalarIs(n, want)
    {
      if want == "" {
        if n.Some? {
          Fail(path);
        }
        return;
      }
      ExpectExactScalar(path, n, want);
    }

    /** expectScalars: the order in which the wanted keys are visited does not matter. */
    method ExpectScalars(path: NodePath, n: Option<Node>, want: Texts) returns (isMapping: bool)
      modifies this
      ensures isMapping <==> n.Some? && n.value.Mapping?
      ensures Clean() <==> old(Clean()) && isMapping && forall k :: k in want ==> ScalarIs(Lookup(n, k), want[k])
    {
      if n.None? || !n.value.Mapping? {
        Fail(path);
        return false;
      }
      var left := want.Keys;
      while left != {}
        invariant left <= want.Keys
        invariant Clean() <==> old(Clean()) && forall k :: k in want && k !in left ==> ScalarIs(Lookup(n, k), want[k])
        decreases |left|
      {
        var key :| key in left;
        left := left - {key};
        ExpectExactScalar(path + [Key(key)], Lookup(n, key), want[key]);
      }
      return true;
    }

    method ExpectExactScalars(path: NodePath, n: Option<Node>, want: Texts)
      modifies this
      ensures Clean() <==> old(Clean()) && ExactTexts(n, want)
    {
      var isMapping := ExpectScalars(path, n, want);
      if !isMapping {
        return;
      }
      ExpectKeysIn(path, n, want.Keys);
    }

    /** The loop that reports every key outside a set. */
    method ExpectKeysIn(path: NodePath, n: Option<Node>, want: set<string>)
      modifies this
      ensures Clean() <==> old(Clean()) && forall k :: k in Keys(n) ==> k in want
    {
      var keys := Keys(n);
      for i := 0 to |keys|
        invariant Clean() <==> old(Clean()) && forall k :: 0 <= k < i ==> keys[k] in want
      {
        if keys[i] !in want {
          Fail(path + [Key(keys[i])]);
        }
      }
    }

    method ExpectOptionalExactScalars(path: NodePath, n: Option<Node>, want: Option<Texts>)
      modifies this
      ensures Clean() <==> old(Clean()) && OptionalTexts(n, want)
    {
      if want.None? {
        if n.Some? {
          Fail(path);
        }
        return;
      }
      ExpectExactScalars(path, n, want.value);
    }

    method ExpectOnlyKeys(path: NodePath, n: Option<Node>, want: seq<string>)
      modifies this
      ensures Clean() <==> old(Clean()) && OnlyKeys(n, want)
    {
      if n.None? || !n.value.Mapping? {
        Fail(path);
        return;
      }
      ExpectKeysIn(path, n, set k | k in want);
    }

    method ExpectSameSet(path: NodePath, got: seq<string>, want: seq<string>)
      modifies this
      ensures Clean() <==> old(Clean()) && SameSet(got, want)
    {
      var same := SameStringSet(got, want);
      if !same {
        Fail(path);
      }
    }

    // ----------------------------------------------------- the workflow's head

    method CheckRoot(root: Node)
      modifies this
      ensures Clean() <==> old(Clean()) && RootAccepted(policy, root)
    {
      if !root.Mapping? {
        Fail([]);
      }
      ExpectSameSet([], Keys(Some(root)), policy.rootKeys);
      ExpectExactScalar([Key("name")], Lookup(Some(root), "name"), policy.workflowName);
      ExpectExactScalars([Key("env")], Lookup(Some(root), "env"), policy.env);
      ExpectExactScalars([Key("concurrency")], Lookup(Some(root), "concurrency"), policy.concurrency);
    }

    method CheckTriggers(root: Node)
      modifies this
      ensures Clean() <==> old(Clean()) && TriggersAccepted(policy, root)
    {
      var on := Lookup(Some(root), "on");
      if on.None? {
        Fail([Key("on")]);
        return;
      }
      ExpectSameSet([Key("on")], Keys(on), policy.triggerKeys);
      var push := Lookup(on, "push");
      if push.None? {
        Fail([Key("on"), Key("push")]);
      } else {
        ExpectSameSet([Key("on"), Key("push")], Keys(push), policy.pushKeys);
        ExpectSameSet([Key("on"), Key("push"), Key("tags")], SeqStrings(Lookup(push, "tags")), policy.pushTags);
      }
      if Lookup(on, "workflow_dispatch").None? {
        Fail([Key("on"), Key("workflow_dispatch")]);
      }
    }

    method CheckTopPermissions(root: Node)
      modifies this
      ensures Clean() <==> old(Clean()) && TopPermissionsAccepted(policy, root)
    {
      var path := [Key("permissions")];
      var permissions := Lookup(Some(root), "permissions");
      if permissions.None? {
        Fail(path);
        return;
      }
      var want := if "contents" in policy.topPermission then policy.topPermission["contents"] else "";
      ExpectExactScalar(path + [Key("contents")], Lookup(permissions, "contents"), want);
      ExpectKeysIn(path, permissions, policy.topPermission.Keys);
    }

    // ----------------------------------------------------- jobs

    method CheckJobSet(jobs: Node)
      modifies this
      ensures Clean() <==> old(Clean()) && JobSetAccepted(policy, jobs)
    {
      var want := JobNames(policy);
      for i := 0 to |want|
        invariant Clean() <==> old(Clean()) && forall k :: 0 <= k < i ==> Lookup(Some(jobs), want[k]).Some?
      {
        if Lookup(Some(jobs), want[i]).None? {
          Fail([Key("jobs"), Key(want[i])]);
        }
      }
      ExpectKeysIn([Key("jobs")], Some(jobs), set k | k in want);
    }

    method CheckAcceptedStep(path: NodePath, step: Node, p: StepPolicy)
      modifies this
      ensures Clean() <==> old(Clean()) && StepAccepted(step, p)
    {
      var n := Some(step);
      ExpectOnlyKeys(path, n, STEP_KEYS);
      ExpectOptionalExactScalar(path + [Key("name")], Lookup(n, "name"), p.name);
      ExpectOptionalExactScalar(path + [Key("id")], Lookup(n, "id"), p.id);
      ExpectOptionalExactScalar(path + [Key("if")], Lookup(n, "if"), p.ifCond);
      ExpectOptionalExactScalar(path + [Key("shell")], Lookup(n, "shell"), p.shell);
      ExpectOptionalExactScalar(path + [Key("continue-on-error")], Lookup(n, "continue-on-error"), p.continueOnError);
      CheckUses(path + [Key("uses")], Lookup(n, "uses"), p.usesPrefix);
      CheckRun(path + [Key("run")], Lookup(n, "run"), p.runLines);
      ExpectOptionalExactScalars(path + [Key("with")], Lookup(n, "with"), p.withArgs);
      ExpectOptionalExactScalars(path + [Key("env")], Lookup(n, "env"), p.env);
    }

    method CheckUses(path: NodePath, n: Option<Node>, prefix: string)
      modifies this
      ensures Clean() <==> old(Clean()) && UsesIs(n, prefix)
    {
      if prefix == "" {
        if n.Some? {
          Fail(path);
        }
      } else if n.None? || !n.value.Scalar? || !(prefix <= n.value.value) {
        Fail(path);
      }
    }

    method CheckRun(path: NodePath, n: Option<Node>, want: Option<seq<string>>)
      modifies this
      ensures Clean() <==> old(Clean()) && RunIs(n, want)
    {
      if want.None? {
        if n.Some? {
          Fail(path);
        }
      } else if n.None? || !n.value.Scalar? {
        Fail(path);
      } else {
        var lines := ScriptLines(n.value.value);
        if lines != want.value {
          Fail(path);
        }
      }
    }

    method CheckAcceptedJobSteps(path: NodePath, job: Option<Node>, p: JobPolicy)
      modifies this
      ensures Clean() <==> old(Clean()) && StepsAccepted(Steps(job), p.steps)
    {
      var steps := Steps(job);
      if Identities(steps) != WantedIdentities(p.steps) {
        Fail(path);
        return;
      }
      assert |Identities(steps)| == |steps| && |WantedIdentities(p.steps)| == |p.steps|;
      CheckSteps(path, steps, p.steps);
    }

    method CheckSteps(path: NodePath, steps: seq<Node>, p: seq<StepPolicy>)
      requires |steps| == |p|
      modifies this
      ensures Clean() <==> old(Clean()) && forall k :: 0 <= k < |p| ==> StepAccepted(steps[k], p[k])
    {
      for i := 0 to |p|
        invariant Clean() <==> old(Clean()) && forall k :: 0 <= k < i ==> StepAccepted(steps[k], p[k])
      {
        CheckAcceptedStep(path + [Index(i)], steps[i], p[i]);
      }
    }

    method CheckAcceptedJobNeeds(path: NodePath, job: Option<Node>, p: JobPolicy)
      modifies this
      ensures Clean() <==> old(Clean()) && NeedsAccepted(job, p.needs)
    {
      if p.needs.None? && Lookup(job, "needs").Some? {
        Fail(path);
        return;
      }
      ExpectSameSet(path, Needs(job), if p.needs.None? then [] else p.needs.value);
    }

    method CheckAcceptedJob(path: NodePath, job: Option<Node>, p: JobPolicy)
      modifies this
      ensures Clean() <==> old(Clean()) && JobAccepted(job, p)
    {
      ExpectOnlyKeys(path, job, JOB_KEYS);
      ExpectExactScalar(path + [Key("name")], Lookup(job, "name"), p.displayName);
      ExpectExactScalar(path + [Key("runs-on")], Lookup(job, "runs-on"), p.runsOn);
      ExpectExactScalar(path + [Key("timeout-minutes")], Lookup(job, "timeout-minutes"), p.timeoutMinutes);
      ExpectExactScalar(path + [Key("if")], Lookup(job, "if"), p.ifCond);
      CheckAcceptedJobNeeds(path + [Key("needs")], job, p);
      ExpectOptionalExactScalars(path + [Key("permissions")], Lookup(job, "permissions"), p.permissions);
      ExpectOptionalExactScalars(path + [Key("outputs")], Lookup(job, "outputs"), p.outputs);
      CheckAcceptedJobSteps(path + [Key("steps")], job, p);
    }

    method CheckAcceptedJobs(jobs: Node)
      modifies this
      ensures Clean() <==> old(Clean()) && JobsAccepted(policy, jobs)
    {
      var p := policy.jobs;
      for i := 0 to |p|
        invariant Clean() <==>
                  && old(Clean())
                  && forall k :: 0 <= k < i && Lookup(Some(jobs), p[k].name).Some? ==> JobAccepted(Lookup(Some(jobs), p[k].name), p[k])
      {
        var job := Lookup(Some(jobs), p[i].name);
        if job.None? {
          continue;
        }
        CheckAcceptedJob([Key("jobs"), Key(p[i].name)], job, p[i]);
      }
    }

    /** The loops of checkActionPins and checkNoRunExpressions over every step of every job. */
    method CheckEveryStep(jobs: Node, demand: Node -> bool, part: string)
      modifies this
      ensures Clean() <==> old(Clean()) && EveryStep(jobs, demand)
    {
      var names := Keys(Some(jobs));
      for i := 0 to |names|
        invariant Clean() <==>
                  && old(Clean())
                  && forall k :: 0 <= k < i ==> StepsMeet(Steps(Lookup(Some(jobs), names[k])), demand)
      {
        CheckJobSteps([Key("jobs"), Key(names[i])], Steps(Lookup(Some(jobs), names[i])), demand, part);
      }
    }

    method CheckJobSteps(path: NodePath, steps: seq<Node>, demand: Node -> bool, part: string)
      modifies this
      ensures Clean() <==> old(Clean()) && StepsMeet(steps, demand)
    {
      for i := 0 to |steps|
        invariant Clean() <==> old(Clean()) && forall l :: 0 <= l < i ==> demand(steps[l])
      {
        if !demand(steps[i]) {
          Fail(path + [Key("steps"), Index(i), Key(part)]);
        }
      }
    }

    method CheckCheckoutSteps(path: NodePath, steps: seq<Node>)
      modifies this
      ensures Clean() <==> old(Clean()) && StepsMeet(steps, CheckoutKeepsNoCredentials)
    {
      for i := 0 to |steps|
        invariant Clean() <==> old(Clean()) && forall l :: 0 <= l < i ==> CheckoutKeepsNoCredentials(steps[l])
      {
        var step := Some(steps[i]);
        if !("actions/checkout@" <= ScalarText(Lookup(step, "uses"))) {
          continue;
        }
        ExpectExactScalars(path + [Key("steps"), Index(i), Key("with")], Lookup(step, "with"), map["persist-credentials" := "false"]);
      }
    }

    method CheckCheckoutCredentials(jobs: Node)
      modifies this
      ensures Clean() <==> old(Clean()) && CheckoutsAccepted(policy, jobs)
    {
      var names := Keys(Some(jobs));
      for i := 0 to |names|
        invariant Clean() <==>
                  && old(Clean())
                  && forall k :: 0 <= k < i && names[k] !in JobNames(policy) ==>
                       StepsMeet(Steps(Lookup(Some(jobs), names[k])), CheckoutKeepsNoCredentials)
      {
        if names[i] in JobNames(policy) {
          continue;
        }
        CheckCheckoutSteps([Key("jobs"), Key(names[i])], Steps(Lookup(Some(jobs), names[i])));
      }
    }

    /** checkWorkflowAgainstPolicy: no findings exactly when the workflow is accepted. */
    method CheckWorkflow(root: Node)
      requires Clean()
      modifies this
      ensures Clean() <==> Accepted(policy, root)
    {
      CheckCatalogue();
      if !Clean() {
        return;
      }
      CheckDuplicateKeys([], root);
      if !Clean() {
        return;
      }
      CheckRoot(root);
      CheckTriggers(root);
      CheckTopPermissions(root);
      var jobs := Lookup(Some(root), "jobs");
      if jobs.None? {
        Fail([Key("jobs")]);
        return;
      }
      CheckJobSet(jobs.value);
      CheckAcceptedJobs(jobs.value);
      CheckEveryStep(jobs.value, StepPinned, "uses");
      CheckCheckoutCredentials(jobs.value);
      CheckEveryStep(jobs.value, StepHasNoExpression, "run");
    }
  }

  lemma DistinctAppend(pairs: seq<Pair>, i: nat)
    requires i < |pairs|
    ensures DistinctKeys(pairs[..i + 1]) <==>
            && DistinctKeys(pairs[..i])
            && (pairs[i].key.Scalar? ==> forall k :: 0 <= k < i ==> pairs[k].key != pairs[i].key)
  {
    var all := pairs[..i + 1];
    if DistinctKeys(all) {
      forall k, l | 0 <= k < l < i && pairs[k].key.Scalar? && pairs[l].key.Scalar? ensures pairs[k].key.value != pairs[l].key.value {
        assert all[k].key.value != all[l].key.value;
      }
      forall k | 0 <= k < i && pairs[i].key.Scalar? ensures pairs[k].key != pairs[i].key {
        if pairs[k].key.Scalar? { assert all[k].key.value != all[i].key.value; }
      }
    }
  }
}
