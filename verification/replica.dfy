/**
 * The two replica scripts, scripts/verify-workspace-init.js and
 * scripts/test-catch-failure.js. Both re-implement Enable in a create-only
 * form with their own ignore-file block, then run four file assertions; the
 * first exits 1 when any assertion fails, the second deletes the goal file
 * first and exits 0 only when the goal assertion is among the failures.
 */
module Replica {
  import opened Wrappers
  import opened Text
  import opened Templates
  import opened Catalog
  import opened Reconcile
  import opened Gitignore
  import opened Workspace

  /** The one pattern of the scripts' block: everything under `.ai`. */
  const AI_PATTERN: string := ".ai/"

  /** A line holding that pattern, as the scripts look for it. */
  const AI_LINE: string := NL + AI_PATTERN

  /** The scripts' block after the header. */
  const REPLICA_TAIL: string := NL + AI_PATTERN + NL + NL

  /** `"\n# GoalGuard (Two-Layer Agent)\n.ai/\n\n"` */
  const REPLICA_BLOCK: string := NL + HEADER + REPLICA_TAIL

  /** The scripts treat the ignore-file as patched when it has the header or an `.ai/` line. */
  predicate AlreadyIgnored(c: string) {
    Contains(c, HEADER) || Contains(c, AI_LINE)
  }

  lemma ReplicaHeader()
    ensures REPLICA_BLOCK[0] == '\n' && OccursAt(REPLICA_BLOCK, HEADER, 1)
  {
    OccursInMiddle(NL, HEADER, REPLICA_TAIL);
  }

  /** `block.trimStart()` drops the leading newline only, leaving the header first. */
  lemma ReplicaTrimmed()
    ensures TrimStart(REPLICA_BLOCK) == REPLICA_BLOCK[1..]
    ensures StartsWith(REPLICA_BLOCK[1..], HEADER)
  {
    ReplicaHeader();
    HeaderCharacters();
    assert REPLICA_BLOCK[1..1 + |HEADER|][0] == REPLICA_BLOCK[1];
    assert AllSpace(REPLICA_BLOCK[..1]);
    VisibleAsciiNotSpace('#');
    TrimStartAt(REPLICA_BLOCK, 1);
    assert REPLICA_BLOCK[1..][..|HEADER|] == REPLICA_BLOCK[1..1 + |HEADER|];
  }

  /**
   * The scripts' `patchGitignore` on the ignore-file's current text (`None`
   * when it does not exist). The result always passes the scripts' own
   * sentinel, keeps the trimmed earlier text, and carries the header unless
   * an `.ai/` line already stood in for it.
   */
  function ReplicaPatch(current: Option<string>): (r: string)
    ensures AlreadyIgnored(r)
    ensures current.Some? ==> StartsWith(r, TrimEnd(current.value))
    ensures current.None? || !AlreadyIgnored(current.value) ==> Contains(r, HEADER)
  {
    match current
    case None =>
      ReplicaTrimmed();
      StartsWithContains(REPLICA_BLOCK[1..], HEADER);
      TrimStart(REPLICA_BLOCK)
    case Some(c) =>
      if AlreadyIgnored(c) then
        c
      else
        var t := TrimEnd(c);
        ReplicaHeader();
        OccursContains(REPLICA_BLOCK, HEADER, 1);
        ContainsSuffix(t, REPLICA_BLOCK, HEADER);
        assert (t + REPLICA_BLOCK)[..|t|] == t;
        t + REPLICA_BLOCK
  }

  /** An absent ignore-file becomes the block without its leading newline. */
  lemma AbsentReplicaPatch()
    ensures ReplicaPatch(None) == REPLICA_BLOCK[1..]
  {
    ReplicaTrimmed();
  }

  /** Existing text is left alone exactly when the scripts' sentinel already matches. */
  lemma ReplicaUnchangedIff(c: string)
    ensures ReplicaPatch(Some(c)) == c <==> AlreadyIgnored(c)
    ensures !AlreadyIgnored(c) ==> ReplicaPatch(Some(c)) == TrimEnd(c) + REPLICA_BLOCK
  {
  }

  /** Patching twice is patching once. */
  lemma ReplicaIdempotent(current: Option<string>)
    ensures ReplicaPatch(Some(ReplicaPatch(current))) == ReplicaPatch(current)
  {
  }

  /** The scripts accept any ignore-file the extension has patched. */
  lemma ReplicaKeepsExtensionPatch(current: Option<string>)
    ensures ReplicaPatch(Some(PatchGitignore(current))) == PatchGitignore(current)
  {
  }

  /** The extension accepts the block the scripts write, when they wrote one. */
  lemma ExtensionKeepsReplicaPatch(current: Option<string>)
    requires current.None? || !AlreadyIgnored(current.value)
    ensures PatchGitignore(Some(ReplicaPatch(current))) == ReplicaPatch(current)
  {
  }

  /** Text with no `#` cannot hold the header. */
  lemma NoHashNoHeader(c: string)
    requires Lacks(c, '#')
    ensures !Contains(c, HEADER)
  {
    HeaderCharacters();
    forall i | 0 <= i <= |c|
      ensures !OccursAt(c, HEADER, i)
    {
      if i + |HEADER| <= |c| {
        assert c[i..i + |HEADER|][0] == c[i];
      }
    }
  }

  /**
   * The two sentinels differ: an ignore-file with an `.ai/` line and no
   * comment satisfies the scripts, while the extension still appends its
   * block.
   */
  lemma SentinelsDiffer(c: string)
    requires Lacks(c, '#') && Contains(c, AI_LINE)
    ensures ReplicaPatch(Some(c)) == c
    ensures PatchGitignore(Some(c)) != c
  {
    NoHashNoHeader(c);
  }

  /** The scripts' template loop: each missing file is written, and no existing file is touched. */
  function CreateMissing(files: Files, cat: seq<Template>): (r: Files)
    ensures files.Keys <= r.Keys
    ensures forall p | p in files :: r[p] == files[p]
    ensures forall k | 0 <= k < |cat| :: cat[k].path in r
    ensures forall p | p in r && p !in files :: p in Paths(cat)
    decreases |cat|
  {
    if |cat| == 0 then
      files
    else
      var here := if cat[0].path in files then files else files[cat[0].path := cat[0].content];
      var rest := CreateMissing(here, cat[1..]);
      assert Paths(cat) == [cat[0].path] + Paths(cat[1..]);
      assert forall k | 1 <= k < |cat| :: cat[1..][k - 1] == cat[k];
      rest
  }

  /** With distinct paths, every file the loop creates holds its entry's content. */
  lemma {:induction false} CreatedContent(files: Files, cat: seq<Template>)
    requires DistinctPaths(cat)
    ensures forall k | 0 <= k < |cat| && cat[k].path !in files :: CreateMissing(files, cat)[cat[k].path] == cat[k].content
    decreases |cat|
  {
    if |cat| > 0 {
      var here := if cat[0].path in files then files else files[cat[0].path := cat[0].content];
      DistinctTail(cat);
      CreatedContent(here, cat[1..]);
      forall k | 0 <= k < |cat| && cat[k].path !in files
        ensures CreateMissing(files, cat)[cat[k].path] == cat[k].content
      {
        if k > 0 {
          assert cat[1..][k - 1] == cat[k];
          assert cat[k].path != cat[0].path;
        }
      }
    }
  }

  /**
   * Where the extension would repair nothing, its non-forced template loop
   * and the scripts' create-only loop leave the same files.
   */
  lemma {:induction false} CreateOnlyAgrees(files: Files, cat: seq<Template>)
    requires DistinctPaths(cat)
    requires forall k | 0 <= k < |cat| && cat[k].path in files :: !NeedsRepair(cat[k], files[cat[k].path], false)
    ensures CreateMissing(files, cat) == ReconcileAll(files, cat, false).files
    decreases |cat|
  {
    if |cat| > 0 {
      var here := if cat[0].path in files then files else files[cat[0].path := cat[0].content];
      assert Reconcile.WriteTemplate(files, cat[0], false).files == here;
      DistinctTail(cat);
      forall k | 0 <= k < |cat| - 1 && cat[1..][k].path in here
        ensures !NeedsRepair(cat[1..][k], here[cat[1..][k].path], false)
      {
        assert cat[1..][k] == cat[k + 1];
        assert cat[k + 1].path != cat[0].path;
      }
      CreateOnlyAgrees(here, cat[1..]);
    }
  }

  /**
   * `runEnable`: the create-only loop, the scripts' ignore-file patch, and a
   * manifest stamped installed and updated at the same instant, written over
   * whatever was at its path. Every entry's file exists afterwards and every
   * other file keeps its text.
   */
  function RunEnable(root: Root, cat: seq<Template>, now: string): (r: Root)
    ensures r.manifest.Some? && Mirrors(r.manifest.value, cat)
    ensures r.manifest.value.installedAt == Some(now) && r.manifest.value.updatedAt == now
    ensures MANIFEST_PATH !in r.files
    ensures GITIGNORE in r.files && AlreadyIgnored(r.files[GITIGNORE])
    ensures forall k | 0 <= k < |cat| && cat[k].path != MANIFEST_PATH :: cat[k].path in r.files
    ensures forall p | p in root.files && p != GITIGNORE && p != MANIFEST_PATH :: p in r.files && r.files[p] == root.files[p]
  {
    var files := CreateMissing(root.files, cat);
    var m := Manifest(MANIFEST_VERSION, Some(now), now, ManifestEntries(cat));
    Root(files[GITIGNORE := ReplicaPatch(Get(files, GITIGNORE))] - {MANIFEST_PATH}, Some(m))
  }

  /**
   * Where the extension would repair nothing, the scripts' Enable and the
   * extension's non-forced initialisation agree on every file but the
   * ignore-file, and their manifests differ only in `installedAt`.
   */
  lemma EnableMatchesInit(root: Root, cat: seq<Template>, now: string)
    requires WellFormed(cat)
    requires forall k | 0 <= k < |cat| && cat[k].path in root.files :: !NeedsRepair(cat[k], root.files[cat[k].path], false)
    ensures RunEnable(root, cat, now).files - {GITIGNORE} == InitRoot(root, cat, false, now).root.files - {GITIGNORE}
    ensures RunEnable(root, cat, now).manifest.value == InitRoot(root, cat, false, now).root.manifest.value.(installedAt := Some(now))
  {
    WellFormedFacts(cat);
    CreateOnlyAgrees(root.files, cat);
    var created := CreateMissing(root.files, cat);
    var pass := ReconcileAll(root.files, cat, false);
    var a := created[GITIGNORE := ReplicaPatch(Get(created, GITIGNORE))];
    var b := pass.files[GITIGNORE := PatchGitignore(Get(pass.files, GITIGNORE))];
    assert RunEnable(root, cat, now).files == a - {MANIFEST_PATH};
    assert InitRoot(root, cat, false, now).root.files == b - {MANIFEST_PATH};
    UpdateThenRemove(created, GITIGNORE, ReplicaPatch(Get(created, GITIGNORE)), PatchGitignore(Get(pass.files, GITIGNORE)));
    RemoveCommutes(a, MANIFEST_PATH, GITIGNORE);
    RemoveCommutes(b, MANIFEST_PATH, GITIGNORE);
  }

  /** Removing a key forgets what it was last set to. */
  lemma UpdateThenRemove(m: Files, k: string, v1: string, v2: string)
    ensures m[k := v1] - {k} == m[k := v2] - {k}
  {
  }

  /** One assertion of the scripts. */
  datatype Step = FileExists(path: string) | FileContains(path: string, needle: string)

  datatype Status = Passed | Failed(error: string)

  /** One line of the results: the step's path and how it went. */
  datatype Outcome = Outcome(step: string, status: Status)

  /** The rule, goal and plan files exist, and the goal names the contract. */
  const FILE_ASSERTIONS: seq<Step> := [
    FileExists(RULE_PATH),
    FileExists(GOAL_PATH),
    FileExists(PLAN_PATH),
    FileContains(GOAL_PATH, "Goal Contract")
  ]

  /** What a step asserts of the files. */
  predicate Holds(files: Files, s: Step) {
    s.path in files && (s.FileContains? ==> Contains(files[s.path], s.needle))
  }

  /**
   * One step of `runAssertions`: it passes exactly when what it asserts
   * holds, and a failure's message names the step's path.
   */
  function RunStep(files: Files, s: Step): (r: Outcome)
    ensures r.step == s.path
    ensures r.status.Passed? <==> Holds(files, s)
    ensures r.status.Failed? ==> Contains(r.status.error, s.path)
  {
    match s
    case FileExists(p) =>
      if p !in files then
        assert OccursAt(p, p, 0);
        OccursContains(p, p, 0);
        ContainsSuffix("Expected file to exist: ", p, p);
        Outcome(p, Failed("Expected file to exist: " + p))
      else
        Outcome(p, Passed)
    case FileContains(p, needle) =>
      if p !in files then
        assert OccursAt(p, p, 0);
        OccursContains(p, p, 0);
        ContainsSuffix("File not found: ", p, p);
        Outcome(p, Failed("File not found: " + p))
      else if !Contains(files[p], needle) then
        OccursInMiddle("Expected ", p, " to contain: " + needle);
        OccursContains("Expected " + p + (" to contain: " + needle), p, 9);
        assert "Expected " + p + (" to contain: " + needle) == "Expected " + p + " to contain: " + needle;
        Outcome(p, Failed("Expected " + p + " to contain: " + needle))
      else
        Outcome(p, Passed)
  }

  /** Only a step that fails gets an error message, and that message matches the kind of failure. */
  lemma FailureMessages(files: Files, p: string, needle: string)
    ensures p !in files ==> RunStep(files, FileExists(p)).status == Failed("Expected file to exist: " + p)
    ensures p !in files ==> RunStep(files, FileContains(p, needle)).status == Failed("File not found: " + p)
    ensures p in files && !Contains(files[p], needle) ==>
      RunStep(files, FileContains(p, needle)).status == Failed("Expected " + p + " to contain: " + needle)
  {
  }

  /** `runAssertions`: one outcome per step, in order; each passes exactly when its assertion holds. */
  method RunAssertions(files: Files, steps: seq<Step>) returns (results: seq<Outcome>)
    ensures |results| == |steps|
    ensures forall k | 0 <= k < |steps| :: results[k] == RunStep(files, steps[k])
    ensures forall k | 0 <= k < |steps| :: results[k].step == steps[k].path && (results[k].status.Passed? <==> Holds(files, steps[k]))
  {
    results := [];
    var i := 0;
    while i < |steps|
      invariant 0 <= i <= |steps|
      invariant |results| == i
      invariant forall k | 0 <= k < i :: results[k] == RunStep(files, steps[k])
    {
      results := results + [RunStep(files, steps[i])];
      i := i + 1;
    }
  }

  /** `results.filter((r) => r.status === "fail")` */
  function Failures(results: seq<Outcome>): (r: seq<Outcome>)
    ensures |r| <= |results|
    decreases |results|
  {
    if |results| == 0 then
      []
    else
      (if results[0].status.Failed? then [results[0]] else []) + Failures(results[1..])
  }

  /** The filter keeps exactly the failed outcomes. */
  lemma {:induction false} FailuresExact(results: seq<Outcome>)
    ensures forall o | o in Failures(results) :: o in results && o.status.Failed?
    ensures forall o | o in results && o.status.Failed? :: o in Failures(results)
    decreases |results|
  {
    if |results| > 0 {
      var here := if results[0].status.Failed? then [results[0]] else [];
      FailuresExact(results[1..]);
      assert Failures(results) == here + Failures(results[1..]);
      forall o | o in results && o.status.Failed?
        ensures o in here + Failures(results[1..])
      {
        if o != results[0] {
          assert o in results[1..];
        }
      }
    }
  }

  /** The verify script's exit code: 1 exactly when some assertion failed, else 0. */
  function VerifyExit(results: seq<Outcome>): (code: int)
    ensures code == 0 || code == 1
    ensures code == 1 <==> exists k | 0 <= k < |results| :: results[k].status.Failed?
  {
    FailuresExact(results);
    if |Failures(results)| > 0 then
      assert Failures(results)[0] in Failures(results);
      1
    else
      assert forall k | 0 <= k < |results| :: results[k] in results;
      0
  }

  /** `failed.some((r) => r.step === ".ai/goal.md")` */
  predicate GoalFailed(failed: seq<Outcome>) {
    exists k | 0 <= k < |failed| :: failed[k].step == GOAL_PATH
  }

  /**
   * The catch-failure script's exit code: 1 when nothing failed or when no
   * failed step is the goal file; 0 exactly when the goal file's assertion
   * is among the failures.
   */
  function CatchExit(results: seq<Outcome>): (code: int)
    ensures code == 0 || code == 1
    ensures code == 0 <==> exists k | 0 <= k < |results| :: results[k].status.Failed? && results[k].step == GOAL_PATH
  {
    var failed := Failures(results);
    FailuresExact(results);
    if |failed| == 0 then
      assert forall k | 0 <= k < |results| :: results[k] in results;
      1
    else if !GoalFailed(failed) then
      assert forall k | 0 <= k < |results| :: results[k] in results;
      1
    else
      var j :| 0 <= j < |failed| && failed[j].step == GOAL_PATH;
      assert failed[j] in failed;
      0
  }

  /** How the scripts' Enable leaves one catalog file, for a catalog with distinct paths. */
  lemma EnabledFile(root: Root, cat: seq<Template>, now: string, g: nat)
    requires DistinctPaths(cat) && g < |cat| && cat[g].path != GITIGNORE && cat[g].path != MANIFEST_PATH
    ensures var f := RunEnable(root, cat, now).files;
      && cat[g].path in f
      && f[cat[g].path] == if cat[g].path in root.files then root.files[cat[g].path] else cat[g].content
  {
    CreatedContent(root.files, cat);
  }

  /**
   * After the scripts' Enable with the shipped catalog, the rule, goal and
   * plan files exist, and the goal names the contract unless a goal file
   * that does not was already there.
   */
  lemma EnabledSteps(root: Root, now: string)
    ensures var f := RunEnable(root, WORKSPACE_TEMPLATES, now).files;
      && RULE_PATH in f && GOAL_PATH in f && PLAN_PATH in f
      && (Contains(f[GOAL_PATH], "Goal Contract") <==> GOAL_PATH !in root.files || Contains(root.files[GOAL_PATH], "Goal Contract"))
  {
    CatalogWellFormed();
    WellFormedFacts(WORKSPACE_TEMPLATES);
    CatalogIndex();
    GoalEntry();
    EnabledFile(root, WORKSPACE_TEMPLATES, now, 1);
  }

  /**
   * The four assertions on a set of files and the verify script's verdict:
   * 0 exactly when the rule, goal and plan files exist and the goal names
   * the contract.
   */
  method CheckFiles(files: Files) returns (code: int, results: seq<Outcome>)
    ensures |results| == 4
    ensures forall k | 0 <= k < 4 :: results[k] == RunStep(files, FILE_ASSERTIONS[k])
    ensures code == VerifyExit(results)
    ensures code == 0 <==> RULE_PATH in files && GOAL_PATH in files && PLAN_PATH in files && Contains(files[GOAL_PATH], "Goal Contract")
  {
    results := RunAssertions(files, FILE_ASSERTIONS);
    code := VerifyExit(results);
    assert FILE_ASSERTIONS[0] == FileExists(RULE_PATH) && FILE_ASSERTIONS[1] == FileExists(GOAL_PATH);
    assert FILE_ASSERTIONS[2] == FileExists(PLAN_PATH) && FILE_ASSERTIONS[3] == FileContains(GOAL_PATH, "Goal Contract");
    assert (forall k | 0 <= k < 4 :: results[k].status.Passed?) <==>
      Holds(files, FILE_ASSERTIONS[0]) && Holds(files, FILE_ASSERTIONS[1]) && Holds(files, FILE_ASSERTIONS[2]) && Holds(files, FILE_ASSERTIONS[3]);
  }

  /**
   * The verify script on the root at the workspace path: it exits 0 exactly
   * when the goal file, if the root had one, names the contract; everything
   * else it asserts, Enable itself provides.
   */
  method VerifyScript(root: Root, now: string) returns (code: int, after: Root)
    ensures after == RunEnable(root, WORKSPACE_TEMPLATES, now)
    ensures code == 0 || code == 1
    ensures code == 0 <==> GOAL_PATH !in root.files || Contains(root.files[GOAL_PATH], "Goal Contract")
  {
    after := RunEnable(root, WORKSPACE_TEMPLATES, now);
    EnabledSteps(root, now);
    var results;
    code, results := CheckFiles(after.files);
  }

  /** Deleting the goal file leaves the rule and plan files. */
  lemma StepPathsDiffer()
    ensures RULE_PATH != GOAL_PATH && PLAN_PATH != GOAL_PATH
  {
    assert RULE_PATH[1] != GOAL_PATH[1];
    assert PLAN_PATH[4] != GOAL_PATH[4];
  }

  /** With the rule and plan files present and the goal file missing, how each assertion goes. */
  lemma GoalMissingSteps(files: Files)
    requires RULE_PATH in files && PLAN_PATH in files && GOAL_PATH !in files
    ensures RunStep(files, FILE_ASSERTIONS[0]).status.Passed? && RunStep(files, FILE_ASSERTIONS[2]).status.Passed?
    ensures RunStep(files, FILE_ASSERTIONS[1]) == Outcome(GOAL_PATH, Failed("Expected file to exist: " + GOAL_PATH))
    ensures RunStep(files, FILE_ASSERTIONS[3]) == Outcome(GOAL_PATH, Failed("File not found: " + GOAL_PATH))
  {
  }

  /**
   * The catch-failure script after Enable: delete the goal file, run the
   * assertions and decide. With the rule and plan files in place, the rule
   * and plan assertions pass, both goal assertions fail, and it exits 0.
   */
  method DeleteGoalAndCheck(enabled: Files) returns (code: int, results: seq<Outcome>)
    requires RULE_PATH in enabled && PLAN_PATH in enabled
    ensures |results| == 4
    ensures results[0].status.Passed? && results[2].status.Passed?
    ensures results[1] == Outcome(GOAL_PATH, Failed("Expected file to exist: " + GOAL_PATH))
    ensures results[3] == Outcome(GOAL_PATH, Failed("File not found: " + GOAL_PATH))
    ensures code == 0
  {
    var files := enabled - {GOAL_PATH};
    StepPathsDiffer();
    var verdict;
    verdict, results := CheckFiles(files);
    GoalMissingSteps(files);
    code := CatchExit(results);
    assert results[1].status.Failed? && results[1].step == GOAL_PATH;
  }

  /**
   * The catch-failure script, on any starting root: Enable, then delete the
   * goal file. The rule and plan assertions pass, both goal assertions fail,
   * and the script exits 0.
   */
  method CatchFailureScript(root: Root, now: string) returns (code: int, results: seq<Outcome>)
    ensures |results| == 4
    ensures results[0].status.Passed? && results[2].status.Passed?
    ensures results[1] == Outcome(GOAL_PATH, Failed("Expected file to exist: " + GOAL_PATH))
    ensures results[3] == Outcome(GOAL_PATH, Failed("File not found: " + GOAL_PATH))
    ensures code == 0
  {
    var enabled := RunEnable(root, WORKSPACE_TEMPLATES, now);
    EnabledSteps(root, now);
    code, results := DeleteGoalAndCheck(enabled.files);
  }
}
