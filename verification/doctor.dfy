/**
 * The read-only health report `doctorWorkspace` (src/workspace.ts:157-198):
 * one pass/fail line per required file, a warning per agent definition that
 * exists without front-matter, and two fixed tips.
 */
module Doctor {
  import opened Wrappers
  import opened Text
  import opened Templates
  import opened Markers
  import opened Catalog
  import opened Reconcile
  import opened Workspace

  /** The nine required files, in report order; each label is the file's root-relative path. */
  const REQUIRED: seq<string> := [
    RULE_PATH, WORKER_PATH, VERIFIER_PATH, SEARCHER_PATH, START_PATH,
    GOAL_PATH, PLAN_PATH, LEDGER_PATH, GITIGNORE
  ]

  /** The agent definitions whose front-matter is checked, in report order. */
  const AGENT_FILES: seq<string> := [WORKER_PATH, VERIFIER_PATH, SEARCHER_PATH]

  /** The check mark (U+2705) of a present file. */
  const PASS: char := '\U{2705}'

  /** The cross mark (U+274C) of a missing file. */
  const FAIL: char := '\U{274C}'

  /** The warning sign (U+26A0 U+FE0F) and text before the file's path. */
  const WARNING_PREFIX: string := "\U{26A0}\U{FE0F} Agent file missing YAML frontmatter: "

  /** The two tips, appended whatever the checks found. */
  const TIPS: seq<string> := [
    "If Start Supervisor cannot auto-send, open Agent chat and type /goalguard-start.",
    "If subagent delegation fails in your Cursor build, set GoalGuard mode to 'single-chat' and continue (Supervisor runs Worker/Verifier phases itself)."
  ]

  /** The three lists of the report. */
  datatype Report = Report(checks: seq<string>, warnings: seq<string>, tips: seq<string>)

  /** One check line: the mark, a space, the label. */
  function CheckLine(present: bool, name: string): (r: string)
    ensures |r| == |name| + 2 && r[1] == ' ' && r[2..] == name
    ensures r[0] == PASS <==> present
  {
    [if present then PASS else FAIL] + " " + name
  }

  /** The file-system path of an agent file: the root's path, a separator, the relative path. */
  function FsPath(rootPath: string, p: string): (r: string)
    ensures |r| == |rootPath| + 1 + |p|
    ensures r[|rootPath| + 1..] == p
  {
    rootPath + "/" + p
  }

  function WarningLine(rootPath: string, p: string): (r: string)
    ensures StartsWith(r, WARNING_PREFIX)
  {
    WARNING_PREFIX + FsPath(rootPath, p)
  }

  /** A warning names the file it is about: equal warnings of one root are about one file. */
  lemma WarningLineInjective(rootPath: string, p: string, q: string)
    requires WarningLine(rootPath, p) == WarningLine(rootPath, q)
    ensures p == q
  {
    var n := |WARNING_PREFIX|;
    assert WarningLine(rootPath, p)[n..] == FsPath(rootPath, p);
    assert WarningLine(rootPath, q)[n..] == FsPath(rootPath, q);
  }

  /** An agent file that exists but has no front-matter. */
  predicate Flagged(files: Files, p: string) {
    p in files && !HasYamlFrontmatter(files[p])
  }

  /** The check lines, one per label, in order. */
  function Checks(files: Files, labels: seq<string>): (r: seq<string>)
    ensures |r| == |labels|
    ensures forall k | 0 <= k < |labels| :: r[k] == CheckLine(labels[k] in files, labels[k])
  {
    seq(|labels|, k requires 0 <= k < |labels| => CheckLine(labels[k] in files, labels[k]))
  }

  /** The warnings, in the order of `agents`, for the flagged ones only. */
  function Warnings(files: Files, rootPath: string, agents: seq<string>): (r: seq<string>)
    ensures |r| <= |agents|
    decreases |agents|
  {
    if |agents| == 0 then
      []
    else
      var here := if Flagged(files, agents[0]) then [WarningLine(rootPath, agents[0])] else [];
      here + Warnings(files, rootPath, agents[1..])
  }

  /** Every warning is about a flagged file among `agents`, and every flagged one gets its warning. */
  lemma {:induction false} WarningsExact(files: Files, rootPath: string, agents: seq<string>)
    ensures forall w | w in Warnings(files, rootPath, agents) ::
      exists p | p in agents :: Flagged(files, p) && w == WarningLine(rootPath, p)
    ensures forall p | p in agents && Flagged(files, p) :: WarningLine(rootPath, p) in Warnings(files, rootPath, agents)
    decreases |agents|
  {
    if |agents| > 0 {
      var here := if Flagged(files, agents[0]) then [WarningLine(rootPath, agents[0])] else [];
      var rest := Warnings(files, rootPath, agents[1..]);
      WarningsExact(files, rootPath, agents[1..]);
      assert Warnings(files, rootPath, agents) == here + rest;
      forall w | w in here + rest
        ensures exists p | p in agents :: Flagged(files, p) && w == WarningLine(rootPath, p)
      {
        if w in here {
          assert agents[0] in agents;
        } else {
          assert w in rest;
          var p :| p in agents[1..] && Flagged(files, p) && w == WarningLine(rootPath, p);
          assert p in agents;
        }
      }
      forall p | p in agents && Flagged(files, p)
        ensures WarningLine(rootPath, p) in here + rest
      {
        if p != agents[0] {
          assert p in agents[1..];
        }
      }
    }
  }

  /** `doctorWorkspace` for the root whose file-system path is `rootPath`. */
  function DoctorWorkspace(files: Files, rootPath: string): (r: Report)
    ensures |r.checks| == 9 && |r.warnings| <= 3 && r.tips == TIPS
  {
    Report(Checks(files, REQUIRED), Warnings(files, rootPath, AGENT_FILES), TIPS)
  }

  /**
   * Check `k` names the `k`-th required file and passes exactly when that file
   * exists.
   */
  lemma CheckPassIff(files: Files, rootPath: string, k: nat)
    requires k < 9
    ensures var c := DoctorWorkspace(files, rootPath).checks[k];
      && c[2..] == REQUIRED[k]
      && (c[0] == PASS <==> REQUIRED[k] in files)
      && (c[0] == FAIL <==> REQUIRED[k] !in files)
  {
  }

  /**
   * A warning about an agent file is in the report exactly when that file
   * exists and lacks front-matter.
   */
  lemma WarningIff(files: Files, rootPath: string, p: string)
    requires p in AGENT_FILES
    ensures WarningLine(rootPath, p) in DoctorWorkspace(files, rootPath).warnings <==> Flagged(files, p)
  {
    var ws := DoctorWorkspace(files, rootPath).warnings;
    WarningsExact(files, rootPath, AGENT_FILES);
    assert ws == Warnings(files, rootPath, AGENT_FILES);
    if WarningLine(rootPath, p) in ws {
      var q :| q in AGENT_FILES && Flagged(files, q) && WarningLine(rootPath, p) == WarningLine(rootPath, q);
      WarningLineInjective(rootPath, p, q);
    }
  }

  /** The report has no warning exactly when no agent file is flagged. */
  lemma NoWarningsIff(files: Files, rootPath: string)
    ensures DoctorWorkspace(files, rootPath).warnings == [] <==> forall j | 0 <= j < 3 :: !Flagged(files, AGENT_FILES[j])
  {
    var ws := DoctorWorkspace(files, rootPath).warnings;
    WarningsExact(files, rootPath, AGENT_FILES);
    assert ws == Warnings(files, rootPath, AGENT_FILES);
    if ws != [] {
      assert ws[0] in Warnings(files, rootPath, AGENT_FILES);
      var p :| p in AGENT_FILES && Flagged(files, p) && ws[0] == WarningLine(rootPath, p);
      assert exists j | 0 <= j < 3 :: AGENT_FILES[j] == p;
    }
    assert forall j | 0 <= j < 3 :: AGENT_FILES[j] in AGENT_FILES;
  }

  /** Agent files that all have front-matter (or are missing) draw no warning. */
  lemma NoWarningsWithHeaders(files: Files, rootPath: string)
    requires WORKER_PATH in files ==> HasYamlFrontmatter(files[WORKER_PATH])
    requires VERIFIER_PATH in files ==> HasYamlFrontmatter(files[VERIFIER_PATH])
    requires SEARCHER_PATH in files ==> HasYamlFrontmatter(files[SEARCHER_PATH])
    ensures DoctorWorkspace(files, rootPath).warnings == []
  {
    NoWarningsIff(files, rootPath);
  }

  /** The tips do not depend on the root. */
  lemma TipsFixed(f1: Files, f2: Files, p1: string, p2: string)
    ensures DoctorWorkspace(f1, p1).tips == DoctorWorkspace(f2, p2).tips
    ensures |DoctorWorkspace(f1, p1).tips| == 2
  {
  }
}
