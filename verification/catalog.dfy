/**
 * The shipped catalog `WORKSPACE_TEMPLATES` (src/templates.ts:26-416) and the
 * facts about it that the reconciliation guarantees rest on.
 *
 * Paths and `managed` flags are exact. Each content is abbreviated to the
 * lines the engine and its checks depend on, verbatim and in their original
 * order: the comment marker and first heading of a Markdown template; the
 * opening `---`, the `name:` field (agents and skill), the line marker and the
 * closing `---` of a front-matter template; the opening brace and the
 * `"goalguardManaged": true` key of the state file. The descriptive prose is
 * left out: no decision reads it.
 */
module Catalog {
  import opened Text
  import opened Templates
  import opened Markers

  const GITIGNORE: string := ".gitignore"

  /** The manifest the pass writes last, over whatever was at that path. */
  const MANIFEST_PATH: string := ".ai/.goalguard-manifest.json"

  const README_PATH: string := ".ai/README.md"
  const GOAL_PATH: string := ".ai/goal.md"
  const PLAN_PATH: string := ".ai/plan.md"
  const LEDGER_PATH: string := ".ai/task-ledger.md"
  const DECISIONS_PATH: string := ".ai/decisions.md"
  const STATE_PATH: string := ".ai/state.json"
  const RULE_PATH: string := ".cursor/rules/100-goalguard-two-layer.mdc"
  const WORKER_PATH: string := ".cursor/agents/goalguard-worker.md"
  const VERIFIER_PATH: string := ".cursor/agents/goalguard-verifier.md"
  const SEARCHER_PATH: string := ".cursor/agents/goalguard-repo-searcher.md"
  const START_PATH: string := ".cursor/commands/goalguard-start.md"
  const SKILL_PATH: string := ".cursor/skills/goalguard-supervisor/SKILL.md"

  const README_LINES: seq<string> := [
    MANAGED_HTML_MARKER,
    "# .ai/ \U{2014} GoalGuard internal workspace memory"
  ]
  const GOAL_LINES: seq<string> := [
    MANAGED_HTML_MARKER,
    "# " + "Goal Contract" + " (single source of truth)"
  ]
  const PLAN_LINES: seq<string> := [MANAGED_HTML_MARKER, "# Plan"]
  const LEDGER_LINES: seq<string> := [MANAGED_HTML_MARKER, "# Task Ledger"]
  const DECISIONS_LINES: seq<string> := [MANAGED_HTML_MARKER, "# Decisions"]
  const STATE_KEY_LINE: string := "  \"goalguardManaged\": true,"
  const STATE_LINES: seq<string> := ["{", STATE_KEY_LINE]
  const RULE_LINES: seq<string> := [
    "---",
    "alwaysApply: true",
    MANAGED_MARKER,
    "---"
  ]
  const WORKER_LINES: seq<string> := [
    "---",
    "name: goalguard-worker",
    MANAGED_MARKER,
    "---"
  ]
  const VERIFIER_LINES: seq<string> := [
    "---",
    "name: goalguard-verifier",
    MANAGED_MARKER,
    "---"
  ]
  const SEARCHER_LINES: seq<string> := [
    "---",
    "name: goalguard-repo-searcher",
    MANAGED_MARKER,
    "---"
  ]
  const START_LINES: seq<string> := [MANAGED_HTML_MARKER, "# /goalguard-start"]
  const SKILL_LINES: seq<string> := [
    "---",
    "name: goalguard-supervisor",
    MANAGED_MARKER,
    "---"
  ]

  const README: Template := Template(README_PATH, T(README_LINES), true)
  const GOAL: Template := Template(GOAL_PATH, T(GOAL_LINES), true)
  const PLAN: Template := Template(PLAN_PATH, T(PLAN_LINES), true)
  const LEDGER: Template := Template(LEDGER_PATH, T(LEDGER_LINES), true)
  const DECISIONS: Template := Template(DECISIONS_PATH, T(DECISIONS_LINES), true)
  const STATE: Template := Template(STATE_PATH, T(STATE_LINES), true)
  const RULE: Template := Template(RULE_PATH, T(RULE_LINES), true)
  const WORKER: Template := Template(WORKER_PATH, T(WORKER_LINES), true)
  const VERIFIER: Template := Template(VERIFIER_PATH, T(VERIFIER_LINES), true)
  const SEARCHER: Template := Template(SEARCHER_PATH, T(SEARCHER_LINES), true)
  const START: Template := Template(START_PATH, T(START_LINES), true)
  const SKILL: Template := Template(SKILL_PATH, T(SKILL_LINES), true)

  /** `WORKSPACE_TEMPLATES`, in the order the engine reconciles them. */
  const WORKSPACE_TEMPLATES: seq<Template> := [
    README, GOAL, PLAN, LEDGER, DECISIONS, STATE,
    RULE, WORKER, VERIFIER, SEARCHER, START, SKILL
  ]

  /**
   * What every catalog must satisfy for the engine's guarantees: unique paths,
   * and every entry `EntryOk`.
   */
  ghost predicate WellFormed(cat: seq<Template>) {
    DistinctPaths(cat) && forall k | 0 <= k < |cat| :: EntryOk(cat[k])
  }

  /**
   * One catalog entry: its path is neither the ignore-file the pass patches
   * afterwards nor the manifest it writes last, its content is still recognisably managed, and an
   * agent-definition content opens with front-matter (so a freshly written
   * agent file is never "repaired").
   */
  predicate EntryOk(t: Template) {
    && t.path != GITIGNORE && t.path != MANIFEST_PATH
    && IsManagedContent(t.content)
    && (IsAgentFilePath(t.path) ==> HasYamlFrontmatter(t.content))
  }

  /** A path that leaves `.cursor/agents/` somewhere in its first 15 characters is no agent file. */
  lemma NotAgentByChar(p: string, i: nat)
    requires i < |AGENTS_DIR| && i < |p| && p[i] != AGENTS_DIR[i]
    ensures !IsAgentFilePath(p)
  {
  }

  /** A template whose first line is the comment marker is managed. */
  lemma HtmlFirstIsManaged(lines: seq<string>)
    requires |lines| > 0 && lines[0] == MANAGED_HTML_MARKER
    ensures IsManagedContent(T(lines))
  {
    TContainsLine(lines, 0);
  }

  /**
   * A front-matter template: it opens with `---` and carries the line marker at
   * line `k`, so it is managed and has front-matter.
   */
  lemma FrontmatterTemplate(lines: seq<string>, k: nat)
    requires |lines| > k && lines[0] == FRONTMATTER_FENCE && lines[k] == MANAGED_MARKER
    ensures IsManagedContent(T(lines)) && HasYamlFrontmatter(T(lines))
  {
    TContainsLine(lines, k);
    TStartsWithFirstLine(lines);
    FenceFirstHasFrontmatter(T(lines));
  }

  /** The key line of the state file matches the JSON flag with one space after the colon. */
  lemma KeyLineMatchesFlag()
    ensures MatchesManagedFlag(STATE_KEY_LINE)
  {
    assert forall k | 0 <= k < 18 :: STATE_KEY_LINE[2 + k] == JSON_KEY[k];
    assert forall k | 0 <= k < 4 :: STATE_KEY_LINE[22 + k] == JSON_TRUE[k];
    assert STATE_KEY_LINE[20] == ':' && STATE_KEY_LINE[21..22] == " ";
    assert RegexSplit(STATE_KEY_LINE, 2, 20, 22);
    MatchesManagedFlagIsRegex(STATE_KEY_LINE);
  }

  /** The key line does not contain the line marker: its key is quoted. */
  lemma KeyLineLacksMarker()
    ensures !Contains(STATE_KEY_LINE, MANAGED_MARKER)
  {
    var s := STATE_KEY_LINE;
    assert |s| == 27;
    forall i | 0 <= i <= |s|
      ensures !OccursAt(s, MANAGED_MARKER, i)
    {
      if i + |MANAGED_MARKER| <= |s| {
        assert s[i..i + 22][15] == s[i + 15] && s[i..i + 22][16] == s[i + 16];
      }
    }
  }

  /** The state file is managed through the JSON flag. */
  lemma StateMatchesFlag()
    ensures MatchesManagedFlag(STATE.content)
  {
    TTwoLines("{", STATE_KEY_LINE);
    KeyLineMatchesFlag();
    FlagInContext("{" + NL, STATE_KEY_LINE, NL);
  }

  /**
   * The state file does not contain the line marker: the marker has neither
   * a brace nor a newline, so an occurrence would lie within the key line.
   */
  lemma StateLacksLineMarker()
    ensures !Contains(STATE.content, MANAGED_MARKER)
  {
    var s := STATE.content;
    var a := "{" + NL;
    TTwoLines("{", STATE_KEY_LINE);
    assert s == a + STATE_KEY_LINE + NL;
    assert |s| == 30 && s[0] == '{' && s[1] == '\n' && s[29] == '\n';
    KeyLineLacksMarker();
    forall i | 0 <= i <= |s|
      ensures !OccursAt(s, MANAGED_MARKER, i)
    {
      if i + |MANAGED_MARKER| <= |s| {
        if i < 2 {
          assert s[i..i + 22][0] == s[i];
        } else if i == 8 {
          assert s[i..i + 22][21] == s[29];
        } else {
          OccursWithinMiddle(a, STATE_KEY_LINE, NL, MANAGED_MARKER, i);
        }
      }
    }
  }

  /**
   * The state file matches the JSON flag but carries no line marker: only the
   * regular expression makes it managed.
   */
  lemma StateIsManagedByFlagOnly()
    ensures MatchesManagedFlag(STATE.content)
    ensures !Contains(STATE.content, MANAGED_MARKER)
  {
    StateMatchesFlag();
    StateLacksLineMarker();
  }

  /** No path in rows `lo` to `hi - 1` recurs further down the catalog. */
  ghost predicate PathsUniqueFrom(cat: seq<Template>, lo: int, hi: int) {
    forall i, j | 0 <= lo <= i < hi && i < j < |cat| :: cat[i].path != cat[j].path
  }

  lemma PathsUnique0() ensures PathsUniqueFrom(WORKSPACE_TEMPLATES, 0, 3) { }

  lemma PathsUnique3() ensures PathsUniqueFrom(WORKSPACE_TEMPLATES, 3, 6) { }

  lemma PathsUnique6() ensures PathsUniqueFrom(WORKSPACE_TEMPLATES, 6, 9) { }

  lemma PathsUnique9() ensures PathsUniqueFrom(WORKSPACE_TEMPLATES, 9, 12) { }

  /** The shipped catalog has no two entries with the same path. */
  lemma CatalogDistinctPaths()
    ensures DistinctPaths(WORKSPACE_TEMPLATES)
  {
    PathsUnique0();
    PathsUnique3();
    PathsUnique6();
    PathsUnique9();
    forall i, j | 0 <= i < j < |WORKSPACE_TEMPLATES|
      ensures WORKSPACE_TEMPLATES[i].path != WORKSPACE_TEMPLATES[j].path
    {
      if i < 3 {
      } else if i < 6 {
      } else if i < 9 {
      } else {
      }
    }
  }

  /** A non-agent template whose first line is the comment marker. */
  lemma HtmlEntry(t: Template, lines: seq<string>, i: nat)
    requires t.path != GITIGNORE && t.path != MANIFEST_PATH && t.content == T(lines)
    requires |lines| > 0 && lines[0] == MANAGED_HTML_MARKER
    requires i < |AGENTS_DIR| && i < |t.path| && t.path[i] != AGENTS_DIR[i]
    ensures EntryOk(t)
  {
    HtmlFirstIsManaged(lines);
    NotAgentByChar(t.path, i);
  }

  lemma ReadmeOk() ensures EntryOk(README) { HtmlEntry(README, README_LINES, 1); }
  lemma GoalOk() ensures EntryOk(GOAL) { HtmlEntry(GOAL, GOAL_LINES, 1); }
  lemma PlanOk() ensures EntryOk(PLAN) { HtmlEntry(PLAN, PLAN_LINES, 1); }
  lemma LedgerOk() ensures EntryOk(LEDGER) { HtmlEntry(LEDGER, LEDGER_LINES, 1); }
  lemma DecisionsOk() ensures EntryOk(DECISIONS) { HtmlEntry(DECISIONS, DECISIONS_LINES, 1); }
  lemma StartOk() ensures EntryOk(START) { HtmlEntry(START, START_LINES, 8); }

  lemma StateOk() ensures EntryOk(STATE)
  {
    StateMatchesFlag();
    NotAgentByChar(STATE_PATH, 1);
  }

  lemma RuleOk() ensures EntryOk(RULE)
  {
    FrontmatterTemplate(RULE_LINES, 2);
    NotAgentByChar(RULE_PATH, 8);
  }

  lemma SkillOk() ensures EntryOk(SKILL)
  {
    FrontmatterTemplate(SKILL_LINES, 2);
    NotAgentByChar(SKILL_PATH, 8);
  }

  /**
   * An agent-definition entry: under the agents directory and opening with
   * the front-matter fence whose block carries the line marker.
   */
  lemma AgentEntry(t: Template, lines: seq<string>, k: nat)
    requires t.path != GITIGNORE && t.path != MANIFEST_PATH && IsAgentFilePath(t.path) && t.content == T(lines)
    requires |lines| > k && lines[0] == FRONTMATTER_FENCE && lines[k] == MANAGED_MARKER
    ensures EntryOk(t) && IsAgentFilePath(t.path) && HasYamlFrontmatter(t.content)
  {
    FrontmatterTemplate(lines, k);
  }

  lemma WorkerOk() ensures EntryOk(WORKER) && IsAgentFilePath(WORKER.path) && HasYamlFrontmatter(WORKER.content) { AgentEntry(WORKER, WORKER_LINES, 2); }
  lemma VerifierOk() ensures EntryOk(VERIFIER) && IsAgentFilePath(VERIFIER.path) && HasYamlFrontmatter(VERIFIER.content) { AgentEntry(VERIFIER, VERIFIER_LINES, 2); }
  lemma SearcherOk() ensures EntryOk(SEARCHER) && IsAgentFilePath(SEARCHER.path) && HasYamlFrontmatter(SEARCHER.content) { AgentEntry(SEARCHER, SEARCHER_LINES, 2); }

  /** Each agent definition names its agent in the `name:` field. */
  lemma AgentsNamed()
    ensures Contains(WORKER.content, "name: goalguard-worker")
    ensures Contains(VERIFIER.content, "name: goalguard-verifier")
    ensures Contains(SEARCHER.content, "name: goalguard-repo-searcher")
  {
    TContainsLine(WORKER_LINES, 1);
    TContainsLine(VERIFIER_LINES, 1);
    TContainsLine(SEARCHER_LINES, 1);
  }

  /** Entry `k` of the shipped catalog is sound, one index at a time. */
  lemma Entry0() ensures EntryOk(WORKSPACE_TEMPLATES[0]) { ReadmeOk(); }
  lemma Entry1() ensures EntryOk(WORKSPACE_TEMPLATES[1]) { GoalOk(); }
  lemma Entry2() ensures EntryOk(WORKSPACE_TEMPLATES[2]) { PlanOk(); }
  lemma Entry3() ensures EntryOk(WORKSPACE_TEMPLATES[3]) { LedgerOk(); }
  lemma Entry4() ensures EntryOk(WORKSPACE_TEMPLATES[4]) { DecisionsOk(); }
  lemma Entry5() ensures EntryOk(WORKSPACE_TEMPLATES[5]) { StateOk(); }
  lemma Entry6() ensures EntryOk(WORKSPACE_TEMPLATES[6]) { RuleOk(); }
  lemma Entry7() ensures EntryOk(WORKSPACE_TEMPLATES[7]) { WorkerOk(); }
  lemma Entry8() ensures EntryOk(WORKSPACE_TEMPLATES[8]) { VerifierOk(); }
  lemma Entry9() ensures EntryOk(WORKSPACE_TEMPLATES[9]) { SearcherOk(); }
  lemma Entry10() ensures EntryOk(WORKSPACE_TEMPLATES[10]) { StartOk(); }
  lemma Entry11() ensures EntryOk(WORKSPACE_TEMPLATES[11]) { SkillOk(); }

  /** The shipped catalog satisfies `WellFormed`. */
  lemma CatalogWellFormed()
    ensures WellFormed(WORKSPACE_TEMPLATES)
  {
    CatalogDistinctPaths();
    forall k | 0 <= k < |WORKSPACE_TEMPLATES|
      ensures EntryOk(WORKSPACE_TEMPLATES[k])
    {
      if k == 0 { Entry0(); }
      else if k == 1 { Entry1(); }
      else if k == 2 { Entry2(); }
      else if k == 3 { Entry3(); }
      else if k == 4 { Entry4(); }
      else if k == 5 { Entry5(); }
      else if k == 6 { Entry6(); }
      else if k == 7 { Entry7(); }
      else if k == 8 { Entry8(); }
      else if k == 9 { Entry9(); }
      else if k == 10 { Entry10(); }
      else { Entry11(); }
    }
  }

  /** Where the report's files sit in the shipped catalog. */
  lemma CatalogIndex()
    ensures |WORKSPACE_TEMPLATES| == 12
    ensures WORKSPACE_TEMPLATES[1].path == GOAL_PATH && WORKSPACE_TEMPLATES[2].path == PLAN_PATH
    ensures WORKSPACE_TEMPLATES[3].path == LEDGER_PATH && WORKSPACE_TEMPLATES[6].path == RULE_PATH
    ensures WORKSPACE_TEMPLATES[7] == WORKER && WORKSPACE_TEMPLATES[8] == VERIFIER
    ensures WORKSPACE_TEMPLATES[9] == SEARCHER && WORKSPACE_TEMPLATES[10].path == START_PATH
  {
  }

  /** The three agent definitions sit under the agents directory and open with front-matter. */
  lemma AgentHeaders()
    ensures IsAgentFilePath(WORKER.path) && HasYamlFrontmatter(WORKER.content)
    ensures IsAgentFilePath(VERIFIER.path) && HasYamlFrontmatter(VERIFIER.content)
    ensures IsAgentFilePath(SEARCHER.path) && HasYamlFrontmatter(SEARCHER.content)
  {
    WorkerOk();
    VerifierOk();
    SearcherOk();
  }

  /** The goal contract sits second in the catalog and names itself in its heading. */
  lemma GoalEntry()
    ensures WORKSPACE_TEMPLATES[1] == GOAL
    ensures Contains(GOAL.content, "Goal Contract")
  {
    var line := GOAL_LINES[1];
    TContainsLine(GOAL_LINES, 1);
    OccursInMiddle("# ", "Goal Contract", " (single source of truth)");
    OccursContains(line, "Goal Contract", 2);
    ContainsTransitive(GOAL.content, line, "Goal Contract");
  }

  /** The start command sits eleventh in the catalog and carries its heading. */
  lemma StartEntry()
    ensures WORKSPACE_TEMPLATES[10] == START
    ensures Contains(START.content, "# /goalguard-start")
  {
    TContainsLine(START_LINES, 1);
  }

  /** Every shipped entry is managed, so only the marker gate protects a user's edits. */
  lemma AllManaged()
    ensures forall k | 0 <= k < |WORKSPACE_TEMPLATES| :: WORKSPACE_TEMPLATES[k].managed
  {
  }

  /** Every shipped content is built by `T`, so every template file ends with a newline. */
  lemma AllEndWithNewline()
    ensures forall k | 0 <= k < |WORKSPACE_TEMPLATES| :: EndsWith(WORKSPACE_TEMPLATES[k].content, NL)
  {
  }
}
