/**
 * The engine's documented behaviours on the shipped catalog, each as one
 * lemma: a fresh enable, a deleted goal file, a corrupted agent file, a
 * marker-less rules file, a rewritten goal file, and an existing ignore-file
 * (the extension's own tests at src/test/suite/extension.test.ts:40-118
 * exercise the same cases).
 */
module Scenarios {
  import opened Wrappers
  import opened Text
  import opened Templates
  import opened Markers
  import opened Catalog
  import opened Reconcile
  import opened Gitignore
  import opened Workspace
  import opened Doctor

  /** Text shorter than the line marker cannot carry any of the three markers. */
  lemma ShortIsUnmanaged(s: string)
    requires |s| < |MANAGED_MARKER|
    ensures !IsManagedContent(s)
  {
    forall i | 0 <= i <= |s|
      ensures !FlagAt(s, i)
    {
      if OccursAt(s, JSON_KEY, i) {
        var a := SkipSpace(s, i + |JSON_KEY|);
        if a < |s| {
          var b := SkipSpace(s, a + 1);
          assert b + |JSON_TRUE| > |s|;
        }
      }
    }
  }

  /** Every required file is present. */
  ghost predicate AllRequired(files: Files) {
    && RULE_PATH in files && WORKER_PATH in files && VERIFIER_PATH in files
    && SEARCHER_PATH in files && START_PATH in files && GOAL_PATH in files
    && PLAN_PATH in files && LEDGER_PATH in files && GITIGNORE in files
  }

  /** With every required file present, every check passes. */
  lemma ChecksPassWhenPresent(files: Files, rootPath: string)
    requires AllRequired(files)
    ensures forall k | 0 <= k < 9 :: DoctorWorkspace(files, rootPath).checks[k][0] == PASS
  {
    forall k | 0 <= k < 9
      ensures DoctorWorkspace(files, rootPath).checks[k][0] == PASS
    {
      CheckPassIff(files, rootPath, k);
    }
  }

  /** Any run with the shipped catalog leaves every required file present. */
  lemma InitCreatesRequired(root: Root, force: bool, now: string)
    ensures AllRequired(InitRoot(root, WORKSPACE_TEMPLATES, force, now).root.files)
  {
    var files := InitRoot(root, WORKSPACE_TEMPLATES, force, now).root.files;
    CatalogIndex();
    assert WORKSPACE_TEMPLATES[1].path in files && WORKSPACE_TEMPLATES[2].path in files;
    assert WORKSPACE_TEMPLATES[3].path in files && WORKSPACE_TEMPLATES[6].path in files;
    assert WORKSPACE_TEMPLATES[7].path in files && WORKSPACE_TEMPLATES[8].path in files;
    assert WORKSPACE_TEMPLATES[9].path in files && WORKSPACE_TEMPLATES[10].path in files;
  }

  /** After any run with the shipped catalog, every check of the report passes. */
  lemma AllChecksPassAfterInit(root: Root, force: bool, now: string, rootPath: string)
    ensures var files := InitRoot(root, WORKSPACE_TEMPLATES, force, now).root.files;
      forall k | 0 <= k < 9 :: DoctorWorkspace(files, rootPath).checks[k][0] == PASS
  {
    InitCreatesRequired(root, force, now);
    ChecksPassWhenPresent(InitRoot(root, WORKSPACE_TEMPLATES, force, now).root.files, rootPath);
  }

  /** A root holding none of the shipped catalog's files and no ignore-file. */
  ghost predicate Empty(root: Root) {
    && GITIGNORE !in root.files
    && forall k | 0 <= k < |WORKSPACE_TEMPLATES| :: WORKSPACE_TEMPLATES[k].path !in root.files
  }

  /** Agent files holding their templates draw no warning. */
  lemma NoWarningsForTemplates(files: Files, rootPath: string)
    requires Get(files, WORKER_PATH) == Some(WORKER.content)
    requires Get(files, VERIFIER_PATH) == Some(VERIFIER.content)
    requires Get(files, SEARCHER_PATH) == Some(SEARCHER.content)
    ensures DoctorWorkspace(files, rootPath).warnings == []
  {
    AgentHeaders();
    NoWarningsWithHeaders(files, rootPath);
  }

  /** Enabling an empty root writes every catalog file with its template text. */
  lemma EmptyRootFilled(root: Root, now: string)
    requires Empty(root)
    ensures var files := InitRoot(root, WORKSPACE_TEMPLATES, false, now).root.files;
      && (forall k | 0 <= k < |WORKSPACE_TEMPLATES| :: Get(files, WORKSPACE_TEMPLATES[k].path) == Some(WORKSPACE_TEMPLATES[k].content))
      && Get(files, GITIGNORE) == Some(BLOCK[1..])
  {
    CatalogWellFormed();
    FreshInit(root, WORKSPACE_TEMPLATES, false, now);
  }

  /**
   * Enabling an empty root: every catalog file is created with its template
   * text, the ignore-file carries the header, the root counts as enabled, and
   * the report passes every check with no warning.
   */
  lemma EnableEmptyRoot(root: Root, now: string, rootPath: string)
    requires Empty(root)
    ensures var r := InitRoot(root, WORKSPACE_TEMPLATES, false, now);
      && (forall k | 0 <= k < |WORKSPACE_TEMPLATES| :: Get(r.root.files, WORKSPACE_TEMPLATES[k].path) == Some(WORKSPACE_TEMPLATES[k].content))
      && Contains(r.root.files[GITIGNORE], HEADER)
      && IsWorkspaceEnabled(r.root.files)
      && (forall k | 0 <= k < 9 :: DoctorWorkspace(r.root.files, rootPath).checks[k][0] == PASS)
      && DoctorWorkspace(r.root.files, rootPath).warnings == []
  {
    var files := InitRoot(root, WORKSPACE_TEMPLATES, false, now).root.files;
    EmptyRootFilled(root, now);
    EnabledAfterInit(root, false, now);
    AllChecksPassAfterInit(root, false, now, rootPath);
    CatalogIndex();
    assert Get(files, WORKSPACE_TEMPLATES[7].path) == Some(WORKSPACE_TEMPLATES[7].content);
    assert Get(files, WORKSPACE_TEMPLATES[8].path) == Some(WORKSPACE_TEMPLATES[8].content);
    assert Get(files, WORKSPACE_TEMPLATES[9].path) == Some(WORKSPACE_TEMPLATES[9].content);
    NoWarningsForTemplates(files, rootPath);
  }

  /** The goal check, sixth in the report, fails and every other check passes. */
  predicate OnlyGoalFails(files: Files, rootPath: string) {
    var checks := DoctorWorkspace(files, rootPath).checks;
    && checks[5][0] == FAIL
    && forall k | 0 <= k < 9 && k != 5 :: checks[k][0] == PASS
  }

  /** Deleting the goal file from a root holding every required file fails exactly the goal check. */
  lemma GoalDeletion(files: Files, rootPath: string)
    requires AllRequired(files)
    ensures OnlyGoalFails(files - {GOAL_PATH}, rootPath)
  {
    var checks := DoctorWorkspace(files - {GOAL_PATH}, rootPath).checks;
    forall k | 0 <= k < 9
      ensures k == 5 ==> checks[k][0] == FAIL
      ensures k != 5 ==> checks[k][0] == PASS
    {
      CheckPassIff(files - {GOAL_PATH}, rootPath, k);
      if k != 5 {
        OnlyGoalIsGoal(k);
      }
    }
  }

  /**
   * After enabling a root, deleting the goal file makes exactly the goal
   * check fail.
   */
  lemma DeletedGoalFails(root: Root, now: string, rootPath: string)
    ensures OnlyGoalFails(InitRoot(root, WORKSPACE_TEMPLATES, false, now).root.files - {GOAL_PATH}, rootPath)
  {
    InitCreatesRequired(root, false, now);
    GoalDeletion(InitRoot(root, WORKSPACE_TEMPLATES, false, now).root.files, rootPath);
  }

  /** No label but the goal's names the goal file: each differs from it in some character. */
  lemma OnlyGoalIsGoal(k: nat)
    requires k < 9 && k != 5
    ensures REQUIRED[k] != GOAL_PATH
  {
    if k == 0 { assert RULE_PATH[1] != GOAL_PATH[1]; }
    else if k == 1 { assert WORKER_PATH[1] != GOAL_PATH[1]; }
    else if k == 2 { assert VERIFIER_PATH[1] != GOAL_PATH[1]; }
    else if k == 3 { assert SEARCHER_PATH[1] != GOAL_PATH[1]; }
    else if k == 4 { assert START_PATH[1] != GOAL_PATH[1]; }
    else if k == 6 { assert PLAN_PATH[4] != GOAL_PATH[4]; }
    else if k == 7 { assert LEDGER_PATH[4] != GOAL_PATH[4]; }
    else { assert GITIGNORE[1] != GOAL_PATH[1]; }
  }

  /** A text opening with the comment marker is managed and has no front-matter. */
  lemma MarkerFirstIsHeaderless(rest: string)
    ensures IsManagedContent(MANAGED_HTML_MARKER + rest)
    ensures !HasYamlFrontmatter(MANAGED_HTML_MARKER + rest)
  {
    var s := MANAGED_HTML_MARKER + rest;
    assert s[..|MANAGED_HTML_MARKER|] == MANAGED_HTML_MARKER;
    StartsWithContains(s, MANAGED_HTML_MARKER);
    assert s[0] == '<';
    VisibleAsciiNotSpace('<');
    TrimStartNoLeadingSpace(s);
  }

  /** The corrupted worker definition of the extension's repair test. */
  const CORRUPTED: string := MANAGED_HTML_MARKER + (NL + "# corrupted" + NL)

  /**
   * A worker definition reduced to the comment marker and a heading is
   * restored, without force, to exactly its template, which has front-matter
   * and the agent's `name:` field.
   */
  lemma CorruptedAgentRestored(root: Root, now: string)
    requires WORKER_PATH in root.files && root.files[WORKER_PATH] == CORRUPTED
    ensures var r := InitRoot(root, WORKSPACE_TEMPLATES, false, now);
      && r.actions[7] == Overwritten
      && Get(r.root.files, WORKER_PATH) == Some(WORKER.content)
      && HasYamlFrontmatter(WORKER.content)
      && Contains(WORKER.content, "name: goalguard-worker")
  {
    CatalogWellFormed();
    CatalogIndex();
    AgentHeaders();
    AgentsNamed();
    MarkerFirstIsHeaderless(NL + "# corrupted" + NL);
    RepairOnInit(root, WORKSPACE_TEMPLATES, now, 7);
  }

  /**
   * A rules file whose marker the user removed is left exactly as it is by a
   * forced run.
   */
  lemma UnmarkedRulesKept(root: Root, now: string)
    requires RULE_PATH in root.files && !IsManagedContent(root.files[RULE_PATH])
    ensures var r := InitRoot(root, WORKSPACE_TEMPLATES, true, now);
      r.actions[6] == Skipped && Get(r.root.files, RULE_PATH) == Some(root.files[RULE_PATH])
  {
    CatalogWellFormed();
    CatalogIndex();
    KeptOnInit(root, WORKSPACE_TEMPLATES, true, now, 6);
  }

  /** A goal file rewritten by the user without the marker survives a forced run. */
  lemma RewrittenGoalKept(root: Root, now: string)
    requires GOAL_PATH in root.files && !IsManagedContent(root.files[GOAL_PATH])
    ensures var r := InitRoot(root, WORKSPACE_TEMPLATES, true, now);
      r.actions[1] == Skipped && Get(r.root.files, GOAL_PATH) == Some(root.files[GOAL_PATH])
  {
    CatalogWellFormed();
    CatalogIndex();
    KeptOnInit(root, WORKSPACE_TEMPLATES, true, now, 1);
  }

  /** The goal text the extension's force test writes. */
  const GOAL_CUSTOM_LINES: seq<string> := ["# custom goal", "", "Do not overwrite."]

  /** The marker-less rules text the extension's force test writes. */
  const CUSTOM_RULES_LINES: seq<string> := [
    "---", "description: user custom", "alwaysApply: true", "---", "", "# Custom", "", "Keep me."
  ]

  /** The command text the extension's force test writes: the comment marker kept, the body replaced. */
  const CUSTOM_COMMAND: string := MANAGED_HTML_MARKER + (NL + "CUSTOM-COMMAND" + NL)

  /** A text lacking a character of `t` does not contain `t` anywhere. */
  lemma MissingCharBlocks(s: string, t: string, j: nat)
    requires j < |t| && Lacks(s, t[j])
    ensures forall i | 0 <= i <= |s| :: !OccursAt(s, t, i)
    ensures !Contains(s, t)
  {
    forall i | 0 <= i <= |s|
      ensures !OccursAt(s, t, i)
    {
      if i + |t| <= |s| {
        assert s[i..i + |t|][j] == s[i + j];
      }
    }
  }

  /** A text with no `M`, `<` or `"` carries none of the three markers. */
  lemma UnmarkedByLetters(s: string)
    requires Lacks(s, 'M') && Lacks(s, '<') && Lacks(s, '"')
    ensures !IsManagedContent(s)
  {
    assert MANAGED_MARKER[9] == 'M' && MANAGED_HTML_MARKER[0] == '<' && JSON_KEY[0] == '"';
    MissingCharBlocks(s, MANAGED_MARKER, 9);
    MissingCharBlocks(s, MANAGED_HTML_MARKER, 0);
    MissingCharBlocks(s, JSON_KEY, 0);
    assert forall i | 0 <= i <= |s| :: !FlagAt(s, i);
  }

  /** None of the characters that open or sit in the markers. */
  predicate LacksMarkerLetters(s: string) {
    Lacks(s, 'M') && Lacks(s, '<') && Lacks(s, '"')
  }

  /** Lines free of those characters make a template text free of them. */
  lemma TLacksMarkerLetters(lines: seq<string>)
    requires forall k | 0 <= k < |lines| :: LacksMarkerLetters(lines[k])
    ensures LacksMarkerLetters(T(lines))
  {
    TLacks(lines, 'M');
    TLacks(lines, '<');
    TLacks(lines, '"');
  }

  /** The custom goal text of the extension's force test carries no marker. */
  lemma CustomGoalUnmarked()
    ensures !IsManagedContent(T(GOAL_CUSTOM_LINES))
  {
    TLacksMarkerLetters(GOAL_CUSTOM_LINES);
    UnmarkedByLetters(T(GOAL_CUSTOM_LINES));
  }

  /** The custom rules text of the extension's force test carries no marker. */
  lemma CustomRulesUnmarked()
    ensures !IsManagedContent(T(CUSTOM_RULES_LINES))
  {
    var l := CUSTOM_RULES_LINES;
    assert LacksMarkerLetters(l[0]) && LacksMarkerLetters(l[1]) && LacksMarkerLetters(l[2]) && LacksMarkerLetters(l[3]);
    assert LacksMarkerLetters(l[4]) && LacksMarkerLetters(l[5]) && LacksMarkerLetters(l[6]) && LacksMarkerLetters(l[7]);
    TLacksMarkerLetters(l);
    UnmarkedByLetters(T(l));
  }

  /** A start command that kept the comment marker is restored to its template by a forced run. */
  lemma ManagedCommandOverwritten(root: Root, now: string)
    requires START_PATH in root.files && root.files[START_PATH] == CUSTOM_COMMAND
    ensures var r := InitRoot(root, WORKSPACE_TEMPLATES, true, now);
      && r.actions[10] == Overwritten
      && Get(r.root.files, START_PATH) == Some(START.content)
      && Contains(START.content, "# /goalguard-start")
  {
    MarkerFirstIsHeaderless(NL + "CUSTOM-COMMAND" + NL);
    CatalogWellFormed();
    StartEntry();
    OverwriteOnForce(root, WORKSPACE_TEMPLATES, now, 10);
  }

  /**
   * The extension's force test: the custom goal and the marker-less rules
   * survive a forced run unchanged, and the marked command is restored.
   */
  lemma ForceReinstallTest(root: Root, now: string)
    requires GOAL_PATH in root.files && root.files[GOAL_PATH] == T(GOAL_CUSTOM_LINES)
    requires RULE_PATH in root.files && root.files[RULE_PATH] == T(CUSTOM_RULES_LINES)
    requires START_PATH in root.files && root.files[START_PATH] == CUSTOM_COMMAND
    ensures var files := InitRoot(root, WORKSPACE_TEMPLATES, true, now).root.files;
      && Get(files, GOAL_PATH) == Some(T(GOAL_CUSTOM_LINES))
      && Get(files, RULE_PATH) == Some(T(CUSTOM_RULES_LINES))
      && Get(files, START_PATH) == Some(START.content)
  {
    CustomGoalUnmarked();
    CustomRulesUnmarked();
    RewrittenGoalKept(root, now);
    UnmarkedRulesKept(root, now);
    ManagedCommandOverwritten(root, now);
  }

  /**
   * An ignore-file with unrelated content and no final newline: the content is
   * kept in full, the header follows on the very next line, and a second run
   * changes nothing.
   */
  lemma IgnoreFileWithoutNewline(root: Root, t1: string, t2: string)
    requires GITIGNORE in root.files && root.files[GITIGNORE] == "node_modules"
    ensures var r1 := InitRoot(root, WORKSPACE_TEMPLATES, false, t1);
      && r1.root.files[GITIGNORE] == "node_modules" + BLOCK
      && InitRoot(r1.root, WORKSPACE_TEMPLATES, false, t2).root.files[GITIGNORE] == r1.root.files[GITIGNORE]
  {
    var c := "node_modules";
    assert c[|c| - 1] == 's';
    VisibleAsciiNotSpace('s');
    TrimEndNoTrailingSpace(c);
    assert !Contains(c, HEADER);
    CatalogWellFormed();
    ExistingIgnoreFile(root, WORKSPACE_TEMPLATES, false, t1, t2);
  }
}
