# GoalGuard template reconciliation, in Dafny

GoalGuard is a Cursor extension. When a user runs "Enable in Workspace", it
writes a fixed catalog of twelve template files into every workspace folder:

- the `.ai/` memory files;
- the `.cursor/` rule, agent definitions, command and skill;
- a sentinel block in `.gitignore`;
- a manifest.

This project models that reconciliation engine and proves the promises it
makes:

- a missing file is created;
- an existing file is left alone unless a forced reinstall finds it still
  marked as managed;
- a managed agent definition that has lost its YAML front-matter is
  repaired;
- the `.gitignore` block is added exactly once;
- running twice is the same as running once.

The same logic exists in four places, and all four are modelled:

- the extension (`src/workspace.ts`);
- the stand-alone installer `scripts/goalguard-init.mjs`;
- the two verification scripts, `scripts/verify-workspace-init.js` and
  `scripts/test-catch-failure.js`. These create files only, use a smaller
  `.gitignore` block, and turn assertion results into exit codes.

The files of a root are a `map<string, string>` from root-relative path to
text. A missing key means a missing file.

## Modules

| module | file | contents |
|---|---|---|
| `Wrappers` | wrappers.dfy | `Option` |
| `Text` | text.dfy | whitespace, `trimStart`, the trailing-whitespace strip, substring search |
| `Templates` | templates.dfy | the `Template` record and the `T(lines)` line joiner |
| `Markers` | markers.dfy | the three predicates `isManagedContent`, `hasYamlFrontmatter` and `isAgentFilePath`, with the JSON-flag regular expression |
| `Catalog` | catalog.dfy | `WORKSPACE_TEMPLATES` and the facts the engine relies on |
| `Reconcile` | reconcile.dfy | `writeTemplate` and the template loop |
| `Gitignore` | gitignore.dfy | the extension's `patchGitignore` |
| `Workspace` | workspace.dfy | one folder of `initWorkspaceFolders`, the manifest and `isWorkspaceEnabled` |
| `Doctor` | doctor.dfy | `doctorWorkspace` |
| `Cli` | cli.dfy | `parseArgs`, `writeTemplate` and `main` of the installer |
| `Replica` | replica.dfy | the create-only enable, the variant `patchGitignore`, `runAssertions` and the exit decisions of the two scripts |
| `Scenarios` | scenarios.dfy | the extension's integration tests, as lemmas about the model |

## Notes on the code

- **No blank line before the `.gitignore` header.** For an existing
  `.gitignore`, the code strips all trailing whitespace and then appends a
  block that starts with a single newline. The header therefore comes on the
  line directly after the last non-blank line of the old text
  (`Gitignore.NoBlankLineBeforeHeader`).
- **Both scripts use a broader sentinel.** Their `.gitignore` check also
  accepts any text containing a newline followed by `.ai/`. A file can
  therefore count as patched for the scripts and not for the extension
  (`Replica.SentinelsDiffer`).
- **A trailing `--workspace` flag fails the installer.** When
  `--workspace`/`-w` is the last argument, `argv[++i]` is `undefined`. Then
  `path.resolve` throws, and the installer exits with status 1
  (`Cli.TrailingWorkspaceFlag`, `Cli.Installer`).
- **The installer shares the extension's definitions.** The installer's
  predicates and `patchGitignore` are textually identical to the
  extension's, so the model uses one definition for both. The installer's
  `writeTemplate` is modelled separately (`Cli.WriteTemplate`) and proved
  equal to the extension's.

## Model

| member | source | states |
|---|---|---|
| Text.TrimStart | src/workspace.ts:32 | `trimStart()`: the result is a suffix of the input, everything dropped is whitespace, and the result does not start with whitespace |
| Text.TrimEnd | src/workspace.ts:106 | `replace(/\s*$/, "")`: the result is a prefix of the input, everything dropped is whitespace, and no shorter prefix leaves only whitespace behind |
| Text.TrimStartAt | src/workspace.ts:32 | trimming at the first non-space character gives exactly the text from that character on |
| Templates.T | src/templates.ts:21 | `T(lines)` always ends with a newline |
| Templates.TStartsWithFirstLine | src/templates.ts:21 | a joined template starts with its first line |
| Templates.TContainsLine | src/templates.ts:21 | every line of a template occurs in the joined text |
| Templates.TLacks | src/templates.ts:21 | a character other than the newline that no line contains is absent from the joined text |
| Markers.SkipSpace | src/workspace.ts:40 | the `\s*` of the JSON-flag regex: the position reached is after a run of whitespace and is the end of the text or a non-space |
| Markers.MatchesManagedFlagIsRegex | src/workspace.ts:40 | the greedy matcher accepts a text exactly when some split of it matches `"goalguardManaged"\s*:\s*true` |
| Markers.FlagAtIsRegexSplit | src/workspace.ts:40 | every greedy match is a match of the regular expression |
| Markers.RegexSplitIsFlagAt | src/workspace.ts:40 | every match of the regular expression is found by the greedy matcher |
| Markers.FlagInContext | src/workspace.ts:40 | the JSON flag still matches when text is added on either side |
| Markers.MatchesManagedFlag | src/workspace.ts:40 | the JSON-flag test: `"goalguardManaged"`, optional whitespace, a colon, optional whitespace and `true` occur somewhere in the text; `Markers.MatchesManagedFlagIsRegex` proves this is the regular expression |
| Markers.IsManagedContent | src/workspace.ts:39-41 | `isManagedContent`: the text holds the line marker, or the comment marker, or matches the JSON flag |
| Markers.HasYamlFrontmatter | src/workspace.ts:31-33 | `hasYamlFrontmatter`: the text with its leading whitespace removed starts with `---`; `Markers.HasYamlFrontmatterIff` restates this without trimming |
| Markers.IsAgentFilePath | src/workspace.ts:35-37 | `isAgentFilePath`: the path lies under `.cursor/agents/` and ends with `.md` |
| Markers.HasYamlFrontmatterIff | src/workspace.ts:31-33 | a text has front-matter exactly when, after some whitespace, it continues with `---` |
| Markers.FenceFirstHasFrontmatter | src/workspace.ts:31-33 | a text that starts with `---` has front-matter |
| Catalog.HtmlFirstIsManaged | src/workspace.ts:39-41 | a template whose first line is the HTML marker counts as managed content |
| Catalog.FrontmatterTemplate | src/templates.ts:146-155 | a template opened by `---` and carrying the line marker is managed content and has front-matter |
| Catalog.NotAgentByChar | src/workspace.ts:35-37 | a path that differs from `.cursor/agents/` at some position inside that prefix is not an agent path |
| Catalog.StateIsManagedByFlagOnly | src/templates.ts:120-141 | the state file is recognised as managed only through the JSON flag, since it lacks the line marker |
| Catalog.CatalogDistinctPaths | src/templates.ts:26-416 | no two catalog entries share a path |
| Catalog.CatalogWellFormed | src/templates.ts:26-416 | all paths differ, no entry is at `.gitignore` or at the manifest's path, every entry's content is managed content, and every entry at an agent path opens with front-matter |
| Catalog.CatalogIndex | src/templates.ts:26-416 | the catalog has twelve entries, in the order goal, plan, ledger, rule, worker, verifier, searcher and command at positions 1, 2, 3, 6, 7, 8, 9 and 10 |
| Catalog.AgentHeaders | src/templates.ts:281-365 | each of the three agent definitions has an agent path and opens with front-matter |
| Catalog.AgentsNamed | src/templates.ts:281-365 | each agent definition carries its `name:` field |
| Catalog.GoalEntry | src/templates.ts:49-76 | entry 1 is the goal template, which contains "Goal Contract" |
| Catalog.StartEntry | src/templates.ts:368-385 | entry 10 is the start command, which contains `# /goalguard-start` |
| Catalog.AllEndWithNewline | src/templates.ts:20-21 | every shipped template's content ends with a newline |
| Catalog.AllManaged | src/templates.ts:26-416 | every shipped entry is flagged `managed: true` |
| Reconcile.Get | src/workspace.ts:59-64 | the existence check and read of one file: `Some` exactly when the file exists, holding its text |
| Reconcile.NeedsRepair | src/workspace.ts:66-72 | the repair condition: no force, a managed entry at an agent path, and existing text that is managed but has no front-matter |
| Reconcile.WriteTemplate | src/workspace.ts:47-92 | `writeTemplate`: `created` exactly when the file was missing; `skipped` writes nothing; otherwise the file becomes the template text; a file without markers, or at an unmanaged entry, is never changed |
| Reconcile.CreateRule | src/workspace.ts:59-62 | unfolding of the missing-file branch: a missing file is created with exactly the template text |
| Reconcile.NonForceRule | src/workspace.ts:66-79 | unfolding of the branch without force: an existing file is overwritten exactly when it is a marked agent file of a managed entry without front-matter, and skipped otherwise |
| Reconcile.ForceRule | src/workspace.ts:81-91 | unfolding of the forced branch: an existing file is overwritten exactly when the entry is managed and the file still carries a marker |
| Reconcile.OverwriteIff | src/workspace.ts:64-91 | an existing file is overwritten exactly when the repair or force conditions hold, and skipped exactly when they do not |
| Reconcile.WriteIsLocal | src/workspace.ts:53-64 | the action depends only on the file at the entry's own path |
| Reconcile.Paths | src/workspace.ts:131 | the catalog's paths, one per entry, in order |
| Reconcile.ReconcileAll | src/workspace.ts:131-135 | the template loop: one action per entry; no file is removed; every catalog path exists afterwards; files outside the catalog are untouched |
| Reconcile.ReconcileEntry | src/workspace.ts:131-135 | with distinct paths, each entry of the loop acts as if it were reconciled alone against the starting files |
| Reconcile.ReconcileFirst | src/workspace.ts:131-135 | the first entry's action and text survive the rest of the loop |
| Reconcile.SettledPass | src/workspace.ts:131-135 | a loop over files that no entry would change leaves them unchanged |
| Reconcile.SettledOutside | src/workspace.ts:131-135 | whether the loop would change anything depends only on the catalog's paths |
| Reconcile.SettledAfterPass | src/workspace.ts:66-79 | after any loop, no entry would change a file in a loop without force |
| Reconcile.SettledAfterForce | src/workspace.ts:81-91 | after a forced loop, another forced loop would change no file |
| Reconcile.PassIdempotent | src/workspace.ts:131-135 | a loop without force after any loop skips every entry and changes nothing |
| Reconcile.ForcePassIdempotent | src/workspace.ts:81-91 | a second forced loop leaves every file as the first one left it |
| Reconcile.FreshPass | src/workspace.ts:59-62 | on a root with none of the catalog's files, every entry is created with exactly its template text |
| Reconcile.UserFilesKept | src/workspace.ts:82-88 | a file at an unmanaged entry's path, or one without any marker, comes out of any loop unchanged |
| Gitignore.BlockIsJoinedLines | src/workspace.ts:97 | the block is the six lines joined by newlines |
| Gitignore.HeaderInBlock | src/workspace.ts:97 | unfolding of the block constant: the block is a newline followed by the header |
| Gitignore.BlockCharacters | src/workspace.ts:97 | `#` occurs in the block only where the header starts |
| Gitignore.HeaderCharacters | src/workspace.ts:97 | the header is one line and opens with `#` |
| Gitignore.TrimmedBlock | src/workspace.ts:100 | `block.trimStart()` is the block without its leading newline |
| Gitignore.PatchGitignore | src/workspace.ts:94-107 | `patchGitignore`: the result always carries the header, and an existing file keeps all its text up to its trailing whitespace |
| Gitignore.AbsentPatch | src/workspace.ts:99-102 | a missing ignore-file becomes the block without its leading newline, starting with the header |
| Gitignore.PatchedIsKept | src/workspace.ts:105 | unfolding of the already-patched branch: a file that already contains the header is left exactly as it is |
| Gitignore.UnpatchedIsAppended | src/workspace.ts:106 | unfolding of the appending branch: the trailing whitespace is cut and the block is appended |
| Gitignore.PatchIdempotent | src/workspace.ts:94-107 | patching twice gives the same text as patching once |
| Gitignore.HeaderExactlyOnce | src/workspace.ts:106 | after appending, the header occurs exactly once, just after the trimmed text and its newline |
| Gitignore.NoOtherHeader | src/workspace.ts:106 | no occurrence of the header sits in the old text, straddles the join or starts later in the block |
| Gitignore.NoBlankLineBeforeHeader | src/workspace.ts:106 | the header line directly follows the last non-blank line of the old text |
| Workspace.ManifestEntries | src/workspace.ts:146 | one `{path, managed}` record per entry, in catalog order |
| Workspace.ManifestPaths | src/workspace.ts:146 | the manifest lists exactly the catalog's paths, in order |
| Workspace.InitRoot | src/workspace.ts:114-149 | one folder: every catalog path exists, the ignore-file carries the header, no file other than the manifest's is removed, files outside the catalog, the ignore-file and the manifest are untouched, and the manifest is written anew: version 1, stamped `now`, with no `installedAt`, mirroring the catalog |
| Workspace.ManifestReplaced | src/workspace.ts:140-148 | the manifest a run leaves does not depend on what was at its path before: two roots give the same manifest, and no text survives at that path |
| Workspace.InitOrder | src/workspace.ts:131-138 | the template loop runs first on the original ignore-file, and the patch is applied on top of its result |
| Workspace.NotInPaths | src/workspace.ts:131 | a path no entry has is not among the catalog's paths |
| Workspace.InitWorkspaceFolders | src/workspace.ts:109-150 | every folder is reconciled in turn, each with its own clock reading |
| Workspace.WellFormedFacts | src/templates.ts:26-416 | a well-formed catalog has distinct paths, front-matter on its agent templates, and no entry at `.gitignore` or at the manifest's path |
| Workspace.InitIdempotent | src/workspace.ts:109-150 | a run without force after any run skips every entry and changes no file; only the manifest's `updatedAt` moves |
| Workspace.ForceInitIdempotent | src/workspace.ts:81-107 | a forced run after a forced run changes no file |
| Workspace.FreshInit | src/workspace.ts:59-62 | on a fresh root, every entry is created with its template text, and `.gitignore` is the block without its leading newline |
| Workspace.ExistingIgnoreFile | src/workspace.ts:104-106 | an ignore-file without the header becomes its trimmed text plus the block, holds the header exactly once, and is unchanged by the next run |
| Workspace.IsWorkspaceEnabled | src/workspace.ts:152-155 | `isWorkspaceEnabled`: the root is enabled exactly when the two-layer rule file exists; `Workspace.EnabledAfterInit` proves every run enables it |
| Workspace.EnabledAfterInit | src/workspace.ts:152-155 | after any run with the shipped catalog, the workspace counts as enabled |
| Workspace.RepairOnInit | src/workspace.ts:66-77 | without force, a marked agent file of a managed entry that lost its front-matter is restored to its template text |
| Workspace.OverwriteOnForce | src/workspace.ts:81-91 | a forced run overwrites a marked file of a managed entry with its template text |
| Workspace.KeptOnInit | src/workspace.ts:82-88 | a file at an unmanaged entry, or one without markers, is skipped and kept, whatever the force flag |
| Workspace.HeaderlessAgentIsUserOwned | src/workspace.ts:66-91 | after any run, a managed agent file without front-matter existed before, carries no marker, and was kept as it was |
| Doctor.CheckLine | src/workspace.ts:177 | a check line is the mark, a space and the label; the mark is the check sign exactly when the file exists |
| Doctor.FsPath | src/workspace.ts:190 | the file-system path ends with the relative path after the root and a separator |
| Doctor.WarningLine | src/workspace.ts:190 | a warning begins with the warning sign and text |
| Doctor.WarningLineInjective | src/workspace.ts:190 | two warnings for the same root are equal only when they are about the same file |
| Doctor.Checks | src/workspace.ts:176-178 | one check line per required label, in order, each passing exactly when that file exists |
| Doctor.Warnings | src/workspace.ts:181-192 | the warning loop: at most one warning per agent path; `Doctor.WarningsExact` states which |
| Doctor.WarningsExact | src/workspace.ts:186-192 | every warning is about an existing agent file without front-matter, and every such file gets its warning |
| Doctor.DoctorWorkspace | src/workspace.ts:157-198 | nine checks, at most three warnings, and the two fixed tips |
| Doctor.CheckPassIff | src/workspace.ts:160-178 | check `k` names the `k`-th required file and shows the check sign exactly when that file exists, and the cross exactly when it is missing |
| Doctor.WarningIff | src/workspace.ts:181-192 | a warning about an agent file appears exactly when the file exists and lacks front-matter |
| Doctor.NoWarningsIff | src/workspace.ts:181-192 | the report has no warning exactly when no agent file is flagged |
| Doctor.NoWarningsWithHeaders | src/workspace.ts:186-192 | agent files that all have front-matter, or are missing, draw no warning |
| Doctor.TipsFixed | src/workspace.ts:194-195 | the two tips are the same for every root |
| Cli.Tokens | scripts/goalguard-init.mjs:11-19 | the argument loop as a token list: `--workspace`/`-w` consumes the next argument, and there are never more tokens than arguments |
| Cli.TokensAt | scripts/goalguard-init.mjs:11-13 | unfolding of one loop step: from position `i`, a workspace flag reads the next argument, or `undefined` at the end, and skips it; any other argument is one token |
| Cli.ApplyCons | scripts/goalguard-init.mjs:13-18 | unfolding of one token: its effect is to set the workspace, set force, stop with help, or nothing |
| Cli.Apply | scripts/goalguard-init.mjs:13-18 | the branches of the argument loop applied to the tokens in order; the first help flag ends the loop with help; its meaning is stated by `Cli.HelpIff`, `Cli.ForceIff` and `Cli.LastWorkspaceWins` |
| Cli.ParseArgs | scripts/goalguard-init.mjs:9-21 | `parseArgs`: starting from the current directory and no force, the arguments after the second are applied in order |
| Cli.ParseDefaults | scripts/goalguard-init.mjs:10 | with no arguments, the workspace is the current directory and force is off |
| Cli.HelpIff | scripts/goalguard-init.mjs:15-18 | the result is help exactly when some argument is a help flag in flag position |
| Cli.ForceIff | scripts/goalguard-init.mjs:14 | without help, force is on exactly when it was on already or some argument is a force flag |
| Cli.WorkspaceDefault | scripts/goalguard-init.mjs:10-13 | without a workspace flag, the workspace stays the default |
| Cli.LastWorkspaceWins | scripts/goalguard-init.mjs:13 | the last workspace flag decides the workspace |
| Cli.FlagAfterWorkspaceIsValue | scripts/goalguard-init.mjs:13 | the argument after `-w` is its value, even when it looks like a flag |
| Cli.TrailingWorkspaceFlag | scripts/goalguard-init.mjs:13 | a `-w` at the end leaves the workspace undefined |
| Cli.NoFlagTokens | scripts/goalguard-init.mjs:11-19 | arguments without workspace or help flags give one token each and split cleanly |
| Cli.WriteTemplate | scripts/goalguard-init.mjs:67-86 | the installer's `writeTemplate`: the entry's path exists afterwards and no file is removed |
| Cli.WriteTemplateAgrees | scripts/goalguard-init.mjs:67-86 | the installer's `writeTemplate` equals the extension's on every input |
| Cli.Pass | scripts/goalguard-init.mjs:101-103 | the installer's template loop: no file is removed and every catalog path exists afterwards |
| Cli.PassAgrees | scripts/goalguard-init.mjs:101-103 | the installer's loop produces the same files as the extension's |
| Cli.Install | scripts/goalguard-init.mjs:101-112 | one installer run on a root gives the same root as the extension's folder step |
| Cli.Installer | scripts/goalguard-init.mjs:88-120 | `main`: help exits 0 and changes nothing; an undefined workspace throws and exits 1, changing nothing; otherwise the resolved root is reconciled and the run exits 0 |
| Cli.InstallIdempotent | scripts/goalguard-init.mjs:88-115 | a second installer run without force changes no file |
| Replica.ReplicaPatch | scripts/verify-workspace-init.js:40-50 | the scripts' `patchGitignore`: the result passes the scripts' sentinel, keeps an existing file's text up to its trailing whitespace, and carries the header whenever it had to patch |
| Replica.ReplicaHeader | scripts/verify-workspace-init.js:42 | unfolding of the scripts' block constant: it is a newline followed by the header |
| Replica.ReplicaTrimmed | scripts/verify-workspace-init.js:44 | unfolding of the missing-file branch: a missing file gets the block without its leading newline, which starts with the header |
| Replica.AbsentReplicaPatch | scripts/verify-workspace-init.js:43-46 | a missing ignore-file becomes the block without its leading newline |
| Replica.ReplicaUnchangedIff | scripts/verify-workspace-init.js:47-49 | the text is unchanged exactly when it carries the header or a newline followed by `.ai/`; otherwise the trimmed text gets the block appended |
| Replica.ReplicaIdempotent | scripts/verify-workspace-init.js:40-50 | patching twice gives the same text as patching once |
| Replica.ReplicaKeepsExtensionPatch | scripts/verify-workspace-init.js:48 | the scripts accept any file the extension has patched |
| Replica.ExtensionKeepsReplicaPatch | src/workspace.ts:105 | the extension accepts any file the scripts had to patch |
| Replica.NoHashNoHeader | src/workspace.ts:105 | text without `#` never contains the header |
| Replica.SentinelsDiffer | scripts/verify-workspace-init.js:48 | a file with `.ai/` on a line of its own and no `#` is left alone by the scripts but patched by the extension |
| Replica.CreateMissing | scripts/verify-workspace-init.js:64-70 | the create-only loop: existing files are unchanged, every catalog path exists, and new files are catalog paths |
| Replica.CreatedContent | scripts/verify-workspace-init.js:64-70 | each file the loop creates holds exactly its template text |
| Replica.CreateOnlyAgrees | scripts/verify-workspace-init.js:64-70 | when no existing file needs repair, the create-only loop equals the extension's loop without force |
| Replica.RunEnable | scripts/verify-workspace-init.js:52-83 | `runEnable`: every catalog path exists, existing files other than `.gitignore` and the manifest are unchanged, the manifest is written over whatever was at its path, the ignore-file passes the sentinel, and the manifest mirrors the catalog with `installedAt` and `updatedAt` both `now` |
| Replica.EnableMatchesInit | scripts/verify-workspace-init.js:52-83 | when no file needs repair, `runEnable` leaves the same files as the extension apart from `.gitignore`, and the same manifest apart from `installedAt` |
| Replica.EnabledFile | scripts/verify-workspace-init.js:64-70 | after `runEnable`, a catalog file holds its old text if it existed and its template text otherwise |
| Replica.EnabledSteps | scripts/verify-workspace-init.js:85-90 | after `runEnable`, the rule, goal and plan exist, and the goal contains "Goal Contract" exactly when it was missing before or already contained it |
| Replica.RunStep | scripts/verify-workspace-init.js:94-108 | one assertion: it records the step's path, passes exactly when the file exists (and contains the needle), and its error message names the path |
| Replica.FailureMessages | scripts/verify-workspace-init.js:98-103 | the three error messages, word for word |
| Replica.RunAssertions | scripts/verify-workspace-init.js:92-111 | `runAssertions`: one result per step, in order, each passing exactly when its assertion holds |
| Replica.Failures | scripts/verify-workspace-init.js:119 | `results.filter(r => r.status === "fail")`: never longer than the results; `Replica.FailuresExact` states its contents |
| Replica.FailuresExact | scripts/verify-workspace-init.js:119 | the failed list holds exactly the results with status fail |
| Replica.VerifyExit | scripts/verify-workspace-init.js:125-130 | the verify script exits 1 exactly when some assertion failed, and 0 otherwise |
| Replica.CatchExit | scripts/test-catch-failure.js:115-134 | the catch-failure script exits 0 exactly when some failed result is the goal file's |
| Replica.CheckFiles | scripts/verify-workspace-init.js:85-130 | the assertions and exit code: 0 exactly when the rule, goal and plan exist and the goal contains "Goal Contract" |
| Replica.VerifyScript | scripts/verify-workspace-init.js:113-130 | the verify script on a workspace: the root is enabled, and it exits 0 exactly when the goal file was missing or already contained "Goal Contract" |
| Replica.GoalMissingSteps | scripts/test-catch-failure.js:80-106 | with the rule and plan present and the goal missing, the two existence checks on the rule and plan pass, and both goal assertions fail with their messages |
| Replica.DeleteGoalAndCheck | scripts/test-catch-failure.js:110-128 | deleting the goal file makes exactly the two goal assertions fail, so the script exits 0 |
| Replica.CatchFailureScript | scripts/test-catch-failure.js:108-134 | on any workspace, the catch-failure script catches the missing goal file and exits 0 |
| Scenarios.ShortIsUnmanaged | src/workspace.ts:39-41 | text shorter than the line marker carries no marker |
| Scenarios.InitCreatesRequired | src/test/suite/extension.test.ts:40-54 | after any run, every file the doctor requires exists |
| Scenarios.ChecksPassWhenPresent | src/workspace.ts:176-178 | with every required file present, all nine checks pass |
| Scenarios.AllChecksPassAfterInit | src/test/suite/extension.test.ts:62-65 | after any run, all nine doctor checks pass |
| Scenarios.NoWarningsForTemplates | src/workspace.ts:186-192 | agent files holding their templates draw no warning |
| Scenarios.EnableEmptyRoot | src/test/suite/extension.test.ts:34-60 | enabling an empty root writes every template and the `.gitignore` header, enables the workspace, and makes the doctor report all checks passing with no warnings |
| Scenarios.GoalDeletion | src/workspace.ts:160-178 | deleting the goal file from a complete root fails exactly the goal check |
| Scenarios.DeletedGoalFails | src/workspace.ts:160-178 | after any run, deleting the goal file fails exactly the goal check |
| Scenarios.OnlyGoalIsGoal | src/workspace.ts:160-170 | only the sixth required label is the goal file |
| Scenarios.MarkerFirstIsHeaderless | src/test/suite/extension.test.ts:77 | text opened by the HTML marker is managed content without front-matter |
| Scenarios.CorruptedAgentRestored | src/test/suite/extension.test.ts:67-85 | the worker file corrupted as in the test is overwritten by a run without force, and regains its front-matter and `name: goalguard-worker` |
| Scenarios.UnmarkedRulesKept | src/test/suite/extension.test.ts:98-101 | a rule file without markers is skipped and kept by a forced run |
| Scenarios.RewrittenGoalKept | src/test/suite/extension.test.ts:93-96 | a goal file without markers is skipped and kept by a forced run |
| Scenarios.MissingCharBlocks | src/workspace.ts:40 | text lacking some character of a needle does not contain that needle |
| Scenarios.UnmarkedByLetters | src/workspace.ts:39-41 | text with no `M`, `<` or `"` carries no marker |
| Scenarios.CustomGoalUnmarked | src/test/suite/extension.test.ts:95 | the test's custom goal text carries no marker |
| Scenarios.CustomRulesUnmarked | src/test/suite/extension.test.ts:100 | the test's custom rules text carries no marker |
| Scenarios.ManagedCommandOverwritten | src/test/suite/extension.test.ts:103-118 | the custom command that keeps the HTML marker is overwritten by a forced run, and the restored text contains `# /goalguard-start` |
| Scenarios.ForceReinstallTest | src/test/suite/extension.test.ts:87-118 | the forced run in the test keeps the custom goal and rules texts and restores the command |
| Scenarios.IgnoreFileWithoutNewline | src/workspace.ts:104-106 | an ignore-file holding `node_modules` becomes `node_modules` followed directly by the block, and a second run keeps it |

## Left out

- Directories: `ensureDir` and `mkdir` are not modelled. A file's existence is a key in the map.
- Errors from the file system are not modelled: permission denials, read failures and partial writes. The only exception modelled is the installer's `path.resolve(undefined)`.
- Concurrency across awaits is not modelled. Each folder is treated as one atomic step.
- Path resolution is not modelled. `vscode.Uri.joinPath`, `path.resolve` and `path.join` are identity on root-relative paths, and `Doctor.FsPath` joins with `/`.
- Console and output-channel logging is not modelled. It has no effect on files.
- The manifest is modelled as a structured value. Its JSON serialisation (`JSON.stringify(…, null, 2) + "\n"`) is not modelled.
- The clock (`new Date().toISOString()`) is a parameter.
- Workspace.InitRoot: the manifest file `.ai/.goalguard-manifest.json` is held as a structured value in the root's `manifest`, not as text in `files`. A run drops any text found at that path in `files` and writes the new manifest in its place, so the frame promise covers every path except the catalog's, `.gitignore` and the manifest's. A catalog entry at the manifest's path is excluded by `Catalog.EntryOk`, since the run would overwrite it last.
- Replica.RunEnable: the same holds for the scripts' enable. The manifest replaces whatever was at its path, and the frame promise excludes that path. `Cli.Install` is modelled the same way for the installer.
- The templates are not loaded. The extension reads `WORKSPACE_TEMPLATES`, `MANAGED_MARKER` and `MANAGED_HTML_MARKER` from `assets/workspace-templates.cjs` (src/templateLoader.ts:7-12). The installer reads the same bundle (scripts/goalguard-init.mjs:7), and the scripts read `dist/templates.js` (scripts/verify-workspace-init.js:13). The model assumes each bundle exports exactly the catalog and markers of src/templates.ts. The loader's error when an export is missing is not modelled.
- Workspace.InitWorkspaceFolders: each folder is an independent `Root`. Nested or overlapping workspace folders, where one folder's writes are visible to another, are not modelled.
- Template prose is abbreviated. Each template keeps the lines the engine and its checks read: markers, front-matter fences, `name:` fields, the goal and command headings, and the JSON flag line. No decision depends on the rest.
- Catalog.StateIsManagedByFlagOnly: it proves the state file lacks the line marker and matches the JSON flag. It does not prove that the HTML marker is absent.
- The scripts' check that `dist/templates.js` exists, and their exit 1 when it is missing, are not modelled. That check is about the build, not the workspace.
- The temporary-directory cleanup (`fs.rmSync`) in the catch-failure script is not modelled.
- Doctor.Warnings: its own contract is only a length bound. The exact content is stated by `Doctor.WarningsExact`.
- src/extension.ts (commands, prompts, chat), src/chat.ts, src/types.ts, scripts/test-protocol.mjs and the VS Code test runner (src/test/runTest.ts, src/test/suite/index.ts) are not part of this model.
