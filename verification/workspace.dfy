/**
 * The whole-root pass of `initWorkspaceFolders` (src/workspace.ts:109-150):
 * reconcile the catalog in order, patch the ignore-file, then write the
 * manifest snapshot; and the enablement query `isWorkspaceEnabled`
 * (src/workspace.ts:152-155).
 */
module Workspace {
  import opened Wrappers
  import opened Text
  import opened Templates
  import opened Markers
  import opened Catalog
  import opened Reconcile
  import opened Gitignore

  /** The manifest's fixed format version. */
  const MANIFEST_VERSION: int := 1

  /** One `{path, managed}` record of the manifest. */
  datatype ManifestEntry = ManifestEntry(path: string, managed: bool)

  /**
   * The manifest snapshot, as a structured value. The extension writes no
   * `installedAt`; the replica scripts write one equal to `updatedAt`.
   */
  datatype Manifest = Manifest(
    version: int,
    installedAt: Option<string>,
    updatedAt: string,
    templates: seq<ManifestEntry>
  )

  /**
   * A project root: its files, and the manifest last written there (if any).
   * The manifest file `MANIFEST_PATH` is held by `manifest`, not by `files`:
   * a run drops whatever text `files` has at that path and writes the
   * structured snapshot instead, as the code overwrites that file.
   */
  datatype Root = Root(files: Files, manifest: Option<Manifest>)

  /** `WORKSPACE_TEMPLATES.map((x) => ({ path: x.path, managed: x.managed }))` */
  function ManifestEntries(cat: seq<Template>): (r: seq<ManifestEntry>)
    ensures |r| == |cat|
    ensures forall k | 0 <= k < |cat| :: r[k] == ManifestEntry(cat[k].path, cat[k].managed)
  {
    seq(|cat|, k requires 0 <= k < |cat| => ManifestEntry(cat[k].path, cat[k].managed))
  }

  /** A manifest that mirrors the catalog: one record per entry, in catalog order. */
  ghost predicate Mirrors(m: Manifest, cat: seq<Template>) {
    && m.version == MANIFEST_VERSION
    && |m.templates| == |cat|
    && forall k | 0 <= k < |cat| :: m.templates[k].path == cat[k].path && m.templates[k].managed == cat[k].managed
  }

  /** The manifest lists exactly the catalog's paths, in order. */
  lemma ManifestPaths(cat: seq<Template>)
    ensures var m := ManifestEntries(cat);
      forall k | 0 <= k < |m| :: m[k].path == Paths(cat)[k]
  {
  }

  /** The outcome of one root: the actions reported for the catalog, and the root afterwards. */
  datatype Init = Init(actions: seq<Action>, root: Root)

  /**
   * One folder of `initWorkspaceFolders`: the template loop, then the
   * ignore-file patch, then the manifest, stamped with `now`. The previous
   * manifest, and any text at the manifest's path, is replaced, not merged.
   */
  function InitRoot(root: Root, cat: seq<Template>, force: bool, now: string): (r: Init)
    ensures |r.actions| == |cat|
    ensures r.root.manifest.Some? && Mirrors(r.root.manifest.value, cat)
    ensures r.root.manifest.value.updatedAt == now && r.root.manifest.value.installedAt.None?
    ensures MANIFEST_PATH !in r.root.files
    ensures forall k | 0 <= k < |cat| && cat[k].path != MANIFEST_PATH :: cat[k].path in r.root.files
    ensures GITIGNORE in r.root.files && Contains(r.root.files[GITIGNORE], HEADER)
    ensures root.files.Keys - {MANIFEST_PATH} <= r.root.files.Keys
    ensures forall p | p !in Paths(cat) && p != GITIGNORE && p != MANIFEST_PATH :: Get(r.root.files, p) == Get(root.files, p)
  {
    var pass := ReconcileAll(root.files, cat, force);
    var ignore := PatchGitignore(Get(pass.files, GITIGNORE));
    var m := Manifest(MANIFEST_VERSION, None, now, ManifestEntries(cat));
    Init(pass.actions, Root(pass.files[GITIGNORE := ignore] - {MANIFEST_PATH}, Some(m)))
  }

  /**
   * The manifest a run leaves depends on the catalog and the clock only:
   * neither an earlier manifest nor any text at its path survives.
   */
  lemma ManifestReplaced(a: Root, b: Root, cat: seq<Template>, fa: bool, fb: bool, now: string)
    ensures InitRoot(a, cat, fa, now).root.manifest == InitRoot(b, cat, fb, now).root.manifest
    ensures Get(InitRoot(a, cat, fa, now).root.files, MANIFEST_PATH) == None
  {
  }

  /**
   * The steps of one folder in the order the code takes them: the files are
   * those of the template loop with the ignore-file patched on top, and the
   * ignore-file the loop saw is the one the root had.
   */
  lemma InitOrder(root: Root, cat: seq<Template>, force: bool, now: string)
    requires forall k | 0 <= k < |cat| :: cat[k].path != GITIGNORE
    ensures var pass := ReconcileAll(root.files, cat, force);
      var r := InitRoot(root, cat, force, now);
      && r.actions == pass.actions
      && r.root.files == pass.files[GITIGNORE := PatchGitignore(Get(root.files, GITIGNORE))] - {MANIFEST_PATH}
  {
    NotInPaths(cat, GITIGNORE);
  }

  /** A path no entry has is not among the catalog's paths. */
  lemma NotInPaths(cat: seq<Template>, p: string)
    requires forall k | 0 <= k < |cat| :: cat[k].path != p
    ensures p !in Paths(cat)
  {
    assert forall k | 0 <= k < |Paths(cat)| :: Paths(cat)[k] != p;
  }

  /** `initWorkspaceFolders`: every folder in turn, each with the clock reading taken for it. */
  function InitWorkspaceFolders(roots: seq<Root>, cat: seq<Template>, force: bool, clock: seq<string>): (r: seq<Init>)
    requires |clock| == |roots|
    ensures |r| == |roots|
    ensures forall i | 0 <= i < |roots| :: r[i] == InitRoot(roots[i], cat, force, clock[i])
  {
    seq(|roots|, i requires 0 <= i < |roots| => InitRoot(roots[i], cat, force, clock[i]))
  }

  /** `isWorkspaceEnabled`: the always-on rule file exists. */
  predicate IsWorkspaceEnabled(files: Files) {
    RULE_PATH in files
  }

  /** A well-formed catalog gives the reconciler the facts its idempotence rests on. */
  lemma WellFormedFacts(cat: seq<Template>)
    requires WellFormed(cat)
    ensures DistinctPaths(cat) && AgentsHaveHeaders(cat)
    ensures forall k | 0 <= k < |cat| :: cat[k].path != GITIGNORE && cat[k].path != MANIFEST_PATH
    ensures GITIGNORE !in Paths(cat) && MANIFEST_PATH !in Paths(cat)
  {
    assert forall k | 0 <= k < |cat| :: EntryOk(cat[k]);
    NotInPaths(cat, GITIGNORE);
    NotInPaths(cat, MANIFEST_PATH);
  }

  /**
   * Idempotence of the whole pass: running it again without force, after any
   * first run, reports `skipped` for every entry and leaves every file as the
   * first run left it; only the manifest's timestamp moves.
   */
  lemma InitIdempotent(root: Root, cat: seq<Template>, force: bool, t1: string, t2: string)
    requires WellFormed(cat)
    ensures var r1 := InitRoot(root, cat, force, t1);
      var r2 := InitRoot(r1.root, cat, false, t2);
      && r2.root.files == r1.root.files
      && (forall k | 0 <= k < |cat| :: r2.actions[k] == Skipped)
      && r2.root.manifest == Some(r1.root.manifest.value.(updatedAt := t2))
  {
    WellFormedFacts(cat);
    var pass1 := ReconcileAll(root.files, cat, force);
    var ignore := PatchGitignore(Get(pass1.files, GITIGNORE));
    var r1 := InitRoot(root, cat, force, t1);
    assert r1.root.files == pass1.files[GITIGNORE := ignore] - {MANIFEST_PATH};
    SettledAfterPass(root.files, cat, force);
    forall k | 0 <= k < |cat|
      ensures Get(pass1.files, cat[k].path) == Get(r1.root.files, cat[k].path)
    {
      assert cat[k].path != GITIGNORE && cat[k].path != MANIFEST_PATH;
    }
    SettledOutside(pass1.files, r1.root.files, cat, false);
    SettledPass(r1.root.files, cat, false);
    var pass2 := ReconcileAll(r1.root.files, cat, false);
    forall k | 0 <= k < |cat|
      ensures pass2.actions[k] == Skipped
    {
      assert cat[k].path in r1.root.files;
    }
    PatchIdempotent(Get(pass1.files, GITIGNORE));
    assert r1.root.files[GITIGNORE := ignore] == r1.root.files;
    RemoveAbsent(r1.root.files, MANIFEST_PATH);
  }

  /**
   * A forced run after a forced run leaves every file as it was: each marked
   * file already holds its template, and the ignore-file is already patched.
   */
  lemma ForceInitIdempotent(root: Root, cat: seq<Template>, t1: string, t2: string)
    requires WellFormed(cat)
    ensures var r1 := InitRoot(root, cat, true, t1);
      InitRoot(r1.root, cat, true, t2).root.files == r1.root.files
  {
    WellFormedFacts(cat);
    var pass1 := ReconcileAll(root.files, cat, true);
    var ignore := PatchGitignore(Get(pass1.files, GITIGNORE));
    var r1 := InitRoot(root, cat, true, t1);
    SettledAfterForce(root.files, cat);
    forall k | 0 <= k < |cat|
      ensures Get(pass1.files, cat[k].path) == Get(r1.root.files, cat[k].path)
    {
      assert cat[k].path != GITIGNORE && cat[k].path != MANIFEST_PATH;
    }
    SettledOutside(pass1.files, r1.root.files, cat, true);
    SettledPass(r1.root.files, cat, true);
    PatchIdempotent(Get(pass1.files, GITIGNORE));
    assert r1.root.files[GITIGNORE := ignore] == r1.root.files;
    RemoveAbsent(r1.root.files, MANIFEST_PATH);
  }

  /**
   * A fresh root (no catalog file and no ignore-file): every entry is
   * created with exactly its template text, and the ignore-file is the
   * block without its leading newline.
   */
  lemma FreshInit(root: Root, cat: seq<Template>, force: bool, now: string)
    requires WellFormed(cat)
    requires forall k | 0 <= k < |cat| :: cat[k].path !in root.files
    requires GITIGNORE !in root.files
    ensures var r := InitRoot(root, cat, force, now);
      && (forall k | 0 <= k < |cat| :: r.actions[k] == Created && r.root.files[cat[k].path] == cat[k].content)
      && r.root.files[GITIGNORE] == BLOCK[1..]
  {
    WellFormedFacts(cat);
    FreshPass(root.files, cat, force);
    AbsentPatch();
    var pass := ReconcileAll(root.files, cat, force);
    assert Get(pass.files, GITIGNORE) == None;
  }

  /**
   * An ignore-file with unrelated content keeps every character up to its
   * trailing whitespace, gains the header exactly once, and is not touched by
   * a second run.
   */
  lemma ExistingIgnoreFile(root: Root, cat: seq<Template>, force: bool, t1: string, t2: string)
    requires WellFormed(cat)
    requires GITIGNORE in root.files && !Contains(root.files[GITIGNORE], HEADER)
    ensures var c := root.files[GITIGNORE];
      var r1 := InitRoot(root, cat, force, t1);
      var g := r1.root.files[GITIGNORE];
      && g == TrimEnd(c) + BLOCK
      && (forall i | 0 <= i <= |g| :: OccursAt(g, HEADER, i) <==> i == |TrimEnd(c)| + 1)
      && InitRoot(r1.root, cat, false, t2).root.files[GITIGNORE] == g
  {
    WellFormedFacts(cat);
    InitOrder(root, cat, force, t1);
    UnpatchedIsAppended(root.files[GITIGNORE]);
    HeaderExactlyOnce(root.files[GITIGNORE]);
    InitIdempotent(root, cat, force, t1, t2);
  }

  /** Running the shipped catalog on any root enables it. */
  lemma EnabledAfterInit(root: Root, force: bool, now: string)
    ensures IsWorkspaceEnabled(InitRoot(root, WORKSPACE_TEMPLATES, force, now).root.files)
  {
    CatalogWellFormed();
    WellFormedFacts(WORKSPACE_TEMPLATES);
    assert WORKSPACE_TEMPLATES[6].path == RULE_PATH;
  }

  /**
   * Repair on a whole run: without force, a managed agent-definition file that
   * still carries a marker but has lost its front-matter is restored to
   * exactly its template text.
   */
  lemma RepairOnInit(root: Root, cat: seq<Template>, now: string, k: nat)
    requires WellFormed(cat) && k < |cat| && cat[k].managed && IsAgentFilePath(cat[k].path)
    requires cat[k].path in root.files
    requires IsManagedContent(root.files[cat[k].path]) && !HasYamlFrontmatter(root.files[cat[k].path])
    ensures var r := InitRoot(root, cat, false, now);
      r.actions[k] == Overwritten && r.root.files[cat[k].path] == cat[k].content
  {
    WellFormedFacts(cat);
    ReconcileEntry(root.files, cat, false, k);
  }

  /** A forced run overwrites a managed entry's file that still carries a marker. */
  lemma OverwriteOnForce(root: Root, cat: seq<Template>, now: string, k: nat)
    requires WellFormed(cat) && k < |cat| && cat[k].managed && cat[k].path in root.files
    requires IsManagedContent(root.files[cat[k].path])
    ensures var r := InitRoot(root, cat, true, now);
      r.actions[k] == Overwritten && r.root.files[cat[k].path] == cat[k].content
  {
    WellFormedFacts(cat);
    ReconcileEntry(root.files, cat, true, k);
  }

  /**
   * Non-destruction on a whole run: a file at an unmanaged entry's path, or
   * one without any marker, comes out exactly as it went in, whatever the
   * force flag.
   */
  lemma KeptOnInit(root: Root, cat: seq<Template>, force: bool, now: string, k: nat)
    requires WellFormed(cat) && k < |cat| && cat[k].path in root.files
    requires !cat[k].managed || !IsManagedContent(root.files[cat[k].path])
    ensures var r := InitRoot(root, cat, force, now);
      r.actions[k] == Skipped && r.root.files[cat[k].path] == root.files[cat[k].path]
  {
    WellFormedFacts(cat);
    ReconcileEntry(root.files, cat, force, k);
    OverwriteIff(root.files, cat[k], force);
  }

  /**
   * After any run, a managed agent-definition file without front-matter is one
   * the user owns: it existed before, carries no marker, and was kept as it
   * was.
   */
  lemma HeaderlessAgentIsUserOwned(root: Root, cat: seq<Template>, force: bool, now: string, k: nat)
    requires WellFormed(cat) && k < |cat| && cat[k].managed && IsAgentFilePath(cat[k].path)
    ensures var files := InitRoot(root, cat, force, now).root.files;
      var p := cat[k].path;
      !HasYamlFrontmatter(files[p]) ==>
        p in root.files && files[p] == root.files[p] && !IsManagedContent(root.files[p])
  {
    WellFormedFacts(cat);
    ReconcileEntry(root.files, cat, force, k);
    var w := WriteTemplate(root.files, cat[k], force);
    if w.action != Skipped {
      assert HasYamlFrontmatter(cat[k].content);
    } else {
      OverwriteIff(root.files, cat[k], force);
    }
  }
}
