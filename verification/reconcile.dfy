/**
 * The per-file decision table `writeTemplate` (src/workspace.ts:47-92) and the
 * in-order pass over a catalog (src/workspace.ts:131-135). A project root is
 * a map from root-relative path to file text; a path absent from the map is a
 * file that does not exist. Directories are not modelled: every write
 * succeeds, as it does once the parent directories have been made.
 */
module Reconcile {
  import opened Wrappers
  import opened Templates
  import opened Markers

  type Files = map<string, string>

  /** What `writeTemplate` reports for one entry. */
  datatype Action = Created | Skipped | Overwritten

  /** The reported action and the files afterwards. */
  datatype Written = Written(action: Action, files: Files)

  /** The text at `p`, if that file exists. */
  function Get(files: Files, p: string): (r: Option<string>)
    ensures r.Some? <==> p in files
    ensures r.Some? ==> r.value == files[p]
  {
    if p in files then Some(files[p]) else None
  }

  /** Removing two paths gives the same files in either order. */
  lemma RemoveCommutes(files: Files, p: string, q: string)
    ensures files - {p} - {q} == files - {q} - {p}
  {
  }

  /** Removing a path that is not there changes nothing. */
  lemma RemoveAbsent(files: Files, p: string)
    requires p !in files
    ensures files - {p} == files
  {
  }

  /**
   * The repair condition: without force, a managed agent-definition entry
   * whose file still carries a marker but has lost its front-matter.
   */
  predicate NeedsRepair(tpl: Template, existing: string, force: bool) {
    && !force
    && tpl.managed
    && IsAgentFilePath(tpl.path)
    && IsManagedContent(existing)
    && !HasYamlFrontmatter(existing)
  }

  /**
   * `writeTemplate`: create a missing file; repair a damaged agent file; skip
   * without force; with force, skip an unmanaged entry or a file whose marker
   * is gone; overwrite otherwise.
   */
  function WriteTemplate(files: Files, tpl: Template, force: bool): (r: Written)
    ensures r.action == Created <==> tpl.path !in files
    ensures r.action == Skipped ==> r.files == files
    ensures r.action != Skipped ==> r.files == files[tpl.path := tpl.content]
    ensures tpl.path in r.files && files.Keys <= r.files.Keys
    ensures tpl.path in files && !IsManagedContent(files[tpl.path]) ==> r.files == files
    ensures tpl.path in files && !tpl.managed ==> r.files == files
  {
    if tpl.path !in files then
      Written(Created, files[tpl.path := tpl.content])
    else
      var existing := files[tpl.path];
      if NeedsRepair(tpl, existing, force) then
        Written(Overwritten, files[tpl.path := tpl.content])
      else if !force then
        Written(Skipped, files)
      else if !tpl.managed then
        Written(Skipped, files)
      else if !IsManagedContent(existing) then
        Written(Skipped, files)
      else
        Written(Overwritten, files[tpl.path := tpl.content])
  }

  /**
   * When an existing file may be replaced: the entry is managed, the file still
   * carries a marker, and either force was given or the file is an agent
   * definition that has lost its front-matter.
   */
  predicate MayOverwrite(tpl: Template, existing: string, force: bool) {
    && tpl.managed
    && IsManagedContent(existing)
    && (force || (IsAgentFilePath(tpl.path) && !HasYamlFrontmatter(existing)))
  }

  /** An existing file is overwritten exactly when `MayOverwrite` allows it, and skipped otherwise. */
  lemma OverwriteIff(files: Files, tpl: Template, force: bool)
    requires tpl.path in files
    ensures var r := WriteTemplate(files, tpl, force);
      && (r.action == Overwritten <==> MayOverwrite(tpl, files[tpl.path], force))
      && (r.action == Skipped <==> !MayOverwrite(tpl, files[tpl.path], force))
  {
  }

  /** A missing file is created with exactly the template text. */
  lemma CreateRule(files: Files, tpl: Template, force: bool)
    requires tpl.path !in files
    ensures WriteTemplate(files, tpl, force) == Written(Created, files[tpl.path := tpl.content])
  {
  }

  /** Without force, an existing file is rewritten exactly when the repair condition holds. */
  lemma NonForceRule(files: Files, tpl: Template)
    requires tpl.path in files
    ensures var r := WriteTemplate(files, tpl, false);
      if NeedsRepair(tpl, files[tpl.path], false)
      then r == Written(Overwritten, files[tpl.path := tpl.content])
      else r == Written(Skipped, files)
  {
  }

  /**
   * With force, an existing file is skipped and kept when the entry is
   * unmanaged or the file has lost every marker, and is replaced by exactly
   * the template text otherwise.
   */
  lemma ForceRule(files: Files, tpl: Template)
    requires tpl.path in files
    ensures var r := WriteTemplate(files, tpl, true);
      if tpl.managed && IsManagedContent(files[tpl.path])
      then r == Written(Overwritten, files[tpl.path := tpl.content])
      else r == Written(Skipped, files)
  {
  }

  /** `writeTemplate` looks only at the entry's own path. */
  lemma WriteIsLocal(f1: Files, f2: Files, tpl: Template, force: bool)
    requires Get(f1, tpl.path) == Get(f2, tpl.path)
    ensures WriteTemplate(f1, tpl, force).action == WriteTemplate(f2, tpl, force).action
  {
  }

  /** The paths of a catalog, in order. */
  function Paths(cat: seq<Template>): (r: seq<string>)
    ensures |r| == |cat|
    ensures forall k | 0 <= k < |cat| :: r[k] == cat[k].path
  {
    seq(|cat|, k requires 0 <= k < |cat| => cat[k].path)
  }

  /** The actions reported for each entry, and the files at the end of the pass. */
  datatype Pass = Pass(actions: seq<Action>, files: Files)

  /**
   * The template loop of `initWorkspaceFolders`: every entry in catalog order,
   * each seeing the files its predecessors left. Files outside the catalog
   * are untouched, no file is removed, and every catalog path exists
   * afterwards.
   */
  function ReconcileAll(files: Files, cat: seq<Template>, force: bool): (r: Pass)
    ensures |r.actions| == |cat|
    ensures files.Keys <= r.files.Keys
    ensures forall k | 0 <= k < |cat| :: cat[k].path in r.files
    ensures forall p | p !in Paths(cat) :: Get(r.files, p) == Get(files, p)
    decreases |cat|
  {
    if |cat| == 0 then
      Pass([], files)
    else
      var w := WriteTemplate(files, cat[0], force);
      var rest := ReconcileAll(w.files, cat[1..], force);
      assert Paths(cat) == [cat[0].path] + Paths(cat[1..]);
      forall k | 0 <= k < |cat|
        ensures cat[k].path in rest.files
      {
        if k > 0 {
          assert cat[1..][k - 1] == cat[k];
        }
      }
      Pass([w.action] + rest.actions, rest.files)
  }

  /**
   * With distinct paths, entry `k` of a pass behaves as if it were
   * reconciled alone against the starting files: same action, same resulting
   * text at its path.
   */
  lemma {:induction false} ReconcileEntry(files: Files, cat: seq<Template>, force: bool, k: nat)
    requires DistinctPaths(cat) && k < |cat|
    ensures var r := ReconcileAll(files, cat, force);
      var w := WriteTemplate(files, cat[k], force);
      && r.actions[k] == w.action
      && r.files[cat[k].path] == w.files[cat[k].path]
    decreases |cat|
  {
    if k == 0 {
      ReconcileFirst(files, cat, force);
    } else {
      var w0 := WriteTemplate(files, cat[0], force);
      DistinctTail(cat);
      assert cat[1..][k - 1] == cat[k];
      assert Get(w0.files, cat[k].path) == Get(files, cat[k].path);
      WriteIsLocal(w0.files, files, cat[k], force);
      ReconcileEntry(w0.files, cat[1..], force, k - 1);
    }
  }

  /** The first entry's result survives the rest of the pass, whose paths all differ from it. */
  lemma ReconcileFirst(files: Files, cat: seq<Template>, force: bool)
    requires DistinctPaths(cat) && |cat| > 0
    ensures var r := ReconcileAll(files, cat, force);
      var w := WriteTemplate(files, cat[0], force);
      && r.actions[0] == w.action
      && r.files[cat[0].path] == w.files[cat[0].path]
  {
    var w0 := WriteTemplate(files, cat[0], force);
    var rest := ReconcileAll(w0.files, cat[1..], force);
    DistinctTail(cat);
    assert cat[0].path !in Paths(cat[1..]);
    assert Get(rest.files, cat[0].path) == Get(w0.files, cat[0].path);
  }

  /** A state every entry would leave alone. */
  ghost predicate Settled(files: Files, cat: seq<Template>, force: bool) {
    forall k | 0 <= k < |cat| :: WriteTemplate(files, cat[k], force).files == files
  }

  /** A pass over a settled state changes nothing and reports each entry's lone action. */
  lemma {:induction false} SettledPass(files: Files, cat: seq<Template>, force: bool)
    requires Settled(files, cat, force)
    ensures var r := ReconcileAll(files, cat, force);
      && r.files == files
      && forall k | 0 <= k < |cat| :: r.actions[k] == WriteTemplate(files, cat[k], force).action
    decreases |cat|
  {
    if |cat| > 0 {
      assert WriteTemplate(files, cat[0], force).files == files;
      forall k | 0 <= k < |cat| - 1
        ensures WriteTemplate(files, cat[1..][k], force).files == files
      {
        assert cat[1..][k] == cat[k + 1];
      }
      SettledPass(files, cat[1..], force);
      var r := ReconcileAll(files, cat, force);
      forall k | 0 <= k < |cat|
        ensures r.actions[k] == WriteTemplate(files, cat[k], force).action
      {
        if k > 0 {
          assert cat[1..][k - 1] == cat[k];
        }
      }
    }
  }

  /** Being settled depends only on the catalog's own paths. */
  lemma SettledOutside(f1: Files, f2: Files, cat: seq<Template>, force: bool)
    requires Settled(f1, cat, force)
    requires forall k | 0 <= k < |cat| :: Get(f1, cat[k].path) == Get(f2, cat[k].path)
    ensures Settled(f2, cat, force)
  {
    forall k | 0 <= k < |cat|
      ensures WriteTemplate(f2, cat[k], force).files == f2
    {
      WriteIsLocal(f1, f2, cat[k], force);
      var w1 := WriteTemplate(f1, cat[k], force);
      if w1.action != Skipped {
        // The write left f1 as it was, so the path already held the template text.
        assert f1[cat[k].path] == cat[k].content;
        assert f2[cat[k].path] == cat[k].content;
        assert f2[cat[k].path := cat[k].content] == f2;
      }
    }
  }

  /** Every agent-definition entry's text opens with front-matter. */
  ghost predicate AgentsHaveHeaders(cat: seq<Template>) {
    forall k | 0 <= k < |cat| :: IsAgentFilePath(cat[k].path) ==> HasYamlFrontmatter(cat[k].content)
  }

  /**
   * After any pass, a pass without force is settled: every file that holds
   * its template still has its front-matter, and every file the first pass
   * kept was kept for a reason a pass without force respects.
   */
  lemma SettledAfterPass(files: Files, cat: seq<Template>, force: bool)
    requires DistinctPaths(cat) && AgentsHaveHeaders(cat)
    ensures Settled(ReconcileAll(files, cat, force).files, cat, false)
  {
    var r := ReconcileAll(files, cat, force);
    forall k | 0 <= k < |cat|
      ensures WriteTemplate(r.files, cat[k], false).files == r.files
    {
      ReconcileEntry(files, cat, force, k);
      var w := WriteTemplate(files, cat[k], force);
      var p := cat[k].path;
      if w.action == Skipped {
        assert r.files[p] == files[p];
      } else {
        assert r.files[p] == cat[k].content;
      }
    }
  }

  /** After a forced pass, another forced pass is settled: every marked file already holds its template. */
  lemma SettledAfterForce(files: Files, cat: seq<Template>)
    requires DistinctPaths(cat)
    ensures Settled(ReconcileAll(files, cat, true).files, cat, true)
  {
    var r := ReconcileAll(files, cat, true);
    forall k | 0 <= k < |cat|
      ensures WriteTemplate(r.files, cat[k], true).files == r.files
    {
      ReconcileEntry(files, cat, true, k);
      var w := WriteTemplate(files, cat[k], true);
      var p := cat[k].path;
      if w.action == Skipped {
        assert r.files[p] == files[p];
      } else {
        assert r.files[p] == cat[k].content;
        assert r.files[p := cat[k].content] == r.files;
      }
    }
  }

  /**
   * Idempotence: a pass without force after any pass skips every entry and
   * leaves every file as it was.
   */
  lemma PassIdempotent(files: Files, cat: seq<Template>, force: bool)
    requires DistinctPaths(cat) && AgentsHaveHeaders(cat)
    ensures var r1 := ReconcileAll(files, cat, force);
      var r2 := ReconcileAll(r1.files, cat, false);
      && r2.files == r1.files
      && forall k | 0 <= k < |cat| :: r2.actions[k] == Skipped
  {
    var r1 := ReconcileAll(files, cat, force);
    SettledAfterPass(files, cat, force);
    SettledPass(r1.files, cat, false);
    forall k | 0 <= k < |cat|
      ensures WriteTemplate(r1.files, cat[k], false).action == Skipped
    {
      assert cat[k].path in r1.files;
    }
  }

  /** A second forced pass leaves every file as the first forced pass left it. */
  lemma ForcePassIdempotent(files: Files, cat: seq<Template>)
    requires DistinctPaths(cat)
    ensures var r1 := ReconcileAll(files, cat, true);
      ReconcileAll(r1.files, cat, true).files == r1.files
  {
    SettledAfterForce(files, cat);
    SettledPass(ReconcileAll(files, cat, true).files, cat, true);
  }

  /**
   * On a root holding none of the catalog's files, every entry is created
   * with exactly its template text.
   */
  lemma FreshPass(files: Files, cat: seq<Template>, force: bool)
    requires DistinctPaths(cat)
    requires forall k | 0 <= k < |cat| :: cat[k].path !in files
    ensures var r := ReconcileAll(files, cat, force);
      forall k | 0 <= k < |cat| :: r.actions[k] == Created && r.files[cat[k].path] == cat[k].content
  {
    forall k | 0 <= k < |cat|
      ensures ReconcileAll(files, cat, force).actions[k] == Created
      ensures ReconcileAll(files, cat, force).files[cat[k].path] == cat[k].content
    {
      ReconcileEntry(files, cat, force, k);
    }
  }

  /**
   * Non-destruction: a file at an unmanaged entry's path, or one without any
   * marker, comes out of any pass exactly as it went in.
   */
  lemma UserFilesKept(files: Files, cat: seq<Template>, force: bool, k: nat)
    requires DistinctPaths(cat) && k < |cat| && cat[k].path in files
    requires !cat[k].managed || !IsManagedContent(files[cat[k].path])
    ensures ReconcileAll(files, cat, force).files[cat[k].path] == files[cat[k].path]
  {
    ReconcileEntry(files, cat, force, k);
  }
}
