/**
 * The headless installer scripts/goalguard-init.mjs: its argument parser
 * (lines 9-21), its own copy of `writeTemplate` (lines 67-86) and the `main`
 * pass (lines 88-120). The predicates (lines 32-42) and `patchGitignore`
 * (lines 53-65) are textually the extension's, so the model uses the
 * `Markers` and `Gitignore` definitions for both.
 */
module Cli {
  import opened Wrappers
  import opened Text
  import opened Templates
  import opened Markers
  import opened Catalog
  import opened Reconcile
  import opened Gitignore
  import opened Workspace

  /** The parsed options: the workspace argument (absent after a trailing `-w`) and the force flag. */
  datatype Args = Args(workspace: Option<string>, force: bool)

  /** `parseArgs` either exits for `--help` or returns the options. */
  datatype Parsed = Help | Run(args: Args)

  /** How the loop reads one position of the command line. */
  datatype Token = WorkspaceTok(value: Option<string>) | ForceTok | HelpTok | Ignored

  predicate IsWorkspaceFlag(a: string) { a == "--workspace" || a == "-w" }
  predicate IsForceFlag(a: string) { a == "--force" || a == "-f" }
  predicate IsHelpFlag(a: string) { a == "--help" || a == "-h" }

  /**
   * The command line after the interpreter and script names, cut into what
   * the loop sees: `-w` takes the next argument whatever it is, or nothing
   * when it comes last.
   */
  function Tokens(argv: seq<string>): (r: seq<Token>)
    ensures |r| <= |argv|
    decreases |argv|
  {
    if |argv| == 0 then []
    else if IsWorkspaceFlag(argv[0]) then
      if |argv| == 1 then [WorkspaceTok(None)] else [WorkspaceTok(Some(argv[1]))] + Tokens(argv[2..])
    else [FlagToken(argv[0])] + Tokens(argv[1..])
  }

  /** What an argument other than `-w` means. */
  function FlagToken(a: string): (t: Token)
    ensures t.WorkspaceTok? == false
  {
    if IsForceFlag(a) then ForceTok else if IsHelpFlag(a) then HelpTok else Ignored
  }

  /** The first token of the command line from index `i` on, and where reading resumes. */
  lemma TokensAt(argv: seq<string>, i: nat)
    requires i < |argv|
    ensures IsWorkspaceFlag(argv[i]) ==>
      Tokens(Drop(argv, i)) == [WorkspaceTok(if i + 1 < |argv| then Some(argv[i + 1]) else None)] + Tokens(Drop(argv, i + 2))
    ensures !IsWorkspaceFlag(argv[i]) ==>
      Tokens(Drop(argv, i)) == [FlagToken(argv[i])] + Tokens(Drop(argv, i + 1))
  {
    var d := Drop(argv, i);
    assert d[0] == argv[i];
    assert d[1..] == Drop(argv, i + 1);
    if i + 1 < |argv| {
      assert d[1] == argv[i + 1];
      assert d[2..] == Drop(argv, i + 2);
    }
  }

  /** Reading one token. */
  lemma ApplyCons(a: Args, t: Token, rest: seq<Token>)
    ensures Apply(a, [t] + rest) == match t
      case WorkspaceTok(v) => Apply(a.(workspace := v), rest)
      case ForceTok => Apply(a.(force := true), rest)
      case HelpTok => Help
      case Ignored => Apply(a, rest)
  {
    assert ([t] + rest)[0] == t;
    assert ([t] + rest)[1..] == rest;
  }

  /** The options after reading `toks` from `a`; the first help flag stops everything. */
  function Apply(a: Args, toks: seq<Token>): (r: Parsed)
    decreases |toks|
  {
    if |toks| == 0 then Run(a)
    else match toks[0]
      case WorkspaceTok(v) => Apply(a.(workspace := v), toks[1..])
      case ForceTok => Apply(a.(force := true), toks[1..])
      case HelpTok => Help
      case Ignored => Apply(a, toks[1..])
  }

  /** `argv.slice(i)`, empty past the end. */
  function Drop(argv: seq<string>, i: nat): seq<string> {
    if i <= |argv| then argv[i..] else []
  }

  /**
   * `parseArgs(argv)`, with `cwd` for `process.cwd()`: the loop from index 2,
   * with the result the token reading describes.
   */
  method ParseArgs(argv: seq<string>, cwd: string) returns (r: Parsed)
    ensures r == Apply(Args(Some(cwd), false), Tokens(Drop(argv, 2)))
  {
    var args := Args(Some(cwd), false);
    var i := 2;
    while i < |argv|
      invariant 2 <= i
      invariant Apply(args, Tokens(Drop(argv, i))) == Apply(Args(Some(cwd), false), Tokens(Drop(argv, 2)))
      decreases |argv| - i
    {
      var a := argv[i];
      TokensAt(argv, i);
      if IsWorkspaceFlag(a) {
        ApplyCons(args, WorkspaceTok(if i + 1 < |argv| then Some(argv[i + 1]) else None), Tokens(Drop(argv, i + 2)));
      } else {
        ApplyCons(args, FlagToken(a), Tokens(Drop(argv, i + 1)));
      }
      if IsWorkspaceFlag(a) {
        i := i + 1;
        args := args.(workspace := if i < |argv| then Some(argv[i]) else None);
      } else if IsForceFlag(a) {
        args := args.(force := true);
      } else if IsHelpFlag(a) {
        return Help;
      }
      i := i + 1;
    }
    r := Run(args);
    assert Drop(argv, i) == [];
  }

  /** With nothing after the script name the workspace is the current directory and force is off. */
  lemma ParseDefaults(cwd: string)
    ensures Apply(Args(Some(cwd), false), Tokens(Drop(["node", "goalguard-init.mjs"], 2))) == Run(Args(Some(cwd), false))
  {
    assert Drop(["node", "goalguard-init.mjs"], 2) == [];
  }

  /** Help is reported exactly when a help token is read. */
  lemma {:induction false} HelpIff(a: Args, toks: seq<Token>)
    ensures Apply(a, toks) == Help <==> HelpTok in toks
    decreases |toks|
  {
    if |toks| > 0 {
      HelpIff(a.(workspace := if toks[0].WorkspaceTok? then toks[0].value else a.workspace), toks[1..]);
      HelpIff(a.(force := true), toks[1..]);
      HelpIff(a, toks[1..]);
      assert toks == [toks[0]] + toks[1..];
    }
  }

  /** Without help, force is on exactly when it started on or a force token is read. */
  lemma {:induction false} ForceIff(a: Args, toks: seq<Token>)
    requires HelpTok !in toks
    ensures Apply(a, toks).Run?
    ensures Apply(a, toks).args.force <==> a.force || ForceTok in toks
    decreases |toks|
  {
    if |toks| > 0 {
      assert toks == [toks[0]] + toks[1..];
      match toks[0]
      case WorkspaceTok(v) => ForceIff(a.(workspace := v), toks[1..]);
      case ForceTok => ForceIff(a.(force := true), toks[1..]);
      case HelpTok => assert false;
      case Ignored => ForceIff(a, toks[1..]);
    }
  }

  /** Without help and without any workspace token, the workspace stays as it started. */
  lemma {:induction false} WorkspaceDefault(a: Args, toks: seq<Token>)
    requires HelpTok !in toks
    requires forall k | 0 <= k < |toks| :: !toks[k].WorkspaceTok?
    ensures Apply(a, toks).Run? && Apply(a, toks).args.workspace == a.workspace
    decreases |toks|
  {
    if |toks| > 0 {
      assert toks == [toks[0]] + toks[1..];
      match toks[0]
      case ForceTok => WorkspaceDefault(a.(force := true), toks[1..]);
      case Ignored => WorkspaceDefault(a, toks[1..]);
    }
  }

  /** Without help, the last workspace token decides the workspace. */
  lemma {:induction false} LastWorkspaceWins(a: Args, toks: seq<Token>, k: nat)
    requires HelpTok !in toks
    requires k < |toks| && toks[k].WorkspaceTok?
    requires forall j | k < j < |toks| :: !toks[j].WorkspaceTok?
    ensures Apply(a, toks).Run? && Apply(a, toks).args.workspace == toks[k].value
    decreases |toks|
  {
    assert toks == [toks[0]] + toks[1..];
    if k == 0 {
      WorkspaceDefault(a.(workspace := toks[0].value), toks[1..]);
    } else {
      assert forall j | k - 1 < j < |toks| - 1 :: toks[1..][j] == toks[j + 1];
      match toks[0]
      case WorkspaceTok(v) => LastWorkspaceWins(a.(workspace := v), toks[1..], k - 1);
      case ForceTok => LastWorkspaceWins(a.(force := true), toks[1..], k - 1);
      case Ignored => LastWorkspaceWins(a, toks[1..], k - 1);
    }
  }

  /** The argument after `-w` is taken as the workspace even when it looks like a flag. */
  lemma FlagAfterWorkspaceIsValue(x: string, rest: seq<string>)
    ensures Tokens(["-w", x] + rest) == [WorkspaceTok(Some(x))] + Tokens(rest)
  {
    assert (["-w", x] + rest)[2..] == rest;
  }

  /** A trailing `-w` leaves the workspace undefined. */
  lemma TrailingWorkspaceFlag(argv: seq<string>, cwd: string)
    requires |argv| >= 2
    requires forall k | 2 <= k < |argv| :: !IsWorkspaceFlag(argv[k]) && !IsHelpFlag(argv[k])
    ensures Apply(Args(Some(cwd), false), Tokens(Drop(argv + ["-w"], 2))) == Run(Args(None, ForceTok in Tokens(Drop(argv, 2))))
  {
    var toks := Tokens(Drop(argv, 2));
    var all := Tokens(Drop(argv + ["-w"], 2));
    NoFlagTokens(Drop(argv, 2), ["-w"]);
    assert Drop(argv + ["-w"], 2) == Drop(argv, 2) + ["-w"];
    assert Tokens(["-w"]) == [WorkspaceTok(None)];
    assert all == toks + [WorkspaceTok(None)];
    HelpIff(Args(Some(cwd), false), all);
    ForceIff(Args(Some(cwd), false), all);
    LastWorkspaceWins(Args(Some(cwd), false), all, |toks|);
  }

  /** Arguments with no workspace or help flag tokenise one by one, without those tokens. */
  lemma {:induction false} NoFlagTokens(argv: seq<string>, rest: seq<string>)
    requires forall k | 0 <= k < |argv| :: !IsWorkspaceFlag(argv[k]) && !IsHelpFlag(argv[k])
    ensures Tokens(argv + rest) == Tokens(argv) + Tokens(rest)
    ensures |Tokens(argv)| == |argv|
    ensures forall k | 0 <= k < |argv| :: Tokens(argv)[k] != HelpTok && !Tokens(argv)[k].WorkspaceTok?
    decreases |argv|
  {
    if |argv| > 0 {
      NoFlagTokens(argv[1..], rest);
      assert (argv + rest)[1..] == argv[1..] + rest;
      assert (argv + rest)[0] == argv[0];
      assert Tokens(argv + rest) == [FlagToken(argv[0])] + Tokens(argv[1..] + rest);
      assert Tokens(argv) == [FlagToken(argv[0])] + Tokens(argv[1..]);
      assert [FlagToken(argv[0])] + (Tokens(argv[1..]) + Tokens(rest)) == ([FlagToken(argv[0])] + Tokens(argv[1..])) + Tokens(rest);
      assert forall k | 1 <= k < |argv| :: argv[1..][k - 1] == argv[k];
    } else {
      assert argv + rest == rest;
    }
  }

  /** `writeTemplate` as the installer writes it. */
  function WriteTemplate(files: Files, tpl: Template, force: bool): (r: Written)
    ensures tpl.path in r.files && files.Keys <= r.files.Keys
  {
    if tpl.path !in files then
      Written(Created, files[tpl.path := tpl.content])
    else
      var existing := files[tpl.path];
      if !force && tpl.managed && IsAgentFilePath(tpl.path) && IsManagedContent(existing) && !HasYamlFrontmatter(existing) then
        Written(Overwritten, files[tpl.path := tpl.content])
      else if !force then Written(Skipped, files)
      else if !tpl.managed then Written(Skipped, files)
      else if !IsManagedContent(existing) then Written(Skipped, files)
      else Written(Overwritten, files[tpl.path := tpl.content])
  }

  /** The installer's decision table is the extension's, for every file state, entry and flag. */
  lemma WriteTemplateAgrees(files: Files, tpl: Template, force: bool)
    ensures WriteTemplate(files, tpl, force) == Reconcile.WriteTemplate(files, tpl, force)
  {
  }

  /** The installer's template loop. */
  function Pass(files: Files, cat: seq<Template>, force: bool): (r: Files)
    ensures files.Keys <= r.Keys
    ensures forall k | 0 <= k < |cat| :: cat[k].path in r
    decreases |cat|
  {
    if |cat| == 0 then files
    else
      var rest := Pass(WriteTemplate(files, cat[0], force).files, cat[1..], force);
      assert forall k | 1 <= k < |cat| :: cat[1..][k - 1] == cat[k];
      rest
  }

  /** The installer's loop leaves the files the extension's loop leaves. */
  lemma {:induction false} PassAgrees(files: Files, cat: seq<Template>, force: bool)
    ensures Pass(files, cat, force) == ReconcileAll(files, cat, force).files
    decreases |cat|
  {
    if |cat| > 0 {
      WriteTemplateAgrees(files, cat[0], force);
      PassAgrees(Reconcile.WriteTemplate(files, cat[0], force).files, cat[1..], force);
    }
  }

  /** One installer run on a root: templates, then the ignore-file, then the manifest. */
  function Install(root: Root, cat: seq<Template>, force: bool, now: string): (r: Root)
    ensures r == InitRoot(root, cat, force, now).root
  {
    var files := Pass(root.files, cat, force);
    var ignore := PatchGitignore(Get(files, GITIGNORE));
    PassAgrees(root.files, cat, force);
    Root(files[GITIGNORE := ignore] - {MANIFEST_PATH}, Some(Manifest(MANIFEST_VERSION, None, now, ManifestEntries(cat))))
  }

  /** A directory tree: the roots under their resolved paths; a path not in the map is an empty directory. */
  type World = map<string, Root>

  function RootAt(world: World, p: string): Root {
    if p in world then world[p] else Root(map[], None)
  }

  /**
   * `main`: `--help` exits 0 before touching anything; a trailing `-w` leaves
   * no path to resolve, which rejects and exits 1 before touching anything;
   * otherwise the root at the workspace path is installed with the shipped
   * catalog, and the exit code is 0.
   */
  method Installer(argv: seq<string>, cwd: string, world: World, now: string) returns (code: int, after: World)
    ensures var p := Apply(Args(Some(cwd), false), Tokens(Drop(argv, 2)));
      && (p.Help? ==> code == 0 && after == world)
      && (p.Run? && p.args.workspace.None? ==> code == 1 && after == world)
      && (p.Run? && p.args.workspace.Some? ==>
            && code == 0
            && var ws := p.args.workspace.value;
               after == world[ws := InitRoot(RootAt(world, ws), WORKSPACE_TEMPLATES, p.args.force, now).root])
  {
    var parsed := ParseArgs(argv, cwd);
    if parsed.Help? {
      return 0, world;
    }
    match parsed.args.workspace
    case None =>
      code, after := 1, world;
    case Some(p) =>
      var root := Install(RootAt(world, p), WORKSPACE_TEMPLATES, parsed.args.force, now);
      code, after := 0, world[p := root];
  }

  /** Running the installer twice without `--force` leaves every file as the first run left it. */
  lemma InstallIdempotent(root: Root, force: bool, t1: string, t2: string)
    ensures var r1 := Install(root, WORKSPACE_TEMPLATES, force, t1);
      Install(r1, WORKSPACE_TEMPLATES, false, t2).files == r1.files
  {
    CatalogWellFormed();
    InitIdempotent(root, WORKSPACE_TEMPLATES, force, t1, t2);
  }
}
