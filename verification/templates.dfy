/**
 * The shape of a workspace template and the two marker constants that every
 * managed template embeds (src/templates.ts).
 */
module Templates {
  import opened Text

  /** A file the engine can place under a project root. */
  datatype Template = Template(
    path: string,     // root-relative, slash-separated
    content: string,  // written verbatim
    managed: bool     // may be overwritten by a force reinstall (marker permitting)
  )

  /** No two entries of a catalog share a path. */
  ghost predicate DistinctPaths(cat: seq<Template>) {
    forall i, j | 0 <= i < j < |cat| :: cat[i].path != cat[j].path
  }

  /** Dropping the first entry keeps the paths distinct, and the first path is not among the rest. */
  lemma DistinctTail(cat: seq<Template>)
    requires DistinctPaths(cat) && |cat| > 0
    ensures DistinctPaths(cat[1..])
    ensures forall j | 0 <= j < |cat| - 1 :: cat[1..][j] == cat[j + 1] && cat[1..][j].path != cat[0].path
  {
    forall i, j | 0 <= i < j < |cat| - 1
      ensures cat[1..][i].path != cat[1..][j].path
    {
      assert cat[1..][i] == cat[i + 1] && cat[1..][j] == cat[j + 1];
    }
  }

  /** The line-oriented marker, used inside YAML front-matter. */
  const MANAGED_MARKER: string := "goalguardManaged: true"

  /** The comment marker, used at the top of Markdown files. */
  const MANAGED_HTML_MARKER: string := "<!-- goalguard:managed -->"

  const NL: string := "\n"

  /** `lines.join("\n")` */
  function Join(lines: seq<string>): string
    decreases |lines|
  {
    if |lines| == 0 then ""
    else if |lines| == 1 then lines[0]
    else lines[0] + NL + Join(lines[1..])
  }

  /** Joining one more line in front adds it and a newline. */
  lemma JoinCons(a: string, rest: seq<string>)
    requires |rest| > 0
    ensures Join([a] + rest) == a + NL + Join(rest)
  {
    assert ([a] + rest)[1..] == rest;
  }

  /** The template builder `T`: the lines joined by newlines, plus a final newline. */
  function T(lines: seq<string>): (r: string)
    ensures EndsWith(r, NL)
  {
    Join(lines) + NL
  }

  /** A template's text begins with its first line. */
  lemma TStartsWithFirstLine(lines: seq<string>)
    requires |lines| > 0
    ensures StartsWith(T(lines), lines[0])
  {
    if |lines| == 1 {
      assert T(lines) == lines[0] + NL;
    } else {
      assert T(lines) == lines[0] + (NL + Join(lines[1..]) + NL);
    }
  }

  /** A two-line template spelled out. */
  lemma TTwoLines(a: string, b: string)
    ensures T([a, b]) == a + NL + b + NL
  {
    assert Join([a, b]) == a + NL + Join([b]);
  }

  /** Every line of a template occurs in its text. */
  lemma {:induction false} TContainsLine(lines: seq<string>, k: nat)
    requires k < |lines|
    ensures Contains(T(lines), lines[k])
  {
    if k == 0 {
      TStartsWithFirstLine(lines);
      StartsWithContains(T(lines), lines[0]);
    } else {
      TContainsLine(lines[1..], k - 1);
      assert lines[1..][k - 1] == lines[k];
      assert T(lines) == (lines[0] + NL) + T(lines[1..]);
      ContainsSuffix(lines[0] + NL, T(lines[1..]), lines[k]);
    }
  }

  /** A character that is no newline and occurs in no line does not occur in the joined lines. */
  lemma {:induction false} JoinLacks(lines: seq<string>, c: char)
    requires c != '\n' && forall k | 0 <= k < |lines| :: Lacks(lines[k], c)
    ensures Lacks(Join(lines), c)
    decreases |lines|
  {
    if |lines| > 1 {
      assert forall k | 0 <= k < |lines| - 1 :: lines[1..][k] == lines[k + 1];
      JoinLacks(lines[1..], c);
      LacksAppend(lines[0], NL, c);
      LacksAppend(lines[0] + NL, Join(lines[1..]), c);
    }
  }

  /** ... nor in the template text built from them. */
  lemma TLacks(lines: seq<string>, c: char)
    requires c != '\n' && forall k | 0 <= k < |lines| :: Lacks(lines[k], c)
    ensures Lacks(T(lines), c)
  {
    JoinLacks(lines, c);
    LacksAppend(Join(lines), NL, c);
  }
}
