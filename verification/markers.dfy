/**
 * The three predicates the reconciler consults before touching an existing
 * file (src/workspace.ts:31-41; the headless installer carries identical
 * copies at scripts/goalguard-init.mjs:32-42).
 */
module Markers {
  import opened Text
  import opened Templates

  /** The JSON key the regular expression `/"goalguardManaged"\s*:\s*true/` looks for. */
  const JSON_KEY: string := "\"goalguardManaged\""

  const JSON_TRUE: string := "true"

  /** The delimiter line that opens YAML front-matter. */
  const FRONTMATTER_FENCE: string := "---"

  /** The directory holding the agent definitions. */
  const AGENTS_DIR: string := ".cursor/agents/"

  /** The first index at or after `i` that is not whitespace (or `|s|`). */
  function SkipSpace(s: string, i: nat): (j: nat)
    requires i <= |s|
    ensures i <= j <= |s|
    ensures AllSpace(s[i..j])
    ensures j == |s| || !IsSpace(s[j])
    decreases |s| - i
  {
    if i < |s| && IsSpace(s[i]) then
      var j := SkipSpace(s, i + 1);
      assert s[i..j] == [s[i]] + s[i + 1..j];
      j
    else
      i
  }

  /** Any whitespace run ending before a non-space character is the one `SkipSpace` finds. */
  lemma SkipSpaceExact(s: string, i: nat, a: nat)
    requires i <= a < |s|
    requires AllSpace(s[i..a]) && !IsSpace(s[a])
    ensures SkipSpace(s, i) == a
  {
    var j := SkipSpace(s, i);
  }

  /** The regular expression, matched greedily from position `i`. */
  predicate FlagAt(s: string, i: nat) {
    && OccursAt(s, JSON_KEY, i)
    && var a := SkipSpace(s, i + |JSON_KEY|);
    && a < |s| && s[a] == ':'
    && OccursAt(s, JSON_TRUE, SkipSpace(s, a + 1))
  }

  /** `/"goalguardManaged"\s*:\s*true/.test(s)` */
  predicate MatchesManagedFlag(s: string) {
    exists i | 0 <= i <= |s| :: FlagAt(s, i)
  }

  /**
   * The regular expression's own meaning: the key at `i`, whitespace up to the
   * colon at `a`, whitespace up to `true` at `b`.
   */
  ghost predicate RegexSplit(s: string, i: int, a: int, b: int) {
    && OccursAt(s, JSON_KEY, i)
    && i + |JSON_KEY| <= a < b <= |s|
    && AllSpace(s[i + |JSON_KEY|..a])
    && s[a] == ':'
    && AllSpace(s[a + 1..b])
    && OccursAt(s, JSON_TRUE, b)
  }

  /** A greedy match is a match of the regular expression. */
  lemma FlagAtIsRegexSplit(s: string, i: nat)
    requires FlagAt(s, i)
    ensures exists a, b :: RegexSplit(s, i, a, b)
  {
    var a := SkipSpace(s, i + |JSON_KEY|);
    var b := SkipSpace(s, a + 1);
    assert RegexSplit(s, i, a, b);
  }

  /** Every match of the regular expression is found by the greedy matcher. */
  lemma RegexSplitIsFlagAt(s: string, i: int, a: int, b: int)
    requires RegexSplit(s, i, a, b)
    ensures 0 <= i <= |s| && FlagAt(s, i)
  {
    VisibleAsciiNotSpace(':');
    SkipSpaceExact(s, i + |JSON_KEY|, a);
    assert s[b] == s[b..b + |JSON_TRUE|][0] == 't';
    SkipSpaceExact(s, a + 1, b);
  }

  /** The greedy matcher accepts exactly the strings the regular expression matches. */
  lemma MatchesManagedFlagIsRegex(s: string)
    ensures MatchesManagedFlag(s) <==> exists i, a, b :: RegexSplit(s, i, a, b)
  {
    if MatchesManagedFlag(s) {
      var i :| 0 <= i <= |s| && FlagAt(s, i);
      FlagAtIsRegexSplit(s, i);
    }
    if exists i, a, b :: RegexSplit(s, i, a, b) {
      var i, a, b :| RegexSplit(s, i, a, b);
      RegexSplitIsFlagAt(s, i, a, b);
    }
  }

  /** A match of the regular expression survives surrounding text. */
  lemma RegexSplitInContext(a: string, b: string, c: string, i: int, x: int, y: int)
    requires RegexSplit(b, i, x, y)
    ensures RegexSplit(a + b + c, |a| + i, |a| + x, |a| + y)
  {
    SliceOfMiddle(a, b, c, i, i + |JSON_KEY|);
    SliceOfMiddle(a, b, c, i + |JSON_KEY|, x);
    SliceOfMiddle(a, b, c, x + 1, y);
    SliceOfMiddle(a, b, c, y, y + |JSON_TRUE|);
    SliceOfMiddle(a, b, c, x, x + 1);
    assert b[x..x + 1][0] == b[x];
    assert (a + b + c)[|a| + x..|a| + x + 1][0] == (a + b + c)[|a| + x];
  }

  /** Text that matches the JSON flag still matches inside a larger text. */
  lemma FlagInContext(a: string, b: string, c: string)
    requires MatchesManagedFlag(b)
    ensures MatchesManagedFlag(a + b + c)
  {
    MatchesManagedFlagIsRegex(b);
    var i, x, y :| RegexSplit(b, i, x, y);
    RegexSplitInContext(a, b, c, i, x, y);
    MatchesManagedFlagIsRegex(a + b + c);
  }

  /**
   * `isManagedContent`: the text still carries one of the managed markers — the
   * line marker, the comment marker, or the JSON flag.
   */
  predicate IsManagedContent(s: string) {
    || Contains(s, MANAGED_MARKER)
    || Contains(s, MANAGED_HTML_MARKER)
    || MatchesManagedFlag(s)
  }

  /** `hasYamlFrontmatter`: `s.trimStart().startsWith("---")`. */
  predicate HasYamlFrontmatter(s: string) {
    StartsWith(TrimStart(s), FRONTMATTER_FENCE)
  }

  /** The fence at `k` after nothing but whitespace. */
  ghost predicate FenceAfterSpace(s: string, k: int) {
    0 <= k <= |s| && AllSpace(s[..k]) && StartsWith(s[k..], FRONTMATTER_FENCE)
  }

  lemma FrontmatterHasFence(s: string)
    requires HasYamlFrontmatter(s)
    ensures FenceAfterSpace(s, |s| - |TrimStart(s)|)
  {
    var r := TrimStart(s);
    assert s[|s| - |r|..] == r;
  }

  lemma FenceHasFrontmatter(s: string, k: int)
    requires FenceAfterSpace(s, k)
    ensures HasYamlFrontmatter(s)
  {
    assert s[k] == s[k..][0] == '-';
    VisibleAsciiNotSpace('-');
    TrimStartAt(s, k);
  }

  /** Front-matter means: some whitespace, then `---`. */
  lemma HasYamlFrontmatterIff(s: string)
    ensures HasYamlFrontmatter(s) <==> exists k :: FenceAfterSpace(s, k)
  {
    if HasYamlFrontmatter(s) {
      FrontmatterHasFence(s);
    }
    if exists k :: FenceAfterSpace(s, k) {
      var k :| FenceAfterSpace(s, k);
      FenceHasFrontmatter(s, k);
    }
  }

  /** `isAgentFilePath`: under `.cursor/agents/` with a `.md` extension. */
  predicate IsAgentFilePath(p: string) {
    StartsWith(p, AGENTS_DIR) && EndsWith(p, ".md")
  }

  /** A text that starts with the fence has front-matter. */
  lemma FenceFirstHasFrontmatter(s: string)
    requires StartsWith(s, FRONTMATTER_FENCE)
    ensures HasYamlFrontmatter(s)
  {
    assert s[0] == '-';
    VisibleAsciiNotSpace('-');
    TrimStartNoLeadingSpace(s);
  }
}
