/**
 * `patchGitignore` (src/workspace.ts:94-107; the headless installer's copy at
 * scripts/goalguard-init.mjs:53-65 is the same code): create the ignore-file
 * with the GoalGuard block, or append the block once, using the header line
 * as the "already patched" sentinel.
 */
module Gitignore {
  import opened Wrappers
  import opened Text
  import opened Templates

  /** The words of the sentinel header after its `#`. */
  const HEADER_WORDS: string := " GoalGuard" + " (Two-Layer Agent)"

  /** The sentinel header comment, `# GoalGuard (Two-Layer Agent)`. */
  const HEADER: string := "#" + HEADER_WORDS

  /**
   * The block's lines: a leading empty line, the header, the broad pattern
   * ignoring everything under `.ai`, then the two re-inclusions that must
   * follow it, and a trailing empty line.
   */
  const BLOCK_LINES: seq<string> := ["", HEADER, ".ai/*", "!.ai/README.md", "!.ai/.gitignore", ""]

  /** The block after its header: a newline ending the header, then the patterns, one per line. */
  const TAIL: string := NL + ".ai/*" + NL + "!.ai/README.md" + NL + "!.ai/.gitignore" + NL

  /** `BLOCK_LINES.join("\n")`. */
  const BLOCK: string := NL + HEADER + TAIL

  /** The block is the joined lines. */
  lemma BlockIsJoinedLines()
    ensures BLOCK == Join(BLOCK_LINES)
  {
    var l := BLOCK_LINES;
    assert l[5..] == [""];
    assert l[4..] == ["!.ai/.gitignore"] + l[5..];
    assert l[3..] == ["!.ai/README.md"] + l[4..];
    assert l[2..] == [".ai/*"] + l[3..];
    assert l[1..] == [HEADER] + l[2..];
    JoinCons("!.ai/.gitignore", l[5..]);
    JoinCons("!.ai/README.md", l[4..]);
    JoinCons(".ai/*", l[3..]);
    JoinCons(HEADER, l[2..]);
    JoinCons("", l[1..]);
  }

  /** The header sits right after the block's leading newline. */
  lemma HeaderInBlock()
    ensures BLOCK[0] == '\n' && OccursAt(BLOCK, HEADER, 1)
  {
    OccursInMiddle(NL, HEADER, TAIL);
  }

  /** The patterns after the header carry no `#`. */
  lemma TailLacksHash()
    ensures Lacks(TAIL, '#')
  {
    var p1, p2, p3 := ".ai/*", "!.ai/README.md", "!.ai/.gitignore";
    assert Lacks(NL, '#') && Lacks(p1, '#') && Lacks(p2, '#') && Lacks(p3, '#');
    LacksAppend(NL, p1, '#');
    LacksAppend(NL + p1, NL, '#');
    LacksAppend(NL + p1 + NL, p2, '#');
    LacksAppend(NL + p1 + NL + p2, NL, '#');
    LacksAppend(NL + p1 + NL + p2 + NL, p3, '#');
    LacksAppend(NL + p1 + NL + p2 + NL + p3, NL, '#');
  }

  /** The header's words carry neither `#` nor a newline. */
  lemma WordsLack(c: char)
    requires c == '#' || c == '\n'
    ensures Lacks(HEADER_WORDS, c)
  {
    var w1, w2 := " GoalGuard", " (Two-Layer Agent)";
    assert Lacks(w1, c) && Lacks(w2, c);
    LacksAppend(w1, w2, c);
  }

  /** The header is one line, opened by `#`. */
  lemma HeaderCharacters()
    ensures Lacks(HEADER, '\n') && HEADER[0] == '#'
  {
    WordsLack('\n');
    assert Lacks("#", '\n');
    LacksAppend("#", HEADER_WORDS, '\n');
  }

  /** In a newline, `#`, then text free of `#`, the `#` occurs only at index 1. */
  lemma HashOnlyAtOne(w: string, tail: string)
    requires Lacks(w, '#') && Lacks(tail, '#')
    ensures var b := NL + ("#" + w) + tail;
      forall k | 2 <= k < |b| :: b[k] != '#'
  {
    var b := NL + ("#" + w) + tail;
    forall k | 2 <= k < |b|
      ensures b[k] != '#'
    {
      if k < 2 + |w| {
        assert b[k] == w[k - 2];
      } else {
        assert b[k] == tail[k - 2 - |w|];
      }
    }
  }

  /** `#` occurs in the block only where the header starts. */
  lemma BlockCharacters()
    ensures forall k | 2 <= k < |BLOCK| :: BLOCK[k] != '#'
  {
    TailLacksHash();
    WordsLack('#');
    HashOnlyAtOne(HEADER_WORDS, TAIL);
  }

  /** `block.trimStart()`: the block without its leading newline. */
  lemma TrimmedBlock()
    ensures TrimStart(BLOCK) == BLOCK[1..]
  {
    assert AllSpace(BLOCK[..1]);
    VisibleAsciiNotSpace('#');
    TrimStartAt(BLOCK, 1);
  }

  /**
   * `patchGitignore` on the ignore-file's current text (`None` when it does
   * not exist). The result always carries the header, and keeps every
   * earlier line of an existing file.
   */
  function PatchGitignore(current: Option<string>): (r: string)
    ensures Contains(r, HEADER)
    ensures current.Some? ==> StartsWith(r, TrimEnd(current.value))
  {
    HeaderInBlock();
    match current
    case None =>
      TrimmedBlock();
      assert OccursAt(BLOCK[1..], HEADER, 0) by {
        assert BLOCK[1..][..|HEADER|] == BLOCK[1..1 + |HEADER|];
      }
      TrimStart(BLOCK)
    case Some(c) =>
      if Contains(c, HEADER) then
        assert StartsWith(c, TrimEnd(c));
        c
      else
        var t := TrimEnd(c);
        OccursContains(BLOCK, HEADER, 1);
        ContainsSuffix(t, BLOCK, HEADER);
        assert (t + BLOCK)[..|t|] == t;
        t + BLOCK
  }

  /** An absent ignore-file becomes the block without its leading newline. */
  lemma AbsentPatch()
    ensures PatchGitignore(None) == BLOCK[1..]
    ensures StartsWith(PatchGitignore(None), HEADER)
  {
    TrimmedBlock();
    HeaderInBlock();
    assert BLOCK[1..][..|HEADER|] == BLOCK[1..1 + |HEADER|];
  }

  /** Text already carrying the header is left exactly as it is. */
  lemma PatchedIsKept(c: string)
    requires Contains(c, HEADER)
    ensures PatchGitignore(Some(c)) == c
  {
  }

  /** Otherwise the trailing whitespace is cut and the block appended. */
  lemma UnpatchedIsAppended(c: string)
    requires !Contains(c, HEADER)
    ensures PatchGitignore(Some(c)) == TrimEnd(c) + BLOCK
  {
  }

  /** Patching twice is patching once. */
  lemma PatchIdempotent(current: Option<string>)
    ensures PatchGitignore(Some(PatchGitignore(current))) == PatchGitignore(current)
  {
  }

  /**
   * The header occurs exactly once after appending, right after the trimmed
   * text and its newline: no occurrence can sit inside the old text (it had
   * none), straddle the newline (the header has no newline), or start later
   * in the block (`#` opens the header only).
   */
  lemma HeaderExactlyOnce(c: string)
    requires !Contains(c, HEADER)
    ensures var t := TrimEnd(c);
      forall i | 0 <= i <= |t + BLOCK| :: OccursAt(t + BLOCK, HEADER, i) <==> i == |t| + 1
  {
    var t := TrimEnd(c);
    HeaderInBlock();
    assert t + BLOCK == t + BLOCK + "";
    SliceOfMiddle(t, BLOCK, "", 1, 1 + |HEADER|);
    assert !Contains(t, HEADER) by {
      if Contains(t, HEADER) {
        ContainsInPrefix(c, |t|, HEADER);
      }
    }
    HeaderCharacters();
    BlockCharacters();
    forall i | 0 <= i <= |t + BLOCK| && i != |t| + 1
      ensures !OccursAt(t + BLOCK, HEADER, i)
    {
      NoOtherHeader(t, i);
    }
  }

  /** The case analysis behind `HeaderExactlyOnce`, for one position. */
  lemma NoOtherHeader(t: string, i: int)
    requires !Contains(t, HEADER) && 0 <= i && i != |t| + 1
    requires Lacks(HEADER, '\n') && HEADER[0] == '#'
    requires BLOCK[0] == '\n' && forall k | 2 <= k < |BLOCK| :: BLOCK[k] != '#'
    ensures !OccursAt(t + BLOCK, HEADER, i)
  {
    var s := t + BLOCK;
    if i + |HEADER| <= |s| {
      if i + |HEADER| <= |t| {
        assert !OccursAt(t, HEADER, i);
        assert s[i..i + |HEADER|] == t[i..i + |HEADER|];
      } else if i <= |t| {
        assert s[i..i + |HEADER|][|t| - i] == s[|t|] == BLOCK[0];
      } else {
        assert s[i] == BLOCK[i - |t|];
        assert s[i..i + |HEADER|][0] == s[i];
      }
    }
  }

  /**
   * The header line follows the trimmed text directly: when that text is not
   * empty, its last character is not whitespace and the very next line is
   * the header, so no blank line separates them.
   */
  lemma NoBlankLineBeforeHeader(c: string)
    requires !Contains(c, HEADER) && TrimEnd(c) != []
    ensures var t := TrimEnd(c);
      var r := PatchGitignore(Some(c));
      && !IsSpace(r[|t| - 1])
      && r[|t|] == '\n'
      && r[|t| + 1..|t| + 1 + |HEADER|] == HEADER
  {
    var t := TrimEnd(c);
    HeaderInBlock();
    assert !AllSpace(c[|t| - 1..]);
    assert c[|t| - 1..] == [c[|t| - 1]] + c[|t|..];
    assert t[|t| - 1] == c[|t| - 1];
    assert t + BLOCK == t + BLOCK + "";
    SliceOfMiddle(t, BLOCK, "", 1, 1 + |HEADER|);
  }
}
