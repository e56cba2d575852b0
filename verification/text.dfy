/**
 * The JavaScript string operations the reconciler relies on: `startsWith`,
 * `endsWith`, `includes`, `trimStart` and the trailing-whitespace strip
 * `replace(/\s*$/, "")`. Strings are sequences of Unicode scalar values.
 */
module Text {

  /**
   * JavaScript's WhiteSpace and LineTerminator characters: the set that both
   * `trimStart` and the regular-expression class `\s` use. The first range is
   * tab, line feed, vertical tab, form feed and carriage return; the second
   * the typographic spaces U+2000 to U+200A.
   */
  predicate IsSpace(c: char) {
    || '\t' <= c <= '\r'
    || c == ' ' || c == '\U{00A0}' || c == '\U{1680}'
    || '\U{2000}' <= c <= '\U{200A}'
    || c == '\U{2028}' || c == '\U{2029}' || c == '\U{202F}'
    || c == '\U{205F}' || c == '\U{3000}' || c == '\U{FEFF}'
  }

  predicate AllSpace(s: string) {
    forall k | 0 <= k < |s| :: IsSpace(s[k])
  }

  /** No character of `s` is `c`. */
  predicate Lacks(s: string, c: char) {
    forall k | 0 <= k < |s| :: s[k] != c
  }

  /** `s.startsWith(p)` */
  predicate StartsWith(s: string, p: string) {
    |p| <= |s| && s[..|p|] == p
  }

  /** `s.endsWith(p)` */
  predicate EndsWith(s: string, p: string) {
    |p| <= |s| && s[|s| - |p|..] == p
  }

  /** `t` occurs in `s` starting at index `i`. */
  predicate OccursAt(s: string, t: string, i: int) {
    0 <= i && i + |t| <= |s| && s[i..i + |t|] == t
  }

  /** `s.includes(t)` */
  predicate Contains(s: string, t: string) {
    exists i | 0 <= i <= |s| :: OccursAt(s, t, i)
  }

  /** `s.trimStart()`: drops the longest all-space prefix. */
  function TrimStart(s: string): (r: string)
    ensures |r| <= |s| && r == s[|s| - |r|..]
    ensures AllSpace(s[..|s| - |r|])
    ensures r == [] || !IsSpace(r[0])
    decreases |s|
  {
    if |s| > 0 && IsSpace(s[0]) then TrimStart(s[1..]) else s
  }

  /**
   * `s.replace(/\s*$/, "")`. The regular expression's leftmost match starts at
   * the first index from which only spaces follow, so the result is the
   * prefix of `s` before that index: every earlier cut still has a non-space
   * character after it.
   */
  function TrimEnd(s: string): (r: string)
    ensures |r| <= |s| && r == s[..|r|]
    ensures AllSpace(s[|r|..])
    ensures forall j | 0 <= j < |r| :: !AllSpace(s[j..])
    decreases |s|
  {
    if |s| > 0 && IsSpace(s[|s| - 1]) then
      var r := TrimEnd(s[..|s| - 1]);
      assert s[..|s| - 1][..|r|] == s[..|r|];
      assert s[|r|..] == s[..|s| - 1][|r|..] + [s[|s| - 1]];
      forall j | 0 <= j < |r|
        ensures !AllSpace(s[j..])
      {
        assert !AllSpace(s[..|s| - 1][j..]);
        assert s[..|s| - 1][j..] == s[j..|s| - 1];
      }
      r
    else
      if |s| > 0 then
        forall j | 0 <= j < |s|
          ensures !AllSpace(s[j..])
        {
          assert s[j..][|s| - 1 - j] == s[|s| - 1];
        }
        s
      else
        s
  }

  /** No visible ASCII character is whitespace. */
  lemma VisibleAsciiNotSpace(c: char)
    requires '!' <= c <= '~'
    ensures !IsSpace(c)
  {
  }

  /** A string with an occurrence of `t` contains `t`. */
  lemma OccursContains(s: string, t: string, i: int)
    requires OccursAt(s, t, i)
    ensures Contains(s, t)
  {
  }

  /** Containment is transitive: an occurrence inside an occurrence. */
  lemma ContainsTransitive(s: string, u: string, t: string)
    requires Contains(s, u) && Contains(u, t)
    ensures Contains(s, t)
  {
    var i :| 0 <= i <= |s| && OccursAt(s, u, i);
    var j :| 0 <= j <= |u| && OccursAt(u, t, j);
    forall k | 0 <= k < |t|
      ensures s[i + j + k] == t[k]
    {
      assert s[i..i + |u|][j + k] == s[i + j + k];
      assert u[j..j + |t|][k] == u[j + k];
    }
    assert s[i + j..i + j + |t|] == t;
    assert OccursAt(s, t, i + j);
  }

  /** Appending text keeps every occurrence of the original. */
  lemma ContainsPrefix(a: string, b: string, t: string)
    requires Contains(a, t)
    ensures Contains(a + b, t)
  {
    var i :| 0 <= i <= |a| && OccursAt(a, t, i);
    assert (a + b)[i..i + |t|] == a[i..i + |t|];
    assert OccursAt(a + b, t, i);
  }

  /** Prepending text keeps every occurrence of the original, shifted. */
  lemma ContainsSuffix(a: string, b: string, t: string)
    requires Contains(b, t)
    ensures Contains(a + b, t)
  {
    var i :| 0 <= i <= |b| && OccursAt(b, t, i);
    assert (a + b)[|a| + i..|a| + i + |t|] == b[i..i + |t|];
    assert OccursAt(a + b, t, |a| + i);
  }

  /** The middle part of a concatenation occurs right after the first part. */
  lemma OccursInMiddle(a: string, t: string, b: string)
    ensures OccursAt(a + t + b, t, |a|)
  {
    assert (a + t + b)[|a|..|a| + |t|] == t;
  }

  /** The middle part of a concatenation, sliced. */
  lemma SliceOfMiddle(a: string, b: string, c: string, lo: int, hi: int)
    requires 0 <= lo <= hi <= |b|
    ensures (a + b + c)[|a| + lo..|a| + hi] == b[lo..hi]
  {
    assert forall k | lo <= k < hi :: (a + b + c)[|a| + k] == b[k];
  }

  /** An occurrence that lies within the middle part is an occurrence in it. */
  lemma OccursWithinMiddle(a: string, b: string, c: string, t: string, i: int)
    requires |a| <= i && i + |t| <= |a| + |b|
    ensures OccursAt(a + b + c, t, i) ==> OccursAt(b, t, i - |a|)
  {
    SliceOfMiddle(a, b, c, i - |a|, i - |a| + |t|);
  }

  /** A character missing from both parts is missing from their concatenation. */
  lemma LacksAppend(a: string, b: string, c: char)
    requires Lacks(a, c) && Lacks(b, c)
    ensures Lacks(a + b, c)
  {
    forall k | 0 <= k < |a + b|
      ensures (a + b)[k] != c
    {
      if k >= |a| {
        assert (a + b)[k] == b[k - |a|];
      }
    }
  }

  /** A string contains each of its prefixes. */
  lemma StartsWithContains(s: string, p: string)
    requires StartsWith(s, p)
    ensures Contains(s, p)
  {
    assert OccursAt(s, p, 0);
  }

  /** Containment in a prefix of `s` is containment in `s`. */
  lemma ContainsInPrefix(s: string, n: nat, t: string)
    requires n <= |s| && Contains(s[..n], t)
    ensures Contains(s, t)
  {
    assert s == s[..n] + s[n..];
    ContainsPrefix(s[..n], s[n..], t);
  }

  /** A string whose first character is not a space is its own `trimStart`. */
  lemma TrimStartNoLeadingSpace(s: string)
    requires |s| > 0 && !IsSpace(s[0])
    ensures TrimStart(s) == s
  {
  }

  /** Text that does not end in whitespace is its own trailing-whitespace strip. */
  lemma TrimEndNoTrailingSpace(s: string)
    requires |s| > 0 && !IsSpace(s[|s| - 1])
    ensures TrimEnd(s) == s
  {
  }

  /** `trimStart` stops at the first non-space character. */
  lemma {:induction false} TrimStartAt(s: string, k: nat)
    requires k < |s| && AllSpace(s[..k]) && !IsSpace(s[k])
    ensures TrimStart(s) == s[k..]
  {
    if k > 0 {
      assert IsSpace(s[..k][0]);
      assert s[1..][..k - 1] == s[1..k] && s[1..][k - 1] == s[k];
      forall j | 0 <= j < k - 1
        ensures IsSpace(s[1..k][j])
      {
        assert s[1..k][j] == s[..k][j + 1];
      }
      TrimStartAt(s[1..], k - 1);
      assert s[1..][k - 1..] == s[k..];
    }
  }
}
