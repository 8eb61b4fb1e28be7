/** The JavaScript string operations the editor relies on, over `string` (a `seq<char>`):
    `trim`, `includes`/`indexOf`, `endsWith`, and the case-insensitive test `/<html/i`. */
module Strings {
  import opened Wrappers

  /*--------------------------------------------------------------------------
   * Substrings
   *------------------------------------------------------------------------*/

  /** `pat` occurs in `s` starting at index `i`. */
  ghost predicate OccursAt(s: string, pat: string, i: int)
  {
    0 <= i && i + |pat| <= |s| && s[i..i + |pat|] == pat
  }

  /** `pat` is a substring of `s`. */
  ghost predicate Contains(s: string, pat: string)
  {
    exists i :: OccursAt(s, pat, i)
  }

  /** The first occurrence of `pat` in `s` at or after index `k`, as `indexOf(pat, k)`
      computes it (an empty `pat` is found at `k` itself). */
  function FindFrom(s: string, pat: string, k: nat): (r: Option<nat>)
    requires k <= |s|
    ensures r.Some? ==> k <= r.value && OccursAt(s, pat, r.value)
    ensures r.Some? ==> forall j :: k <= j < r.value ==> !OccursAt(s, pat, j)
    ensures r.None? ==> forall j :: k <= j ==> !OccursAt(s, pat, j)
    decreases |s| - k
  {
    if k + |pat| > |s| then None
    else if s[k..k + |pat|] == pat then Some(k)
    else FindFrom(s, pat, k + 1)
  }

  /** `s.indexOf(pat)`: the least index where `pat` occurs, if any. */
  function IndexOf(s: string, pat: string): (r: Option<nat>)
    ensures r.Some? <==> Contains(s, pat)
    ensures r.Some? ==> OccursAt(s, pat, r.value)
    ensures r.Some? ==> forall j :: 0 <= j < r.value ==> !OccursAt(s, pat, j)
  {
    FindFrom(s, pat, 0)
  }

  /** `s.includes(pat)`. */
  function Includes(s: string, pat: string): (b: bool)
    ensures b <==> Contains(s, pat)
  {
    IndexOf(s, pat).Some?
  }

  /** `a + b + c` contains `b`, at offset `|a|`. */
  lemma ContainsMiddle(a: string, b: string, c: string)
    ensures OccursAt(a + b + c, b, |a|)
    ensures Contains(a + b + c, b)
  {
    assert (a + b + c)[|a|..|a| + |b|] == b;
    assert OccursAt(a + b + c, b, |a|);
  }

  /** A concatenation starts with its first part and ends with its second. */
  lemma Framed(a: string, b: string)
    ensures StartsWith(a + b, a) && EndsWith(a + b, b)
  {
    assert (a + b)[..|a|] == a;
    assert (a + b)[|a|..] == b;
  }

  /** A substring of a substring is a substring. */
  lemma ContainsTransitive(s: string, t: string, u: string)
    requires Contains(s, t) && Contains(t, u)
    ensures Contains(s, u)
  {
    var i :| OccursAt(s, t, i);
    var j :| OccursAt(t, u, j);
    forall k | 0 <= k < |u|
      ensures s[i + j + k] == u[k]
    {
      assert u[k] == t[j + k];
      assert t[j + k] == s[i..i + |t|][j + k];
    }
    assert s[i + j..i + j + |u|] == u;
    assert OccursAt(s, u, i + j);
  }

  /** A non-empty pattern can only occur in a string holding its first character. */
  lemma ContainsFirstChar(s: string, pat: string)
    requires pat != [] && Contains(s, pat)
    ensures pat[0] in s
  {
    var i :| OccursAt(s, pat, i);
    assert s[i] == s[i..i + |pat|][0];
  }

  /** `s.endsWith(suffix)`. */
  predicate EndsWith(s: string, suffix: string)
  {
    |suffix| <= |s| && s[|s| - |suffix|..] == suffix
  }

  /** `s.startsWith(prefix)`. */
  predicate StartsWith(s: string, prefix: string)
  {
    |prefix| <= |s| && s[..|prefix|] == prefix
  }

  /*--------------------------------------------------------------------------
   * Trimming
   *------------------------------------------------------------------------*/

  /** The code points `String.prototype.trim` strips: ECMAScript WhiteSpace
      (tab, vertical tab, form feed, space, no-break space, zero-width no-break
      space and the Unicode space separators) and LineTerminator. */
  predicate IsWhitespace(c: char)
  {
    || c == '\t' || c == '\n' || c == '\U{000B}' || c == '\U{000C}' || c == '\r' || c == ' '
    || c == '\U{00A0}' || c == '\U{1680}' || ('\U{2000}' <= c <= '\U{200A}')
    || c == '\U{2028}' || c == '\U{2029}' || c == '\U{202F}' || c == '\U{205F}'
    || c == '\U{3000}' || c == '\U{FEFF}'
  }

  ghost predicate AllWhitespace(s: string)
  {
    forall i :: 0 <= i < |s| ==> IsWhitespace(s[i])
  }

  /** The index of the first character at or after `k` that is not white space
      (`|s|` when there is none). */
  function SkipWhitespace(s: string, k: nat): (n: nat)
    requires k <= |s|
    ensures k <= n <= |s|
    ensures forall i :: k <= i < n ==> IsWhitespace(s[i])
    ensures n < |s| ==> !IsWhitespace(s[n])
    decreases |s| - k
  {
    if k < |s| && IsWhitespace(s[k]) then SkipWhitespace(s, k + 1) else k
  }

  /** The index just after the last character before `k` that is not white
      space (`0` when there is none). */
  function ContentEnd(s: string, k: nat): (n: nat)
    requires k <= |s|
    ensures n <= k
    ensures forall i :: n <= i < k ==> IsWhitespace(s[i])
    ensures n > 0 ==> !IsWhitespace(s[n - 1])
  {
    if k > 0 && IsWhitespace(s[k - 1]) then ContentEnd(s, k - 1) else k
  }

  /** The slice `s[i..i + |r|]` is `r`, and everything around it is white space. */
  ghost predicate PaddedAt(s: string, r: string, i: int)
  {
    && 0 <= i <= |s| - |r| && r == s[i..i + |r|]
    && (forall k :: 0 <= k < i ==> IsWhitespace(s[k]))
    && (forall k :: i + |r| <= k < |s| ==> IsWhitespace(s[k]))
  }

  /** `s.trim()`: the slice of `s` between its leading and trailing white space
      (see `TrimPadding` for where the slice lies). */
  function Trim(s: string): (r: string)
    ensures r == [] <==> AllWhitespace(s)
    ensures r != [] ==> !IsWhitespace(r[0]) && !IsWhitespace(r[|r| - 1])
  {
    var a := SkipWhitespace(s, 0);
    var b := ContentEnd(s, |s|);
    assert a < |s| ==> a < b;
    if a < b then s[a..b] else []
  }

  /** `Trim(s)` is a slice of `s` with only white space around it. */
  lemma TrimPadding(s: string) returns (i: int)
    ensures PaddedAt(s, Trim(s), i)
  {
    var a := SkipWhitespace(s, 0);
    var b := ContentEnd(s, |s|);
    i := if a < b then a else 0;
  }

  /** A string that starts and ends with other characters is its own trim. */
  lemma TrimOfTrimmed(s: string)
    requires s != [] ==> !IsWhitespace(s[0]) && !IsWhitespace(s[|s| - 1])
    ensures Trim(s) == s
  {
    var r := Trim(s);
    var i := TrimPadding(s);
    if r != [] {
      if i > 0 {
        assert false;
      }
      if i + |r| < |s| {
        assert false;
      }
    }
  }

  /** Trimming twice is trimming once. */
  lemma TrimIdempotent(s: string)
    ensures Trim(Trim(s)) == Trim(s)
  {
    TrimOfTrimmed(Trim(s));
  }

  /** A window of `s` that starts and ends with characters other than white
      space lies inside the trimmed slice. */
  lemma WindowInsideTrim(s: string, q: int, n: int) returns (i: int)
    requires 0 <= q && 0 < n && q + n <= |s|
    requires !IsWhitespace(s[q]) && !IsWhitespace(s[q + n - 1])
    ensures PaddedAt(s, Trim(s), i) && i <= q && q + n <= i + |Trim(s)|
  {
    i := TrimPadding(s);
  }

  /** Searching the trimmed text for a pattern that neither starts nor ends with
      white space is the same as searching the untrimmed text. */
  lemma ContainsThroughTrim(s: string, pat: string)
    requires pat != [] && !IsWhitespace(pat[0]) && !IsWhitespace(pat[|pat| - 1])
    ensures Contains(Trim(s), pat) <==> Contains(s, pat)
  {
    var t := Trim(s);
    var i := TrimPadding(s);
    if Contains(t, pat) {
      assert OccursAt(s, t, i);
      ContainsTransitive(s, t, pat);
    }
    if Contains(s, pat) {
      var q :| OccursAt(s, pat, q);
      assert s[q] == pat[0] && s[q + |pat| - 1] == pat[|pat| - 1] by {
        assert s[q..q + |pat|] == pat;
      }
      var j := WindowInsideTrim(s, q, |pat|);
      OccursInSlice(s, t, pat, j, q);
    }
  }

  /** An occurrence inside the slice `t` of `s` at `j` is an occurrence in `t`. */
  lemma OccursInSlice(s: string, t: string, pat: string, j: int, q: int)
    requires 0 <= j && j + |t| <= |s| && t == s[j..j + |t|]
    requires j <= q && q + |pat| <= j + |t| && OccursAt(s, pat, q)
    ensures OccursAt(t, pat, q - j) && Contains(t, pat)
  {
    forall k | 0 <= k < |pat|
      ensures t[q - j + k] == pat[k]
    {
      assert t[q - j + k] == s[q + k];
      assert s[q..q + |pat|][k] == s[q + k];
    }
    assert t[q - j..q - j + |pat|] == pat;
    assert OccursAt(t, pat, q - j);
  }

  /*--------------------------------------------------------------------------
   * Case-insensitive search for `<html`
   *------------------------------------------------------------------------*/

  /** ASCII lower-casing of one character; every other character is kept. */
  function LowerChar(c: char): char
  {
    if 'A' <= c <= 'Z' then (c as int + 32) as char else c
  }

  function LowerAscii(s: string): (r: string)
    ensures |r| == |s|
    ensures forall i :: 0 <= i < |s| ==> r[i] == LowerChar(s[i])
  {
    if s == [] then [] else [LowerChar(s[0])] + LowerAscii(s[1..])
  }

  /** At index `i` of `s` stands `<` followed by `html` in any mix of case. */
  ghost predicate OpensHtmlAt(s: string, i: int)
  {
    && 0 <= i && i + 5 <= |s|
    && s[i] == '<'
    && (s[i + 1] == 'h' || s[i + 1] == 'H')
    && (s[i + 2] == 't' || s[i + 2] == 'T')
    && (s[i + 3] == 'm' || s[i + 3] == 'M')
    && (s[i + 4] == 'l' || s[i + 4] == 'L')
  }

  /** `/<html/i.test(s)`. ASCII folding is exact for this pattern: without the
      `u` flag a case-insensitive regular expression never folds a non-ASCII
      character onto an ASCII one, so only `h`/`H`, `t`/`T`, `m`/`M` and
      `l`/`L` can match. */
  function HasHtmlTag(s: string): (b: bool)
    ensures b <==> exists i :: OpensHtmlAt(s, i)
  {
    HtmlTagFolded(s);
    Includes(LowerAscii(s), "<html")
  }

  /** `<html` occurs in the lower-cased text exactly where `s` opens an html tag. */
  lemma HtmlTagFolded(s: string)
    ensures Contains(LowerAscii(s), "<html") <==> exists i :: OpensHtmlAt(s, i)
  {
    var low := LowerAscii(s);
    if Contains(low, "<html") {
      var i :| OccursAt(low, "<html", i);
      FoldedAt(s, i);
    }
    if exists i :: OpensHtmlAt(s, i) {
      var i :| OpensHtmlAt(s, i);
      FoldedAt(s, i);
    }
  }

  lemma FoldedAt(s: string, i: int)
    requires 0 <= i && i + 5 <= |s|
    ensures OccursAt(LowerAscii(s), "<html", i) <==> OpensHtmlAt(s, i)
  {
    var low := LowerAscii(s);
    SpellsHtmlAt(low, i);
    LowerCharIs(s[i], '<', '<');
    LowerCharIs(s[i + 1], 'h', 'H');
    LowerCharIs(s[i + 2], 't', 'T');
    LowerCharIs(s[i + 3], 'm', 'M');
    LowerCharIs(s[i + 4], 'l', 'L');
  }

  lemma SpellsHtmlAt(w: string, i: int)
    requires 0 <= i && i + 5 <= |w|
    ensures OccursAt(w, "<html", i)
            <==> w[i] == '<' && w[i + 1] == 'h' && w[i + 2] == 't' && w[i + 3] == 'm' && w[i + 4] == 'l'
  {
    assert w[i..i + 5] == [w[i], w[i + 1], w[i + 2], w[i + 3], w[i + 4]];
  }

  lemma LowerCharIs(c: char, lo: char, up: char)
    requires || ('a' <= lo <= 'z' && up as int == lo as int - 32)
             || (lo == up && !('A' <= lo <= 'Z') && !('a' <= lo <= 'z'))
    ensures LowerChar(c) == lo <==> c == lo || c == up
  {
    if 'A' <= c <= 'Z' {
      assert LowerChar(c) as int == c as int + 32;
    }
  }

  /** Trimming never changes whether the markup opens an html tag. */
  lemma HtmlTagThroughTrim(s: string)
    ensures HasHtmlTag(Trim(s)) <==> exists q :: OpensHtmlAt(s, q)
  {
    if exists p :: OpensHtmlAt(Trim(s), p) {
      var p :| OpensHtmlAt(Trim(s), p);
      HtmlTagFromTrim(s, p);
    }
    if exists q :: OpensHtmlAt(s, q) {
      var q :| OpensHtmlAt(s, q);
      HtmlTagIntoTrim(s, q);
    }
  }

  lemma HtmlTagFromTrim(s: string, p: int)
    requires OpensHtmlAt(Trim(s), p)
    ensures exists q :: OpensHtmlAt(s, q)
  {
    var t := Trim(s);
    var i := TrimPadding(s);
    assert forall k :: 0 <= k < |t| ==> t[k] == s[i + k];
    ShiftOpensHtml(t, s, p, i);
  }

  lemma HtmlTagIntoTrim(s: string, q: int)
    requires OpensHtmlAt(s, q)
    ensures exists p :: OpensHtmlAt(Trim(s), p)
  {
    var t := Trim(s);
    var j := WindowInsideTrim(s, q, 5);
    assert forall k :: 0 <= k < |t| ==> t[k] == s[j + k];
    ShiftOpensHtml(s, t, q, -j);
  }

  /** An html tag seen at `p` in `a` is seen at `p + d` in `b` when `b` agrees
      with `a` on those five characters. */
  lemma ShiftOpensHtml(a: string, b: string, p: int, d: int)
    requires OpensHtmlAt(a, p) && 0 <= p + d && p + d + 5 <= |b|
    requires forall k :: p <= k < p + 5 ==> b[k + d] == a[k]
    ensures OpensHtmlAt(b, p + d)
  {
    assert b[p + d] == a[p] && b[p + d + 1] == a[p + 1] && b[p + d + 2] == a[p + 2]
        && b[p + d + 3] == a[p + 3] && b[p + d + 4] == a[p + 4];
  }
}
