/** The full-document injection exactly as the editor writes it: with
    `String.prototype.replace` and a string replacement, whose `$` patterns
    are expanded. The rest of the model uses the literal insertion of
    `Composer.InsertBefore`; this module shows where the two part ways. */
module ComposerAsWritten {
  import opened Wrappers
  import opened Strings
  import opened Composer

  /** The GetSubstitution step of ECMA-262's `String.prototype.replace` for a
      string pattern (no capture groups, no named groups): `$$` is a dollar,
      `$&` the matched text, `` $` `` the text before the match, `$'` the text
      after it; every other `$` stands for itself. */
  function Substitute(rep: string, matched: string, before: string, after: string): (r: string)
    ensures '$' !in rep ==> r == rep
    decreases |rep|
  {
    if |rep| >= 2 && rep[0] == '$' && rep[1] == '$' then "$" + Substitute(rep[2..], matched, before, after)
    else if |rep| >= 2 && rep[0] == '$' && rep[1] == '&' then matched + Substitute(rep[2..], matched, before, after)
    else if |rep| >= 2 && rep[0] == '$' && rep[1] == '`' then before + Substitute(rep[2..], matched, before, after)
    else if |rep| >= 2 && rep[0] == '$' && rep[1] == '\'' then after + Substitute(rep[2..], matched, before, after)
    else if rep == [] then []
    else
      assert rep == [rep[0]] + rep[1..];
      [rep[0]] + Substitute(rep[1..], matched, before, after)
  }

  /** A `$`-free prefix passes through unchanged. */
  lemma {:induction false} SubstituteLiteralPrefix(a: string, rest: string, matched: string, before: string, after: string)
    requires '$' !in a
    ensures Substitute(a + rest, matched, before, after) == a + Substitute(rest, matched, before, after)
  {
    if a != [] {
      assert a[0] != '$';
      assert (a + rest)[0] == a[0];
      assert (a + rest)[1..] == a[1..] + rest;
      assert Substitute(a + rest, matched, before, after)
          == [a[0]] + Substitute(a[1..] + rest, matched, before, after);
      SubstituteLiteralPrefix(a[1..], rest, matched, before, after);
      assert a == [a[0]] + a[1..];
    } else {
      assert a + rest == rest;
    }
  }

  /** `s.replace(pat, rep)` with a string pattern: the first occurrence of
      `pat` is replaced by the expansion of `rep`. */
  function ReplaceFirst(s: string, pat: string, rep: string): (r: string)
    ensures IndexOf(s, pat).None? ==> r == s
    ensures IndexOf(s, pat).Some? ==> var i := IndexOf(s, pat).value;
      StartsWith(r, s[..i]) && EndsWith(r, s[i + |pat|..])
    ensures IndexOf(s, pat).Some? && '$' !in rep ==> var i := IndexOf(s, pat).value;
      r == s[..i] + rep + s[i + |pat|..]
  {
    ReplaceFirstShape(s, pat, rep);
    match IndexOf(s, pat)
    case None => s
    case Some(i) => s[..i] + Substitute(rep, pat, s[..i], s[i + |pat|..]) + s[i + |pat|..]
  }

  /** The outer parts of a replacement are the text around the match. */
  lemma ReplaceFirstShape(s: string, pat: string, rep: string)
    ensures IndexOf(s, pat).Some? ==> var i := IndexOf(s, pat).value; var after := s[i + |pat|..];
      var r := s[..i] + Substitute(rep, pat, s[..i], after) + after;
      StartsWith(r, s[..i]) && EndsWith(r, after)
  {
    if IndexOf(s, pat).Some? {
      var i := IndexOf(s, pat).value;
      var after := s[i + |pat|..];
      var mid := Substitute(rep, pat, s[..i], after);
      assert (s[..i] + mid + after)[..i] == s[..i];
      assert (s[..i] + mid + after)[i + |mid|..] == after;
    }
  }

  /** Line 281 of the source as written: unchanged in the cases the guard or
      a missing `</body>` excludes, and the literal insertion when the script
      holds no `$`. */
  function InjectScriptAsWritten(doc: string, js: string): (r: string)
    ensures js == [] || Contains(doc, js) || !Contains(doc, BodyClose) ==> r == doc
    ensures '$' !in js ==> r == InjectScript(doc, js)
  {
    TagLiteral(doc, BodyClose, ScriptOpen, js, ScriptClose);
    if js != [] && !Includes(doc, js) then ReplaceFirst(doc, BodyClose, ScriptTag(js) + BodyClose) else doc
  }

  /** Line 280 of the source as written: unchanged in the cases the guard or
      a missing `</head>` excludes, and the literal insertion when the style
      holds no `$`. */
  function InjectStyleAsWritten(doc: string, css: string): (r: string)
    ensures css == [] || Contains(doc, css) || !Contains(doc, HeadClose) ==> r == doc
    ensures '$' !in css ==> r == InjectStyle(doc, css)
  {
    TagLiteral(doc, HeadClose, StyleOpen, css, StyleClose);
    if css != [] && !Includes(doc, css) then ReplaceFirst(doc, HeadClose, StyleTag(css) + HeadClose) else doc
  }

  /** With a `$`-free insertion the as-written replacement is the literal insertion. */
  lemma ReplaceFirstLiteral(s: string, marker: string, ins: string)
    requires '$' !in ins && '$' !in marker
    ensures ReplaceFirst(s, marker, ins + marker) == InsertBefore(s, marker, ins)
  {
    if Contains(s, marker) {
      var i := IndexOf(s, marker).value;
      assert '$' !in ins + marker;
    }
  }

  /** Tags around `$`-free text hold no `$`. */
  lemma ElementWithoutDollar(open: string, content: string, close: string)
    requires '$' !in open && '$' !in content && '$' !in close
    ensures '$' !in Element(open, content, close)
  {
  }

  /** A tag around `$`-free content is inserted literally by `replace`. */
  lemma TagLiteral(doc: string, marker: string, open: string, content: string, close: string)
    requires '$' !in marker && '$' !in open && '$' !in close
    ensures '$' !in content ==>
      ReplaceFirst(doc, marker, Element(open, content, close) + marker)
      == InsertBefore(doc, marker, Element(open, content, close))
  {
    if '$' !in content {
      ElementWithoutDollar(open, content, close);
      ReplaceFirstLiteral(doc, marker, Element(open, content, close));
    }
  }

  /** Without a `$` in the buffer the as-written steps are the literal ones. */
  lemma AsWrittenAgreesWithoutDollar(doc: string, css: string, js: string)
    requires '$' !in css && '$' !in js
    ensures InjectStyleAsWritten(doc, css) == InjectStyle(doc, css)
    ensures InjectScriptAsWritten(doc, js) == InjectScript(doc, js)
  {
  }

  /** A script containing `$&` (common in code that itself calls `replace`)
      is corrupted: the matched `</body>` takes its place, so the script text
      never reaches the document, and the duplicate guard then lets a second
      composition of the result inject the script again. This holds for every
      document with a `</body>` and no `$` of its own. */
  lemma DollarPatternDefeatsGuard(doc: string, js: string)
    requires js == "$&"
    requires Contains(doc, BodyClose) && '$' !in doc
    ensures var i := IndexOf(doc, BodyClose).value;
            InjectScriptAsWritten(doc, js) == doc[..i] + ScriptOpen + BodyClose + ScriptClose + doc[i..]
    ensures !Contains(InjectScriptAsWritten(doc, js), js)
    ensures var once := InjectScriptAsWritten(doc, js);
            InjectScriptAsWritten(once, js) != once
  {
    var i := IndexOf(doc, BodyClose).value;
    FirstPass(doc, js, i);
    var once := InjectScriptAsWritten(doc, js);
    FirstPassShape(doc[..i], doc[i..], once);
    NoDollarNoMatch(once, js);
    SecondPass(once, js);
  }

  /** The first pass's result keeps a `</body>` and gains no `$`. */
  lemma FirstPassShape(before: string, rest: string, once: string)
    requires '$' !in before && '$' !in rest
    requires once == before + ScriptOpen + BodyClose + ScriptClose + rest
    ensures '$' !in once && Contains(once, BodyClose)
  {
    assert once == (before + ScriptOpen) + BodyClose + (ScriptClose + rest);
    ContainsMiddle(before + ScriptOpen, BodyClose, ScriptClose + rest);
    forall k | 0 <= k < |once|
      ensures once[k] != '$'
    {
      if k < |before| {
        assert once[k] == before[k];
      } else if k >= |once| - |rest| {
        assert once[k] == rest[k - (|once| - |rest|)];
      }
    }
  }

  /** A text without `$` contains no pattern starting with `$`. */
  lemma NoDollarNoMatch(s: string, pat: string)
    requires pat != [] && pat[0] == '$' && '$' !in s
    ensures !Contains(s, pat)
  {
    if Contains(s, pat) {
      ContainsFirstChar(s, pat);
    }
  }

  /** `$&` followed by `$`-free text expands to the match followed by that text. */
  lemma SubstituteMatch(js: string, tail: string, matched: string, before: string, after: string)
    requires |js| == 2 && js[0] == '$' && js[1] == '&' && '$' !in tail
    ensures Substitute(js + tail, matched, before, after) == matched + tail
  {
    assert (js + tail)[2..] == tail;
  }

  /** The expansion of the script tag for `$&`. */
  lemma ExpandScriptTag(js: string, before: string, after: string)
    requires |js| == 2 && js[0] == '$' && js[1] == '&'
    ensures Substitute(ScriptTag(js) + BodyClose, BodyClose, before, after)
            == ScriptOpen + BodyClose + ScriptClose + BodyClose
  {
    var tail := ScriptClose + BodyClose;
    assert ScriptTag(js) + BodyClose == ScriptOpen + js + tail;
    ExpandBetween(ScriptOpen, js, tail, BodyClose, before, after);
  }

  /** `$&` between `$`-free texts expands to the match between them. */
  lemma ExpandBetween(head: string, js: string, tail: string, matched: string, before: string, after: string)
    requires |js| == 2 && js[0] == '$' && js[1] == '&'
    requires '$' !in head && '$' !in tail
    ensures Substitute(head + js + tail, matched, before, after) == head + matched + tail
  {
    assert head + js + tail == head + (js + tail);
    SubstituteLiteralPrefix(head, js + tail, matched, before, after);
    SubstituteMatch(js, tail, matched, before, after);
  }

  /** The replacement at a known first occurrence. */
  lemma ReplaceFirstAt(s: string, pat: string, rep: string, i: nat)
    requires IndexOf(s, pat) == Some(i)
    ensures i + |pat| <= |s| && s[i..] == pat + s[i + |pat|..]
    ensures ReplaceFirst(s, pat, rep) == s[..i] + Substitute(rep, pat, s[..i], s[i + |pat|..]) + s[i + |pat|..]
  {
    assert s[i..i + |pat|] == pat;
  }

  /** Regrouping of the first pass's result. */
  lemma Regroup(a: string, o: string, m: string, c: string, after: string)
    ensures a + (o + m + c + m) + after == a + o + m + c + (m + after)
  {
  }

  lemma FirstPass(doc: string, js: string, i: nat)
    requires |js| == 2 && js[0] == '$' && js[1] == '&'
    requires '$' !in doc && IndexOf(doc, BodyClose) == Some(i)
    ensures InjectScriptAsWritten(doc, js) == doc[..i] + ScriptOpen + BodyClose + ScriptClose + doc[i..]
  {
    NoDollarNoMatch(doc, js);
    var after := doc[i + |BodyClose|..];
    ReplaceFirstAt(doc, BodyClose, ScriptTag(js) + BodyClose, i);
    ExpandScriptTag(js, doc[..i], after);
    Regroup(doc[..i], ScriptOpen, BodyClose, ScriptClose, after);
  }

  lemma SecondPass(once: string, js: string)
    requires |js| == 2 && js[0] == '$' && js[1] == '&'
    requires '$' !in once && Contains(once, BodyClose)
    ensures InjectScriptAsWritten(once, js) != once
  {
    NoDollarNoMatch(once, js);
    var i := IndexOf(once, BodyClose).value;
    ExpandScriptTag(js, once[..i], once[i + |BodyClose|..]);
  }
}
