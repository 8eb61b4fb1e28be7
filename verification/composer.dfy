/** The preview document builder (`getCombinedCode`): from the three buffers and
    the React flag to the one HTML string loaded into the sandboxed preview frame.
    The fixed HTML templates are constants with holes for the buffers; their
    indentation is not reproduced. */
module Composer {
  import opened Wrappers
  import opened Strings

  /*--------------------------------------------------------------------------
   * Templates
   *------------------------------------------------------------------------*/

  /** The fixed text of the three documents the composer can produce. The
      composer is stated for any such text; `SourceTemplates` holds the
      editor's own. */
  datatype Templates = Templates(
    /** Shown while all three buffers are blank. */
    placeholder: string,
    /** React document up to and including the opening of its style block. */
    reactHead: string,
    /** Closes the style block and the head, opens the body. */
    reactStyleClose: string,
    /** Closes the mount element, opens the transpiled module script and its guarded block. */
    reactTryOpen: string,
    /** Renders `App` if the script defined it, reports a failure inside the
        mount element, closes the document. */
    reactTail: string,
    /** Head of the document synthesized around a markup fragment. */
    wrapperHead: string)

  const SourceTemplates := Templates(
    "<html><body style=\"background:#020617;color:#94a3b8;display:flex;justify-content:center;align-items:center;height:100vh;margin:0;font-family:sans-serif;direction:rtl;\"><div>بانتظار ملفاتك...</div></body></html>",
    "\n<!DOCTYPE html>\n<html lang=\"ar\" dir=\"rtl\">\n<head>\n<meta charset=\"UTF-8\">\n<meta name=\"viewport\" content=\"width=device-width, initial-scale=1.0\">\n<script src=\"https://cdn.tailwindcss.com\"></script>\n<script src=\"https://unpkg.com/@babel/standalone/babel.min.js\"></script>\n<script type=\"importmap\">\n{\n\"imports\": {\n\"react\": \"https://esm.sh/react@18.2.0\",\n\"react-dom\": \"https://esm.sh/react-dom@18.2.0/client\",\n\"lucide-react\": \"https://esm.sh/lucide-react\"\n}\n}\n</script>\n<style>\nbody { margin: 0; min-height: 100vh; }\n",
    "\n</style>\n</head>\n<body>\n",
    "\n<script type=\"text/babel\" data-type=\"module\">\nimport React from 'react';\nimport { createRoot } from 'react-dom';\ntry {\n",
    "\nif (typeof App !== 'undefined') {\nconst root = createRoot(document.getElementById('root'));\nroot.render(<App />);\n}\n} catch (err) {\ndocument.getElementById('root').innerHTML = '<div style=\"color:red;padding:20px;font-family:monospace;direction:ltr;\">React Error: ' + err.message + '</div>';\n}\n</script>\n</body>\n</html>\n",
    "<!DOCTYPE html><html lang=\"ar\" dir=\"rtl\"><head><meta charset=\"UTF-8\"><meta name=\"viewport\" content=\"width=device-width, initial-scale=1.0\"><script src=\"https://cdn.tailwindcss.com\"></script>")

  /** The mount element of the React document, `<div id="root">…</div>`. */
  const MountOpen := "<div id=\"root\">"
  const MountClose := "</div>"
  /** The markup marker that says the markup brings its own mount point. */
  const RootMarker := "id=\"root\""

  const HeadToBody := "</head><body>"
  const DocumentClose := "</body></html>"
  const HeadClose := "</head>"
  const BodyClose := "</body>"
  const StyleOpen := "<style>"
  const StyleClose := "</style>"
  const ScriptOpen := "<script>"
  const ScriptClose := "</script>"

  /*--------------------------------------------------------------------------
   * Tags
   *------------------------------------------------------------------------*/

  /** `open + content + close`, or nothing at all for empty content. */
  function Element(open: string, content: string, close: string): (t: string)
    ensures content == [] <==> t == []
    ensures content != [] ==> |t| == |open| + |content| + |close|
    ensures content != [] ==> StartsWith(t, open) && EndsWith(t, close)
    ensures content != [] ==> t[|open|..|open| + |content|] == content
    ensures Contains(t, content)
  {
    if content == [] then
      assert OccursAt([], content, 0);
      []
    else
      ContainsMiddle(open, content, close);
      open + content + close
  }

  /** The style tag for the (trimmed) style buffer. */
  function StyleTag(css: string): string
  {
    Element(StyleOpen, css, StyleClose)
  }

  /** The script tag for the (trimmed) script buffer. */
  function ScriptTag(js: string): string
  {
    Element(ScriptOpen, js, ScriptClose)
  }

  /** An empty buffer contributes no tag: `<style></style>` and `<script></script>`
      are never produced. */
  lemma NoEmptyTags(css: string, js: string)
    ensures StyleTag(css) != StyleOpen + StyleClose
    ensures ScriptTag(js) != ScriptOpen + ScriptClose
  {
    if css != [] {
      assert |StyleTag(css)| > |StyleOpen + StyleClose|;
    }
    if js != [] {
      assert |ScriptTag(js)| > |ScriptOpen + ScriptClose|;
    }
  }

  /*--------------------------------------------------------------------------
   * Injection into an existing document
   *------------------------------------------------------------------------*/

  /** `s.replace(marker, ins + marker)` read literally: `ins` is inserted
      immediately before the first occurrence of `marker`, and `s` is returned
      unchanged when `marker` does not occur. */
  function InsertBefore(s: string, marker: string, ins: string): (r: string)
    ensures IndexOf(s, marker).None? ==> r == s
    ensures IndexOf(s, marker).Some? ==>
              var i := IndexOf(s, marker).value; r == s[..i] + ins + s[i..]
  {
    match IndexOf(s, marker)
    case None => s
    case Some(i) =>
      assert s[i..] == marker + s[i + |marker|..] by {
        assert s[i..i + |marker|] == marker;
      }
      s[..i] + ins + marker + s[i + |marker|..]
  }

  /** Deleting the inserted text gives the original back, and the inserted text
      is present whenever the marker was. */
  lemma InsertBeforeInverse(s: string, marker: string, ins: string)
    requires Contains(s, marker)
    ensures var i := IndexOf(s, marker).value; var r := InsertBefore(s, marker, ins);
            r[..i] + r[i + |ins|..] == s && OccursAt(r, ins, i)
  {
    var i := IndexOf(s, marker).value;
    var r := InsertBefore(s, marker, ins);
    assert r[..i] == s[..i];
    assert r[i + |ins|..] == s[i..];
    assert r[i..i + |ins|] == ins;
  }

  /** The style step of the full-document branch: the style tag goes right
      before the first `</head>`, unless the style is empty or the document
      already contains it verbatim. */
  function InjectStyle(doc: string, css: string): (r: string)
    ensures css == [] || Contains(doc, css) || !Contains(doc, HeadClose) ==> r == doc
    ensures css != [] && !Contains(doc, css) && Contains(doc, HeadClose) ==>
              var i := IndexOf(doc, HeadClose).value; r == doc[..i] + StyleTag(css) + doc[i..]
  {
    if css != [] && !Includes(doc, css) then InsertBefore(doc, HeadClose, StyleTag(css)) else doc
  }

  /** The script step: the script tag goes right before the first `</body>`,
      unless the script is empty or already present verbatim. */
  function InjectScript(doc: string, js: string): (r: string)
    ensures js == [] || Contains(doc, js) || !Contains(doc, BodyClose) ==> r == doc
    ensures js != [] && !Contains(doc, js) && Contains(doc, BodyClose) ==>
              var i := IndexOf(doc, BodyClose).value; r == doc[..i] + ScriptTag(js) + doc[i..]
  {
    if js != [] && !Includes(doc, js) then InsertBefore(doc, BodyClose, ScriptTag(js)) else doc
  }

  /** After inserting `Element(open, content, close)` the content is present. */
  lemma InsertedElementPresent(s: string, marker: string, open: string, content: string, close: string)
    requires Contains(s, marker)
    ensures Contains(InsertBefore(s, marker, Element(open, content, close)), content)
  {
    var ins := Element(open, content, close);
    InsertBeforeInverse(s, marker, ins);
    ContainsTransitive(InsertBefore(s, marker, ins), ins, content);
  }

  /** A non-empty style is present after the style step exactly when the
      document already held it or has a `</head>` to insert it at. */
  lemma InjectStylePresence(doc: string, css: string)
    requires css != []
    ensures Contains(InjectStyle(doc, css), css) <==> Contains(doc, css) || Contains(doc, HeadClose)
  {
    if !Contains(doc, css) && Contains(doc, HeadClose) {
      InsertedElementPresent(doc, HeadClose, StyleOpen, css, StyleClose);
    }
  }

  /** The duplicate guard makes the style step idempotent. */
  lemma InjectStyleIdempotent(doc: string, css: string)
    ensures InjectStyle(InjectStyle(doc, css), css) == InjectStyle(doc, css)
  {
    if css != [] {
      InjectStylePresence(doc, css);
    }
  }

  lemma InjectScriptPresence(doc: string, js: string)
    requires js != []
    ensures Contains(InjectScript(doc, js), js) <==> Contains(doc, js) || Contains(doc, BodyClose)
  {
    if !Contains(doc, js) && Contains(doc, BodyClose) {
      InsertedElementPresent(doc, BodyClose, ScriptOpen, js, ScriptClose);
    }
  }

  /** The duplicate guard makes the script step idempotent. */
  lemma InjectScriptIdempotent(doc: string, js: string)
    ensures InjectScript(InjectScript(doc, js), js) == InjectScript(doc, js)
  {
    if js != [] {
      InjectScriptPresence(doc, js);
    }
  }

  /*--------------------------------------------------------------------------
   * React template
   *------------------------------------------------------------------------*/

  /** What goes inside the mount element: nothing when the markup carries its
      own `id="root"`, the markup itself otherwise. */
  function MountContent(html: string): (m: string)
    ensures m == [] <==> html == [] || Contains(html, RootMarker)
    ensures m != [] ==> m == html
  {
    if Includes(html, RootMarker) then [] else html
  }

  /** The React document: the style buffer closes the style block, the mount
      element holds `MountContent`, and the script buffer opens the guarded
      block that renders `App`. */
  function ReactDocument(t: Templates, html: string, css: string, js: string): (r: string)
    ensures StartsWith(r, t.reactHead + css + t.reactStyleClose + MountOpen + MountContent(html) + MountClose)
    ensures EndsWith(r, t.reactTryOpen + js + t.reactTail)
    ensures |r| == |t.reactHead| + |css| + |t.reactStyleClose| + |MountOpen| + |MountContent(html)| + |MountClose|
                   + |t.reactTryOpen| + |js| + |t.reactTail|
  {
    var front := t.reactHead + css + t.reactStyleClose + MountOpen + MountContent(html) + MountClose;
    var tail := t.reactTryOpen + js + t.reactTail;
    Framed(front, tail);
    front + tail
  }

  /*--------------------------------------------------------------------------
   * Synthesized wrapper
   *------------------------------------------------------------------------*/

  /** The document synthesized around a markup fragment: fixed head, the style
      tag, then the markup as the body followed by the script tag. */
  function Wrapper(t: Templates, html: string, css: string, js: string): (r: string)
    ensures StartsWith(r, t.wrapperHead)
    ensures css == [] ==> StartsWith(r, t.wrapperHead + HeadToBody)
    ensures css != [] ==> StartsWith(r, t.wrapperHead + StyleOpen + css + StyleClose + HeadToBody)
    ensures js == [] ==> EndsWith(r, HeadToBody + html + DocumentClose)
    ensures js != [] ==> EndsWith(r, HeadToBody + html + ScriptOpen + js + ScriptClose + DocumentClose)
    ensures |r| == |t.wrapperHead| + |StyleTag(css)| + |HeadToBody| + |html| + |ScriptTag(js)| + |DocumentClose|
  {
    ElementSandwich(t.wrapperHead, StyleOpen, css, StyleClose, HeadToBody, html, ScriptOpen, js, ScriptClose, DocumentClose);
    t.wrapperHead + StyleTag(css) + HeadToBody + html + ScriptTag(js) + DocumentClose
  }

  /** The shape of `a + <style element> + m + h + <script element> + c`, with
      the templates kept abstract. */
  lemma ElementSandwich(a: string, so: string, css: string, sc: string, m: string, h: string,
                        jo: string, js: string, jc: string, c: string)
    ensures var r := a + Element(so, css, sc) + m + h + Element(jo, js, jc) + c;
      && StartsWith(r, a)
      && (css == [] ==> StartsWith(r, a + m))
      && (css != [] ==> StartsWith(r, a + so + css + sc + m))
      && (js == [] ==> EndsWith(r, m + h + c))
      && (js != [] ==> EndsWith(r, m + h + jo + js + jc + c))
  {
    var s := Element(so, css, sc);
    var t := Element(jo, js, jc);
    Sandwich(a, s, m, h, t, c);
    if css == [] {
      assert a + s + m == a + m;
    } else {
      assert a + s + m == a + so + css + sc + m;
    }
    if js == [] {
      assert m + h + t + c == m + h + c;
    } else {
      assert m + h + t + c == m + h + jo + js + jc + c;
    }
  }

  /** The front and back parts of a six-part concatenation. */
  lemma Sandwich(a: string, s: string, m: string, h: string, t: string, c: string)
    ensures StartsWith(a + s + m + h + t + c, a)
    ensures StartsWith(a + s + m + h + t + c, a + s + m)
    ensures EndsWith(a + s + m + h + t + c, m + h + t + c)
  {
    var r := a + s + m + h + t + c;
    assert r == (a + s + m) + (h + t + c);
    assert r == (a + s) + (m + h + t + c);
    Concatenation(a + s + m, h + t + c);
    Concatenation(a + s, m + h + t + c);
    assert r[..|a|] == (a + s + m)[..|a|];
  }

  /** `a + b` starts with `a` and ends with `b`. */
  lemma Concatenation(a: string, b: string)
    ensures StartsWith(a + b, a) && EndsWith(a + b, b)
  {
    assert (a + b)[..|a|] == a;
    assert (a + b)[|a|..] == b;
  }

  /*--------------------------------------------------------------------------
   * The composer
   *------------------------------------------------------------------------*/

  /** All three buffers are white space only: the idle state. */
  ghost predicate Blank(htmlCode: string, cssCode: string, jsCode: string)
  {
    AllWhitespace(htmlCode) && AllWhitespace(cssCode) && AllWhitespace(jsCode)
  }

  /** `getCombinedCode` over the template text `t`, with the buffers and the
      React flag it reads passed in. */
  function ComposeWith(t: Templates, htmlCode: string, cssCode: string, jsCode: string, isReactMode: bool): (r: string)
    ensures Blank(htmlCode, cssCode, jsCode) ==> r == t.placeholder
    ensures !Blank(htmlCode, cssCode, jsCode) && isReactMode ==>
      r == ReactDocument(t, Trim(htmlCode), Trim(cssCode), Trim(jsCode))
    ensures !isReactMode && (exists q :: OpensHtmlAt(htmlCode, q)) ==>
      r == InjectScript(InjectStyle(Trim(htmlCode), Trim(cssCode)), Trim(jsCode))
    ensures !Blank(htmlCode, cssCode, jsCode) && !isReactMode && (forall q :: !OpensHtmlAt(htmlCode, q)) ==>
      r == Wrapper(t, Trim(htmlCode), Trim(cssCode), Trim(jsCode))
  {
    HtmlTagThroughTrim(htmlCode);
    var html := Trim(htmlCode);
    var css := Trim(cssCode);
    var js := Trim(jsCode);
    if html == [] && css == [] && js == [] then t.placeholder
    else if isReactMode then ReactDocument(t, html, css, js)
    else if HasHtmlTag(html) then InjectScript(InjectStyle(html, css), js)
    else Wrapper(t, html, css, js)
  }

  /** The preview document, `getCombinedCode` itself. */
  function Compose(htmlCode: string, cssCode: string, jsCode: string, isReactMode: bool): string
  {
    ComposeWith(SourceTemplates, htmlCode, cssCode, jsCode, isReactMode)
  }

  /** Blank buffers give the placeholder document, whatever the React flag. */
  lemma ComposeIdle(t: Templates, htmlCode: string, cssCode: string, jsCode: string, isReactMode: bool)
    requires AllWhitespace(htmlCode) && AllWhitespace(cssCode) && AllWhitespace(jsCode)
    ensures ComposeWith(t, htmlCode, cssCode, jsCode, isReactMode) == t.placeholder
  {
  }

  /** In React mode with some buffer not blank: the trimmed style closes the
      style block and is directly followed by the mount element, and the
      trimmed script opens the guarded block. If the raw markup carries
      `id="root"` the mount element is empty; otherwise it holds the trimmed
      markup, which is itself empty when the markup is blank. */
  lemma ComposeReact(t: Templates, htmlCode: string, cssCode: string, jsCode: string)
    requires !(AllWhitespace(htmlCode) && AllWhitespace(cssCode) && AllWhitespace(jsCode))
    ensures var r := ComposeWith(t, htmlCode, cssCode, jsCode, true);
      && StartsWith(r, t.reactHead + Trim(cssCode) + t.reactStyleClose + MountOpen
                       + (if Contains(htmlCode, RootMarker) then [] else Trim(htmlCode)) + MountClose)
      && EndsWith(r, t.reactTryOpen + Trim(jsCode) + t.reactTail)
  {
    ContainsThroughTrim(htmlCode, RootMarker);
    var html := Trim(htmlCode);
    assert MountContent(html) == if Contains(htmlCode, RootMarker) then [] else html;
  }

  /** Outside React mode, markup that opens an `<html` tag (in any case, at any
      position) is never wrapped: only the style and script steps apply to the
      trimmed markup. */
  lemma ComposeFullDocument(t: Templates, htmlCode: string, cssCode: string, jsCode: string)
    requires exists q :: OpensHtmlAt(htmlCode, q)
    ensures ComposeWith(t, htmlCode, cssCode, jsCode, false)
            == InjectScript(InjectStyle(Trim(htmlCode), Trim(cssCode)), Trim(jsCode))
  {
    HtmlTagThroughTrim(htmlCode);
  }

  /** A full document that already embeds the style and the script verbatim is
      returned as it is (trimmed). */
  lemma ComposeKeepsEmbeddedDocument(t: Templates, htmlCode: string, cssCode: string, jsCode: string)
    requires exists q :: OpensHtmlAt(htmlCode, q)
    requires Contains(htmlCode, Trim(cssCode)) && Contains(htmlCode, Trim(jsCode))
    ensures ComposeWith(t, htmlCode, cssCode, jsCode, false) == Trim(htmlCode)
  {
    ComposeFullDocument(t, htmlCode, cssCode, jsCode);
    EmbeddedUnchanged(htmlCode, Trim(cssCode), Trim(jsCode));
  }

  lemma EmbeddedUnchanged(htmlCode: string, css: string, js: string)
    requires css != [] ==> !IsWhitespace(css[0]) && !IsWhitespace(css[|css| - 1])
    requires js != [] ==> !IsWhitespace(js[0]) && !IsWhitespace(js[|js| - 1])
    requires Contains(htmlCode, css) && Contains(htmlCode, js)
    ensures InjectScript(InjectStyle(Trim(htmlCode), css), js) == Trim(htmlCode)
  {
    if css != [] {
      ContainsThroughTrim(htmlCode, css);
    }
    if js != [] {
      ContainsThroughTrim(htmlCode, js);
    }
  }

  /** The style tag lands immediately before the first `</head>`, and the
      script step then does nothing when there is no script or the script text
      already occurs in the style: the order of the two steps matters. */
  lemma ComposeInjectsStyle(t: Templates, htmlCode: string, cssCode: string, jsCode: string)
    requires exists q :: OpensHtmlAt(htmlCode, q)
    requires Contains(Trim(htmlCode), HeadClose)
    requires Trim(cssCode) != [] && !Contains(Trim(htmlCode), Trim(cssCode))
    requires Contains(Trim(cssCode), Trim(jsCode))
    ensures var html := Trim(htmlCode); var i := IndexOf(html, HeadClose).value;
            ComposeWith(t, htmlCode, cssCode, jsCode, false) == html[..i] + StyleTag(Trim(cssCode)) + html[i..]
  {
    ComposeFullDocument(t, htmlCode, cssCode, jsCode);
    StyleOnlyInjected(Trim(htmlCode), Trim(cssCode), Trim(jsCode));
  }

  lemma StyleOnlyInjected(html: string, css: string, js: string)
    requires Contains(html, HeadClose)
    requires css != [] && !Contains(html, css) && Contains(css, js)
    ensures var i := IndexOf(html, HeadClose).value;
            InjectScript(InjectStyle(html, css), js) == html[..i] + StyleTag(css) + html[i..]
  {
    InjectStylePresence(html, css);
    ContainsTransitive(InjectStyle(html, css), css, js);
  }

  /** Markup without an `<html` tag is wrapped in the synthesized document. */
  lemma ComposeWrapsFragment(t: Templates, htmlCode: string, cssCode: string, jsCode: string)
    requires !(AllWhitespace(htmlCode) && AllWhitespace(cssCode) && AllWhitespace(jsCode))
    requires forall q :: !OpensHtmlAt(htmlCode, q)
    ensures ComposeWith(t, htmlCode, cssCode, jsCode, false)
            == Wrapper(t, Trim(htmlCode), Trim(cssCode), Trim(jsCode))
  {
    HtmlTagThroughTrim(htmlCode);
  }
}
