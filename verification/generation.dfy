/** The pure rules of a generation round: the empty-instruction guard, the
    request text sent to the AI service, and how a parsed reply is applied to
    the workspace. The service call together with the JSON parsing of its
    answer is an input: `None` when the call fails, the answer is empty or it
    does not parse. */
module Generation {
  import opened Wrappers
  import opened Strings
  import opened State

  /** A parsed reply. A field is `None` when the key is missing or holds
      another falsy value (`null`, `false`, `0`); `Some("")` is an empty string. */
  datatype Reply = Reply(html: Option<string>, css: Option<string>, js: Option<string>)
  {
    /** The reply field for buffer `k`. */
    function Field(k: Kind): Option<string>
    {
      match k
      case Html => html
      case Css => css
      case Js => js
    }
  }

  /** The value of `field || ''`: a missing or falsy field becomes the empty string. */
  function OrBlank(field: Option<string>): (s: string)
    ensures field.Some? ==> s == field.value
    ensures field.None? ==> s == []
  {
    field.GetOr([])
  }

  /** The value of `code || 'empty'`: what the request shows for a buffer. */
  function Shown(code: string): (s: string)
    ensures s != []
    ensures code != [] ==> s == code
    ensures code == [] ==> s == "empty"
  {
    if code == [] then "empty" else code
  }

  /** The mode line's word. */
  function ModeWord(isReactMode: bool): (w: string)
    ensures w == "ENABLED" <==> isReactMode
    ensures w == "DISABLED" <==> !isReactMode
  {
    if isReactMode then "ENABLED" else "DISABLED"
  }

  /** The indentation the request lines carry. */
  const Indent := "      "

  /** The request line quoting the instruction. */
  function PromptLine(prompt: string): string
  {
    "USER REQUEST: \"" + prompt + "\""
  }

  /** The request line stating the mode. */
  function ModeLine(isReactMode: bool): string
  {
    "REACT MODE: " + ModeWord(isReactMode)
  }

  /** The request line listing one file: its display name and its content,
      or `empty` for an empty buffer. */
  function FileLine(name: string, code: string): string
  {
    "- " + name + ": " + Shown(code)
  }

  /** One line of the request text: a line break, the indentation, the text. */
  function Line(text: string): string
  {
    "\n" + Indent + text
  }

  /** Lines laid one after the other. */
  function Lines(texts: seq<string>): string
  {
    if texts == [] then [] else Line(texts[0]) + Lines(texts[1..])
  }

  /** Every line's text appears in the laid-out lines. */
  lemma {:induction false} LinesContain(texts: seq<string>, i: nat)
    requires i < |texts|
    ensures Contains(Lines(texts), texts[i])
  {
    var rest := Lines(texts[1..]);
    assert Lines(texts) == ("\n" + Indent) + texts[0] + rest;
    if i == 0 {
      ContainsMiddle("\n" + Indent, texts[0], rest);
    } else {
      LinesContain(texts[1..], i - 1);
      assert Lines(texts) == Line(texts[0]) + rest + [];
      ContainsMiddle(Line(texts[0]), rest, []);
      ContainsTransitive(Lines(texts), rest, texts[i]);
    }
  }

  /** The texts of the request's lines, in order: the quoted instruction, the
      mode, a blank line, the files heading, one line per file, and a last
      line holding only the indentation. */
  function ContentLines(ws: Workspace): seq<string>
  {
    [PromptLine(ws.prompt), ModeLine(ws.isReactMode), [], "CURRENT FILES:",
     FileLine(ws.htmlName, ws.html), FileLine(ws.cssName, ws.css), FileLine(ws.jsName, ws.js), []]
  }

  /** The user-content block sent to the service. */
  function Contents(ws: Workspace): (c: string)
    ensures Contains(c, PromptLine(ws.prompt))
    ensures Contains(c, ModeLine(ws.isReactMode))
    ensures forall k :: Contains(c, FileLine(ws.Name(k), ws.Code(k)))
  {
    var texts := ContentLines(ws);
    LinesContain(texts, 0);
    LinesContain(texts, 1);
    LinesContain(texts, 4);
    LinesContain(texts, 5);
    LinesContain(texts, 6);
    assert forall k :: FileLine(ws.Name(k), ws.Code(k)) in texts[4..7];
    Lines(texts)
  }

  /** Why a round reports an error. */
  datatype Failure = EmptyInstruction | GenerationFailed

  /** The result of a round: the new workspace, the request text sent to the
      service (if any) and the error shown (if any). */
  datatype Round = Round(ws: Workspace, request: Option<string>, error: Option<Failure>)

  /** The workspace after a successful reply: every buffer overwritten,
      the preview reloaded, the instruction cleared. */
  function Apply(ws: Workspace, reply: Reply): (w: Workspace)
    ensures forall k :: w.Code(k) == OrBlank(reply.Field(k))
    ensures forall k :: w.Name(k) == ws.Name(k)
    ensures w.isReactMode == ws.isReactMode
    ensures w.previewKey == ws.previewKey + 1
    ensures w.prompt == []
  {
    ws.(html := OrBlank(reply.html), css := OrBlank(reply.css), js := OrBlank(reply.js),
        previewKey := ws.previewKey + 1, prompt := [])
  }

  /** One generation round. `reply` is what the service call and parsing
      yield for the request; it is not consulted when no request is made. */
  function Generate(ws: Workspace, reply: Option<Reply>): (r: Round)
    ensures ws.prompt == [] ==> r == Round(ws, None, Some(EmptyInstruction))
    ensures ws.prompt != [] ==> r.request == Some(Contents(ws))
    ensures ws.prompt != [] && reply.None? ==> r.ws == ws && r.error == Some(GenerationFailed)
    ensures ws.prompt != [] && reply.Some? ==> r.error.None?
    ensures ws.prompt != [] && reply.Some? ==>
      (forall k :: r.ws.Code(k) == OrBlank(reply.value.Field(k)))
      && r.ws.previewKey == ws.previewKey + 1 && r.ws.prompt == []
  {
    if ws.prompt == [] then Round(ws, None, Some(EmptyInstruction))
    else match reply
      case None => Round(ws, Some(Contents(ws)), Some(GenerationFailed))
      case Some(parsed) => Round(Apply(ws, parsed), Some(Contents(ws)), None)
  }

  /** The buffers after a round are all the old ones or all the reply's:
      a round never mixes the two. */
  lemma GenerateAtomic(ws: Workspace, reply: Option<Reply>)
    ensures var w := Generate(ws, reply).ws;
      (forall k :: w.Code(k) == ws.Code(k))
      || (reply.Some? && forall k :: w.Code(k) == OrBlank(reply.value.Field(k)))
  {
  }

  /** The names, the mode and the display names survive every round. */
  lemma GenerateKeepsNamesAndMode(ws: Workspace, reply: Option<Reply>)
    ensures var w := Generate(ws, reply).ws;
      w.isReactMode == ws.isReactMode && forall k :: w.Name(k) == ws.Name(k)
  {
  }

  /** No stale content: after a successful round the buffers depend on the
      reply only, not on what the buffers held before. */
  lemma GenerateForgetsOldBuffers(ws1: Workspace, ws2: Workspace, reply: Reply)
    requires ws1.prompt != [] && ws2.prompt != []
    ensures forall k :: Generate(ws1, Some(reply)).ws.Code(k) == Generate(ws2, Some(reply)).ws.Code(k)
  {
  }

  /** A reply of an empty markup, an empty style and the script `X` empties
      the first two buffers and sets the third, whatever they held. */
  lemma GenerateScriptOnly(ws: Workspace)
    requires ws.prompt != []
    ensures var w := Generate(ws, Some(Reply(Some(""), Some(""), Some("X")))).ws;
      w.html == "" && w.css == "" && w.js == "X"
  {
  }

  /** The request shows every empty buffer as `empty`, so it always names
      content for each file, and shows a non-empty buffer verbatim. */
  lemma RequestShowsEveryFile(ws: Workspace, k: Kind)
    requires ws.prompt != []
    ensures var req := Generate(ws, None).request.value;
      Contains(req, FileLine(ws.Name(k), ws.Code(k)))
      && (ws.Code(k) == [] ==> Contains(req, "- " + ws.Name(k) + ": empty"))
      && (ws.Code(k) != [] ==> Contains(req, "- " + ws.Name(k) + ": " + ws.Code(k)))
  {
    if ws.Code(k) == [] {
      assert FileLine(ws.Name(k), ws.Code(k)) == "- " + ws.Name(k) + ": empty";
    }
  }
}
