/** The editor's state: three source buffers with their display names, the
    React flag, the preview reload counter and the pending instruction. */
module State {

  /** Which buffer a tab, a snippet or an uploaded file refers to. */
  datatype Kind = Html | Css | Js

  datatype Workspace = Workspace(
    html: string,
    css: string,
    js: string,
    htmlName: string,
    cssName: string,
    jsName: string,
    isReactMode: bool,
    /** Bumped to force the preview frame to reload even when its document is unchanged. */
    previewKey: nat,
    /** The modification request typed by the user. */
    prompt: string)
  {
    /** The content of buffer `k`. */
    function Code(k: Kind): string
    {
      match k
      case Html => html
      case Css => css
      case Js => js
    }

    /** The display name of buffer `k`. */
    function Name(k: Kind): string
    {
      match k
      case Html => htmlName
      case Css => cssName
      case Js => jsName
    }

    /** The workspace with buffer `k` replaced by `s` and nothing else changed. */
    function WithCode(k: Kind, s: string): (w: Workspace)
      ensures w.Code(k) == s
      ensures forall o :: o != k ==> w.Code(o) == Code(o)
      ensures forall o :: w.Name(o) == Name(o)
      ensures w.isReactMode == isReactMode && w.previewKey == previewKey && w.prompt == prompt
    {
      match k
      case Html => this.(html := s)
      case Css => this.(css := s)
      case Js => this.(js := s)
    }

    /** The workspace with the display name of buffer `k` replaced by `n`. */
    function WithName(k: Kind, n: string): (w: Workspace)
      ensures w.Name(k) == n
      ensures forall o :: o != k ==> w.Name(o) == Name(o)
      ensures forall o :: w.Code(o) == Code(o)
      ensures w.isReactMode == isReactMode && w.previewKey == previewKey && w.prompt == prompt
    {
      match k
      case Html => this.(htmlName := n)
      case Css => this.(cssName := n)
      case Js => this.(jsName := n)
    }
  }

  /** The state the editor starts from before anything saved is restored. */
  const Initial := Workspace(
    "<!-- المحتوى يظهر هنا -->\n<div class=\"p-8 text-center\">\n  <h1 class=\"text-4xl font-bold mb-4\">أهلاً بك في المحرر الذكي</h1>\n  <p class=\"text-lg opacity-80 text-gray-400\">ارفع ملفاتك أو ابدأ بكتابة الوصف للتعديل</p>\n</div>",
    "body { background-color: #0f172a; color: white; transition: all 0.3s; }",
    "console.log(\"المحرر جاهز!\");",
    "index.html",
    "style.css",
    "script.js",
    false,
    0,
    "")
}
