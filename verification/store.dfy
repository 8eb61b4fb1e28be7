/** The small workspace updates: restoring the saved record at start-up,
    the record that is saved, inserting a snippet, loading a file into a
    buffer, and choosing the files of the ZIP export. Storage, file reading
    and archiving are outside the model; what they deliver is a parameter. */
module Store {
  import opened Wrappers
  import opened Strings
  import opened State

  /** The saved record after JSON parsing, with its fields typed. A buffer
      field is `None` when the key is missing or holds a falsy value other
      than a string; `isReactMode` is `None` when the key is missing. Truthy
      values of another type are not modelled. */
  datatype Saved = Saved(htmlCode: Option<string>, cssCode: Option<string>, jsCode: Option<string>,
                         isReactMode: Option<bool>)
  {
    /** The saved field for buffer `k`. */
    function Field(k: Kind): Option<string>
    {
      match k
      case Html => htmlCode
      case Css => cssCode
      case Js => jsCode
    }
  }

  /** A saved string that replaces a buffer: present and non-empty. */
  predicate Truthy(field: Option<string>)
  {
    field.Some? && field.value != []
  }

  /** The buffer after restoring one saved field. */
  function Restore(current: string, field: Option<string>): (s: string)
    ensures Truthy(field) ==> s == field.value
    ensures !Truthy(field) ==> s == current
  {
    if Truthy(field) then field.value else current
  }

  /** Start-up restore. `saved` is `None` when nothing is stored, the stored
      text is empty, or it does not parse. */
  function Hydrate(ws: Workspace, saved: Option<Saved>): (w: Workspace)
    ensures saved.None? ==> w == ws
    ensures saved.Some? ==> forall k :: w.Code(k) == (if Truthy(saved.value.Field(k)) then saved.value.Field(k).value else ws.Code(k))
    ensures saved.Some? ==> w.isReactMode == saved.value.isReactMode.GetOr(ws.isReactMode)
    ensures forall k :: w.Name(k) == ws.Name(k)
    ensures w.previewKey == ws.previewKey && w.prompt == ws.prompt
  {
    match saved
    case None => ws
    case Some(rec) =>
      ws.(html := Restore(ws.html, rec.htmlCode),
          css := Restore(ws.css, rec.cssCode),
          js := Restore(ws.js, rec.jsCode),
          isReactMode := rec.isReactMode.GetOr(ws.isReactMode))
  }

  /** The record written after every change of a buffer or of the mode. */
  function Save(ws: Workspace): (rec: Saved)
    ensures forall k :: rec.Field(k) == Some(ws.Code(k))
    ensures rec.isReactMode == Some(ws.isReactMode)
  {
    Saved(Some(ws.html), Some(ws.css), Some(ws.js), Some(ws.isReactMode))
  }

  /** Restoring a saved workspace brings back its mode and every non-empty
      buffer; a buffer saved empty comes back as the start-up default. */
  lemma HydrateAfterSave(start: Workspace, ws: Workspace, k: Kind)
    ensures var w := Hydrate(start, Some(Save(ws)));
      w.isReactMode == ws.isReactMode
      && (ws.Code(k) != [] ==> w.Code(k) == ws.Code(k))
      && (ws.Code(k) == [] ==> w.Code(k) == start.Code(k))
  {
  }

  /** Restoring a workspace's own record changes nothing. */
  lemma HydrateOwnRecord(ws: Workspace)
    ensures Hydrate(ws, Some(Save(ws))) == ws
  {
  }

  /** Restoring the same record twice is restoring it once. */
  lemma HydrateIdempotent(ws: Workspace, saved: Option<Saved>)
    ensures Hydrate(Hydrate(ws, saved), saved) == Hydrate(ws, saved)
  {
  }

  /** The text appended to a buffer by a snippet: a line break, then the snippet. */
  function SnippetText(content: string): string
  {
    "\n" + content
  }

  /** Appends a snippet to the buffer of the active tab. */
  function InsertSnippet(ws: Workspace, tab: Kind, content: string): (w: Workspace)
    ensures StartsWith(w.Code(tab), ws.Code(tab))
    ensures w.Code(tab)[|ws.Code(tab)|..] == SnippetText(content)
    ensures forall k :: k != tab ==> w.Code(k) == ws.Code(k)
    ensures forall k :: w.Name(k) == ws.Name(k)
    ensures w.isReactMode == ws.isReactMode && w.previewKey == ws.previewKey && w.prompt == ws.prompt
  {
    var s := ws.Code(tab) + SnippetText(content);
    assert s[..|ws.Code(tab)|] == ws.Code(tab);
    ws.WithCode(tab, s)
  }

  /** Removing the appended text recovers the workspace. */
  function RemoveSnippet(ws: Workspace, tab: Kind, content: string): string
    requires |SnippetText(content)| <= |ws.Code(tab)|
  {
    ws.Code(tab)[..|ws.Code(tab)| - |SnippetText(content)|]
  }

  lemma InsertSnippetInverse(ws: Workspace, tab: Kind, content: string)
    ensures var w := InsertSnippet(ws, tab, content);
      |SnippetText(content)| <= |w.Code(tab)|
      && w.WithCode(tab, RemoveSnippet(w, tab, content)) == ws
  {
    var w := InsertSnippet(ws, tab, content);
    assert RemoveSnippet(w, tab, content) == ws.Code(tab);
  }

  /** Two snippets in a row are one snippet holding both, one per line. */
  lemma InsertSnippetTwice(ws: Workspace, tab: Kind, a: string, b: string)
    ensures InsertSnippet(InsertSnippet(ws, tab, a), tab, b) == InsertSnippet(ws, tab, a + SnippetText(b))
  {
    var once := InsertSnippet(ws, tab, a);
    assert once.Code(tab) + SnippetText(b) == ws.Code(tab) + SnippetText(a + SnippetText(b));
    assert forall k :: InsertSnippet(once, tab, b).Code(k) == InsertSnippet(ws, tab, a + SnippetText(b)).Code(k);
  }

  /** A file chosen for upload: its name, and its text when the read completes. */
  datatype Upload = Upload(name: string, content: Option<string>)

  /** A `.jsx` or `.tsx` file name (the comparison is case-sensitive). */
  function IsReactFileName(name: string): (b: bool)
    ensures b <==> |name| >= 4 && (name[|name| - 4..] == ".jsx" || name[|name| - 4..] == ".tsx")
  {
    EndsWith(name, ".jsx") || EndsWith(name, ".tsx")
  }

  /** Loading a file into the buffer of `kind`. `None` means no file was
      chosen. A React file name turns React mode on as soon as the file is
      chosen, before and whether or not its read completes; a completed read
      replaces the buffer and its display name and reloads the preview. */
  function LoadFile(ws: Workspace, kind: Kind, file: Option<Upload>): (w: Workspace)
    ensures file.None? ==> w == ws
    ensures file.Some? ==> w.isReactMode == (ws.isReactMode || IsReactFileName(file.value.name))
    ensures file.Some? && file.value.content.Some? ==>
      w.Code(kind) == file.value.content.value && w.Name(kind) == file.value.name
      && w.previewKey == ws.previewKey + 1
    ensures file.Some? && file.value.content.None? ==>
      w.Code(kind) == ws.Code(kind) && w.Name(kind) == ws.Name(kind) && w.previewKey == ws.previewKey
    ensures forall k :: k != kind ==> w.Code(k) == ws.Code(k) && w.Name(k) == ws.Name(k)
    ensures w.prompt == ws.prompt
  {
    match file
    case None => ws
    case Some(f) =>
      var moded := if IsReactFileName(f.name) then ws.(isReactMode := true) else ws;
      match f.content
      case None => moded
      case Some(text) => moded.WithCode(kind, text).WithName(kind, f.name).(previewKey := moded.previewKey + 1)
  }

  /** Loading the same file again changes nothing but the reload counter. */
  lemma LoadFileTwice(ws: Workspace, kind: Kind, f: Upload)
    ensures var once := LoadFile(ws, kind, Some(f));
      LoadFile(once, kind, Some(f)) == once.(previewKey := once.previewKey + (if f.content.Some? then 1 else 0))
  {
  }

  /** Loading a file never turns React mode off, and a React file turns it
      on whichever buffer it is loaded into. */
  lemma LoadFileModeMonotone(ws: Workspace, kind: Kind, f: Upload)
    ensures ws.isReactMode ==> LoadFile(ws, kind, Some(f)).isReactMode
    ensures IsReactFileName(f.name) ==> LoadFile(ws, kind, Some(f)).isReactMode
    ensures !ws.isReactMode && !IsReactFileName(f.name) ==> !LoadFile(ws, kind, Some(f)).isReactMode
  {
  }

  /** A file of the ZIP export: its name in the archive and its text. */
  datatype Entry = Entry(name: string, content: string)

  /** The buffers in the order the export adds them. */
  const ExportOrder: seq<Kind> := [Html, Css, Js]

  /** The entries for the buffers in `kinds`, skipping the empty ones. */
  function EntriesOf(ws: Workspace, kinds: seq<Kind>): (es: seq<Entry>)
    ensures |es| <= |kinds|
    ensures forall e :: e in es ==> e.content != [] && exists k :: k in kinds && e == Entry(ws.Name(k), ws.Code(k))
    ensures forall k :: k in kinds && ws.Code(k) != [] ==> Entry(ws.Name(k), ws.Code(k)) in es
  {
    if kinds == [] then []
    else
      var rest := EntriesOf(ws, kinds[1..]);
      var k := kinds[0];
      if ws.Code(k) != [] then [Entry(ws.Name(k), ws.Code(k))] + rest else rest
  }

  /** The number of non-empty buffers among `kinds`. */
  function NonEmptyCount(ws: Workspace, kinds: seq<Kind>): nat
  {
    if kinds == [] then 0 else (if ws.Code(kinds[0]) != [] then 1 else 0) + NonEmptyCount(ws, kinds[1..])
  }

  /** One entry per non-empty buffer considered. */
  lemma {:induction false} EntriesCount(ws: Workspace, kinds: seq<Kind>)
    ensures |EntriesOf(ws, kinds)| == NonEmptyCount(ws, kinds)
  {
    if kinds != [] {
      EntriesCount(ws, kinds[1..]);
    }
  }

  /** The files the export archive receives, in order: one per non-empty
      buffer, named by that buffer's display name. */
  function ZipEntries(ws: Workspace): (es: seq<Entry>)
    ensures forall k :: ws.Code(k) != [] <==> Entry(ws.Name(k), ws.Code(k)) in es
    ensures forall e :: e in es ==> e.content != [] && exists k :: e == Entry(ws.Name(k), ws.Code(k))
    ensures |es| == NonEmptyCount(ws, ExportOrder)
  {
    EntriesCount(ws, ExportOrder);
    EntriesOf(ws, ExportOrder)
  }

  /** The entry for buffer `k`, if it is not empty. */
  function EntryIf(ws: Workspace, k: Kind): seq<Entry>
  {
    if ws.Code(k) == [] then [] else [Entry(ws.Name(k), ws.Code(k))]
  }

  /** The archive's files come in the export order: the markup, then the
      style, then the script, each present when its buffer is not empty. */
  lemma ZipOrder(ws: Workspace)
    ensures ZipEntries(ws) == EntryIf(ws, Html) + EntryIf(ws, Css) + EntryIf(ws, Js)
  {
    EntriesInOrder(ws, ExportOrder);
  }

  /** The entries of three buffers, one after the other. */
  lemma EntriesInOrder(ws: Workspace, kinds: seq<Kind>)
    requires |kinds| == 3
    ensures EntriesOf(ws, kinds) == EntryIf(ws, kinds[0]) + EntryIf(ws, kinds[1]) + EntryIf(ws, kinds[2])
  {
    EntriesOfFirst(ws, kinds);
    EntriesOfFirst(ws, kinds[1..]);
    EntriesOfFirst(ws, kinds[2..]);
    assert kinds[1..][1..] == kinds[2..] && kinds[2..][1..] == [];
  }

  /** The entries of a list of buffers: the first buffer's, then the rest's. */
  lemma EntriesOfFirst(ws: Workspace, kinds: seq<Kind>)
    requires kinds != []
    ensures EntriesOf(ws, kinds) == EntryIf(ws, kinds[0]) + EntriesOf(ws, kinds[1..])
  {
  }

  /** With an empty style buffer and non-empty markup and script, the archive
      holds exactly two files: the markup, then the script. */
  lemma ZipWithoutStyle(ws: Workspace)
    requires ws.css == [] && ws.html != [] && ws.js != []
    ensures ZipEntries(ws) == [Entry(ws.htmlName, ws.html), Entry(ws.jsName, ws.js)]
  {
    assert EntriesOf(ws, [Js]) == [Entry(ws.jsName, ws.js)] by {
      assert [Js][1..] == [];
    }
    assert EntriesOf(ws, [Css, Js]) == [Entry(ws.jsName, ws.js)] by {
      assert [Css, Js][1..] == [Js];
    }
    assert ExportOrder[1..] == [Css, Js];
  }
}
