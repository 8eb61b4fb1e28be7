# AI code editor: the composer and the workspace rules, in Dafny

The editor in `index.tsx` keeps three source buffers (markup, style, script),
their display names, a React-mode flag, a preview reload counter and the
instruction typed for the AI service. This project models the pure rules
inside that component and proves what they promise:

- **Document composer** (`getCombinedCode`). It trims the three buffers and
  builds one of four documents:
  - an idle placeholder when all three are blank;
  - the React template;
  - the user's own `<html` document, with the style and the script injected
    before `</head>` and `</body>` unless already present;
  - a synthesized wrapper.

  Modules `Strings`, `Composer` and `ComposerAsWritten`.
- **Generation round** (`handleGenerate`). It covers the empty-instruction
  guard, the request text with its `empty` placeholder, and how a parsed reply
  replaces all three buffers at once. Module `Generation`.
- **Small updates**. Module `Store` covers:
  - restoring the saved record at start-up, and the record that is saved;
  - appending a snippet;
  - loading a file, where a `.jsx` or `.tsx` name turns React mode on;
  - choosing the files of the ZIP export.

`State` holds the workspace record and its defaults. `Wrappers` holds `Option`.

Modelling choices:

- **Trim** strips the whole ECMAScript WhiteSpace and LineTerminator set.
- **`/<html/i`** is an ASCII case-insensitive search. A regular expression
  with the `i` flag and no `u` flag never folds a non-ASCII character onto an
  ASCII letter, so this is exact.
- **The HTML templates** are constants with holes. Their indentation is not
  reproduced.
- **Templates as a parameter.** Every composer lemma is stated for an
  arbitrary `Templates` value. `Compose` applies them to the editor's own
  text, `SourceTemplates`.
- **External inputs are parameters.** The AI call together with `JSON.parse`
  of its answer is an `Option<Reply>`. A stored record is an
  `Option<Saved>`. A chosen file is an `Option<Upload>` whose text is absent
  when the read does not complete.

Three places where the model follows what the code does rather than what it
appears to ask for:

- **A reply missing a key.** The response schema sent with the request marks
  `html`, `css` and `js` as required (index.tsx:189). The code never checks
  them and applies `result.html || ''` (index.tsx:198-200). In the model a
  missing or falsy field becomes the empty string (`Generation.OrBlank`,
  `Generation.Apply`).
- **The React mount element.** The code leaves `#root` empty when the trimmed
  markup contains `id="root"`, and otherwise puts the markup inside it
  (index.tsx:255). `Composer.MountContent` models exactly this.
- **Inserting the style and the script.** The code inserts them with
  `String.prototype.replace` and a string replacement. That expands `$`
  patterns in the buffer (see Findings). The model's composer inserts
  literally, and the code as written is modelled beside it in
  `ComposerAsWritten`.

## Model

| member | source | states |
|---|---|---|
| Strings.IndexOf | index.tsx:280-281 | the first position where the pattern occurs, or none exactly when it does not occur, as `replace` with a string pattern locates it |
| Strings.Includes | index.tsx:255 | `includes` holds exactly when the pattern occurs somewhere in the text |
| Strings.Trim | index.tsx:223-225 | the trimmed text is empty exactly when the buffer is all whitespace, and otherwise neither starts nor ends with whitespace |
| Strings.TrimPadding | index.tsx:223-225 | the buffer is the trimmed text with only whitespace added on each side |
| Strings.TrimIdempotent | index.tsx:223-225 | trimming a trimmed buffer changes nothing |
| Strings.ContainsThroughTrim | index.tsx:255 | a pattern that neither starts nor ends with whitespace occurs in the trimmed buffer exactly when it occurs in the raw buffer |
| Strings.HasHtmlTag | index.tsx:278 | the test holds exactly when some position reads `<html` in any mix of upper and lower case |
| Strings.HtmlTagThroughTrim | index.tsx:278 | the trimmed markup contains `<html` in any case exactly when the raw buffer does |
| Composer.Element | index.tsx:274-275 | a tag is empty exactly when its content is; otherwise it is the opening tag, the content and the closing tag |
| Composer.NoEmptyTags | index.tsx:274-275 | `<style></style>` and `<script></script>` are never produced |
| Composer.InsertBefore | index.tsx:280-281 | with no marker the text is unchanged; otherwise the insertion sits immediately before the first marker |
| Composer.InsertBeforeInverse | index.tsx:280-281 | removing the inserted text at the first marker gives back the original text |
| Composer.InjectStyle | index.tsx:280 | the document is unchanged when the style is empty, already present or there is no `</head>`; otherwise the style tag goes immediately before the first `</head>` |
| Composer.InjectStylePresence | index.tsx:280 | after injection the style occurs in the document exactly when it was already there or a `</head>` was |
| Composer.InjectStyleIdempotent | index.tsx:280 | injecting the style a second time changes nothing |
| Composer.InjectScript | index.tsx:281 | as for the style, with the script tag and the first `</body>` |
| Composer.InjectScriptPresence | index.tsx:281 | after injection the script occurs in the document exactly when it was already there or a `</body>` was |
| Composer.InjectScriptIdempotent | index.tsx:281 | injecting the script a second time changes nothing |
| Composer.MountContent | index.tsx:255 | the mount element is empty exactly when the markup is empty or contains `id="root"`; otherwise it holds the markup |
| Composer.ReactDocument | index.tsx:231-271 | the React document is the head whose style block ends with the style, then the mount element, then the `try` block holding the script and the fixed tail; the prefix, the suffix and the length together fix every character |
| Composer.Wrapper | index.tsx:274-285 | the wrapper is exactly the fixed head, the style tag only for a non-empty style, `</head><body>`, the markup, the script tag only for a non-empty script, and `</body></html>`: the prefix, the suffix and the length together fix every character |
| Composer.ComposeWith | index.tsx:222-286 | `getCombinedCode` over any template text, one clause per branch stated on the raw buffers: blank buffers give the placeholder; otherwise React mode gives the React document; outside React mode an `<html` tag in any case sends the trimmed markup through the style step and then the script step; anything else is wrapped. The branch lemmas below give what each document holds |
| Composer.ComposeIdle | index.tsx:223-229 | all-blank buffers give the placeholder in either mode |
| Composer.ComposeReact | index.tsx:231-271 | in React mode, with some buffer not blank, the document starts with the head, the trimmed style, the end of the style block and the mount element, and ends with the `try` block holding the trimmed script; the mount element is empty if the raw markup contains `id="root"` and otherwise holds the trimmed markup (itself empty when the markup is blank) |
| Composer.ComposeFullDocument | index.tsx:277-282 | outside React mode, markup with `<html` in any case is never wrapped: the result is the trimmed markup after the style step and then the script step |
| Composer.ComposeKeepsEmbeddedDocument | index.tsx:278-282 | markup that already embeds the trimmed style and script is returned trimmed and otherwise unchanged |
| Composer.ComposeInjectsStyle | index.tsx:280-281 | a missing non-empty style goes before the first `</head>`; a script already inside the style is then found by the script guard and not injected |
| Composer.ComposeWrapsFragment | index.tsx:274-285 | outside React mode, markup without `<html` that is not all blank is wrapped in the synthesized document |
| ComposerAsWritten.Substitute | index.tsx:280-281 | the GetSubstitution step of ECMA-262's `String.prototype.replace` (`$$`, `$&`, `` $` ``, `$'`); its contract states only that a replacement without `$` is returned as written, and `DollarPatternDefeatsGuard` shows what `$&` does |
| ComposerAsWritten.ReplaceFirst | index.tsx:280-281 | `replace` with a string pattern: without an occurrence the text is unchanged; otherwise the text before and after the first occurrence is kept, and a replacement without `$` takes the occurrence's place as written |
| ComposerAsWritten.InjectStyleAsWritten | index.tsx:280 | the style step as written: unchanged when the style is empty, already present or there is no `</head>`, and equal to the literal `InjectStyle` when the style holds no `$`; `AsWrittenAgreesWithoutDollar` states the agreement for both steps |
| ComposerAsWritten.InjectScriptAsWritten | index.tsx:281 | the script step as written: unchanged when the script is empty, already present or there is no `</body>`, and equal to the literal `InjectScript` when the script holds no `$` |
| ComposerAsWritten.ReplaceFirstLiteral | index.tsx:280-281 | when neither the inserted text nor the marker holds `$`, `replace` is the literal insertion before the first marker |
| ComposerAsWritten.AsWrittenAgreesWithoutDollar | index.tsx:280-281 | with no `$` in the style or the script, the code as written and the literal model inject the same |
| ComposerAsWritten.DollarPatternDefeatsGuard | index.tsx:281 | a script `$&` is replaced by the matched `</body>`; the result lacks the script, and a second pass injects again |
| Generation.OrBlank | index.tsx:198-200 | the empty-string default for a reply field: a present string is taken as it is and a missing or falsy field becomes the empty string; the contract lists the two cases, and `GenerateForgetsOldBuffers` and `GenerateScriptOnly` give them meaning |
| Generation.Shown | index.tsx:169-171 | the request never shows an empty slot: an empty buffer reads `empty`, any other buffer reads as itself |
| Generation.LinesContain | index.tsx:164-172 | every line's text occurs in the laid-out request |
| Generation.Contents | index.tsx:164-172 | the request quotes the instruction, states the mode, and lists each buffer's display name with its content or `empty` |
| Generation.Apply | index.tsx:198-203 | a reply overwrites every buffer with its field or the empty string, keeps the names and the mode, bumps the reload counter by one and clears the instruction |
| Generation.Generate | index.tsx:139-206 | with an empty instruction, an error, no request and an unchanged workspace; otherwise the request is sent, and a failure changes nothing while a reply is applied |
| Generation.GenerateAtomic | index.tsx:194-206 | after a round the buffers are either all the old ones or all the reply's |
| Generation.GenerateKeepsNamesAndMode | index.tsx:139-206 | no round changes the display names or the mode |
| Generation.GenerateForgetsOldBuffers | index.tsx:198-200 | after a successful round the buffers do not depend on what they held before |
| Generation.GenerateScriptOnly | index.tsx:198-200 | a reply with empty markup, an empty style and script `X` leaves exactly those three buffers |
| Generation.RequestShowsEveryFile | index.tsx:168-171 | the request lists every file, `empty` for an empty buffer and the content verbatim otherwise |
| Store.Hydrate | index.tsx:59-70 | a missing or unparseable record changes nothing; otherwise each buffer is replaced only by a non-empty saved string, and the mode whenever it is saved |
| Store.Restore | index.tsx:63-65 | one saved buffer field replaces the buffer only when it is a non-empty string; the contract lists the two cases, and `Hydrate` and `HydrateAfterSave` give them meaning |
| Store.Save | index.tsx:72-76 | the saved record holds the three buffers and the mode; the contract only lists the fields, and `HydrateOwnRecord` and `HydrateAfterSave` give it meaning as the inverse of restoring |
| Store.HydrateAfterSave | index.tsx:59-76 | restoring a saved record brings back the mode and every non-empty buffer; a buffer saved empty comes back as the default |
| Store.HydrateOwnRecord | index.tsx:59-76 | restoring a workspace's own record changes nothing |
| Store.HydrateIdempotent | index.tsx:59-70 | restoring the same record twice is restoring it once |
| Store.InsertSnippet | index.tsx:113-116 | the active buffer keeps its text as a prefix, followed by a line break and the snippet; nothing else changes |
| Store.InsertSnippetInverse | index.tsx:113-116 | cutting the appended text off gives back the workspace |
| Store.InsertSnippetTwice | index.tsx:113-116 | two snippets in a row equal one snippet holding both on separate lines |
| Store.IsReactFileName | index.tsx:123 | a name is a React file exactly when its last four characters are `.jsx` or `.tsx`, case-sensitively |
| Store.LoadFile | index.tsx:121-137 | no file changes nothing; a React name turns the mode on even if the read never completes; a completed read replaces that buffer and its name and bumps the reload counter; other buffers keep their text and names |
| Store.LoadFileTwice | index.tsx:121-137 | loading the same file a second time changes nothing but the reload counter, which goes up again when the read completes |
| Store.LoadFileModeMonotone | index.tsx:123-124 | loading a file never turns React mode off, and a React file turns it on whatever buffer it goes to |
| Store.EntriesOf | index.tsx:294-296 | an entry exists for each non-empty buffer considered, named by its display name, and for nothing else |
| Store.ZipEntries | index.tsx:294-296 | a buffer has an entry in the archive exactly when it is non-empty; every entry is a non-empty buffer under its display name and nothing else; there are as many entries as non-empty buffers |
| Store.ZipOrder | index.tsx:294-296 | the archive receives the markup, the style and the script in that order, each only when its buffer is not empty |
| Store.EntriesCount | index.tsx:294-296 | the entries for a list of buffers are as many as its non-empty buffers |
| Store.ZipWithoutStyle | index.tsx:294-296 | with an empty style and non-empty markup and script, the archive holds exactly the markup and the script, in that order |

## Left out

- Rendering, hooks, the theme, fullscreen and focus mode, status messages
  and their timers: user interface only.
- The loading flag and the thinking-mode toggle, which only selects the
  service model and its budget. The explain flow, which is another service
  call. `clearWorkspace`, which waits on a browser confirmation dialog.
- The service call and `JSON.parse`. They appear as one optional reply.
  A non-string but truthy field (a number, an object) is not modelled.
- `localStorage`, `FileReader`, JSZip and `saveAs`. They appear as
  parameters or as the list of files handed to the archive.
- Store.ZipEntries: two buffers with the same display name produce two files
  handed to the archive, and the archive keeps only the later one. That
  merge belongs to JSZip and is not modelled.
- Store.Hydrate: the parsed record is typed, so saved values of another type
  are not modelled. A truthy non-string buffer field (`"htmlCode": 5`, an
  object) is stored in the buffer by the code; the model has no such value
  and keeps the buffer. A saved `isReactMode` that is `null` or not a boolean
  is stored by the code; in the model only a missing key leaves the mode
  alone.
- Store.Hydrate: on the first render the save effect runs right after the
  restore and writes the defaults before the restored state is written. This
  is React effect scheduling, not modelled.
- Composer.ReactDocument: states the style block, the mount element and the
  `try` block, but not that the document holds exactly one mount element.
  That claim does not hold as text: the markup or the script may themselves
  contain `<div id="root">`.
- Races between overlapping generation rounds, and a reply arriving after
  manual edits. Each round is modelled as one atomic step.
- Strings are sequences of Unicode characters rather than UTF-16 code units.
  No length or index of them is observable in the modelled rules.

## Findings

| source | as written | input that shows it | evidently intended | confidence | as-written member | corrected member |
|---|---|---|---|---|---|---|
| index.tsx:281 (and 280 for the style) | the script tag is inserted with `combined.replace('</body>', scriptTag + '</body>')`, and `replace` expands `$&`, `$'`, `` $` `` and `$$` in the replacement | markup `<html><body></body></html>` in normal mode with script `$&`: the result is `<html><body><script></body></script></body></html>`, so the script is lost, and composing that result again with the same script injects once more | insert the script tag literally before the first `</body>`, so the script text appears in the document and the duplicate guard finds it | medium, not executed | ComposerAsWritten.DollarPatternDefeatsGuard | Composer.InjectScriptPresence |
