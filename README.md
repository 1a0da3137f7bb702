# keymapceditor-vsc: the document/preview synchronisation, modelled in Dafny

The extension keeps a keyboard-firmware keymap file (`keymap.c`) open in the
editor synchronised with a visual keymap editor running in an HTML preview.
Everything interesting happens in `activate` (src/extension.ts):

- **Sending to the preview.** Document changes, opens and closes go to
  `sendKeymapToPreview`, and so does the preview's "connected" message. It is
  throttled. Each call cancels the one pending timer and starts a new one:
  0 ms for the initial send, 1000 ms otherwise. When the timer fires, the
  keymap is resolved. A document is read at that moment; a raw string (the
  empty keymap on close) is used as it is. The keymap is then posted as
  `{command: "setKeymap", keymap}`, unless it equals the echo guard and the
  send is not the initial one. Each post overwrites the guard.
- **Receiving from the preview.** A `keymapFromPreview` message first sets
  the echo guard to the payload. Then it does nothing if the document already
  holds the payload. Otherwise it replaces the range from (0, 0) to the
  position computed at src/extension.ts:135-137 with the payload: line
  `lineCount - 1`, at the length of line `lineCount - 2`. That range is the
  whole document only when the last line is no longer than the line before
  it, or one code unit longer because the range ends inside a final
  surrogate pair (see Findings).
- **The template rewrite.** The content provider serves the bundled
  `index.html` with three changes. The first `//extension-settings` becomes a
  script that sets `VSC_MODE` and `VSC_URI`. A URL prefix is then inserted
  after every `src="` and then after every `href="`. The prefix is the
  extension's `out/qmkmapper` directory as a file URI plus `/`, or the
  configured `_previewUrlPrefix` when that is non-empty.

Files:

- `sync.dfy` (module `Sync`): the synchronisation as a pure state machine. It
  holds the echo guard, an `Option` for the single pending send, and the log
  of posted messages. `Scheduled`, `Fired` and `PreviewEdited` are the steps.
  Runs of events (`Schedule`, `Fire`, `PreviewEdit`) take the place of real
  time. The lemmas cover coalescing, echo suppression, the initial-send bypass
  and the growth of the log.
- `coordinator.dfy` (module `Coordinator`): the class `SyncCoordinator`. Its
  fields are the state `activate` captures, plus the URIs of the content
  providers created so far. Its methods are the handlers. Each method's
  postcondition ties the new state to a `Sync` step. A ghost history keeps
  the object equal to `Run(Initial, history)`.
- `document_edit.dfy` (module `DocumentEdit`): documents as lines, and
  ranges validated as the editor validates them when it applies an edit.
  Characters of a position and line lengths count UTF-16 code units, as in
  the editor and in JavaScript. Each end is clamped to the document. An end
  inside a surrogate pair is then moved off it: a collapsed range moves back
  before the pair; otherwise the start moves back and the end moves forward
  past it (`Replaced`).
  It also holds the whole-document replace and the range as the handler
  builds it (see Findings).
- `template.dfy` (module `Template`): `String.prototype.replace` with a
  string pattern (`ReplaceFirst`) and with a global regular expression
  (`ReplaceAll`). Both expand the `$$`, `$&`, `` $` `` and `$'` patterns of
  the replacement string. The module also holds the URL prefix choice and the
  full rewrite.
- `wrappers.dfy` (module `Wrappers`): `Option`, `Min`, `Max`.

## Behaviour of the code worth noting

- A close schedules an ordinary 1000 ms send of `""`, which is suppressed
  when the guard is already `""`.
- Nothing cancels a pending send except the next schedule, which replaces it.
- Every send waits 1000 ms, except the initial one on the preview's
  "connected" message, which waits 0 ms and ignores the guard.
- The settings script is passed to `replace` as a replacement string, so a
  `$&`, `` $` ``, `$'` or `$$` in the decoded URI is expanded rather than
  copied (`Template.Substitution`).

## Model

| member | source | states |
|---|---|---|
| `Sync.Delay` | src/extension.ts:103 | the delay is 0 exactly for the initial send, and 1000 ms otherwise |
| `Sync.Resolve` | src/extension.ts:95 | a document source stands for the document's text when the timer fires; a raw string stands for itself |
| `Sync.Scheduled` | src/extension.ts:90-94 | scheduling a send leaves exactly one pending send, the new one, whatever was pending before; the echo guard and the message log are unchanged |
| `Sync.Fired` | src/extension.ts:94-102 | after the timer fires nothing is pending; with nothing pending nothing changes; otherwise a message is posted exactly when the resolved keymap differs from the guard or the send is initial, it is appended to the log with that keymap and the guard becomes the keymap, and when nothing is posted the guard stays |
| `Sync.PreviewEdited` | src/extension.ts:128 | a keymap from the preview becomes the echo guard; the pending send and the log are untouched |
| `Sync.FireSendsAtMostOne` | src/extension.ts:94-102 | a firing timer posts at most one message, appended to the log; after a post the echo guard is the keymap posted, otherwise the guard is unchanged; nothing is pending afterwards |
| `Sync.FireSuppressesEcho` | src/extension.ts:96 | an ordinary send whose resolved keymap equals the echo guard posts nothing and leaves the guard as it was |
| `Sync.FireInitBypassesGuard` | src/extension.ts:95-101 | the initial send always posts the resolved keymap and sets the guard to it |
| `Sync.RunOnlyAppends` | src/extension.ts:91-101 | over any sequence of events the log only grows at its end, by at most one message per timer firing |
| `Sync.BurstKeepsLastSchedule` | src/extension.ts:91-94 | any burst of schedules leaves the same state as its last schedule alone |
| `Sync.Coalescing` | src/extension.ts:91-101 | schedules followed by one firing post at most one message; it carries the keymap of the last source, with a document read at fire time; it is posted exactly when that send is initial or its keymap differs from the guard |
| `Sync.PreviewEditIsNotEchoed` | src/extension.ts:128 | after a keymap comes from the preview, ordinary sends that resolve to that keymap post nothing, however many were scheduled, and the guard keeps the keymap |
| `Coordinator.SyncCoordinator.constructor` | src/extension.ts:23-24 | the echo guard starts as the empty string, with no timer and no providers |
| `Coordinator.SyncCoordinator.SendKeymapToPreview` | src/extension.ts:90-104 | cancels the pending send and schedules the new one with its delay; the state is `Sync.Scheduled` of the old state |
| `Coordinator.SyncCoordinator.FireTimer` | src/extension.ts:94-102 | the timer callback: resolves the keymap, then posts it and updates the guard, or suppresses it; the state is `Sync.Fired` of the old state |
| `Coordinator.SyncCoordinator.ShowPreview` | src/extension.ts:157-167 | with an active editor one more provider, for that document's URI, is subscribed; without one nothing changes |
| `Coordinator.SyncCoordinator.NotifyProviders` | src/extension.ts:29-52 | every provider's listener compares URIs; if any provider matches, the result is one ordinary pending send of the source, otherwise nothing changes |
| `Coordinator.SyncCoordinator.DocumentUpdated` | src/extension.ts:30-44 | a change or open of a previewed document schedules an ordinary send of that document |
| `Coordinator.SyncCoordinator.DocumentClosed` | src/extension.ts:47-51 | closing a previewed document schedules an ordinary send of the empty keymap |
| `Coordinator.SyncCoordinator.PreviewConnected` | src/extension.ts:115-123 | the connected preview's document is scheduled as the initial send, with delay 0 |
| `Coordinator.SyncCoordinator.KeymapFromPreview` | src/extension.ts:124-143 | sets the echo guard to the payload before anything else, leaving timer and log alone; returns no edit when the document already holds the payload, otherwise a whole-document replace; either way the document ends up holding the payload |
| `Coordinator.SentBoundedByFires` | src/extension.ts:90-104 | whatever the handlers have done, the preview has received at most one message per timer that fired |
| `DocumentEdit.OffsetAt` | src/extension.ts:136-139 | a position in an applied edit is validated: a line past the end means the end of the text; the character counts UTF-16 code units and is clamped to its line, and one inside a surrogate pair falls back before the pair (a range's start, or a collapsed range) |
| `DocumentEdit.OffsetAfter` | src/extension.ts:136-139 | the same validation for the end of a non-empty range, which moves forward past a surrogate pair it splits; never before the rounded-back offset |
| `DocumentEdit.Clamped` | src/extension.ts:136-139 | a validated position lies on an existing line within its length; a line past the end means the end of the last line, and a character past the end of its line means the end of that line |
| `DocumentEdit.CharsWithin` | src/extension.ts:137 | the characters within a column of UTF-16 code units: at most the whole line, and the whole line exactly when its code-unit length fits |
| `DocumentEdit.CharsWithinIsMost` | src/extension.ts:137 | the characters kept fit within the column, and one more character would not: every character that fits is kept |
| `DocumentEdit.CharsCoveringIsLeast` | src/extension.ts:137 | the characters covering a column reach it (or the end of the line), and one fewer would fall short: the fewest that cover it |
| `DocumentEdit.CoveringReachesEnd` | src/extension.ts:137 | covering a column takes the whole line exactly when the line is no longer than the column, or one unit longer by a final surrogate pair |
| `DocumentEdit.WholeDocumentRange` | src/extension.ts:136-137 | a range from (0, 0) whose end lies on the last line at that line's length in UTF-16 code units covers exactly the whole text, whether the end is rounded back or forward |
| `DocumentEdit.WholeDocumentReplace` | src/extension.ts:134-139 | replacing from (0, 0) to the end of the last line leaves exactly the new text |
| `DocumentEdit.EditFor` | src/extension.ts:131-139 | no edit exactly when the document's text equals the payload; otherwise one replace from (0, 0) with the payload |
| `DocumentEdit.EditForSyncsDocument` | src/extension.ts:131-139 | applying the handler's outcome leaves the document holding exactly the payload (idempotent: a second identical payload needs no edit) |
| `DocumentEdit.SourceReplaceRange` | src/extension.ts:135-137 | as written: a one-line document has no range (`lineAt(-1)` throws); otherwise the range runs from (0, 0) to line `lineCount - 1` at the UTF-16 length of line `lineCount - 2` |
| `DocumentEdit.SourceEditFor` | src/extension.ts:131-139 | as written: no edit exactly when the text equals the payload; a one-line document makes `lineAt(-1)` throw; otherwise one replace from (0, 0) with the payload |
| `DocumentEdit.ReplaceUpToLastLineColumn` | src/extension.ts:136-138 | replacing from (0, 0) to any column of the last line leaves the new text followed by exactly the part of that line beyond the characters covering the column (an end inside a surrogate pair moves past it) |
| `DocumentEdit.SourceReplaceKeepsLastLineTail` | src/extension.ts:135-137 | the range as written replaces all but the part of the last line beyond the characters covering as many UTF-16 code units as the line before it has |
| `DocumentEdit.SourceEditSyncsIff` | src/extension.ts:131-139 | as written, a differing document ends up holding the payload exactly when it has two or more lines and its last line is no longer, in UTF-16 code units, than the one before, or one unit longer with a final surrogate pair that the range's end splits |
| `DocumentEdit.SourceEditCorruptsLastLine` | src/extension.ts:135-139 | the document "a\nbcd" edited to "X" becomes "Xcd" |
| `DocumentEdit.SourceEditCountsCodeUnits` | src/extension.ts:135-139 | the document of an emoji line (two UTF-16 code units) and the line "ab", edited to "X", becomes "X": lengths are compared in code units, not characters |
| `DocumentEdit.SourceEditExpandsSplitPair` | src/extension.ts:135-139 | the document "ab" and "a😀", edited to "X", becomes "X": the range's end (1, 2) falls inside the emoji and is moved past it |
| `DocumentEdit.SourceEditSkipsSingleLine` | src/extension.ts:135 | the one-line document "abc" edited to "X" gets no edit and stays "abc" |
| `Template.FirstMatchFrom` | src/extension.ts:68-74 | returns the first index at or after the start where the pattern occurs, or nothing when it does not occur there |
| `Template.Substitution` | src/extension.ts:68-76 | the replacement text for a match; a replacement without `$` is inserted verbatim |
| `Template.SubstitutionOfEscaped` | src/extension.ts:68-76 | a replacement whose every `$` is doubled yields the original text, whatever the match and its surroundings |
| `Template.SubstitutionPatternHeads` | src/extension.ts:68-76 | at the head of a replacement `$$` yields `$`, `$&` the match, `` $` `` the text before the match and `$'` the text after it, followed by the substitution of the rest |
| `Template.SubstitutionRebuildsSubject` | src/extension.ts:68-76 | a replacement starting with `` $`$&$' `` yields, in order, the text before the match, the match and the text after it, then the rest's substitution |
| `Template.ReplaceFirstRepeatsSubject` | src/extension.ts:68-74 | with `` $`$&$' `` at the head of the replacement, the first match in the subject is replaced by the whole subject, followed by the rest's substitution |
| `Template.ReplaceFirst` | src/extension.ts:68-74 | text without the pattern is unchanged; otherwise only the first occurrence is replaced and the text after it is kept as is |
| `Template.ReplaceAll` | src/extension.ts:75-76 | a global replace leaves text without the pattern unchanged |
| `Template.ReplaceAllNoMatch` | src/extension.ts:75-76 | at any point of the global scan, a remainder without the pattern is emitted unchanged |
| `Template.InsertAfterEach` | src/extension.ts:75-76 | `s.replace(/pat/g, pat + prefix)`: every match scanned afterwards is followed by the prefix |
| `Template.StripUndoesInsert` | src/extension.ts:75-76 | removing the prefix after each match of `s.replace(/pat/g, pat + prefix)` restores `s`: nothing else changed |
| `Template.SettingsScript` | src/extension.ts:70-73 | the script starts by setting `VSC_MODE` to true, then sets `VSC_URI` to exactly the decoded URI in double quotes, and ends with `";` |
| `Template.SettingsScriptInjective` | src/extension.ts:70-73 | two documents with different URIs get different settings scripts |
| `Template.UrlPrefix` | src/extension.ts:58-65 | the prefix is the configured one exactly when that is non-empty, otherwise the output directory URI plus `/` |
| `Template.RewriteTemplate` | src/extension.ts:68-77 | a template without the marker, `src="` and `href="` is served unchanged |
| `Template.RewriteInsertsPrefix` | src/extension.ts:68-77 | every `href="` is followed by the prefix; with those removed every `src="` is too; with those removed as well, what remains is the template with only its first marker replaced by the settings script |

## Left out

- Editor calls: posting to the preview (`_workbench.htmlPreview.postMessage`), `openTextDocument`, `applyEdit`, `save`, `vscode.previewHtml`, registering commands and the content provider, and `showErrorMessage`. Posts are appended to `sent`, and edits are returned to the caller.
- Timers and promises: `setTimeout`/`clearTimeout` become explicit schedule and fire events. The `openTextDocument(...).then` continuations in the connected and keymap-from-preview handlers run at once, so no other event comes between. After firing, the source keeps the fired timer's handle; clearing it later does nothing, so the model records no pending send.
- `fs.readFile`, `context.asAbsolutePath`, `Uri.file`/`Uri.parse` and `decodeURIComponent` are I/O or library calls. The template text, the decoded URI and the output directory URI are inputs. A failed read (which leaves `data` undefined) is not modelled.
- Configuration loading (`QmkMapperConfiguration`) is a thin wrapper over the editor's settings. The configured prefix is an input to `Template.UrlPrefix`.
- The logging command, `console.log`, the `NODE_ENV` check and the save command carry no logic.
- Subscription lifetime: listeners are never released, so `previewUris` only grows. Disposal of the preview is not modelled.
- Range validation is the editor's own (`TextModel.validateRange`), whose source is not part of this model; `Replaced` follows its behaviour for clamping and surrogate pairs.
- Documents use "\n" line endings only. With CRLF documents, `getText()` and line lengths differ.
- `Template.ReplaceAll` requires a non-empty pattern, because the source's two global patterns are the literal expressions `/src="/g` and `/href="/g`. An empty global pattern, which would match between every pair of characters, is not modelled.
- Template.InsertAfterEach: stated only for a prefix without `$`. With `$` in the prefix, JavaScript expands the replacement patterns (modelled in `Template.Substitution`), and the inserted text is no longer the prefix.
- Template.StripUndoesInsert: stated only for a prefix without `$`, for the same reason.
- Template.RewriteInsertsPrefix: stated only for a prefix without `$`, for the same reason.
- `Coordinator.SyncCoordinator.KeymapFromPreview` uses the corrected whole-document range (see Findings). The handler as written is `DocumentEdit.SourceEditFor`.

## Findings

| source | as written | input that shows it | evidently intended | confidence | as-written member | corrected member |
|---|---|---|---|---|---|---|
| src/extension.ts:135-137 | the replace range ends on line `lineCount - 1` at the length of line `lineCount - 2` | document "a\nbcd" (no final line break), payload "X": the document becomes "Xcd" | the range ends at the end of the last line, so the document becomes the payload | medium, not executed | `DocumentEdit.SourceEditCorruptsLastLine` | `DocumentEdit.WholeDocumentReplace` |
| src/extension.ts:135 | `doc.lineAt(doc.lineCount - 2)` | one-line document "abc", payload "X": `lineAt(-1)` throws and the edit is never made | a one-line document is replaced like any other | medium, not executed | `DocumentEdit.SourceEditSkipsSingleLine` | `DocumentEdit.EditForSyncsDocument` |
