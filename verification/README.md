# BRD wizard: the markdown formatter, the document editor and the final-draft page

This project models, in Dafny, the client-side core of the BRD (business requirements
document) wizard:

- **The markdown formatter** `formatMarkdownText` (`src/lib/utils.ts`). It runs six
  global regular-expression replacements, each on the output of the one before:
  - bold, where `**`, `__` and `*` are tried as openers and closers, in that order;
  - italic, `_…_`;
  - `# `, `## ` and `### ` headings;
  - `* ` list items.

  The passes are modelled as two dedicated scanners:
  - `ReplaceDelimited` models the lazy `(O)(.+?)(C)` patterns. `.` excludes the four
    ECMAScript line terminators.
  - `ReplaceLines` models the `^M(.+)$` patterns with the `m` flag.

  The scanner proofs show that the match chosen is the one a backtracking engine
  reports. On top of that they prove what the formatter promises: length, line
  structure, plain text, and each element. In this revision of the file a single
  `*…*` run is bold; the model follows that.
- **The document editor** (`src/components/BrdEditor.tsx`). It is a class holding the
  buffer and the edit-mode flag, with the toolbar's splice-and-caret command and the
  Save, Cancel, Edit and typing handlers. The export is a second, simpler replacement
  chain. It is joined with `<br>` and wrapped in a fixed HTML document, and the
  rendered view formats the buffer line by line.
- **The final-draft page** (`src/pages/BrdGenerationFinal.tsx`). It is a class holding
  the follow-up questions, their answers and the generated document. The methods are
  initialisation from the navigation state, answer changes, adding and removing
  questions, the generation guard and the editor-save handler. The answer keys stay
  exactly the questions on the list.
- **The list of generated BRDs** (`src/pages/GeneratedBrds.tsx`). It covers the
  case-insensitive search filter, the 200-character preview and the empty state.

Modules:
- `wrappers.dfy`: `Option`.
- `strings.dfy`: the JavaScript string operations the core uses. These are line
  terminators, `trim`, `toLowerCase`, `includes`, `split`/`join` and `substring`
  with its clamping and swapping.
- `markdown.dfy`: the formatter.
- `editor.dfy`: the editor.
- `followup.dfy`: the final-draft page.
- `brdlist.dfy`: the BRD list.

The Cancel button leaves the edit mode but keeps the unsaved edits in the buffer. The
model keeps that behaviour as written.

## Model

| member | source | states |
|---|---|---|
| Markdown.FormatMarkdownText | src/lib/utils.ts:9-28 | empty input gives `""`, not the placeholder; any other input gives the six passes' result, which is never empty and never shorter than the input, so the `&nbsp;` fallback is never taken |
| Markdown.RewriteGrows | src/lib/utils.ts:13-24 | every pass replaces a match by something longer, so the output is at least as long as the input |
| Markdown.PlainTextUnchanged | src/lib/utils.ts:13-24 | text with no `*`, `_` or `#` is returned unchanged |
| Markdown.ReplaceDelimited | src/lib/utils.ts:13-16 | the global replacement of a lazy `(O)(.+?)(C)` pattern, scanning left to right: a match is replaced by the tags around its run and the scan resumes after the closing delimiter, otherwise one character is kept (a definition; what it promises is stated by the lemmas below) |
| Markdown.ReplaceLines | src/lib/utils.ts:19-24 | the global replacement of a `^M(.+)$` pattern in multiline mode: a line that starts with the marker and has text after it becomes the tags around that text, up to the end of the line (a definition; what it promises is stated by the lemmas below) |
| Markdown.FirstAlt | src/lib/utils.ts:13 | the alternative picked by an alternation is one of its alternatives, and it fits inside the text |
| Markdown.LazyClose | src/lib/utils.ts:13 | the lazy run keeps its start, never ends before where it started looking, and its closing delimiter lies inside the text |
| Markdown.MatchFrom | src/lib/utils.ts:13 | a reported match has a non-empty run and ends inside the text |
| Markdown.LineEnd | src/lib/utils.ts:19-24 | the end of the greedy `(.+)` lies between its start and the end of the text |
| Markdown.DelimitedFirst | src/lib/utils.ts:13-16 | a delimited pass starts with the text's own first character or with the opening tag |
| Markdown.FirstAltSpec | src/lib/utils.ts:13 | the delimiter chosen is the first alternative, in the pattern's order, that fits; none is chosen exactly when none fits |
| Markdown.LazyCloseFound | src/lib/utils.ts:13 | the lazy run ends at the first position where a closing alternative fits, and never crosses a line terminator |
| Markdown.LazyCloseMissing | src/lib/utils.ts:13 | when the lazy run finds no close, no closing alternative fits anywhere on the rest of the line |
| Markdown.MatchFromSpec | src/lib/utils.ts:13-16 | the match reported is the one a backtracking engine finds: the first opening alternative that can complete a match, with the shortest non-empty single-line run; no match means no alternative can complete one |
| Markdown.LineEndSpec | src/lib/utils.ts:19-24 | `$` in multiline mode stops at the first line terminator or the end of the text |
| Markdown.DelimitedIdentity | src/lib/utils.ts:13-16 | a delimited pass over text where no opening alternative fits anywhere changes nothing |
| Markdown.DelimitedPrefix | src/lib/utils.ts:13-16 | a prefix that holds no first character of an opening alternative is passed over unchanged |
| Markdown.DelimitedSingleLine | src/lib/utils.ts:13-16 | a delimited pass keeps a single line on a single line |
| Markdown.DelimitedSplit | src/lib/utils.ts:13-16 | no delimited match crosses a line terminator: the pass works on each side of one separately |
| Markdown.DelimitedUnclosed | src/lib/utils.ts:13-16 | an opener with no later delimiter character is left alone |
| Markdown.LeadMatch | src/lib/utils.ts:13-16 | the match found at the start of `o + t + c + rest` is `t`, when `o` and `c` are the first alternatives to fit there |
| Markdown.DelimitedLead | src/lib/utils.ts:13-16 | such a string becomes the tags around `t` followed by the pass over the rest |
| Markdown.DelimitedAbsent | src/lib/utils.ts:13-16 | a delimited pass introduces no character that is in neither the input nor the tags |
| Markdown.LinesIdentity | src/lib/utils.ts:19-24 | a line pass leaves a line that does not start with the marker followed by text |
| Markdown.LinesWholeLine | src/lib/utils.ts:19-24 | a line that is the marker and non-empty text becomes exactly one element around that text |
| Markdown.LinesSplit | src/lib/utils.ts:19-24 | a line pass works on each line separately, and a line terminator starts a new line |
| Markdown.LinesSingleLine | src/lib/utils.ts:19-24 | a line pass keeps a single line on a single line |
| Markdown.InlineSplit | src/lib/utils.ts:13-16 | the two inline passes work line by line |
| Markdown.BlocksSplit | src/lib/utils.ts:19-24 | the four line passes work line by line |
| Markdown.RewriteSplit | src/lib/utils.ts:13-24 | the whole formatter works line by line |
| Markdown.RewriteSingleLine | src/lib/utils.ts:13-24 | a single line is formatted into a single line |
| Markdown.RewriteNoLineFeed | src/lib/utils.ts:13-24 | formatting adds no line feed |
| Markdown.RewriteLines | src/lib/utils.ts:13-24 | formatting lines joined by line feeds is joining the formatted lines |
| Markdown.RewriteByLines | src/lib/utils.ts:13-24 | the lines of the formatted text are the formatted lines, and the number of line feeds is preserved |
| Markdown.InlinePrefix | src/lib/utils.ts:13-16 | a prefix with no `*` or `_` is passed over by both inline passes |
| Markdown.InlinePlain | src/lib/utils.ts:13-16 | the inline passes leave text with no `*` or `_` unchanged |
| Markdown.TagLineUnchanged | src/lib/utils.ts:19-24 | a line that starts with a tag is never taken for a heading or a list item |
| Markdown.TagLineKept | src/lib/utils.ts:19-24 | the four line passes leave a line that starts with a tag |
| Markdown.InlineLine | src/lib/utils.ts:13-16 | the inline passes keep a non-empty line non-empty and on one line |
| Markdown.Heading1 | src/lib/utils.ts:19 | `# T` with non-empty T becomes one h1 element holding T after the inline passes |
| Markdown.Heading2 | src/lib/utils.ts:20 | `## T` becomes one h2 element holding T after the inline passes |
| Markdown.Heading3 | src/lib/utils.ts:21 | `### T` becomes one h3 element holding T after the inline passes |
| Markdown.HeadingNeedsSpace | src/lib/utils.ts:13-24 | `#T`, where T does not start with a space or another `#`, is no heading: the result is `#` followed by T after the bold and italic passes |
| Markdown.BareHeading | src/lib/utils.ts:19-24 | a bare `# ` is left alone |
| Markdown.BulletLine | src/lib/utils.ts:13-24 | `* T`, for non-empty single-line T with no `*` and no `__`, becomes one list item with a bullet glyph around T after the italic pass |
| Markdown.BulletTakenByBold | src/lib/utils.ts:13-24 | `* T`, where T holds a `*` or a `__`, is no list item: the bold pass takes the leading `*` as an opener, and the result starts with `<strong>` |
| Markdown.ListItemIff | src/lib/utils.ts:13-24 | `* T`, for non-empty single-line T, is shown as a list item exactly when T holds neither a `*` nor a `__` |
| Markdown.BulletPlain | src/lib/utils.ts:24 | `* T`, with no `*` or `_` in T, becomes exactly one list item around T |
| Markdown.BulletStarClosed | src/lib/utils.ts:13-24 | `* a *b` is shown as `<strong> a </strong>b` |
| Markdown.BoldSpan | src/lib/utils.ts:13 | `**T**` becomes `<strong>T</strong>` |
| Markdown.UnderscoreBold | src/lib/utils.ts:13 | `__T__` becomes `<strong>T</strong>` too |
| Markdown.MixedDelimiters | src/lib/utils.ts:13 | opener and closer are chosen independently: `**T*` becomes `<strong>T</strong>` |
| Markdown.LoneStars | src/lib/utils.ts:13 | a lone `**` is left unchanged |
| Markdown.BoldLead | src/lib/utils.ts:13-24 | one bold match followed by plain text is shown as the text in bold followed by the rest |
| Markdown.ItalicSpan | src/lib/utils.ts:16 | `_T_` becomes `<em>T</em>`, after the bold pass leaves it alone |
| Strings.Lower | src/pages/GeneratedBrds.tsx:60-63 | lower-casing keeps the length and maps each character on its own |
| Strings.ContainsIff | src/pages/GeneratedBrds.tsx:62-63 | `includes` holds exactly when the needle occurs at some position |
| Strings.ContainsLower | src/pages/GeneratedBrds.tsx:60-63 | an occurrence survives lower-casing both sides |
| Strings.ContainsTransitive | src/pages/GeneratedBrds.tsx:62-63 | containment is transitive |
| Strings.Split | src/components/BrdEditor.tsx:236 | `split` gives one more part than there are separators, and no part holds the separator |
| Strings.JoinSplit | src/components/BrdEditor.tsx:236 | joining the parts of a split with the separator gives back the text |
| Strings.SplitJoin | src/components/BrdEditor.tsx:82 | splitting parts joined by a separator none of them holds gives back the parts |
| Strings.SubstringSpec | src/components/BrdEditor.tsx:51-54 | `substring` is symmetric in its bounds, is the slice when they are in order and in range, clamps an end past the text, and is never longer than the text |
| Strings.BlankIffAllWhitespace | src/pages/BrdGenerationFinal.tsx:88 | `!a.trim()` holds exactly when every character is whitespace |
| Editor.ApplyFormat | src/components/BrdEditor.tsx:16-67 | on a selection inside the buffer, the caret it asks for lies at or after the selection's start and inside the new buffer |
| Editor.ExportDocument | src/components/BrdEditor.tsx:74-137 | the exported file is the fixed head, each line of the buffer converted and joined with `<br>`, and the fixed tail |
| Editor.RenderView | src/components/BrdEditor.tsx:236-239 | the view has one entry per line of the buffer, one more than its line feeds, and no entry is empty |
| Editor.ParseFormat | src/components/BrdEditor.tsx:26-49 | a format name outside the five the switch knows falls to the default case |
| Editor.TemplateShape | src/components/BrdEditor.tsx:26-46 | each insertion is fixed markers around the selected text, which sits at the cursor offset; an unknown format inserts nothing |
| Editor.TemplateRenders | src/components/BrdEditor.tsx:26-46 | what each button inserts around plain text is rendered as the element the button names |
| Editor.ApplyFormatSplice | src/components/BrdEditor.tsx:51-66 | the buffer keeps everything before and after the selection and holds the insertion in between; the caret lands within the insertion, after it when text was selected and after the opening marker when none was |
| Editor.ApplyFormatUndo | src/components/BrdEditor.tsx:51-54 | the selected text reads back between the markers, and taking the markers out gives back the buffer |
| Editor.ApplyFormatUnknown | src/components/BrdEditor.tsx:47-54 | an unknown format deletes the selection and leaves the caret at its start; the buffer is unchanged exactly when the selection is empty |
| Editor.ApplyFormatGrowth | src/components/BrdEditor.tsx:26-66 | each button grows the buffer by 4, 2, 2, 3 or 2, and with nothing selected puts the caret 2, 1, 2, 3 or 2 past the start |
| Editor.ApplyFormatExamples | src/components/BrdEditor.tsx:26-66 | bold on a selected word wraps it in `**` with the caret after the closing marker; heading 1 with nothing selected inserts `# ` with the caret after it |
| Editor.ExportSplit | src/components/BrdEditor.tsx:77-81 | the export's replacement chain works line by line |
| Editor.ExportNoLineFeed | src/components/BrdEditor.tsx:77-81 | the replacement chain adds no line feed |
| Editor.ExportRewriteLines | src/components/BrdEditor.tsx:76-82 | converting lines joined by line feeds is joining the converted lines |
| Editor.ExportByLines | src/components/BrdEditor.tsx:76-82 | the export is each line converted, joined with `<br>`, and holds no line feed |
| Editor.ExportHeading1 | src/components/BrdEditor.tsx:79 | `# T` is exported as a plain h1 around T after the inline passes |
| Editor.ExportPlainHeading | src/components/BrdEditor.tsx:79 | `# T` with plain T is exported as `<h1>T</h1>` |
| Editor.ExportListItem | src/components/BrdEditor.tsx:81 | `* T` with plain T is exported as `<li>T</li>` |
| Editor.ExportTwoLines | src/components/BrdEditor.tsx:76-82 | two lines are exported as the two converted lines around one `<br>` |
| Editor.ExportHeadingAndItem | src/components/BrdEditor.tsx:76-82 | `# Title\n* item` is exported as `<h1>Title</h1><br><li>item</li>` |
| Editor.ExportTagLine | src/components/BrdEditor.tsx:79-82 | a line that starts with a tag after the inline passes is not taken for a heading or item |
| Editor.ExportBoldPlain | src/components/BrdEditor.tsx:77 | the export's bold pass leaves text with no `*` alone |
| Editor.ExportInlinePlain | src/components/BrdEditor.tsx:77-78 | the export's two inline passes leave text with no `*` or `_` alone |
| Editor.ExportHeading2 | src/components/BrdEditor.tsx:79-80 | `## T` with plain T is exported as `<h2>T</h2>`; the `# ` replacement does not take it |
| Editor.ExportHeading3Kept | src/components/BrdEditor.tsx:77-81 | `### T`, a level-3 heading in the view, is exported unchanged: the export has no third heading level |
| Editor.ExportSingleStarsKept | src/components/BrdEditor.tsx:77 | `*T*`, bold in the view, is exported unchanged: the export's bold pass opens only at `**` |
| Editor.ExportItalicDoubleUnderscore | src/components/BrdEditor.tsx:78 | the export's italic pass on `__T__` opens after the first underscore and closes at the third |
| Editor.ExportInlineDoubleUnderscore | src/components/BrdEditor.tsx:77-78 | the export's inline passes turn `__T__` into `<em>_T</em>_` |
| Editor.ExportDoubleUnderscore | src/components/BrdEditor.tsx:76-82 | `__T__`, which the view shows in bold, is exported as `<em>_T</em>_` |
| Editor.RenderLineSpec | src/components/BrdEditor.tsx:237-238 | an empty line shows the `&nbsp;` placeholder, any other line its formatted text, which is never empty |
| Editor.RenderViewSpec | src/components/BrdEditor.tsx:236-239 | the view has one entry per line of the buffer, none empty; each entry is the matching line of the whole formatted buffer, or the placeholder for an empty line |
| Editor.BrdEditor.constructor | src/components/BrdEditor.tsx:12-14 | the buffer starts as the initial content, with the view shown |
| Editor.BrdEditor.HandleFormat | src/components/BrdEditor.tsx:16-67 | with no textarea nothing changes; otherwise the buffer becomes the splice and the caret the command's caret; the mode is unchanged |
| Editor.BrdEditor.HandleSave | src/components/BrdEditor.tsx:69-72 | the current buffer goes to `onSave`, is kept, and the view is shown |
| Editor.BrdEditor.Cancel | src/components/BrdEditor.tsx:188 | the view is shown and the buffer keeps its unsaved edits |
| Editor.BrdEditor.StartEditing | src/components/BrdEditor.tsx:218 | the textarea is shown on the unchanged buffer |
| Editor.BrdEditor.Change | src/components/BrdEditor.tsx:206 | typing replaces the buffer and keeps the mode |
| Editor.BrdEditor.ExportToPdf | src/components/BrdEditor.tsx:74-137 | the download is `BRD_Document.html` of type `text/html`, the converted lines joined with `<br>` inside the fixed scaffold, with no line feed in the inserted part; the editor does not change |
| Editor.BrdEditor.View | src/components/BrdEditor.tsx:236-239 | the view shows one non-empty entry per line of the buffer |
| FollowUp.Unanswered | src/pages/BrdGenerationFinal.tsx:45-48 | every incoming question, and nothing else, maps to an empty answer |
| FollowUp.RemoveAll | src/pages/BrdGenerationFinal.tsx:80-85 | the filtered list is no longer than the old one and no longer holds the removed question |
| FollowUp.Removable | src/pages/BrdGenerationFinal.tsx:151 | a question shorter than every protected opening always has a delete button |
| FollowUp.CanGenerate | src/pages/BrdGenerationFinal.tsx:88 | the guard passes only with a non-empty BRD id |
| FollowUp.GenerateDisabled | src/pages/BrdGenerationFinal.tsx:194 | the button is disabled while generating, and enabled when idle with no questions |
| FollowUp.RemoveAllSpec | src/pages/BrdGenerationFinal.tsx:81 | the filter drops every occurrence of the question and keeps every other one |
| FollowUp.RemoveAllAppend | src/pages/BrdGenerationFinal.tsx:81 | the filter keeps the order of the remaining questions |
| FollowUp.RemoveAllKeys | src/pages/BrdGenerationFinal.tsx:80-85 | after the filter the distinct questions are the old ones less the removed one |
| FollowUp.CanGenerateSpec | src/pages/BrdGenerationFinal.tsx:88-91 | generation goes ahead exactly when the id is present and no answer is only whitespace; with no questions only the id matters; an enabled button with an id always passes the guard |
| FollowUp.FreshQuestionsBlock | src/pages/BrdGenerationFinal.tsx:88-91 | right after initialisation generation is refused unless the question list is empty |
| FollowUp.FinalDraftPage.constructor | src/pages/BrdGenerationFinal.tsx:24-34 | the first render's empty state, where the answer keys are the questions |
| FollowUp.FinalDraftPage.InitialAnswers | src/pages/BrdGenerationFinal.tsx:45-48 | the `forEach` builds the map of every question to an empty answer |
| FollowUp.FinalDraftPage.Initialise | src/pages/BrdGenerationFinal.tsx:36-54 | with navigation state the fields take its values, an absent list is empty and an absent date is now, and every question gets an empty answer; without it nothing changes |
| FollowUp.FinalDraftPage.HandleAnswerChange | src/pages/BrdGenerationFinal.tsx:62-67 | only the given question's answer changes, and the keys stay the questions |
| FollowUp.FinalDraftPage.SetNewQuestion | src/pages/BrdGenerationFinal.tsx:178 | the custom-question input takes the typed value |
| FollowUp.FinalDraftPage.AddCustomQuestion | src/pages/BrdGenerationFinal.tsx:69-78 | a blank input changes nothing; otherwise the untrimmed input is appended with an empty answer, overwriting a duplicate's answer, and the input is cleared; the keys stay the questions |
| FollowUp.FinalDraftPage.RemoveQuestion | src/pages/BrdGenerationFinal.tsx:80-85 | every occurrence and its answer go, the other questions keep their order and answers, and the keys stay the questions |
| FollowUp.FinalDraftPage.HandleGenerateFinalBrd | src/pages/BrdGenerationFinal.tsx:87-107 | refused, changing nothing, unless the guard holds; on success the final BRD and the editor's copy are set, on failure they are kept; `generating` ends false |
| FollowUp.FinalDraftPage.SyncEditedContent | src/pages/BrdGenerationFinal.tsx:56-60 | once there is a final BRD the editor's copy is its document |
| FollowUp.FinalDraftPage.HandleEditorSave | src/pages/BrdGenerationFinal.tsx:124-127 | an editor save replaces the page's copy with the saved text |
| BrdList.Matches | src/pages/GeneratedBrds.tsx:60-64 | an empty search term matches every BRD |
| BrdList.FilterBrds | src/pages/GeneratedBrds.tsx:59-65 | the filtered list is no longer than the list, and every BRD on it matches the term |
| BrdList.FilterSpec | src/pages/GeneratedBrds.tsx:59-65 | a BRD is listed exactly when it is in the list and its lower-cased name or summary contains the lower-cased term; no more BRDs are listed than there are |
| BrdList.FilterAppend | src/pages/GeneratedBrds.tsx:59-65 | the filter keeps the list's order |
| BrdList.FilterAllMatch | src/pages/GeneratedBrds.tsx:59-65 | when every BRD matches, the list is kept whole |
| BrdList.FilterEmptyTerm | src/pages/GeneratedBrds.tsx:59-65 | an empty search keeps every BRD |
| BrdList.LowerTwice | src/pages/GeneratedBrds.tsx:60 | lower-casing twice is lower-casing once |
| BrdList.FilterIgnoresCase | src/pages/GeneratedBrds.tsx:60-63 | the filter ignores the case of the search term |
| BrdList.MatchesNarrow | src/pages/GeneratedBrds.tsx:61-64 | a BRD matching a term matches every part of it |
| BrdList.FilterNarrows | src/pages/GeneratedBrds.tsx:59-65 | extending the search term never adds results: it filters what the shorter term listed |
| BrdList.FilterNoMatch | src/pages/GeneratedBrds.tsx:59-65 | a term no BRD matches lists nothing |
| BrdList.PreviewHtml | src/pages/GeneratedBrds.tsx:146 | the preview block is never empty, and for a non-empty preview it is never shorter than the cut text with its three dots |
| BrdList.PreviewSpec | src/pages/GeneratedBrds.tsx:146 | an empty preview shows the notice; any other is cut to 200 characters and always gets `...` before formatting |
| BrdList.PlainPreview | src/pages/GeneratedBrds.tsx:146 | a plain preview is shown as its first 200 characters followed by `...` |
| BrdList.ViewSpec | src/pages/GeneratedBrds.tsx:96-115 | the empty state depends on the unfiltered list only; a search that matches nothing shows an empty list of cards |

## Left out

- I/O and browser effects are not modelled:
  - the `apiPost`/`apiGet` calls, the response decoding and `JSON.stringify` of the answers;
  - toasts, `navigate` and `console.error`;
  - the clipboard copy (`handleCopyToClipboard`, with its `copied` flag and timer);
  - the Blob and anchor download;
  - `setTimeout`, `focus` and `setSelectionRange`, including the browser's own clamping of the caret.

  These are parameters where they decide something:
  - the textarea is `Option<Selection>`;
  - the response of the generation call is `Option<FinalBrd>` (`None` when it failed);
  - the current time is a string `now`.
- React itself is not modelled:
  - rendering, `dangerouslySetInnerHTML`, keys and the loading skeleton;
  - the batching of state updates and stale closures;
  - the display of `review_feedback` and the tab layout.

  Each handler is a method that runs to completion on the current state. `useState`
  seeds the editor's buffer once, and a later `initialContent` does not reach it,
  which the constructor reflects.
- `cn` (class-name merging) and `formatDate` (locale date formatting) are library
  wrappers with nothing to prove.
- Strings.Lower: lower-cases ASCII letters only; the Unicode case mapping of
  `toLowerCase` is not modelled.
- Strings.Substring, BrdList.PreviewHtml and Editor.Selection: offsets and lengths count
  characters, not the UTF-16 code units JavaScript counts. A character outside the Basic
  Multilingual Plane is one position here and two there, so a 200-unit preview cut or a
  textarea offset can fall elsewhere (`src/pages/GeneratedBrds.tsx:146`,
  `src/components/BrdEditor.tsx:20-21`).
- FollowUp.Unanswered and FollowUp.FinalDraftPage.Valid: the answers object is modelled as
  a map from question to answer. Keys that a plain JavaScript object treats specially,
  such as `__proto__`, are not modelled
  (`src/pages/BrdGenerationFinal.tsx:45-49`, `:88`, `:194`).
- Strings.IsWhitespace: the whitespace set of `trim` is written out explicitly: the
  ECMAScript white space and line terminators, with the space separators listed one
  by one.
- The regular expressions are modelled as dedicated scanners for the fixed patterns
  in the source, not by a general regular-expression engine.
- The fetch, the loading state and the navigation of the BRD list are not modelled.
- The other pages of the application are not modelled. These are the dashboard,
  project and first-draft pages, authentication, routing and the API client.
