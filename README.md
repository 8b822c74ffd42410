# Chaptered document editor — Dafny model

This project models the chaptered document editor of the DO-DREAM teacher web client
(`AdvancedEditor`). A document has a title, an ordered list of chapters `{id, title, content}`,
an active chapter, an "unsaved changes" flag, a split-mode flag, a title-editing state, a
selected colour label and one shared editing surface. The surface shows the active chapter.
The editor's handlers are modelled as methods of the class `AdvancedEditor.Editor`:

- add, delete and rename a chapter;
- activate a chapter;
- sync an edit from the surface into the active chapter;
- insert a chapter-break marker;
- split the surface's markup at the markers;
- change the document title and pick a label;
- publish and navigate back.

The pure parts are functions with lemmas:

- the max-numeric-id `reduce`;
- `parseInt(id, 10) || 0` and `String(n)`;
- the fragment pipeline `split / map(trim) / filter(length > 0)`;
- `extractTitle`;
- the list transformations the handlers apply (`map`, `filter`, spread).

Markup is a sequence of tokens: opaque markup `Html(text)`, `Heading(level, text)` for
`h1`–`h6`, and `Break` for the `<hr data-chapter-break="true">` marker. `Render` gives the
serialized string. The token-level trim is proved equal to JavaScript's `String.prototype.trim`
on that string. The white-space set is ECMAScript's WhiteSpace and LineTerminator.

Files:

- `js_string.dfy`: modules `Wrappers` and `JsString`;
- `markup.dfy`: module `Markup`;
- `chapter_ids.dfy`: module `ChapterIds`;
- `split_engine.dfy`: module `SplitEngine`;
- `chapter_store.dfy`: module `ChapterStore`;
- `editor.dfy`: module `AdvancedEditor`.

`Editor.Valid()` is the document invariant:

- at least one chapter;
- unique, non-empty ids;
- the active id names a chapter;
- the surface displays the active chapter's content, or the placeholder when that content is empty.

Every handler keeps this invariant. Each handler also states its whole new state as a function
of the old one.

Points of the code's behaviour that the model keeps:

- A delete removes every chapter carrying the id (`filter`).
- A split keeps the active chapter active and turns split mode off.
- The unsaved flag is set when the document title changes to something other than the
  *initial* title.
- Publishing does not flush the surface first. The active chapter is already current through
  the edit handler.
- Publishing does not check chapter contents.
- A new chapter is titled `챕터 {id}`; a split chapter with an empty title falls back to `챕터`.
  The fallback document title is `새로운 자료`.

## Model

| member | source | states |
|---|---|---|
| `JsString.TrimStart` | fe-web/src/pages/AdvancedEditor.tsx:283 | the result is the input minus its longest all-white-space prefix |
| `JsString.TrimEnd` | fe-web/src/pages/AdvancedEditor.tsx:283 | the result is the input minus its longest all-white-space suffix |
| `JsString.Trim` | fe-web/src/pages/AdvancedEditor.tsx:256 | the result is empty or neither starts nor ends with white space |
| `JsString.TrimSlice` | fe-web/src/pages/AdvancedEditor.tsx:256 | the trimmed string is a slice of the input, and only white space is cut away on either side of it |
| `JsString.TrimIdempotent` | fe-web/src/pages/AdvancedEditor.tsx:283 | trimming twice is trimming once |
| `JsString.TrimStartAppend` | fe-web/src/pages/AdvancedEditor.tsx:283 | trimming the start of `a + b` reaches into `b` only when `a` is all white space |
| `JsString.TrimEndAppend` | fe-web/src/pages/AdvancedEditor.tsx:283 | trimming the end of `a + b` reaches into `a` only when `b` is all white space |
| `Markup.RenderToken` | fe-web/src/pages/AdvancedEditor.tsx:53-67 | a heading or a marker serializes to a tag that starts with `<` and ends with `>`; opaque markup is passed through unchanged |
| `Markup.Render` | fe-web/src/pages/AdvancedEditor.tsx:176 | `getHTML()` as a string: markup that starts with a heading or a marker serializes to text starting with a tag |
| `Markup.RenderAppend` | fe-web/src/pages/AdvancedEditor.tsx:279 | serialization distributes over concatenation of markup |
| `Markup.TrimFragment` | fe-web/src/pages/AdvancedEditor.tsx:283 | trimming a fragment never introduces a marker |
| `Markup.TrimFragmentStart` | fe-web/src/pages/AdvancedEditor.tsx:283 | removing leading white space at token level never introduces a marker and never lengthens the fragment |
| `Markup.TrimFragmentEnd` | fe-web/src/pages/AdvancedEditor.tsx:283 | removing trailing white space at token level never introduces a marker and never lengthens the fragment |
| `Markup.RenderTrimFragment` | fe-web/src/pages/AdvancedEditor.tsx:281-283 | token-level trimming serializes to exactly `.trim()` of the serialized fragment |
| `ChapterIds.DigitPrefix` | fe-web/src/pages/AdvancedEditor.tsx:199 | the result is the longest prefix of decimal digits |
| `ChapterIds.DigitsValue` | fe-web/src/pages/AdvancedEditor.tsx:199 | the decimal value of a digit string, most significant digit first; `DecimalValue` shows it inverts `String(n)` |
| `ChapterIds.ParseSigned` | fe-web/src/pages/AdvancedEditor.tsx:199 | the sign and digit part of `parseInt(_, 10) \|\| 0` once leading white space is gone; `UnsignedValue` and `SignedValue` give its value for digit strings with and without a minus sign |
| `ChapterIds.UnsignedValue` | fe-web/src/pages/AdvancedEditor.tsx:199 | a digit string followed by text that does not start with a digit reads as the value of the digits |
| `ChapterIds.SignedValue` | fe-web/src/pages/AdvancedEditor.tsx:199 | a minus sign followed by `String(n)` reads as -n |
| `ChapterIds.DecimalValue` | fe-web/src/pages/AdvancedEditor.tsx:202 | the digits `String(n)` prints have the value n |
| `ChapterIds.ParseId` | fe-web/src/pages/AdvancedEditor.tsx:199 | `parseInt(id, 10) \|\| 0`: skip leading white space, then the sign and the digit prefix; its properties are the `ParseId…` lemmas |
| `ChapterIds.ParseIdSign` | fe-web/src/pages/AdvancedEditor.tsx:199 | blank text reads as 0, and a negative value needs a minus sign right after the leading white space |
| `ChapterIds.Decimal` | fe-web/src/pages/AdvancedEditor.tsx:202 | `String(n)` is a non-empty digit string with no leading zero |
| `ChapterIds.ParseDecimal` | fe-web/src/pages/AdvancedEditor.tsx:199-202 | reading a printed id back with `parseInt(_, 10) \|\| 0` gives the number it was printed from |
| `ChapterIds.DecimalInjective` | fe-web/src/pages/AdvancedEditor.tsx:328 | two numbers print as the same id exactly when they are equal |
| `ChapterIds.ParseIdTrailingText` | fe-web/src/pages/AdvancedEditor.tsx:199 | `parseInt("12abc")` reads 12: trailing non-digits are ignored |
| `ChapterIds.ParseIdSigned` | fe-web/src/pages/AdvancedEditor.tsx:199 | leading white space is skipped and a minus sign negates the value, so `"-0"` counts as 0 |
| `ChapterIds.ParseIdNonNumeric` | fe-web/src/pages/AdvancedEditor.tsx:199 | an id whose first non-space character is no digit and no sign (NaN) counts as 0 through `\|\| 0` |
| `SplitEngine.Breaks` | fe-web/src/pages/AdvancedEditor.tsx:282 | the marker count is zero exactly when there is no marker |
| `SplitEngine.Pieces` | fe-web/src/pages/AdvancedEditor.tsx:281-282 | k markers give k + 1 pieces, and no piece contains a marker |
| `SplitEngine.Join` | fe-web/src/pages/AdvancedEditor.tsx:281-282 | joining marker-free pieces with one marker between neighbours gives exactly (pieces - 1) markers |
| `SplitEngine.BreaksAppend` | fe-web/src/pages/AdvancedEditor.tsx:282 | markers are counted part by part over a concatenation |
| `SplitEngine.JoinPieces` | fe-web/src/pages/AdvancedEditor.tsx:281-282 | joining the pieces with markers gives back the markup |
| `SplitEngine.PiecesJoin` | fe-web/src/pages/AdvancedEditor.tsx:281-282 | splitting the join of marker-free pieces gives back those pieces |
| `SplitEngine.PiecesAround` | fe-web/src/pages/AdvancedEditor.tsx:281-282 | splitting `a + marker + b` is splitting `a`, then splitting `b` |
| `SplitEngine.KeepNonBlank` | fe-web/src/pages/AdvancedEditor.tsx:283-284 | every kept fragment is non-empty and trimmed, and marker-freeness is preserved |
| `SplitEngine.KeepNonBlankAppend` | fe-web/src/pages/AdvancedEditor.tsx:283-284 | trim-and-filter acts on each part of a list separately, so order is kept |
| `SplitEngine.Parts` | fe-web/src/pages/AdvancedEditor.tsx:281-284 | every fragment is non-empty, trimmed and marker-free; there are at most (markers + 1) fragments |
| `SplitEngine.NoBreakNoSplit` | fe-web/src/pages/AdvancedEditor.tsx:286-294 | markup with no marker gives at most one fragment, so the split is refused |
| `SplitEngine.AdjacentBreaksCollapse` | fe-web/src/pages/AdvancedEditor.tsx:281-284 | two adjacent markers give the same fragments as one marker |
| `SplitEngine.PartsOfJoin` | fe-web/src/pages/AdvancedEditor.tsx:281-284 | non-blank, trimmed, marker-free fragments joined with markers split back into exactly those fragments |
| `SplitEngine.SplitExample` | fe-web/src/pages/AdvancedEditor.tsx:279-331 | for any heading level, unpadded title text X and paragraphs P1, P2, P3, `<hN>X</hN>P1 ✂ P2 ✂ P3` gives the three fragments `<hN>X</hN>P1`, `P2`, `P3`; the first is titled X and the others take their fallback |
| `SplitEngine.FirstHeadingAt` | fe-web/src/pages/AdvancedEditor.tsx:299 | the result is the position of the first heading in document order, or the length when there is none |
| `SplitEngine.ExtractTitle` | fe-web/src/pages/AdvancedEditor.tsx:296-305 | the title is empty only when the fallback is |
| `SplitEngine.ExtractTitleFirstHeading` | fe-web/src/pages/AdvancedEditor.tsx:296-305 | the title is the trimmed text of the heading `FirstHeadingAt` finds when that text is non-empty, else the fallback |
| `SplitEngine.ExtractTitleSpec` | fe-web/src/pages/AdvancedEditor.tsx:296-305 | the title is the trimmed text of the first heading when that text is non-empty, else the fallback; with no heading it is the fallback; a later heading is never used |
| `ChapterStore.IndexOf` | fe-web/src/pages/AdvancedEditor.tsx:156 | `find` returns the first chapter with the id, or none |
| `ChapterStore.MaxFrom0` | fe-web/src/pages/AdvancedEditor.tsx:198-201 | the left-fold `Math.max` from 0 bounds every value and is 0 or one of them |
| `ChapterStore.Max` | fe-web/src/pages/AdvancedEditor.tsx:199 | `Math.max(max, x)` for a non-negative accumulator: an upper bound of both that is one of them |
| `ChapterStore.NumericIds` | fe-web/src/pages/AdvancedEditor.tsx:199 | one numeric value per chapter, each `parseInt(id, 10) \|\| 0` of that chapter's id |
| `ChapterStore.MaxId` | fe-web/src/pages/AdvancedEditor.tsx:307-311 | the max numeric id is at least every chapter's `parseInt(id) \|\| 0`, and is 0 or one of those values |
| `ChapterStore.AllocatedId` | fe-web/src/pages/AdvancedEditor.tsx:202 | `String(max + 1 + k)`: a non-empty string of decimal digits |
| `ChapterStore.AllocatedIdValue` | fe-web/src/pages/AdvancedEditor.tsx:202 | reading an allocated id back with `parseInt` gives max + 1 + k |
| `ChapterStore.AllocatedIdFresh` | fe-web/src/pages/AdvancedEditor.tsx:202 | `String(max + 1 + k)` is no existing chapter's id |
| `ChapterStore.AllocatedIdDistinct` | fe-web/src/pages/AdvancedEditor.tsx:327-328 | ids allocated for different fragment indexes differ |
| `ChapterStore.AboveMaxFresh` | fe-web/src/pages/AdvancedEditor.tsx:198-202 | a number above the max numeric id prints as an id no chapter has |
| `ChapterStore.NextIdExample` | fe-web/src/pages/AdvancedEditor.tsx:197-202 | with ids "1" and "3" the next id is "4" |
| `ChapterStore.WithNewChapter` | fe-web/src/pages/AdvancedEditor.tsx:204-210 | existing chapters stay unchanged in front; the new last chapter has id `String(max + 1)`, title `챕터 {id}` and the new-chapter text, and its id is fresh |
| `ChapterStore.WithNewChapterUnique` | fe-web/src/pages/AdvancedEditor.tsx:197-210 | adding a chapter keeps ids unique |
| `ChapterStore.WithoutId` | fe-web/src/pages/AdvancedEditor.tsx:236 | no chapter with the id is left and the list does not grow |
| `ChapterStore.WithoutIdMembers` | fe-web/src/pages/AdvancedEditor.tsx:236 | a chapter is kept exactly when it was in the list and has a different id |
| `ChapterStore.WithoutIdAppend` | fe-web/src/pages/AdvancedEditor.tsx:236 | removal acts on each part of the list separately, so the relative order of the rest is kept |
| `ChapterStore.WithoutAbsentId` | fe-web/src/pages/AdvancedEditor.tsx:236 | removing an id no chapter has changes nothing |
| `ChapterStore.WithoutUniqueId` | fe-web/src/pages/AdvancedEditor.tsx:236 | with unique ids, removing a present id removes exactly that chapter and keeps the others in order |
| `ChapterStore.WithoutSingle` | fe-web/src/pages/AdvancedEditor.tsx:236 | when only position k holds the id, removal drops exactly that chapter and keeps the rest in order |
| `ChapterStore.WithoutIdUnique` | fe-web/src/pages/AdvancedEditor.tsx:236 | removal keeps ids unique |
| `ChapterStore.Retitled` | fe-web/src/pages/AdvancedEditor.tsx:265-267 | only the titles of chapters with the id change, to the given text; ids, order and contents are untouched |
| `ChapterStore.Rewritten` | fe-web/src/pages/AdvancedEditor.tsx:177-181 | only the contents of chapters with the id change, to the given markup; ids, order and titles are untouched |
| `ChapterStore.SameIdsAgree` | fe-web/src/pages/AdvancedEditor.tsx:177-181 | lists with the same ids position by position agree on uniqueness, membership and lookup position |
| `ChapterStore.SplitChapters` | fe-web/src/pages/AdvancedEditor.tsx:316-337 | the list after a split: the existing chapters in place, with the active one rewritten, followed by one new chapter per remaining fragment |
| `ChapterStore.SplitActive` | fe-web/src/pages/AdvancedEditor.tsx:317-325 | one chapter of `prev.map`: the id is kept; a chapter other than the active one is untouched; the active one holds fragment 0 |
| `ChapterStore.WithFirstFragment` | fe-web/src/pages/AdvancedEditor.tsx:317-325 | `prev.map` over the whole list: same length, each chapter passed through `SplitActive` |
| `ChapterStore.FragmentChapter` | fe-web/src/pages/AdvancedEditor.tsx:327-334 | one chapter of `rest.map`: the k-th allocated id and the fragment as content |
| `ChapterStore.FragmentChapters` | fe-web/src/pages/AdvancedEditor.tsx:327-334 | `rest.map` over the remaining fragments: one chapter per fragment, in fragment order |
| `ChapterStore.SplitShape` | fe-web/src/pages/AdvancedEditor.tsx:307-336 | after a split: the list grows by n - 1; existing ids keep their places; other chapters are untouched; the active chapter holds fragment 0 with its inferred title; fragment k is appended as chapter `String(max + k)` in order |
| `ChapterStore.SplitKeepsUniqueIds` | fe-web/src/pages/AdvancedEditor.tsx:307-336 | a split keeps ids unique |
| `ChapterStore.FreshTailUnique` | fe-web/src/pages/AdvancedEditor.tsx:307-336 | a list keeping the old ids in place and appending the allocated ids in order has unique ids |
| `ChapterStore.SplitKeepsActive` | fe-web/src/pages/AdvancedEditor.tsx:316-325 | the active chapter stays at its position and now holds fragment 0 |
| `AdvancedEditor.Shown` | fe-web/src/pages/AdvancedEditor.tsx:159 | the surface never loads empty markup; non-empty content is loaded as it is |
| `AdvancedEditor.Loaded` | fe-web/src/pages/AdvancedEditor.tsx:153-169 | the activation effect: with an empty or unknown active id the surface is left as it was; otherwise it shows the first matching chapter's content (or the placeholder) and is never empty |
| `AdvancedEditor.Consistent` | fe-web/src/pages/AdvancedEditor.tsx:108-169 | the document invariant implies a non-empty active id that names a chapter |
| `AdvancedEditor.NewChapterShown` | fe-web/src/pages/AdvancedEditor.tsx:207 | a new chapter's content is displayed as stored |
| `AdvancedEditor.Editor.constructor` | fe-web/src/pages/AdvancedEditor.tsx:108-134 | given chapters: those chapters, first one active; otherwise chapter "1" titled `챕터 1` with the extracted text, or the placeholder when that is empty; the surface loads the active chapter; `Valid` holds for unique non-empty ids |
| `AdvancedEditor.Editor.Valid` | fe-web/src/pages/AdvancedEditor.tsx:108-169 | the editor's invariant implies at least one chapter and an active id that names one of them |
| `AdvancedEditor.Editor.Activate` | fe-web/src/pages/AdvancedEditor.tsx:153-169 | the chapter becomes active; a change of active chapter loads its content (or the placeholder) into the surface; `Valid` is kept |
| `AdvancedEditor.Editor.Edit` | fe-web/src/pages/AdvancedEditor.tsx:175-183 | the surface markup is written into the active chapter only; unsaved is set; titles, ids and other chapters are unchanged; `Valid` is kept |
| `AdvancedEditor.Editor.InsertChapterBreak` | fe-web/src/pages/AdvancedEditor.tsx:271-274 | a marker is inserted at the cursor and synced into the active chapter; split mode is on |
| `AdvancedEditor.Editor.AddChapter` | fe-web/src/pages/AdvancedEditor.tsx:197-212 | a fresh chapter is appended and becomes active, and the surface shows its content; `Valid` is kept |
| `AdvancedEditor.Editor.AddKeepsValid` | fe-web/src/pages/AdvancedEditor.tsx:197-212 | the new chapter's content is loaded, and the invariant holds with the new chapter active and displayed |
| `AdvancedEditor.Editor.DeleteChapter` | fe-web/src/pages/AdvancedEditor.tsx:214-248 | with one chapter: refused, nothing changes; not confirmed: nothing changes; confirmed: chapters with the id are removed, and if the deleted one was active the first remaining one becomes active; `Valid` (so at least one chapter) is kept |
| `AdvancedEditor.Editor.DeleteKeepsValid` | fe-web/src/pages/AdvancedEditor.tsx:236-240 | with unique ids and at least two chapters: a chapter remains; ids stay unique and non-empty; a surviving active chapter is still found; a replacement active chapter is the new first one |
| `AdvancedEditor.Editor.BeginTitleEdit` | fe-web/src/pages/AdvancedEditor.tsx:250-253 | title editing starts for the chapter with its current title |
| `AdvancedEditor.Editor.SetEditingTitle` | fe-web/src/pages/AdvancedEditor.tsx:551 | the title being edited is the typed text |
| `AdvancedEditor.Editor.SaveChapterTitle` | fe-web/src/pages/AdvancedEditor.tsx:255-269 | a title that trims to empty is refused and nothing changes; otherwise only the target's title becomes the untrimmed text and editing ends; `Valid` is kept |
| `AdvancedEditor.Editor.Retitle` | fe-web/src/pages/AdvancedEditor.tsx:265-268 | the target chapters take the untrimmed title and editing ends; `Valid` is kept |
| `AdvancedEditor.Editor.RetitleKeepsValid` | fe-web/src/pages/AdvancedEditor.tsx:265-267 | retitling keeps the invariant, since no id and no content changes |
| `AdvancedEditor.Editor.SplitByChapterBreaks` | fe-web/src/pages/AdvancedEditor.tsx:276-346 | with at most one fragment the split is refused and nothing changes; otherwise the chapters become the split result, split mode ends, the count is the fragment count, and the surface shows fragment 0; `Valid` is kept |
| `AdvancedEditor.Editor.SplitKeepsValid` | fe-web/src/pages/AdvancedEditor.tsx:307-346 | with a non-empty fragment 0, a split keeps the invariant and the reloaded surface is fragment 0 |
| `AdvancedEditor.Editor.SetTitle` | fe-web/src/pages/AdvancedEditor.tsx:191-195 | a title change to anything other than the initial title sets unsaved; nothing else clears it |
| `AdvancedEditor.Editor.SelectLabel` | fe-web/src/pages/AdvancedEditor.tsx:385-407 | the picked label id becomes the selected label |
| `AdvancedEditor.Editor.Publish` | fe-web/src/pages/AdvancedEditor.tsx:413-432 | a title that trims to empty is refused and the unsaved flag is unchanged; otherwise the flag is cleared and (title, chapters, label) is emitted unchanged |
| `AdvancedEditor.Editor.Back` | fe-web/src/pages/AdvancedEditor.tsx:434-454 | the editor is left at once when nothing is unsaved, otherwise only on confirmation |
| `AdvancedEditor.SwitchRoundTrip` | fe-web/src/pages/AdvancedEditor.tsx:153-189 | after editing A, activating B and reactivating A, the surface shows exactly A's edited content (or the placeholder when it is empty) |

## Left out

- Rendering: JSX, CSS classes, dark mode, the tab UI, the document-title input toggle and
  `console.log` calls. These are presentation only.
- Dialogs: SweetAlert2 notices become `Outcome` values. A confirmation is a boolean parameter.
  The label picker's DOM manipulation is reduced to `SelectLabel`.
- Callbacks: `onPublish` is modelled as the returned `Publication`. `onBack` is modelled as the
  boolean `Back` returns.
- TipTap editor: the surface holds exactly the tokens last set or edited. The model does not
  capture four things:
  - schema normalisation of `getHTML()`;
  - where the cursor is, beyond an index;
  - `insertContent` replacing a non-empty selection: `InsertChapterBreak` only inserts the
    marker at a cursor index and removes nothing;
  - an `update` event fired by `setContent` (the model assumes `setContent` fires none).
- Editor readiness: the asynchronous editor set-up and the `if (!editor) return` guards are
  not modelled. The surface is always ready.
- Markup parsing: `DOMParser` and the marker regex are replaced by the token model.
  - Opaque text that merely spells out a marker is never taken for one. The editor escapes such
    text anyway.
  - The `try/catch` around `extractTitle` has no counterpart, because token inspection cannot fail.
  - The model assumes well-formed token sequences: every h1–h6 element of the markup is a
    `Heading` token, and no `Html` payload contains a heading or a marker element. Nothing
    enforces this; the constructor and `Edit` accept any markup. For a payload such as
    `Html("<h2>Intro</h2>")`, `ExtractTitle` gives the fallback where `extractTitle` gives "Intro",
    and a marker inside a payload would not split.
  - `Heading(level, text)` serializes `text` as the heading's inner markup, while `extractTitle`
    reads the heading's `textContent`. The two agree only for headings without inline markup
    or character references; inline markup inside headings is not modelled.
- `ChapterIds.ParseId`: ids are unbounded integers. JavaScript number rounding above 2^53 and
  `Infinity` for very long digit strings are not modelled.
- React effect timing: each handler is one atomic transition. The initial-data effect does not
  re-run when the props change later.
- The split button is disabled outside split mode, but the handler itself does not check.
  `SplitByChapterBreaks` does not check either.
- Other source files:
  - the session-storage loading page;
  - the classroom and student screens;
  - the join page and routing;
  - the mobile app;
  - the backend services and DTOs.

  They are screens, I/O plumbing or thin orchestration and are not part of this model.
