# Aesthetic notes: highlight toggle, server rewrites and theme engine in Dafny

This project models the logic at the heart of the "My Pretty Notes" web application and
proves properties of it. Users upload a Word document. The server converts it to HTML,
rewrites the markup into a styled note page and wraps it in a full HTML page. The browser
shows that page in a preview frame. There the user can highlight and un-highlight text with
a button, pick the highlight colour, switch themes, export the page and save it as a project.

The model is split into these modules, one per file:

- `Wrappers` (wrappers.dfy) holds the `Option` and `Result` types.
- `JsStrings` (js_strings.dfy) models the JavaScript string primitives the code relies on:
  - the whitespace of `\s` and `trim()`;
  - case-insensitive matching of an ASCII literal, as a `/literal/gi` expression does;
  - the global replace such a regular expression drives;
  - `indexOf`;
  - the `$` patterns that `String.prototype.replace` expands in a replacement string.
- `ServerRewrite` (server_rewrite.dfy) models the pure helpers of server.js:
  - the three rewriting passes of `transformHtmlWithPerfectCss` and its fixed framing;
  - the page template of `wrapHtmlFragment`;
  - the plain-text extraction that decides whether the design step runs;
  - the escaping and filtering of the key terms, and the loop that applies them;
  - the choice of the body font.
- `ServerCatalog` (server_catalog.dfy) models:
  - the `THEMES` table and `GET /theme/:id`;
  - the validation of `POST /save-project` and the record it builds;
  - the newest-first listing of `GET /projects`.
- `Dom` (dom.dfy) models the slice of the DOM the highlight button uses:
  - a value tree of elements and Text nodes, with nodes addressed by child-index paths;
  - boundary points, and the "extract" algorithm of the DOM standard shared by
    `extractContents` and `surroundContents`;
  - `insertNode`;
  - the HTML serialisation behind `outerHTML`.
- `Highlight` (highlight.dfy) models the highlight button's behaviour as functions:
  - its guards;
  - the one-node classification of the selection;
  - unwrapping an existing mark;
  - wrapping the selection in a new `mark.user-highlight`;
  - `ClickResult`, the whole click as one value.
- `PreviewApp` (app.dfy) models the page script's state as the class `PreviewSession`:
  - the `currentHtml` snapshot, the frame's `srcdoc` and document, the selection, the picked
    colour and the colour swatches;
  - the click handler written step by step (the unwrapping `while` loop, `surroundContents`
    with its fallback, clearing the selection, refreshing the snapshot), proved equal to
    `ClickResult`;
  - the colour picker loop;
  - the `currentHtml || srcdoc` fallback used by export and save.
- `ThemeSheet` (theme_sheet.dfy) models `generateThemeCSS` as a list of rule blocks rendered
  in the template's layout.
- `ThemeEngine` (theme_engine.dfy) models `applyTheme` and `initThemeSystem` as methods of the
  class `ThemedPage`:
  - the lookup of a theme by name;
  - the upsert of the `theme-style` element;
  - the splice of the sheet into the frame's `srcdoc`;
  - one menu option per theme.

Main results:

- A click on the highlight button does what `ClickResult` says. With no snapshot, or an
  empty, collapsed or blank selection, nothing changes. Otherwise the inspected mark is
  unwrapped or the selection is wrapped, the selection is cleared and `currentHtml` becomes
  the new `outerHTML`. The document's text is the same afterwards.
- Wrapping puts the selected text, and only that, into a new mark. This holds on the
  `surroundContents` path and on the extract/append/insert fallback. Nothing outside the
  parent changes, and the parent's children outside the selection stay as they were. Unwrapping puts the mark's children in its place, in order.
- For a selection inside one Text node, a second click on the new mark gives back the
  original markup. The tree is not the same, though: the text now sits in three adjacent
  Text nodes.
- The handler inspects only one node: the container, or the container's parent when the
  container is a Text node. The repository's description of the handler speaks of finding an
  enclosing mark. The code does not look further up, and the model follows the code. So a
  selection inside a `b` inside a mark is wrapped in a second, nested mark
  (`Highlight.NestedMarkPossible`).
- The underline passes are plain deletions that keep every other character, but one pass
  does not remove every underline tag: `<<u>u>` becomes `<u>`.
- The style pass drops `text-decoration` declarations and keeps the others verbatim. It
  deletes the whole attribute when nothing is left.
- Each bare tag gains its fixed class, and a tag with an attribute part is kept, also when
  bare tags stand beside it. The class passes work on the pieces between two `<` separately.
- The extracted text has no tag, no leading or trailing whitespace and no two adjacent
  whitespace characters.
- Escaping a key term puts a backslash in front of every special character and of no other,
  so the pattern matches the term literally. It reads back to the term.
- The project list is a permutation of the stored summaries, sorted newest first.
- The theme splice is not idempotent: every application of a theme adds another
  `frame-theme` block in front of `</head>`. The head never gets a second `theme-style`
  element.

## Model

| member | source | states |
|---|---|---|
| `PreviewApp.PreviewSession.constructor` | public/app.js:13-14 | The page starts with no snapshot, an empty frame and the highlight colour `#f0d4ff`. |
| `PreviewApp.ActivateOnly` | public/app.js:17-22 | After a click on swatch `i`, exactly swatch `i` is active; every swatch keeps its colour. |
| `PreviewApp.PreviewSession.PickColor` | public/app.js:17-22 | The loop clears `active` on every swatch, then sets it on the clicked one. The swatches equal `ActivateOnly(old, i)`, the colour is the clicked swatch's `data-color`, and the document, selection and snapshot are unchanged. |
| `PreviewApp.PreviewSession.Show` | public/app.js:67-69 | A loaded project becomes both the snapshot and the frame's `srcdoc`; the selection is cleared and the colour kept. |
| `PreviewApp.PreviewSession.ShowUpload` | public/app.js:106-110 | The upload is shown iff its `html` is truthy. Otherwise snapshot, frame and selection are unchanged. |
| `PreviewApp.PreviewSession.Select` | public/app.js:171-178 | The selection becomes the given range (or none); nothing else changes. |
| `PreviewApp.ExportedHtml` | public/app.js:132-133 | Export sends something iff the snapshot is truthy or `srcdoc` is non-empty. It prefers the snapshot and never sends an empty string. |
| `PreviewApp.PreviewSession.Exported` | public/app.js:238-239 | Save sends the same markup as export: `ExportedHtml(currentHtml, srcdoc)`. |
| `PreviewApp.PreviewSession.HighlightClick` | public/app.js:163-235 | The outcome and the new document, selection and snapshot are exactly `ClickResult` of the old state and the picked colour. |
| `PreviewApp.PreviewSession.Toggle` | public/app.js:187-229 | Once the guards pass, the inspected mark is unwrapped or the selection wrapped, as `ClickResult` says. |
| `PreviewApp.PreviewSession.RemoveHighlight` | public/app.js:192-229 | The remove branch: the document is `Unwrapped(old, mark)`, the selection is cleared and the snapshot is the new `outerHTML`. |
| `PreviewApp.PreviewSession.UnwrapMark` | public/app.js:194-198 | The `while (firstChild) insertBefore` loop followed by `removeChild` gives exactly `Unwrapped(old, mark)`. |
| `PreviewApp.MoveFirstChildOut` | public/app.js:195-197 | One turn of the loop moves the mark's next child in front of it. |
| `PreviewApp.RemoveEmptyMark` | public/app.js:198 | Removing the emptied mark leaves its former children in its place. |
| `PreviewApp.PreviewSession.AddHighlightAndSync` | public/app.js:203-229 | The add branch: the document is `Wrapped(old, range, colour)`, the selection is cleared and the snapshot is the new `outerHTML`. |
| `PreviewApp.PreviewSession.AddHighlight` | public/app.js:211-219 | `surroundContents`, or its fallback when it throws, yields `Wrapped(old, range, colour)`. |
| `PreviewApp.PreviewSession.SurroundContents` | public/app.js:213 | It throws iff the range partially contains an element, and then changes nothing. Otherwise the result is `Wrapped`. |
| `PreviewApp.PreviewSession.InsertThenAppend` | public/app.js:213 | Extract, insert the empty mark, append the fragment to it: the result is `Wrapped`. |
| `PreviewApp.PreviewSession.ExtractContents` | public/app.js:216 | The document loses the range's contents, which come back as the fragment, and the collapsed point can take an insertion. |
| `PreviewApp.PreviewSession.AppendChildren` | public/app.js:217 | The element at the path gets the nodes appended after its children; the rest of the tree is kept. |
| `PreviewApp.PreviewSession.InsertNode` | public/app.js:218 | The node is inserted at the collapsed point, splitting a Text node there, and its new path is returned. |
| `Highlight.SelectedText` | public/app.js:178-179 | `range.toString()` is no longer than the container's text, and empty for a collapsed range. |
| `Highlight.InspectedPath` | public/app.js:187-190 | The inspected node is an element on the container's path, either the container itself or one step above it. |
| `Highlight.InspectedMarkHasParent` | public/app.js:192-194 | A mark classified for removal is never the document element, so it has a parent. |
| `Highlight.ClickResult` | public/app.js:163-235 | The result is "no document" iff the snapshot is falsy. It is "no selection" iff there is no range, the range is collapsed or its text trims to empty; in both cases nothing changes. It is "removed" iff the guards pass and the inspected node is a mark. After a removal or a highlight the selection is cleared, the snapshot is the new `outerHTML` and the text is unchanged. |
| `Highlight.ClickAdds` | public/app.js:203-229 | A guarded click on a selection whose inspected node is not a mark wraps it. |
| `Highlight.ClickRemoves` | public/app.js:192-229 | A guarded click on a selection whose inspected node is a mark unwraps that mark. |
| `Highlight.UnwrapShape` | public/app.js:194-198 | Unwrapping replaces the mark, in its parent's child list, by its children in order. Every node outside the parent's subtree and its ancestors is unchanged. |
| `Highlight.UnwrapKeepsDocText` | public/app.js:194-198 | Unwrapping keeps the document's text. |
| `Highlight.UnwrapKeepsDocument` | public/app.js:194-198 | Unwrapping keeps the document element an `html` element. |
| `Dom.UnwrapKeepsText` | public/app.js:194-198 | Replacing an element by its children keeps the text of the child list. |
| `Highlight.WrapMarkHoldsSelection` | public/app.js:204-219 | The new node is a `mark` with class `user-highlight` and the picked background, and its text is exactly the selected text. |
| `Highlight.WrapKeepsDocText` | public/app.js:211-219 | Wrapping keeps the document's text. |
| `Highlight.WrapKeepsDocument` | public/app.js:211-219 | Wrapping keeps the document element an `html` element. |
| `Highlight.WrapFrame` | public/app.js:211-219 | Wrapping changes nothing outside the node the mark goes into and its ancestors. |
| `Highlight.WrapKeepsSiblingsText` | public/app.js:211-219 | For a Text container, the parent's children before and after it are kept as they were; the container gives way to its head, the mark and its tail. |
| `Highlight.WrapKeepsSiblingsElement` | public/app.js:211-219 | For an element container, the children before the start child and after the end child are kept as they were, at the two ends of the new child list. |
| `Highlight.WrappedTextMark` | public/app.js:213 | A selection inside one Text node is wrapped in a mark whose one child holds the selected characters. |
| `Highlight.SurroundWraps` | public/app.js:213 | Extracting, inserting the empty mark and filling it with the fragment yields `Wrapped`. |
| `Highlight.ExtractAppendInsertWraps` | public/app.js:216-218 | The fallback also yields `Wrapped`: extract, append the fragment to the mark, insert the mark. |
| `Highlight.ExtractionLeavesInsertPoint` | public/app.js:216-218 | After the extraction the document is still a document, and the collapsed point can take the mark. |
| `Dom.Extract` | public/app.js:216 | The kept head, the fragment and the kept tail hold the text before, inside and after the range. The children before the start child and after the end child stay the same nodes. |
| `Dom.SplitAt` | public/app.js:216 | Splitting a partially contained node at a boundary point splits its text at the point's offset, and an element's clones keep its name. |
| `Highlight.WrapThenUnwrapKeepsText` | public/app.js:194-218 | Wrapping a selection and then unwrapping the new mark gives back the document's text, whatever the container. |
| `Highlight.ToggleRestoresMarkup` | public/app.js:194-229 | For a Text container, wrap then unwrap gives back the same `outerHTML`. The tree differs (the text is split in three). |
| `Highlight.ReselectMark` | public/app.js:187-192 | Selecting the new mark's text selects the same text, and the selection classifies as removing that mark. |
| `Highlight.ReselectTogglesOff` | public/app.js:163-235 | Click, reselect the mark's text, click again: the second click removes the mark and the markup is the original. |
| `Highlight.WrapBelowMark` | public/app.js:204-219 | A mark above the wrapped node's parent survives the wrap, and the new mark lies inside it. |
| `Highlight.ClickBelowMark` | public/app.js:187-219 | A selection inside a `b` inside a mark is not seen as marked, so a click wraps it in a nested mark. |
| `Highlight.NestedMarkPossible` | public/app.js:187-219 | On `<mark><b>t</b></mark>`, selecting `t` and clicking yields a mark inside the mark. |
| `Dom.AdjacentTextsSerializeAsOne` | public/app.js:229 | Two adjacent Text nodes serialise exactly as one node with their joined text. |
| `Dom.SplitTextSerializesAsOne` | public/app.js:229 | A Text node split in three serialises as the unsplit node. |
| `Dom.ReplaceAtKeepsMarkup` | public/app.js:229 | Replacing a node by one with the same markup keeps the `outerHTML` of the whole tree. |
| `Dom.Escape` | public/app.js:229 | Escaped text and escaped attribute values contain no `<` and no `>`. |
| `ServerRewrite.Transform` | server.js:398-421 | The result is the note-page opening (page `div`, sticker, header, content `div`), then the rewritten input, then `</div></div>`. The style sheet argument is ignored. |
| `ServerRewrite.TransformContent` | server.js:417-420 | Cutting the fixed frame off the result gives back the rewritten input. |
| `ServerRewrite.TransformPlain` | server.js:398-421 | Markup with no underline tag, no `style="` and no bare tag is framed unchanged. |
| `ServerRewrite.RemoveUnderlinesKeepsOtherChars` | server.js:401-402 | The two passes only delete: every character other than those of `</u>` is kept, in order. |
| `ServerRewrite.RemoveUnderlinesLength` | server.js:401-402 | The length drops by 3 per `<u>` match and by 4 per `</u>` match of the second pass. |
| `ServerRewrite.RemoveUnderlinesNoMatch` | server.js:401-402 | Markup without underline tags is unchanged. |
| `ServerRewrite.UnderlineSurvives` | server.js:401-402 | `<<u>u>` becomes `<u>`, so the output can still hold an underline tag. |
| `JsStrings.ReplaceAllLength` | server.js:401-415 | Each replaced match changes the length by the replacement's length minus the pattern's, and nothing else changes it. |
| `JsStrings.ReplaceAllNoMatch` | server.js:401-415 | A string without a match passes through a global replace unchanged. |
| `JsStrings.ReplaceAllUnchangedIff` | server.js:401-415 | When the replacement's length differs from the pattern's, the replace leaves a string unchanged iff it has no match. |
| `JsStrings.CountPositiveIffContains` | server.js:401-415 | At least one match is replaced iff the string contains the pattern. |
| `JsStrings.RemoveAllKeepsOtherChars` | server.js:401-402 | Deleting every match keeps, in order, every character outside the pattern's characters. |
| `ServerRewrite.ThroughSemicolonSpec` | server.js:405 | A `text-decoration` match runs through the first `;` after it, or to the end when there is none. |
| `ServerRewrite.StripAppend` | server.js:405 | Cleaning text that ends with `;` and then more text is cleaning each part. |
| `ServerRewrite.StripWholeValue` | server.js:405 | A value that is one `text-decoration` declaration without `;` cleans to nothing. |
| `ServerRewrite.StripOneDecl` | server.js:405 | A `text-decoration` declaration leaves only the whitespace in front of it; any other declaration is kept with its `;`. |
| `ServerRewrite.StripDecls` | server.js:405 | On a list of declarations, the `text-decoration` ones are dropped with their `;`. The others are kept verbatim and in order. |
| `ServerRewrite.DeclarationThenDecoration` | server.js:405 | `d; text-decoration: x;` cleans to `d; `. |
| `JsStrings.Trim` | server.js:405 | `trim()` returns the slice between the leading and the trailing whitespace. It neither starts nor ends with whitespace, and is empty iff the input is all whitespace. |
| `ServerRewrite.StyleAttr` | server.js:406 | An empty cleaned value deletes the attribute; otherwise it is written back as `style="…"`. |
| `ServerRewrite.StylePassNoMatch` | server.js:404-407 | Markup without `style="` passes the style pass unchanged. |
| `ServerRewrite.StylePassSkip` | server.js:404-407 | Text before an attribute that has no `style="` and ends with a space is copied. |
| `ServerRewrite.StylePassAttr` | server.js:404-407 | `style="v"` becomes the attribute of `v`'s cleaned value, and the scan resumes after the closing quote. |
| `ServerRewrite.DecorationOnlyStyleRemoved` | server.js:404-407 | A style that is only a `text-decoration` disappears, attribute and all (`<p style="text-decoration: x">` becomes `<p >`). |
| `ServerRewrite.ApplyRulesNoMatch` | server.js:409-415 | Passes that find no tag leave the markup unchanged. |
| `ServerRewrite.AddClassesNoBareTag` | server.js:409-415 | Markup without any of the seven bare tags gains no class. |
| `ServerRewrite.TagWithSpaceUntouched` | server.js:409-415 | `<p >`, as the style pass can leave it, is not a bare tag and stays as it is. |
| `ServerRewrite.AddClassesSplit` | server.js:409-415 | No tag match runs across a `<`: the classes are added to the text before a `<` and to the rest separately. |
| `ServerRewrite.BareTagGainsClass` | server.js:409-415 | Each of the seven bare tags, with text without `<` around it, becomes its tag with the fixed class, and the text around it is kept. |
| `ServerRewrite.SpacedTagUntouched` | server.js:409-415 | A tag named like one of the seven but with an attribute part (`<p class="note">`, `<p >`) is kept with the text after it. |
| `ServerRewrite.SpacedTagBesideBareTag` | server.js:409-415 | A tag with an attribute part is kept while a bare tag after it gains its class. |
| `ServerRewrite.WrapHtmlFragment` | server.js:423-442 | The page is the fixed head, the style sheet, the fixed middle, the fragment and the fixed tail, each at its offset. |
| `ServerRewrite.WrapHtmlFragmentInjective` | server.js:423-442 | With the same style sheet, different fragments give different pages. |
| `ServerRewrite.TagsToSpaceNoTag` | server.js:119 | After tags are replaced by spaces, no `<` is followed by a `>`. |
| `ServerRewrite.TagsToSpaceNoOpen` | server.js:119 | Text without `<` passes the tag pass unchanged. |
| `ServerRewrite.CollapseSingleSpaced` | server.js:119 | After collapsing, the only whitespace is single plain spaces. |
| `ServerRewrite.CollapseNoTag` | server.js:119 | Collapsing whitespace creates no tag. |
| `ServerRewrite.ExtractTextShape` | server.js:118-119 | The extracted text has no tag, no leading or trailing whitespace and no two adjacent whitespace characters. |
| `ServerRewrite.ExtractWord` | server.js:118-119 | A document of one word extracts to that word. |
| `ServerRewrite.ShortWordSkipsDesign` | server.js:125 | A document of one word of up to 50 characters never reaches the design step. |
| `ServerRewrite.PromptExcerpt` | server.js:167 | The prompt gets a prefix of the text: all of it up to 3000 characters, otherwise exactly 3000. |
| `ServerRewrite.UnescapeEscape` | server.js:364 | Reading the escaped term back, with a backslash taking the next character literally, gives the term. |
| `ServerRewrite.EscapeLength` | server.js:364 | Escaping adds exactly one character per special character. |
| `ServerRewrite.EscapePlain` | server.js:364 | A term without special characters is its own pattern. |
| `ServerRewrite.EscapeLiteral` | server.js:364 | The escaped term is a literal pattern: every special character comes as a `\c` pair, and every other character stands alone. |
| `ServerRewrite.LiteralIsEscape` | server.js:364 | A literal pattern that reads back as the term is the escaped term, so escaping puts a backslash in front of exactly the special characters. |
| `ServerRewrite.EligibleTerms` | server.js:363 | The kept terms are present, non-empty and longer than two characters, and taken from the list. |
| `ServerRewrite.MarkTermsSkipsIneligible` | server.js:362-368 | Marking with all terms gives the same result as marking with the eligible ones only. |
| `ServerRewrite.MarkTermsNoneEligible` | server.js:362-368 | With no eligible term the markup is unchanged. |
| `ServerRewrite.HighlightKeyTerms` | server.js:360-370 | The loop gives the term-by-term marking of the markup, or the markup itself when there is no list. |
| `ServerRewrite.BodyFont` | server.js:188-193 | The body font always names a handwriting face or `cursive`. It is the design's font (or the default) when that one qualifies, and the default list otherwise. |
| `ServerRewrite.DefaultIsHandwriting` | server.js:189-191 | The default font list passes the handwriting test. |
| `ServerCatalog.ThemeIdsDistinct` | server.js:29-78 | `THEMES` has eight entries with pairwise distinct ids. |
| `ServerCatalog.FindTheme` | server.js:464 | `find` returns an entry with the id, or nothing iff no entry has it. |
| `ServerCatalog.FindThemeFirst` | server.js:464 | The entry found is the first with the id. |
| `ServerCatalog.FindEveryTheme` | server.js:463-466 | Every theme of the table is found by its own id. |
| `ServerCatalog.ThemeById` | server.js:463-466 | The route answers a theme iff one has the id, and that theme carries the id. Otherwise it answers "Theme not found". |
| `ServerCatalog.SaveProject` | server.js:446-450 | The request is refused with "Missing name or html" iff the name or the markup is falsy. Otherwise the record keeps id, time, name and markup, and its theme is the given one or `default`. |
| `ServerCatalog.SummaryOfEntry` | server.js:476-479 | Every `.json` entry of the directory contributes its summary. |
| `ServerCatalog.SavedProjectListed` | server.js:446-480 | A saved project whose file is in the directory appears in the listing. |
| `ServerCatalog.LexLeTotal` | server.js:480 | Any two timestamps are comparable. |
| `ServerCatalog.LexLeTransitive` | server.js:480 | The timestamp order is transitive. |
| `ServerCatalog.Insert` | server.js:480 | Insertion adds the one summary and keeps all the others. |
| `ServerCatalog.InsertSorted` | server.js:480 | Insertion into a newest-first list keeps it newest first. |
| `ServerCatalog.SortNewestFirst` | server.js:480 | The sort is a permutation of its input. |
| `ServerCatalog.SortNewestFirstSorted` | server.js:480 | The sort's result is newest first. |
| `ServerCatalog.ListProjectsSpec` | server.js:476-480 | The listing holds the summaries of the `.json` entries, each as often as it occurs. Any earlier entry is at least as new as any later one. |
| `ThemeSheet.GenerateThemeCss` | public/theme-engine.js:15-48 | The sheet is empty iff the theme is missing or has no colours. |
| `ThemeSheet.BodyBackground` | public/theme-engine.js:20 | The page background is `bodyBg`, or `#fff` when it is missing or empty. |
| `ThemeSheet.HeaderFontDefault` | public/theme-engine.js:27 | The header font is the theme's, or `'Pacifico', cursive` when it has none. |
| `ThemeSheet.SectionBackground` | public/theme-engine.js:45 | The section background is the theme's background with `22` appended. |
| `ThemeSheet.SheetHoldsRule` | public/theme-engine.js:18-47 | The sheet is the template's nine rules, rendered in order. |
| `ThemeEngine.FirstBlockSpec` | public/theme-engine.js:68 | The block search returns the leftmost match and none before it, or nothing iff no block exists. |
| `ThemeEngine.SpliceFresh` | public/theme-engine.js:68-69 | Without a frame block, the splice inserts the tag in front of the first `</head>`. |
| `ThemeEngine.ReplaceBlockSame` | public/theme-engine.js:68 | Replacing a frame block by an identical one changes nothing. |
| `ThemeEngine.SpliceAgain` | public/theme-engine.js:68-69 | On a document that already holds the tag, the splice keeps it and inserts another copy in front of `</head>`. |
| `ThemeEngine.SpliceIterated` | public/theme-engine.js:67-69 | Two splices of the same sheet leave two tags in front of `</head>`. |
| `ThemeEngine.SpliceNotIdempotent` | public/theme-engine.js:67-69 | The frame splice is not idempotent: each application adds one more `frame-theme` block. |
| `JsStrings.SubstitutionPlain` | public/theme-engine.js:68-69 | A replacement string without `$` is inserted literally. |
| `ThemeEngine.Lookup` | public/theme-engine.js:51 | `themesData[name]` is nothing iff no entry has the name; otherwise it is an entry stored under the name. |
| `ThemeEngine.FindById` | public/theme-engine.js:55 | `getElementById` finds the first element with the id, or none iff no element has it. |
| `ThemeEngine.SetStyleTextSpec` | public/theme-engine.js:55-61 | After the upsert, the element found under `theme-style` holds the sheet. No other element changes, and one element is added iff none had the id. |
| `ThemeEngine.SetStyleTextCount` | public/theme-engine.js:55-61 | The number of `theme-style` elements becomes one when there was none, and is unchanged otherwise. |
| `ThemeEngine.SetStyleTextTwice` | public/theme-engine.js:55-61 | Setting the sheet twice is the same as setting the second one. |
| `ThemeEngine.ThemedPage.ApplyTheme` | public/theme-engine.js:50-72 | An unknown name changes nothing. A known one upserts its sheet into the head, and splices it into the frame's `srcdoc` only when the frame exists and its `srcdoc` is non-empty. |
| `ThemeEngine.MenuOptions` | public/theme-engine.js:81-86 | There is one option per theme, in the data's order, with the key as value and `name-or-key - description` as label. |
| `ThemeEngine.LabelNamesTheme` | public/theme-engine.js:84 | The label starts with the theme's name (or its key when the name is missing) and ` - `. |
| `ThemeEngine.ThemedPage.InitThemeSystem` | public/theme-engine.js:74-96 | The data is kept. With a menu, the loop fills it with `MenuOptions(data)` and the `default` theme is applied: its sheet is upserted into the head and spliced into a non-empty frame `srcdoc` (nothing changes when there is no `default`). Without a menu, nothing else changes. |

## Left out

- The server's I/O is not modelled:
  - Express routing, multer uploads and their file filter;
  - `fs` reads, writes and deletions;
  - the mammoth conversion;
  - the calls to the generative model and the parsing of its JSON;
  - puppeteer's PDF rendering;
  - `Date.now()` and `new Date().toISOString()`.
  Ids, timestamps, directory entries and the converted markup are parameters instead.
- The random choices (the AI highlight colour, the random theme) are left out: they need
  randomness.
- The large CSS template of the design step (server.js:195-358), and the colour defaults it
  reads, are left out. They are interpolation only, and `Transform` ignores the sheet as the
  source does.
- `ServerRewrite.HighlightKeyTerms`: the replacement itself is the parameter `markTerm`. It
  uses word-bounded, case-insensitive matching outside tags, with a lookahead, which would
  need a regular-expression engine. Only the escaping, the filtering and the order of the
  terms are proved.
- The client-side `wrapHtmlFragment` of public/app.js:26-48 is left out; `WrapHtmlFragment`
  models the server's function.
- The page script's network code is left out: the `fetch` calls, status messages, `alert` and
  `prompt`, the PDF download, the project-list rendering and the random-theme CSS variables.
  A click's two alerts are the outcomes `NoDocument` and `NoSelection`.
- The handler's outer `catch` (public/app.js:231-234) is not represented. In the modelled tree
  of elements and Text nodes, only `surroundContents` can throw, and its fallback cannot. So
  the path where an exception leaves `currentHtml` untouched does not arise.
- `loadThemes` (public/theme-engine.js:4-13) fetches `themes.json`; its result is the
  parameter of `InitThemeSystem`.
- The page script and the theme engine both act on the preview frame. The model keeps their
  states in two classes. A theme spliced into `ThemedPage.frame` therefore does not reach
  `PreviewSession.srcdoc`, and the frame's parsing of `srcdoc` into a tree is the parameter
  `parsed`.
- js/landing.js (scroll reveal and parallax) and test-models.js (a network call) are not part
  of this model.
- Strings are sequences of Unicode scalar values, while JavaScript counts UTF-16 code units.
  Lengths and offsets (`range.toString()`, `length > 2`, `length > 50`,
  `substring(0, 3000)`) agree only for text without astral characters.
- `localeCompare` on the ISO timestamps is modelled as code-unit lexicographic order. The two
  agree for timestamps in one format.
- The DOM model has only elements and Text nodes: no comments, doctype or namespaces. A range
  is its common ancestor container and two boundary points below it.
- `Highlight.Mark`: the new mark's `style` attribute is the declaration text the handler
  assigns (`background: <colour>; padding: 2px 6px; …`). The browser instead serialises the
  declarations of `mark.style`: the colour becomes `rgb(…)`, the shadow is reordered, and a
  `data-color` that is missing or not a colour leaves no background at all. The `outerHTML`
  snapshot of the model therefore matches the browser's in structure and text, but not in
  the text of that one attribute. CSS parsing and serialisation are not part of this model.
- `outerHTML` escaping is modelled for text and attribute values. Attribute names and tag
  names are written as they are.
- `ServerRewrite.StripDecls`: proved for declarations that either are one `text-decoration`
  declaration or do not mention `text-decoration:` at all. A value such as
  `color: red text-decoration: x` is left to the general function `StripMatches`.
- `ServerRewrite.StylePassAttr`: proved for an attribute preceded by text that has no
  `style="` and ends with a space, which is how attributes stand inside a tag.
- `Highlight.ToggleRestoresMarkup`: the markup round trip is proved for a selection inside one
  Text node. For element containers only the text round trip is proved
  (`Highlight.WrapThenUnwrapKeepsText`).
- `ThemeEngine.SpliceNotIdempotent`: stated for a document without a frame block and for a
  sheet without `$`, `</style>` or `</head>`, which keeps `$` patterns and nested closing
  tags out of the statement.
