# pdf.js text layer builder: search highlighting, modelled in Dafny

This project models the `TextLayerBuilder` of pdf.js's viewer
(`web/text_layer_builder.js`). That is the object that puts one transparent
overlay div over each text item of a rendered PDF page, and then shows the
find controller's matches inside those divs as highlight spans.

The model covers:

- **Building the divs.** `setTextContent` and `appendText` append one div
  per text item, in item order. A whitespace-only item's div is flagged
  `isWhitespace` and gets nothing else.
- **Attaching the divs.** `renderLayer` gives up above 100000 divs. It skips
  whitespace divs and divs measured zero wide, moves the rest to the layer,
  sets `renderingDone` and calls `updateMatches`.
- **Converting matches (`convertMatches`).** One forward walk over the
  items' running lengths turns the find controller's global character
  offsets into (item, offset) begin/end positions. The begin boundary is
  `>=` and the end boundary is a strict `>`.
- **Rendering matches (`renderMatches`).** Each affected div is rebuilt as a
  list of text nodes and class-carrying spans. A match inside one div becomes
  one `highlight` span. A match over several divs becomes a `highlight begin`
  span, `highlight middle` classes on the divs between, and a
  `highlight end` span, with ` selected` appended for the selected match. The
  selected match scrolls into view.
- **Updating matches (`updateMatches`).** Old highlights are cleared back to
  the items' plain text; with an active controller, the page's new matches
  are converted and rendered.

Modules follow the structure of the file:

| module | file | contents |
|---|---|---|
| `Wrappers` | `wrappers.dfy` | `Option` |
| `JsStrings` | `js_strings.dfy` | JavaScript `substring` and `/\S/` |
| `TextLayerTypes` | `text_layer_types.dfy` | divs, pieces, positions, matches, the find controller record |
| `MatchConversion` | `match_conversion.dfy` | the conversion walk as functions, and its rules |
| `MatchRendering` | `match_rendering.dfy` | the render loop as a fold over the div list, and what it leaves in the divs |
| `MatchUpdating` | `match_updating.dfy` | clearing, and the whole update as functions |
| `TextLayer` | `text_layer_builder.dfy` | the class `TextLayerBuilder` |

The class `TextLayerBuilder` holds the builder's state as fields: the item
strings, the div list, the current matches, `divContentDone`,
`renderingDone`, the layer's children, and a log of `scrollIntoView`
targets. Its methods run the source's own loops: the `i`/`iIndex` walks, the
`prevEnd` loop, and the nested clearing loop with `clearedUntilDivIdx`. Each
method is proved against the function of the module that specifies it, and
the properties the source promises are lemmas about those functions.

Inputs the source takes from outside the object are parameters:

- The global `PDFFindController` is an `Option<FindController>`. `None` stands
  for `null`.
- Canvas text measuring is a function `measure: Div -> real`.

A behaviour of the code that the model keeps as written: `setTextContent`
appends to `textDivs` and never resets it.

A requirement the model adds where the source would throw: `updateMatches`
past its `renderingDone` guard, and so `renderLayer` under its cap, read
`textContent.items`. That object exists only once `setTextContent` has run.
The model requires `divContentDone` at those points; before then the
builder's item list is empty.

The class invariant `Valid()` holds from construction on and every
state-changing method keeps it:

- every item has its div;
- the current matches are chained and each begins no later than it ends;
- every div outside the spans of the current matches is plain: no class and
  only plain text nodes;
- no div is attached to the layer twice.

The functions that define the model, and the code each one follows:

- `Seek`: one of the two `while` loops of `convertMatches`
  (web/text_layer_builder.js:174-199);
- `Convert` and `ConvertAll`: the loop of `convertMatches` (web/text_layer_builder.js:158-209);
- `NewDiv` and `NewDivs`: `appendText` and the loop of `setTextContent`
  (web/text_layer_builder.js:112-156);
- `ToRender` and `Attach`: the fragment loop and `appendChild` of
  `renderLayer` (web/text_layer_builder.js:65-85);
- `AppendTextToDiv`, `BeginText` and `HighlightRange`: the helpers nested in
  `renderMatches` (web/text_layer_builder.js:234-262);
- `Lead`, `Mark`, `Step` and `CloseLast`: one round of the rendering loop
  and the closing append (web/text_layer_builder.js:286-312);
- `Render`, `RenderNext`, `RenderedDivs` and `Scrolled`: the rendering loop
  over its range, and the whole `renderMatches` call
  (web/text_layer_builder.js:211-313);
- `Cleared`, `UpdatedMatches` and `UpdatedDivs`: the clearing loop and the
  whole `updateMatches` call (web/text_layer_builder.js:315-349).

## Model

| member | source | states |
|---|---|---|
| TextLayer.TextLayerBuilder.constructor | web/text_layer_builder.js:32-51 | a new builder has no items, divs, matches, layer children or scrolls, neither done flag set, and the given page index and presentation mode |
| TextLayer.TextLayerBuilder.AppendText | web/text_layer_builder.js:112-119 | exactly one div is pushed: the whitespace-flagged empty div for an item without a non-whitespace character, else a div showing the item |
| TextLayer.TextLayerBuilder.SetTextContent | web/text_layer_builder.js:146-156 | the items become the new items, `divContentDone` is set, and the divs grow by exactly the item divs in item order |
| TextLayer.NewDivsFacts | web/text_layer_builder.js:115-118 | one div per item, same order, each plain (no class, no spans); flagged whitespace iff the item has no non-whitespace character, then no content and no style; otherwise it shows exactly the item's text |
| JsStrings.SubstringSlice | web/text_layer_builder.js:248 | `substring` with in-range arguments is slicing, swapped arguments give the same slice, and an undefined end means the end of the string |
| TextLayer.ToRenderFacts | web/text_layer_builder.js:65-83 | the fragment holds exactly the divs that are not whitespace-flagged and measure wider than zero, in ascending div order |
| TextLayer.TextLayerBuilder.CollectFragment | web/text_layer_builder.js:65-83 | the fragment loop returns exactly `ToRender` of the divs: whitespace divs skipped, the others kept when measured wider than zero |
| TextLayer.AttachFacts | web/text_layer_builder.js:85 | after `appendChild(fragment)` the layer holds its old children and the fragment's, with the fragment's last and in order, and holds no div twice if neither did before |
| TextLayer.WithoutNoDuplicates | web/text_layer_builder.js:85 | taking the fragment's divs out of a layer without repeats leaves a layer without repeats |
| TextLayer.AttachRendered | web/text_layer_builder.js:65-85 | attaching `renderLayer`'s fragment to a layer without repeats leaves one without repeats |
| TextLayer.TextLayerBuilder.RenderLayer | web/text_layer_builder.js:53-88 | above 100000 divs nothing changes, whatever the state; otherwise the measured non-whitespace divs join the layer, `renderingDone` is set, and the divs, matches and scrolls are those of `updateMatches`, with no div keeping a class or a span for an inactive controller |
| TextLayer.TextLayerBuilder.Walk | web/text_layer_builder.js:174-199 | one walk of the conversion stops at the item `Seek` names, never past the last item, with `iIndex` the running sum of the lengths of the items before it |
| MatchConversion.SeekFacts | web/text_layer_builder.js:174-177 | the walk steps over an item only when the target is at or beyond its end (strictly beyond for the end walk), and stops at the first item whose end is not, or at the last item |
| MatchConversion.SeekStep | web/text_layer_builder.js:174-177 | one walk step, with the item end written as the running sum `iIndex + length` the source keeps |
| TextLayer.TextLayerBuilder.ConvertMatches | web/text_layer_builder.js:158-209 | the loop returns exactly the conversion function's matches, one per offset, in offset order, with the query length of the controller (0 for none) |
| MatchConversion.Convert | web/text_layer_builder.js:169-206 | one match per offset, every item index in range, never before the starting item, and begin-to-end and match-to-match item indices never decrease |
| MatchConversion.ConvertAdvance | web/text_layer_builder.js:169-206 | the conversion from offset `m` is the match built by the begin and end walks, followed by the conversion of the remaining offsets from where the end walk stopped |
| MatchConversion.ConvertResume | web/text_layer_builder.js:205 | pushing the match found for offset `m` keeps the loop state: what is done, followed by the conversion resumed at the end walk's item, is the whole conversion |
| MatchConversion.ConvertRulesFrom | web/text_layer_builder.js:169-206 | for ascending offsets, starting at an item at or before the first offset, every converted match satisfies the begin and end rules |
| MatchConversion.FirstMatchRules | web/text_layer_builder.js:174-204 | the first offset's begin and end rules hold, and the end walk leaves the cursor at an item starting no later than the first end offset |
| MatchConversion.ItemUnique | web/text_layer_builder.js:174 | an offset lies in the span of at most one item |
| MatchConversion.ConvertBeginRule | web/text_layer_builder.js:174-189 | for ascending, non-overlapping offsets inside the page text, a match begins in the one item whose span `[prefix, prefix + length)` contains its offset, at the offset minus that prefix, so an offset at an item boundary begins in the later item |
| MatchConversion.OverlapBreaksBeginRule | web/text_layer_builder.js:174-192 | without the non-overlap hypothesis the begin rule fails: for items "ab", "cd", query length 3 and offsets 0 and 1, the second match begins at item 1, offset -1, though offset 1 lies in item 0 |
| MatchConversion.FirstEndRule | web/text_layer_builder.js:192-205 | when the walk starts at an item beginning no later than the end offset, the first match's end satisfies the end rule and the cursor stops at an item beginning no later than it |
| MatchConversion.EndRulesFrom | web/text_layer_builder.js:169-206 | for offsets that only ascend, overlapping or not, every converted match satisfies the end rule and ends in an item beginning no later than its end offset |
| MatchConversion.ConvertEndRule | web/text_layer_builder.js:192-204 | for ascending offsets, overlapping or not: the end denotes offset plus query length, inside its item or at its very end, and each item the end walk steps over ends strictly before it, so a match ending at an item boundary ends in the earlier item at offset equal to its length |
| MatchConversion.ConvertWellFormed | web/text_layer_builder.js:158-209 | ascending, non-overlapping offsets whose matches lie in the page text convert to matches whose offsets lie inside their items |
| MatchConversion.ConvertRecoversMatchedText | web/text_layer_builder.js:158-209 | round trip: the characters of a converted match, read back out of the items, are the query-length characters of the page text at the match's offset |
| MatchConversion.MatchTextInPage | web/text_layer_builder.js:184-204 | a well-formed match covers exactly the page text between the global offsets of its begin and its end |
| MatchConversion.SingleItemText | web/text_layer_builder.js:299 | the part of one item between two offsets is the page text at those offsets shifted by the item's start |
| MatchConversion.SpanningText | web/text_layer_builder.js:301-305 | the tail of the head item, the items in between and the head of the tail item are, joined, the page text between begin and end |
| MatchConversion.PageTextSlice | web/text_layer_builder.js:175 | items `j` up to `h` sit in the page text between the running sums of their lengths |
| MatchRendering.AppendTextFacts | web/text_layer_builder.js:245-258 | `appendTextToDiv` changes only div `n` and keeps its class and flags; with in-range offsets the div's text grows by exactly the item's characters from `from` to `to`, or to the item's end for an undefined `to` |
| MatchRendering.BeginTextFacts | web/text_layer_builder.js:234-239 | `beginText` changes only div `p.divIdx` and keeps its class and flags; with an in-range offset the div shows exactly its item's text up to `p.offset` |
| TextLayer.TextLayerBuilder.AppendTextToDiv | web/text_layer_builder.js:245-258 | the method appends to the div what `AppendTextToDiv` specifies |
| TextLayer.TextLayerBuilder.BeginText | web/text_layer_builder.js:234-239 | the method rewrites the div as `BeginText` specifies |
| TextLayer.TextLayerBuilder.HighlightDiv | web/text_layer_builder.js:260-262 | only div `n` changes, and only its class |
| TextLayer.TextLayerBuilder.LeadText | web/text_layer_builder.js:287-296 | the text before a match is appended as the lead step specifies: the rest of the previous end div and the start of a new begin div, or the text between the two within one div |
| TextLayer.TextLayerBuilder.MarkMatch | web/text_layer_builder.js:298-306 | the match's spans and classes are written as the mark step specifies; the middle-div loop keeps `textDivs` equal to the head div's state with middle classes on the divs so far |
| TextLayer.TextLayerBuilder.RenderMatch | web/text_layer_builder.js:275-307 | one loop round keeps the loop state: the divs at match `i + 1` with `prevEnd` the match's end finish as the whole loop does, and the scroll log grows by the selected match's scroll |
| TextLayer.TextLayerBuilder.RenderMatches | web/text_layer_builder.js:211-313 | the divs become `RenderedDivs` of the old divs, and the scroll log grows by exactly the scrolls `Scrolled` names |
| MatchRendering.RenderAdvance | web/text_layer_builder.js:286-307 | a lead step then a mark step for match `i` moves the loop state to match `i + 1` |
| MatchRendering.RenderFinish | web/text_layer_builder.js:310-312 | after the loop the closing append of the last end div gives the whole loop's divs |
| MatchRendering.RenderedRange | web/text_layer_builder.js:264-273 | over the loop range, `renderMatches` is the render loop from no previous end |
| MatchRendering.RenderedAll | web/text_layer_builder.js:266-268 | with highlight-all, every match is rendered |
| MatchRendering.RenderedSelected | web/text_layer_builder.js:264-273 | without highlight-all, on the selected page, only `matches[selectedMatchIdx]` is rendered, as the selected one |
| MatchRendering.RenderedNothing | web/text_layer_builder.js:213-273 | no match, or neither highlight-all nor the selected page: no div changes |
| MatchRendering.RenderedUntouched | web/text_layer_builder.js:274-312 | a div outside the spans of every rendered match is not changed |
| MatchRendering.RenderUntouched | web/text_layer_builder.js:274-312 | the loop from match `i` on leaves alone every div outside the remaining spans other than the previous end div |
| MatchRendering.StepUntouched | web/text_layer_builder.js:286-306 | one loop round changes no div outside its match's span other than the previous end div |
| MatchRendering.RenderExtends | web/text_layer_builder.js:287-312 | the previous end div is only appended to, and keeps its class |
| MatchRendering.StepFacts | web/text_layer_builder.js:298-306 | one round leaves a `highlight` span after the lead for a one-div match; else a `highlight begin` span after the lead, middle classes on the divs between, and a tail div holding only the `highlight end` span |
| MatchRendering.RenderSingleSpan | web/text_layer_builder.js:298-299 | a one-div match leaves, in its div, a span holding exactly `substring(begin.offset, end.offset)` with class `highlight` plus its suffix |
| MatchRendering.RenderBeginSpan | web/text_layer_builder.js:301 | a match over several divs leaves its head div ending with a `highlight begin` span of the item from the begin offset |
| MatchRendering.BeginSpanHere | web/text_layer_builder.js:301 | the same, for the match the loop is at |
| MatchRendering.RenderMiddleDiv | web/text_layer_builder.js:302-304 | each div strictly between head and tail keeps its content and gets class `highlight middle` plus the suffix |
| MatchRendering.RenderEndSpan | web/text_layer_builder.js:305 | the tail div starts with a `highlight end` span of its item up to the end offset |
| MatchRendering.RenderedSingleSpan | web/text_layer_builder.js:279-299 | for a whole call: a rendered one-div match's span, with ` selected` exactly for the selected match of the selected page |
| MatchRendering.RenderedSpanningMatch | web/text_layer_builder.js:279-306 | for a whole call: a rendered match over several divs has its begin span, its middle classes and its end span, with the selected suffix |
| MatchRendering.LeadShowsText | web/text_layer_builder.js:287-296 | with the previous end div shown up to the previous end, the lead step shows the begin div up to the begin, and a previous end div left behind in full |
| MatchRendering.MarkShowsText | web/text_layer_builder.js:298-306 | with the begin div shown up to the begin, the mark step shows the end div up to the end, and the head div in full |
| MatchRendering.CloseShowsText | web/text_layer_builder.js:310-312 | the closing append shows the last end div in full |
| MatchRendering.StepText | web/text_layer_builder.js:286-306 | one round shows its end div up to the end, its head div in full, and a previous end div it moves away from in full |
| MatchRendering.RenderEndText | web/text_layer_builder.js:287-312 | the previous end div, shown up to its end, is shown in full once the loop ends |
| MatchRendering.RenderSpanText | web/text_layer_builder.js:274-312 | each remaining match's head and tail divs show their items' text when the loop ends |
| MatchRendering.SpanStep | web/text_layer_builder.js:274-308 | one round of the loop keeps the divs' length and the end div shown up to the end, and the rest of the loop shows the match's head and tail divs |
| MatchRendering.RenderText | web/text_layer_builder.js:274-312 | text preservation for the loop: every head and tail div it rewrites shows its item's text, pieces concatenated |
| MatchRendering.RenderedText | web/text_layer_builder.js:211-313 | text preservation for a call: with well-formed matches, each rendered match's head and tail divs show their items' original text |
| MatchRendering.ScrolledRange | web/text_layer_builder.js:264-284 | over the loop range, the scrolls of `renderMatches` are those of the loop |
| MatchRendering.ScrollsAdvance | web/text_layer_builder.js:279-284 | one round scrolls exactly when its match is the selected one and the viewer is not in presentation mode |
| MatchRendering.ScrollsInSelected | web/text_layer_builder.js:279-284 | the loop scrolls at most once, to the selected match's begin div, when it is in the range and the viewer is not in presentation mode |
| MatchRendering.ScrolledOnlySelected | web/text_layer_builder.js:220-284 | `renderMatches` scrolls exactly to the begin div of the selected match on the selected page, outside presentation mode, and nowhere otherwise |
| TextLayer.TextLayerBuilder.ClearMatches | web/text_layer_builder.js:325-337 | the clearing loop, skipping divs already cleared, gives `Cleared` of the old divs |
| MatchUpdating.Reset | web/text_layer_builder.js:333-334 | a cleared div shows its item's text, is plain (an empty class and no spans), and keeps its flags |
| MatchUpdating.ClearedDivs | web/text_layer_builder.js:328-337 | clearing resets exactly the divs in the span of some old match to their item's text with an empty class, and leaves every other div as it was |
| MatchUpdating.StepKeepsFlags | web/text_layer_builder.js:286-306 | one round of rendering keeps every div's whitespace and position flags |
| MatchUpdating.RenderKeepsFlags | web/text_layer_builder.js:274-312 | rendering keeps every div's whitespace and position flags |
| MatchUpdating.ClearUndoesRender | web/text_layer_builder.js:211-337 | clearing the matches just rendered gives the same divs as clearing the divs rendering started from |
| MatchUpdating.ConvertAll | web/text_layer_builder.js:158-346 | the conversion of an offset list gives one in-range, chained match per offset, and no matches for no offsets |
| MatchUpdating.UpdatedMatches | web/text_layer_builder.js:339-346 | with an active controller the matches become the converted page matches (none for a page it has none for); otherwise they stay |
| MatchUpdating.UpdatedText | web/text_layer_builder.js:315-349 | end to end: when the page's offsets come from a search that resumes after each hit and lie inside the page text, every match the update renders leaves its head and tail divs showing their items' text |
| MatchUpdating.ClearedPlain | web/text_layer_builder.js:325-337 | when every div outside the spans of the old matches is plain, clearing them leaves every div plain |
| MatchUpdating.UpdatedPlain | web/text_layer_builder.js:315-349 | an update keeps highlighting inside the matches' spans: plain outside the old spans before gives plain outside the new spans after, and every div plain after an update with an inactive controller |
| MatchUpdating.UpdateThenDeactivate | web/text_layer_builder.js:315-349 | an update followed by one with an inactive controller leaves the divs as clearing both match sets does, and, when highlighting sat only in the old matches' spans, no div with a class or a span: no highlight survives |
| TextLayer.TextLayerBuilder.UpdateMatches | web/text_layer_builder.js:315-349 | before `renderingDone` nothing changes, in any state and for any controller; otherwise the divs, matches and scrolls are those of clearing then, with an active controller, converting and rendering the page's matches, and with an inactive one no div keeps a class or a span |

## Left out

- Geometry: the transform, angle, font height and ascent arithmetic of
  `appendText`, and the CSS transforms of `renderLayer`, are floating point
  and DOM style. A div records only whether it was positioned and styled.
- Canvas measuring is the parameter `measure`; the canvas and fonts are not
  modelled.
- `setupRenderLayoutTimer` waits on `Date.now` and `setTimeout`. It is not
  modelled; `RenderLayer` is the call it eventually makes.
- `scrollIntoView` is recorded as the div index it is called on. The scroll
  offsets and the scrolling are not modelled.
- The `console.error` branch of `convertMatches` only logs and cannot be
  reached once the items are not empty; it is not modelled.
- The `window.PDFFindController` global and its `undefined` check are the
  `Option<FindController>` parameter.
- `textContent.styles`, font names and the `textContent` object itself:
  only the item strings are kept.
- Strings are sequences of Dafny characters, not UTF-16 code units, so
  `length` and `substring` count code points where JavaScript counts code
  units.
- The DOM tree of a div is the list of its child pieces. Node identity, and
  moving a div inside the page's other DOM, are not modelled.
- web/annotation_layer_builder.js is not part of this model.
- TextLayer.TextLayerBuilder.UpdateMatches: once past the `renderingDone`
  guard, the method has three requirements. `setTextContent` must have run,
  because the source reads `textContent.items`. The old matches' item
  indices must lie below the number of items, because the clearing loop
  reads `bidiTexts[n].str`. The controller's selected match must exist when
  only it is rendered, because `renderMatches` reads `matches[i]`. Where
  these fail the source throws a TypeError, and the model does not describe
  that case. `RenderLayer` has the same requirements under its cap.
- TextLayer.TextLayerBuilder.ConvertMatches: requires items unless there
  are no offsets. With no items the source's walk reads past the array.
- MatchConversion.ConvertBeginRule: the exact begin and end rules are
  proved for ascending, non-overlapping offsets inside the page text. Those
  are the offsets a search that resumes after each hit produces, and the
  find controller that produces them is not part of this model.
- MatchRendering.RenderedText: text preservation is proved for the head and
  tail divs of rendered matches. The middle divs keep their content unchanged
  (`RenderMiddleDiv`).
- TextLayer.TextLayerBuilder.RenderMatch: one round of the render loop,
  factored out of `RenderMatches`; likewise the methods `LeadText` and `MarkMatch` are the
  two halves of the loop body, and `Walk` is each of the two walk loops of
  `convertMatches`.
