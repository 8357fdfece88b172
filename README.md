# Easy Regex Search: the in-page search engine, in Dafny

This project models the search engine of the browser extension's content
script `content.js` and proves properties of it. The engine works in five parts:

1. **Pattern builder** (`createRegex`). It turns the text in the search box into
   a pattern source and a flag string:
   - `g`, then `i` unless the search is case-sensitive, then `u`.
   - Mode `normal` backslash-escapes the metacharacters.
   - Mode `regex` turns the escapes `\n`, `\r`, `\t` and `\0` into control
     characters.
   - Any other mode (the default `extended`) uses the text verbatim.
   - Whole word wraps the pattern in `\b...\b`.
   - The host's `RegExp` constructor then compiles the pattern or rejects it.
2. **Collector**. A `TreeWalker` over the text nodes of `document.body` uses a
   filter that rejects text whose parent is a `SCRIPT`, `STYLE` or `TEXTAREA`,
   is editable, or lies inside the search panel. A loop then keeps the nodes
   whose trimmed text is non-empty.
3. **Batch matcher** (`processNextBatch`). For each collected node:
   - every match is gathered left to right with `regex.exec`;
   - the matches are then wrapped in highlight spans from the last to the
     first, so the offsets of the earlier ones stay valid;
   - a match whose range cannot be set is skipped;
   - nodes are handled in windows of 100, and the percentage done is reported.
4. **Highlight store**. `clearHighlights` turns every span back into text
   and normalizes its parent. `highlightMatch` moves the "current" class.
5. **Navigation**. `findNext` and `findPrev` cycle through the matches. The
   search box's `Enter`, the panel's `Escape`/`Enter` and the page's
   `F3`/`F4` choose between a new search and a move.

The page is a `Dom.Document`:
- `body` is a fixed element tree whose text nodes are numbered in
  document order.
- Each number is a *slot*: the run of sibling nodes that started as that
  one text node. The run holds the original node first, then the spans and
  the text nodes that inserting them split off.
- Spans are identities drawn from `nextSpan`, the way `document.createElement`
  hands out fresh objects.

`searchState` is the class `Search.SearchState`; the state of one
`performTextSearch` (its `processedNodes`, its `matches` and the expression's
`lastIndex`) is the class `Search.TextSearch`.

The main results:
- A search over a cleared page,
  - keeps the page invariant: every span holds text, is fresh, and is listed in
    `highlights`, which runs in step with `matches`;
  - keeps every slot's text;
  - leaves every node it does not search untouched;
  - marks every searched node with all its matches;
  - yields exactly one entry per match.
- Clearing restores every slot to a single text node holding its original
  text.
- Navigation always lands on a valid index, `findPrev` undoes `findNext`, and
  `n` steps forward come back round.

The order of the results is the code's. `highlights` holds the fresh spans
in the order they are handed out (`Matcher.Ids`). `matches` holds the
entries of each searched node in document order (`Order.AllRecords`), but
within one node from its last match to its first, because the entries are
pushed as the spans are inserted (`Matcher.Records`, `Matcher.MarkedHolds`).
`Order.ForNodesOrder` proves both for the node loop, and
`Search.OutcomeClean` carries them to a whole compiled search.

A pattern that does not compile still changes the state. By the time
`performTextSearch` calls `createRegex` (content.js:636-640), `performSearch`
has already set `lastSearchText` and cleared the highlights
(content.js:386-388). So the old spans are gone, no match is left and the
index is -1 (`Search.SearchState.PerformSearch`).

`Escape` clears the highlights but keeps `matches` and the index
(content.js:486-490). A later `findNext` or `findPrev` then moves the index,
but there is no listed span for it to highlight, so the page stays as it is
(`Highlights.RecolorOk`, `Search.SearchState.FindNext`).

## Model

Each row names a member and the property its contract states; a definition
with no contract of its own is named in the row of the lemma about it.

| member | source | states |
|---|---|---|
| Pattern.Flags | content.js:603-606 | the flags always contain `g` and `u`, and contain `i` exactly when the search is not case-sensitive |
| Pattern.Escape | content.js:610 | escaping adds exactly one character per metacharacter, and the only character it introduces is the backslash |
| Pattern.EscapeRoundTrip | content.js:609-610 | escaping yields a pattern of escaped metacharacters and plain characters whose literal reading is exactly the search text |
| Pattern.EscapePlain | content.js:609-610 | text with no metacharacter is passed through unchanged |
| Pattern.ExpandRemovesEscapes | content.js:611-615 | after the four replacements (`Pattern.ExpandControlEscapes`) no backslash-`n`, `r`, `t` or `0` pair is left |
| Pattern.ExpandRoundTrip | content.js:611-615 | for text holding none of the four control characters, the replacements are undone by restoring each control character as its escape |
| Pattern.ExpandNoBackslash | content.js:611-615 | text without a backslash is not changed in mode `regex` |
| Pattern.TransformText | content.js:608-616 | mode `normal` gives a literal pattern for the text, mode `regex` is the control-escape expansion of the text (so no control escape is left), any other mode leaves the text as it is |
| Pattern.BuildPattern | content.js:604-620 | with whole word the pattern is framed by `\b` on both sides; inside the frame, or all of it without whole word, mode `normal` is a literal pattern reading as the text, mode `regex` the control-escape expansion of the text, and any other mode the text itself |
| Pattern.WrapWholeWord | content.js:618-620 | whole word puts `\b` on both sides of the pattern, which is kept intact between them |
| Pattern.CreateRegex | content.js:600-630 | an expression is returned exactly when the host accepts the built pattern (`Pattern.BuildPattern`) and the flags, and it carries those; a rejection gives no expression |
| Pattern.DefaultPattern | content.js:106-117 | with a new panel's options (`Pattern.DefaultOptions`: not case-sensitive, not whole word, loop search checked, mode `extended`) the search text is the pattern verbatim and the flags are `giu` |
| Collector.TextParentsPath | content.js:648-657 | the facts the filter sees for text node `k` (`Collector.TextParents`) are those of entering, outermost first, exactly the elements enclosing it (`Collector.Ancestors`, `Collector.EnterAll`) |
| Collector.EnterAllFacts | content.js:653-657 | after entering a path of elements, the tag is the innermost one's, the node is in the panel exactly when some element on the path has the panel's class (or it already was), and it is editable as the innermost element setting `contenteditable` says, or as outside when none does |
| Collector.BodyParentFacts | content.js:648-657 | for text node `k` of `body` (`Collector.BodyTextParents`, built from the one-step `Collector.EnterElement`, content.js:653-657): `closest('.easy-regex-search-panel')` succeeds exactly when some element from `body` down to the parent has the class, and `isContentEditable` is the innermost explicit setting on that path, false when there is none |
| Collector.AcceptedFrom | content.js:648-667 | the walker (`Collector.WalkerNodes`) returns text nodes that pass the filter (`Collector.AcceptNode`, content.js:652-657) only, in increasing document order, and every one that passes |
| Collector.TrimEmptyIff | content.js:671 | `trim()` (`Collector.Trim`) gives the empty, falsy, string exactly when the text is all white space |
| Collector.KeepFacts | content.js:669-674 | the kept nodes (`Collector.Keep`) are exactly the non-blank walker nodes, in walker order |
| Collector.KeepNonBlank | content.js:669-674 | the collection loop keeps the walker nodes with non-blank text, in order |
| Collector.SearchNodesFilter | content.js:648-674 | every searched node (`Collector.SearchNodes`) passes the filter and is non-blank, and every slot that passes and is non-blank is searched |
| Collector.CollectTextNodes | content.js:648-674 | the collected nodes are the search nodes of the page |
| Dom.Unmark | content.js:586 | replacing a span by a text node keeps the run's text and drops exactly that span |
| Dom.NormalizeFacts | content.js:587 | `normalize()` (`Dom.Normalize`) keeps the text, the spans and their classes, and leaves no empty or adjacent text nodes |
| Dom.NormalizeWithoutSpans | content.js:587 | a run without spans normalizes to a single text node holding its whole text |
| Dom.SurroundRange | content.js:718-725 | surrounding fails exactly when the original node is gone or the range's end lies past its data |
| Dom.SurroundRangeShape | content.js:718-725 | a range that can be set splits (`Dom.Split`) the node into the text before, a span holding the range, and the text after |
| Dom.SurroundRangeFacts | content.js:718-725 | surrounding keeps the slot's text and current span and adds exactly the new span, which holds text when the range is not empty |
| Dom.ClearSpan | content.js:582-591 | unwrapping one span keeps every slot's text, removes that span and its current class everywhere, and changes nothing when the span has no parent |
| Dom.SetSpanClass | content.js:771-778 | setting a span's class keeps texts and spans, and adds or removes exactly that span in the current set |
| Matcher.AllMatches | content.js:700-706 | the matches gathered lie in the text at their offsets, are non-empty, start at or after `lastIndex` and do not overlap |
| Matcher.FitsIncreasing | content.js:700-706 | each gathered match ends before the next starts, so offsets strictly increase |
| Matcher.CollectMatches | content.js:700-706 | the `exec` loop yields the matches from `lastIndex` on and leaves `lastIndex` at 0 for the next node |
| Matcher.Records | content.js:726-730 | the `matches` entries of one node name the new spans in order, holding the node's matches from the last to the first |
| Matcher.MarkedText | content.js:712-738 | the marked slot (`Matcher.Marked`) reads exactly as the node's text, and each span holds text |
| Matcher.MarkedOffset | content.js:712-738 | match `i` sits in node `2i+1` of the marked slot as a span holding its text, and the nodes before it read exactly as the node's text up to the match's offset, so wrapping later matches first keeps every earlier offset valid |
| Matcher.MarkedSpans | content.js:712-738 | the marked slot holds exactly the node's fresh spans, none of them current |
| Matcher.MarkedHolds | content.js:712-738 | the `i`-th match of a node is held by the span created `j-1-i`-th, with its matched text |
| Matcher.InsertFromExact | content.js:712-738 | wrapping the fitting matches from the last to the first never fails on a whole node: each is wrapped, each gets a fresh span and an entry |
| Matcher.ProcessNodeClean | content.js:693-740 | processing (`Matcher.ProcessNode`) a whole node marks it with all its matches, none skipped, pushes as many spans and entries, and changes no other slot |
| Matcher.InsertMatchOk | content.js:713-737 | wrapping one match (`Matcher.InsertMatch`, content.js:715-738), or skipping it when its range cannot be set, keeps the page invariant, every text and current span, and touches only its slot |
| Matcher.InsertFromOk | content.js:712-738 | the span loop of one node (`Matcher.InsertFrom`) keeps the invariant and touches only that node's slot |
| Matcher.NodeStepOk | content.js:693-740 | the node loop's body (`Matcher.NodeStep`) keeps the invariant on every node, and marks a whole node with all its matches |
| Matcher.ForNodesSplit | content.js:682-752 | processing the nodes in consecutive windows is processing them in one pass |
| Matcher.ForNodesOk | content.js:693-741 | the node loop (`Matcher.ForNodes`) keeps the invariant, every text and current span, only grows `highlights` and `matches`, and leaves unsearched slots alone |
| Matcher.ForNodesClean | content.js:693-741 | over distinct whole nodes in order, the loop yields one entry per match and marks each node with all its matches |
| Order.ForNodesOrder | content.js:693-741 | over distinct whole nodes in order, the loop appends to `highlights` exactly the next fresh spans, in the order handed out (content.js:726), and to `matches` the entries of each node in turn (`Order.AllRecords`, `Order.NodeRecords`, content.js:727-731) |
| Matcher.BatchEnd | content.js:678-683 | a window ends at most 100 nodes on, at the last node, and always moves forward while nodes remain |
| Matcher.Progress | content.js:684 | the percentage is the integer nearest to 100 times the processed share, halves rounding up, and is undefined with no nodes |
| Matcher.ProgressBounds | content.js:684 | the percentage is between 0 and 100, is 0 before the first window and 100 after the last |
| Matcher.ProgressMonotone | content.js:684 | the percentage never goes down as nodes are processed |
| Highlights.ClearAllSpans | content.js:579-597 | after the clear (`Highlights.ClearAll`, content.js:582-592) a span, or a current span, is in a slot exactly when it was there before and is not listed |
| Highlights.ClearSpanOk | content.js:582-591 | clearing one span keeps every slot holding text in its spans and either whole or holding a span |
| Highlights.ClearAllOk | content.js:579-597 | the clear keeps the slot invariant |
| Highlights.ClearAllRestores | content.js:579-597 | when every span is listed, each slot becomes a single text node holding exactly its old text, with no span and no current class |
| Highlights.ClearDetached | content.js:583-584 | spans that have no parent are skipped: clearing them changes nothing |
| Highlights.RecolorOk | content.js:768-786 | after the recolouring (`Highlights.Recolor`, with the new `currentHighlight` given by `Highlights.NewCurrent`, content.js:771-778) only the span `currentHighlight` names is current; an in-range index makes that span current wherever it is, an out-of-range one leaves no current span |
| Navigation.JsRem | content.js:451-459 | JavaScript's remainder: the dividend minus `n` times the quotient truncated toward zero (`Navigation.TruncDiv`), so between `-n` and `n` and with the sign of the dividend |
| Navigation.MovesInRange | content.js:449-463 | `findNext`'s and `findPrev`'s index arithmetic (`Navigation.NextIndex`, content.js:451; `Navigation.PrevIndex`, content.js:459): from a valid index or -1, `findNext` and `findPrev` land in range, moving one step with wrap-around |
| Navigation.PrevUndoesNext | content.js:449-463 | `findPrev` undoes `findNext`, and the other way round |
| Navigation.NextTimesWrap | content.js:449-455 | `k` steps forward count on from the index, wrapping once past the last match |
| Navigation.NextCycle | content.js:449-455 | as many `findNext` calls as there are matches come back to where they started |
| Navigation.InputEnter | content.js:511-527 | `Enter` in the search box searches exactly when there are no results or the text changed, and moves backwards with Shift and forwards without otherwise |
| Navigation.InputKey | content.js:511-527 | the search box reacts to `Enter` only |
| Navigation.PanelKey | content.js:486-497 | `Escape` closes the panel and clears, and `Enter` searches exactly when it did not come from the search box |
| Navigation.EnterHandledOnce | content.js:486-527 | one `Enter` is acted on by exactly one of the search box and the panel, and never closes the panel |
| Navigation.FunctionKey | content.js:931-968 | with a panel, F3 and F4 show it and search when there are no results, otherwise move forwards and backwards; other keys or no panel do nothing |
| Navigation.MovesNeedResults | content.js:931-968 | neither the page's F3/F4 rule nor the search box's `Enter` rule asks for a move unless there are matches |
| Search.OutcomeOk | content.js:633-765 | a search (`Search.Outcome`) over a cleared page keeps the page invariant and every slot's text, and when the pattern does not compile changes nothing |
| Search.OutcomeClean | content.js:633-765 | a compiled search yields one entry per match in the searched nodes; `highlights` is the fresh spans from `nextSpan` on, in order; `matches` is the entries of the searched nodes in document order (`Search.WholeNodes`); each searched node is marked with all its matches and every other slot is left alone |
| Search.SearchedPage | content.js:633-765 | the page after a search is well formed (`Dom.Document.Valid`), every span is listed and none is current |
| Search.ClearedPage | content.js:579-597 | a page cleared of all its listed spans is well formed and holds each slot's old text as one text node |
| Search.RecolorPage | content.js:768-786 | moving the current class keeps the page well formed and its spans listed and fresh |
| Search.Panel.constructor | content.js:96-117 | a new panel is shown, its search box is empty, and its check boxes and radio buttons hold the defaults: not case-sensitive, not whole word, loop search checked, mode `extended` |
| Search.SearchState.constructor | content.js:362-368 | the state as the page loads: no highlights, no current span, index -1, no matches, empty last text |
| Search.Start | content.js:362-368 | as the page loads, with every text node whole, the initial state is consistent with the page, so the invariant every event keeps holds from the first event on |
| Search.SearchState.ClearHighlights | content.js:579-597 | every listed span with a parent is unwrapped and its slot normalized, the list and the current span are emptied, and every slot holds its old text as one text node |
| Search.SearchState.HighlightMatch | content.js:768-786 | the old current span goes back to the plain class, an in-range index makes its span current, and consistency is kept |
| Search.SearchState.FindNext | content.js:449-455 | with a panel and matches, the index moves to the next match with wrap-around and it is highlighted; otherwise nothing changes |
| Search.SearchState.FindPrev | content.js:457-463 | with a panel and matches, the index moves to the previous match with wrap-around and it is highlighted; otherwise nothing changes |
| Search.SearchState.ClearResults | content.js:465-473 | with a panel, the matches and the highlights are dropped, the index is -1 and the search box is emptied; without one nothing changes |
| Search.SearchState.PerformTextSearch | content.js:633-765 | when the pattern does not compile, no match and no change; otherwise the page, the spans and the entries are those of processing every collected node in order |
| Search.SearchState.PerformSearch | content.js:371-426 | empty text changes nothing, not even the fresh-span counter; otherwise (`Search.SearchState.Searched`) the text is remembered, the search runs on the page with every listed span cleared, its matches and spans replace the old ones, the index goes to the first match or -1, and the first match is highlighted, keeping consistency |
| Search.SearchState.ShowResults | content.js:402-417 | the new matches replace the old, the index goes to the first match or -1, and the first match is highlighted |
| Search.SearchState.OnInputKey | content.js:511-527 | other keys change nothing; `Enter` either leaves exactly the state `performSearch` leaves, or moves forward or back (`Search.SearchState.MovedTo`: the new index, the recoloured page and the new current span) while the matches, the highlights, the last text and the fresh-span counter stay, as the `Enter` rule chooses |
| Search.SearchState.OnPanelKey | content.js:486-497 | `Escape` hides the panel and clears every listed span, each slot becoming its old text as one text node, while the matches, the index and the last text stay; `Enter` from outside the search box leaves exactly the state `performSearch` leaves; other keys change nothing |
| Search.SearchState.OnPageKey | content.js:931-968 | F3 and F4 show the panel and, with no matches, leave exactly the state `performSearch` leaves, and otherwise move forwards or backwards as `findNext` and `findPrev` do; other keys or no panel change nothing; the search box and the options are never changed |
| Search.TextSearch.constructor | content.js:678-680 | a search starts with no node processed, no match and `lastIndex` at 0 |
| Search.TextSearch.ProcessTextNode | content.js:693-740 | one node's matches are gathered and wrapped last to first, the page changes as the node step says, and `lastIndex` is back at 0 |
| Search.TextSearch.ProcessNextBatch | content.js:682-752 | the progress is reported, the next window of nodes is processed in order, `processedNodes` moves to its end, and the matches are handed back exactly when every node is done |

## Left out

- The panel's markup, styles, drag handling, welcome guide, i18n messages,
  the `DEBUG` logging and `updateUI`: they only display state.
- `scrollIntoView` in `highlightMatch`: it has no effect on the engine's state.
- Scheduling: `setTimeout(processNextBatch, 0)` and the 100 ms polling
  `checkResult` promise are modelled as one loop calling the batch step
  until it returns the matches. Both chains call the same batch step one
  at a time, and so do the same work. A call made once every node is
  processed changes nothing and returns the matches. Other work
  interleaving between batches, such as typing or a second search racing
  the first, is not modelled.
- The host's `RegExp` is a parameter. Compilation is the oracle
  `compiles(pattern, flags)`. `regex.exec` is a function of the text and
  `lastIndex` whose matches lie in the text from `lastIndex` on. UTF-16 code
  units, Unicode case folding and the `u` flag's semantics are not modelled.
- Matcher.AllMatches: only non-empty matches are admitted. A pattern that
  can match the empty string makes the source's `exec` loop run forever,
  because `lastIndex` never advances.
- Matcher.Progress: `Math.round` of the floating-point quotient is modelled
  as exact rational rounding, halves rounding up. Floating-point error on
  the quotient is not modelled. With no nodes the source shows `NaN`%,
  here `None`.
- `parent.normalize()` (content.js:587) is applied to the slot only. The
  source normalizes every descendant text node of the span's parent, which
  can also merge or drop text nodes of other, originally separate slots
  under that parent; the model leaves those other slots as they are.
- The `try`/`catch` around the per-span unwrap in `clearHighlights` is
  modelled as never firing. A span with a parent is always unwrapped.
- `performSearch`'s `catch` around the search: nothing in the model can
  throw there, since `createRegex` catches its own failure.
- The search option `regexEnabled` is read into `SearchOptions` but never
  consulted by the code, so the model consults it nowhere either.
- Changes the host page makes to the document during a search, the cause of
  a skipped match in the source, are not modelled. The skip path itself is
  modelled (`Dom.SurroundRange` returning `None`, `Matcher.InsertMatch`).
- `background.js`, `popup.js` and the message listener of `content.js` are
  not part of this model.
