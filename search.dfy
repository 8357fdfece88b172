/** The search engine's state and the functions that drive it: the global
    `searchState`, `performSearch` and `performTextSearch` with its batch
    loop, `clearHighlights`, `highlightMatch`, `findNext`, `findPrev`,
    `clearResults`, and the key listeners that choose between them. */
module Search {
  import opened Wrappers
  import opened Pattern
  import opened Dom
  import opened Collector
  import opened Matcher
  import opened Highlights
  import opened Navigation
  import opened Order

  /** What a search with the result `regex` of `createRegex` makes of a
      page, starting from the spans `next` on and with `highlights` already
      listed: nothing when the pattern did not compile, otherwise every
      collected node processed in order, and the matches found. */
  function Outcome(body: Tree, runs: seq<Run>, next: SpanId, highlights: seq<SpanId>,
                   regex: Option<Regex>, exec: Exec): Scan
    requires body.Element? && |runs| == TextCount(body.children)
  {
    var start := Scan(runs, next, highlights, []);
    match regex
    case None => start
    case Some(re) =>
      var nodes := SearchNodes(body, runs);
      ForNodes(start, NodeStep(exec, re), nodes, 0, |nodes|)
  }

  /** A page whose slots are all whole, with no span listed, meets the
      invariant of the batch loop. */
  lemma WholeScanOk(runs: seq<Run>, next: SpanId)
    requires forall k :: 0 <= k < |runs| ==> runs[k] == [Plain(TextOf(runs[k]))]
    ensures ScanOk(Scan(runs, next, [], []))
    ensures forall k :: 0 <= k < |runs| ==> Spans(runs[k]) == {} && CurrentSpans(runs[k]) == {}
  {
    forall k | 0 <= k < |runs| ensures MarksNonEmpty(runs[k]) && Settled(runs[k]) && Spans(runs[k]) == {} {
      ConsFacts(Plain(TextOf(runs[k])), []);
      assert runs[k] == [Plain(TextOf(runs[k]))] + [];
    }
  }

  /** A search over a page whose highlights were all cleared: it keeps the
      page invariant and every slot's text; when the pattern does not
      compile nothing at all changes. */
  lemma OutcomeOk(body: Tree, runs: seq<Run>, next: SpanId, regex: Option<Regex>, exec: Exec)
    requires body.Element? && |runs| == TextCount(body.children)
    requires forall k :: 0 <= k < |runs| ==> runs[k] == [Plain(TextOf(runs[k]))]
    ensures ScanOk(Outcome(body, runs, next, [], regex, exec))
    ensures Extends(Scan(runs, next, [], []), Outcome(body, runs, next, [], regex, exec))
    ensures regex.None? ==> Outcome(body, runs, next, [], regex, exec) == Scan(runs, next, [], [])
  {
    WholeScanOk(runs, next);
    var r := regex;
    if r.Some? {
      var nodes := SearchNodes(body, runs);
      NodeStepOk(exec, r.value);
      ForNodesOk(Scan(runs, next, [], []), NodeStep(exec, r.value), nodes, 0, |nodes|);
    }
  }

  /** The page a search leaves behind meets the page invariant: spans hold
      text, each is fresh and listed, and none is current. */
  lemma SearchedPage(doc: Document, runs: seq<Run>, next: SpanId, regex: Option<Regex>, exec: Exec,
                     highlights: seq<SpanId>)
    requires doc.body.Element? && |runs| == TextCount(doc.body.children)
    requires forall k :: 0 <= k < |runs| ==> runs[k] == [Plain(TextOf(runs[k]))]
    requires var out := Outcome(doc.body, runs, next, [], regex, exec);
      doc.runs == out.runs && doc.nextSpan == out.next && highlights == out.highlights
    ensures doc.Valid() && CurrentOk(doc.runs, None)
    ensures forall k, h :: 0 <= k < |doc.runs| && h in Spans(doc.runs[k]) ==> h in highlights
  {
    OutcomeOk(doc.body, runs, next, regex, exec);
    forall k | 0 <= k < |runs| ensures CurrentSpans(doc.runs[k]) == {} {
      ConsFacts(Plain(TextOf(runs[k])), []);
      assert runs[k] == [Plain(TextOf(runs[k]))] + [];
    }
  }

  /** Processing increasing `nodes` of a page whose slots are all whole:
      the fresh spans in the order they are handed out, the entries of each
      node in document order, each of those nodes marked with all its
      matches, and every other slot left alone. */
  lemma WholeNodes(runs: seq<Run>, next: SpanId, exec: Exec, re: Regex, nodes: seq<nat>)
    requires forall k :: 0 <= k < |runs| ==> runs[k] == [Plain(TextOf(runs[k]))]
    requires forall j :: 0 <= j < |nodes| ==> nodes[j] < |runs|
    requires forall a, b :: 0 <= a < b < |nodes| ==> nodes[a] < nodes[b]
    ensures var w := Scan(runs, next, [], []);
      var r := ForNodes(w, NodeStep(exec, re), nodes, 0, |nodes|);
      && |r.runs| == |runs|
      && |r.matches| == MatchTotal(exec, re, runs, nodes, 0, |nodes|)
      && r.highlights == Ids(next, MatchTotal(exec, re, runs, nodes, 0, |nodes|))
      && r.matches == AllRecords(w, exec, re, nodes, 0, |nodes|)
      && (forall k {:trigger r.runs[k]} :: 0 <= k < |runs| && k !in nodes ==> r.runs[k] == runs[k])
      && (forall i :: 0 <= i < |nodes| ==> r.runs[nodes[i]] == MarkedSlots(w, exec, re, nodes, 0, |nodes|)[i])
  {
    var w := Scan(runs, next, [], []);
    NodeStepOk(exec, re);
    ForNodesClean(w, NodeStep(exec, re), exec, re, nodes, 0, |nodes|);
    ForNodesOrder(w, NodeStep(exec, re), exec, re, nodes, 0, |nodes|);
    assert [] + Ids(next, MatchTotal(exec, re, runs, nodes, 0, |nodes|)) == Ids(next, MatchTotal(exec, re, runs, nodes, 0, |nodes|));
    assert [] + AllRecords(w, exec, re, nodes, 0, |nodes|) == AllRecords(w, exec, re, nodes, 0, |nodes|);
    assert nodes[0..|nodes|] == nodes;
  }

  /** When the pattern compiles to `re`, `matches` holds the entries of the
      collected nodes in document order, `highlights` the fresh spans in the
      order they are handed out, every collected node is marked with all its
      matches and every other slot is left alone. */
  lemma OutcomeClean(body: Tree, runs: seq<Run>, next: SpanId, exec: Exec, re: Regex)
    requires body.Element? && |runs| == TextCount(body.children)
    requires forall k :: 0 <= k < |runs| ==> runs[k] == [Plain(TextOf(runs[k]))]
    ensures var r := Outcome(body, runs, next, [], Some(re), exec);
      var nodes := SearchNodes(body, runs);
      && |r.runs| == |runs|
      && |r.matches| == MatchTotal(exec, re, runs, nodes, 0, |nodes|)
      && r.highlights == Ids(next, MatchTotal(exec, re, runs, nodes, 0, |nodes|))
      && r.matches == AllRecords(Scan(runs, next, [], []), exec, re, nodes, 0, |nodes|)
      && (forall k {:trigger r.runs[k]} :: 0 <= k < |runs| && k !in nodes ==> r.runs[k] == runs[k])
      && (forall i :: 0 <= i < |nodes| ==> r.runs[nodes[i]] == MarkedSlots(Scan(runs, next, [], []), exec, re, nodes, 0, |nodes|)[i])
  {
    WholeNodes(runs, next, exec, re, SearchNodes(body, runs));
  }

  /** A page cleared of every span it held is well formed, has no span at
      all and no current one, and holds its old text slot by slot. */
  lemma ClearedPage(doc: Document, before: seq<Run>, hs: seq<SpanId>)
    requires doc.body.Element? && |before| == TextCount(doc.body.children)
    requires SlotsOk(before)
    requires forall k, h :: 0 <= k < |before| && h in Spans(before[k]) ==> h in hs
    requires doc.runs == ClearAll(before, hs)
    ensures doc.Valid() && CurrentOk(doc.runs, None)
    ensures forall k :: 0 <= k < |doc.runs| ==> doc.runs[k] == [Plain(TextOf(before[k]))] && Spans(doc.runs[k]) == {}
  {
    ClearAllRestores(before, hs);
  }

  /** Moving the current class keeps a page consistent with its list of
      spans: the slots stay well formed, no span appears or disappears, and
      only the new current span can carry the current class. */
  lemma RecolorPage(runs: seq<Run>, next: SpanId, cur: Option<SpanId>, hs: seq<SpanId>, index: int)
    requires SlotsOk(runs) && CurrentOk(runs, cur)
    requires forall k, h :: 0 <= k < |runs| && h in Spans(runs[k]) ==> h < next
    requires forall k, h :: 0 <= k < |runs| && h in Spans(runs[k]) ==> h in hs
    ensures var r := Recolor(runs, cur, hs, index);
      && SlotsOk(r) && CurrentOk(r, NewCurrent(cur, hs, index))
      && (forall k, h :: 0 <= k < |r| && h in Spans(r[k]) ==> h < next)
      && (forall k, h :: 0 <= k < |r| && h in Spans(r[k]) ==> h in hs)
  {
    RecolorOk(runs, cur, hs, index);
  }

  /** The search panel: whether it is shown, the search box's text and the
      options its check boxes and radio buttons hold. */
  class Panel {
    var visible: bool
    var inputValue: string
    var options: SearchOptions

    /** A new panel, shown, with an empty search box and the default
        options. */
    constructor ()
      ensures visible && inputValue == "" && options == DefaultOptions
    {
      visible := true;
      inputValue := "";
      options := DefaultOptions;
    }
  }

  /** The global `searchState`. */
  class SearchState {
    var highlights: seq<SpanId>
    var currentHighlight: Option<SpanId>
    var currentMatchIndex: int
    var matches: seq<MatchRecord>
    var lastSearchText: string

    /** The state as the page loads. */
    constructor ()
      ensures highlights == [] && currentHighlight == None && currentMatchIndex == -1
      ensures matches == [] && lastSearchText == ""
    {
      highlights := [];
      currentHighlight := None;
      currentMatchIndex := -1;
      matches := [];
      lastSearchText := "";
    }

    /** The invariant tying the state to the page: the page is well formed,
        every span in it is listed in `highlights`, at most the span
        `currentHighlight` names is current, and the index is -1 with no
        matches or designates one of them. */
    ghost predicate Consistent(doc: Document)
      reads this, doc
    {
      && doc.Valid()
      && (forall k, h :: 0 <= k < |doc.runs| && h in Spans(doc.runs[k]) ==> h in highlights)
      && CurrentOk(doc.runs, currentHighlight)
      && ((matches == [] && currentMatchIndex == -1) || 0 <= currentMatchIndex < |matches|)
    }

    /** The state `performSearch` leaves for the search text `text` and the
        options `options`, from the page `runs` with the spans `hs` listed
        and fresh spans from `next` on: the text is remembered, the search
        runs on the page with every listed span cleared, its matches and
        spans replace the old ones, the index is at the first match (or -1
        when there is none) and the first match is highlighted. */
    ghost predicate Searched(doc: Document, runs: seq<Run>, hs: seq<SpanId>, next: SpanId, text: string,
                             options: SearchOptions, compiles: (string, string) -> bool, exec: Exec)
      reads this, doc
    {
      && doc.body.Element? && |runs| == TextCount(doc.body.children)
      && var out := Outcome(doc.body, ClearAll(runs, hs), next, [], CreateRegex(text, options, compiles), exec);
      && lastSearchText == text
      && matches == out.matches && highlights == out.highlights && doc.nextSpan == out.next
      && currentMatchIndex == (if |matches| > 0 then 0 else -1)
      && currentHighlight == (if |matches| > 0 then NewCurrent(None, highlights, 0) else None)
      && doc.runs == (if |matches| > 0 then Recolor(out.runs, None, highlights, 0) else out.runs)
    }

    /** The state `highlightMatch(index)` leaves, called from `findNext` or
        `findPrev` on the page `runs` with the current span `cur`: the index
        is `index`, a valid one, and the page is recoloured for it. */
    ghost predicate MovedTo(doc: Document, runs: seq<Run>, cur: Option<SpanId>, index: int)
      reads this, doc
    {
      && currentMatchIndex == index && 0 <= index < |matches|
      && doc.runs == Recolor(runs, cur, highlights, index)
      && currentHighlight == NewCurrent(cur, highlights, index)
    }

    /** `clearHighlights`: every listed span that still has a parent is
        replaced by a text node and its parent normalized, then the list and
        `currentHighlight` are emptied; `matches` and the index stay. The page
        reads as it did before the search. */
    method ClearHighlights(doc: Document)
      requires Consistent(doc)
      modifies this`highlights, this`currentHighlight, doc`runs
      ensures Consistent(doc)
      ensures doc.runs == ClearAll(old(doc.runs), old(highlights))
      ensures forall k :: 0 <= k < |doc.runs| ==> doc.runs[k] == [Plain(TextOf(old(doc.runs)[k]))]
      ensures highlights == [] && currentHighlight == None
    {
      ghost var before := doc.runs;
      assert SlotsOk(before);
      var i := 0;
      while i < |highlights|
        invariant 0 <= i <= |highlights|
        invariant highlights == old(highlights)
        invariant doc.runs == ClearAll(before, highlights[..i])
      {
        var h := highlights[i];
        assert highlights[..i + 1][..i] == highlights[..i];
        if Attached(doc.runs, h) {
          doc.runs := ClearSpan(doc.runs, h);
        }
        i := i + 1;
      }
      assert highlights[..i] == highlights;
      ClearedPage(doc, before, highlights);
      highlights := [];
      currentHighlight := None;
    }

    /** `highlightMatch(index)`: the current span, if any, gets the plain
        highlight class back; then, when `index` designates a listed span,
        that span becomes `currentHighlight` and gets the current class. */
    method HighlightMatch(doc: Document, index: int)
      requires Consistent(doc)
      modifies this`currentHighlight, doc`runs
      ensures Consistent(doc)
      ensures doc.runs == Recolor(old(doc.runs), old(currentHighlight), highlights, index)
      ensures currentHighlight == NewCurrent(old(currentHighlight), highlights, index)
    {
      RecolorPage(doc.runs, doc.nextSpan, currentHighlight, highlights, index);
      if currentHighlight.Some? {
        doc.runs := SetSpanClass(doc.runs, currentHighlight.value, false);
      }
      if 0 <= index < |highlights| {
        currentHighlight := Some(highlights[index]);
        doc.runs := SetSpanClass(doc.runs, currentHighlight.value, true);
      }
    }

    /** `findNext`: with a panel and some matches, the index moves to the
        next match, wrapping from the last to the first, and that match is
        highlighted; otherwise nothing happens. */
    method FindNext(doc: Document, panel: Panel?)
      requires Consistent(doc)
      modifies this`currentMatchIndex, this`currentHighlight, doc`runs
      ensures Consistent(doc)
      ensures panel == null || |matches| == 0 ==>
        currentMatchIndex == old(currentMatchIndex) && currentHighlight == old(currentHighlight) && doc.runs == old(doc.runs)
      ensures panel != null && |matches| > 0 ==>
        && currentMatchIndex == NextIndex(old(currentMatchIndex), |matches|)
        && 0 <= currentMatchIndex < |matches|
        && doc.runs == Recolor(old(doc.runs), old(currentHighlight), highlights, currentMatchIndex)
        && currentHighlight == NewCurrent(old(currentHighlight), highlights, currentMatchIndex)
    {
      if panel == null || |matches| == 0 {
        return;
      }
      MovesInRange(currentMatchIndex, |matches|);
      currentMatchIndex := NextIndex(currentMatchIndex, |matches|);
      HighlightMatch(doc, currentMatchIndex);
    }

    /** `findPrev`: the same, moving to the previous match and wrapping from
        the first to the last. */
    method FindPrev(doc: Document, panel: Panel?)
      requires Consistent(doc)
      modifies this`currentMatchIndex, this`currentHighlight, doc`runs
      ensures Consistent(doc)
      ensures panel == null || |matches| == 0 ==>
        currentMatchIndex == old(currentMatchIndex) && currentHighlight == old(currentHighlight) && doc.runs == old(doc.runs)
      ensures panel != null && |matches| > 0 ==>
        && currentMatchIndex == PrevIndex(old(currentMatchIndex), |matches|)
        && 0 <= currentMatchIndex < |matches|
        && doc.runs == Recolor(old(doc.runs), old(currentHighlight), highlights, currentMatchIndex)
        && currentHighlight == NewCurrent(old(currentHighlight), highlights, currentMatchIndex)
    {
      if panel == null || |matches| == 0 {
        return;
      }
      MovesInRange(currentMatchIndex, |matches|);
      currentMatchIndex := PrevIndex(currentMatchIndex, |matches|);
      HighlightMatch(doc, currentMatchIndex);
    }

    /** `clearResults`: with a panel, the matches are dropped, the index goes
        back to -1, the highlights are cleared and the search box emptied;
        without one nothing happens. */
    method ClearResults(doc: Document, panel: Panel?)
      requires Consistent(doc)
      modifies this`matches, this`currentMatchIndex, this`highlights, this`currentHighlight, doc`runs, panel
      ensures Consistent(doc)
      ensures panel == null ==>
        && matches == old(matches) && currentMatchIndex == old(currentMatchIndex)
        && highlights == old(highlights) && currentHighlight == old(currentHighlight) && doc.runs == old(doc.runs)
      ensures panel != null ==>
        && matches == [] && currentMatchIndex == -1
        && highlights == [] && currentHighlight == None
        && doc.runs == ClearAll(old(doc.runs), old(highlights))
        && panel.inputValue == "" && panel.visible == old(panel.visible) && panel.options == old(panel.options)
    {
      if panel == null {
        return;
      }
      matches := [];
      currentMatchIndex := -1;
      ClearHighlights(doc);
      panel.inputValue := "";
    }

    /** `performTextSearch`: build the regular expression, and give up with
        no match, before looking at any node, when it does not compile;
        otherwise collect the text nodes and run the batches until the last
        one hands back the matches. The page, the fresh spans and
        `highlights` end up as `Outcome` says. */
    method PerformTextSearch(doc: Document, searchText: string, options: SearchOptions,
                             compiles: (string, string) -> bool, exec: Exec)
      returns (found: seq<MatchRecord>)
      requires doc.body.Element? && |doc.runs| == TextCount(doc.body.children)
      modifies this`highlights, doc`runs, doc`nextSpan
      ensures var out := Outcome(doc.body, old(doc.runs), old(doc.nextSpan), old(highlights),
        CreateRegex(searchText, options, compiles), exec);
        doc.runs == out.runs && doc.nextSpan == out.next && highlights == out.highlights && found == out.matches
      ensures CreateRegex(searchText, options, compiles).None? ==>
        found == [] && doc.runs == old(doc.runs) && highlights == old(highlights)
    {
      var regex := CreateRegex(searchText, options, compiles);
      if regex.None? {
        return [];
      }
      var textNodes := CollectTextNodes(doc);
      var search := new TextSearch(textNodes, regex.value, exec, Scan(doc.runs, doc.nextSpan, highlights, []));
      var progress, result := search.ProcessNextBatch(doc, this);
      while result.None?
        invariant search.Valid(doc, this)
        invariant result.None? ==> search.processedNodes < |textNodes|
        invariant result.Some? ==> search.processedNodes == |textNodes| && result.value == search.matches
        decreases |textNodes| - search.processedNodes, if result.None? then 1 else 0
      {
        progress, result := search.ProcessNextBatch(doc, this);
      }
      ForNodesSame(search.start, search.step, exec, regex.value, textNodes, 0, |textNodes|);
      found := result.value;
    }

    /** `performSearch`: with an empty search box nothing changes. Otherwise
        the text is remembered, the highlights are cleared, the search runs,
        its matches replace the old ones, the index goes to the first match
        (or -1 when there is none) and the first match is highlighted. */
    method PerformSearch(doc: Document, panel: Panel, compiles: (string, string) -> bool, exec: Exec)
      requires Consistent(doc)
      modifies this, doc`runs, doc`nextSpan
      ensures Consistent(doc)
      ensures panel.inputValue == "" ==> unchanged(this) && unchanged(doc)
      ensures panel.inputValue != "" ==>
        Searched(doc, old(doc.runs), old(highlights), old(doc.nextSpan), panel.inputValue, panel.options, compiles, exec)
    {
      var searchText := panel.inputValue;
      if searchText == "" {
        return;
      }
      lastSearchText := searchText;
      ClearHighlights(doc);
      ghost var cleared := doc.runs;
      ghost var next := doc.nextSpan;
      var found := PerformTextSearch(doc, searchText, panel.options, compiles, exec);
      SearchedPage(doc, cleared, next, CreateRegex(searchText, panel.options, compiles), exec, highlights);
      ShowResults(doc, found);
    }

    /** The end of `performSearch`: the new matches replace the old ones,
        the index goes to the first match (or -1 when there is none) and
        the first match is highlighted. */
    method ShowResults(doc: Document, found: seq<MatchRecord>)
      requires doc.Valid() && CurrentOk(doc.runs, None) && currentHighlight == None
      requires forall k, h :: 0 <= k < |doc.runs| && h in Spans(doc.runs[k]) ==> h in highlights
      modifies this`matches, this`currentMatchIndex, this`currentHighlight, doc`runs
      ensures Consistent(doc)
      ensures matches == found
      ensures currentMatchIndex == (if |found| > 0 then 0 else -1)
      ensures currentHighlight == (if |found| > 0 then NewCurrent(None, highlights, 0) else None)
      ensures doc.runs == (if |found| > 0 then Recolor(old(doc.runs), None, highlights, 0) else old(doc.runs))
    {
      matches := found;
      currentMatchIndex := if |matches| > 0 then 0 else -1;
      if |matches| > 0 {
        HighlightMatch(doc, currentMatchIndex);
      }
    }

    // -------------------------------------------------------------------
    // The key listeners.

    /** The search box's `keydown` listener. */
    method OnInputKey(doc: Document, panel: Panel, key: string, shift: bool,
                      compiles: (string, string) -> bool, exec: Exec)
      requires Consistent(doc)
      modifies this, doc`runs, doc`nextSpan
      ensures Consistent(doc)
      ensures old(InputKey(key, |matches|, panel.inputValue, lastSearchText, shift)) == NoAction ==>
        unchanged(this) && unchanged(doc)
      ensures old(InputKey(key, |matches|, panel.inputValue, lastSearchText, shift)) in {Next, Prev} ==>
        && matches == old(matches) && highlights == old(highlights)
        && lastSearchText == old(lastSearchText) && doc.nextSpan == old(doc.nextSpan)
      ensures old(InputKey(key, |matches|, panel.inputValue, lastSearchText, shift)) == Next ==>
        MovedTo(doc, old(doc.runs), old(currentHighlight), NextIndex(old(currentMatchIndex), |matches|))
      ensures old(InputKey(key, |matches|, panel.inputValue, lastSearchText, shift)) == Prev ==>
        MovedTo(doc, old(doc.runs), old(currentHighlight), PrevIndex(old(currentMatchIndex), |matches|))
      ensures old(InputKey(key, |matches|, panel.inputValue, lastSearchText, shift)) == Search && panel.inputValue == "" ==>
        unchanged(this) && unchanged(doc)
      ensures old(InputKey(key, |matches|, panel.inputValue, lastSearchText, shift)) == Search && panel.inputValue != "" ==>
        Searched(doc, old(doc.runs), old(highlights), old(doc.nextSpan), panel.inputValue, panel.options, compiles, exec)
    {
      var action := InputKey(key, |matches|, panel.inputValue, lastSearchText, shift);
      match action
      case Search => PerformSearch(doc, panel, compiles, exec);
      case Next => FindNext(doc, panel);
      case Prev => FindPrev(doc, panel);
      case NoAction =>
    }

    /** The panel's `keydown` listener: `Escape` hides the panel and clears
        the highlights; `Enter` from anywhere in the panel but the search box
        starts a search. */
    method OnPanelKey(doc: Document, panel: Panel, key: string, fromInput: bool,
                      compiles: (string, string) -> bool, exec: Exec)
      requires Consistent(doc)
      modifies this, doc`runs, doc`nextSpan, panel`visible
      ensures Consistent(doc)
      ensures key == EscapeKey ==>
        && !panel.visible && highlights == [] && currentHighlight == None
        && doc.runs == ClearAll(old(doc.runs), old(highlights))
        && (forall k :: 0 <= k < |doc.runs| ==> doc.runs[k] == [Plain(TextOf(old(doc.runs)[k]))])
        && matches == old(matches) && currentMatchIndex == old(currentMatchIndex)
        && lastSearchText == old(lastSearchText) && doc.nextSpan == old(doc.nextSpan)
      ensures key != EscapeKey ==> panel.visible == old(panel.visible)
      ensures key != EscapeKey && !(key == EnterKey && !fromInput) ==> unchanged(this) && unchanged(doc)
      ensures key == EnterKey && !fromInput && panel.inputValue == "" ==> unchanged(this) && unchanged(doc)
      ensures key == EnterKey && !fromInput && panel.inputValue != "" ==>
        Searched(doc, old(doc.runs), old(highlights), old(doc.nextSpan), panel.inputValue, panel.options, compiles, exec)
    {
      var reaction := PanelKey(key, fromInput);
      if reaction.closes {
        panel.visible := false;
        ClearHighlights(doc);
      }
      if reaction.action == Search {
        PerformSearch(doc, panel, compiles, exec);
      }
    }

    /** The page's `keydown` listener for `F3` and `F4`. */
    method OnPageKey(doc: Document, panel: Panel?, key: string,
                     compiles: (string, string) -> bool, exec: Exec)
      requires Consistent(doc)
      modifies this, doc`runs, doc`nextSpan, panel
      ensures Consistent(doc)
      ensures panel != null ==> panel.inputValue == old(panel.inputValue) && panel.options == old(panel.options)
      ensures panel == null || (key != F3Key && key != F4Key) ==>
        unchanged(this) && unchanged(doc) && (panel != null ==> panel.visible == old(panel.visible))
      ensures panel != null && (key == F3Key || key == F4Key) ==> panel.visible
      ensures panel != null && (key == F3Key || key == F4Key) && old(|matches|) > 0 ==>
        && matches == old(matches) && highlights == old(highlights)
        && lastSearchText == old(lastSearchText) && doc.nextSpan == old(doc.nextSpan)
      ensures panel != null && key == F3Key && old(|matches|) > 0 ==>
        MovedTo(doc, old(doc.runs), old(currentHighlight), NextIndex(old(currentMatchIndex), |matches|))
      ensures panel != null && key == F4Key && old(|matches|) > 0 ==>
        MovedTo(doc, old(doc.runs), old(currentHighlight), PrevIndex(old(currentMatchIndex), |matches|))
      ensures panel != null && (key == F3Key || key == F4Key) && old(|matches|) == 0 && panel.inputValue == "" ==>
        unchanged(this) && unchanged(doc)
      ensures panel != null && (key == F3Key || key == F4Key) && old(|matches|) == 0 && panel.inputValue != "" ==>
        Searched(doc, old(doc.runs), old(highlights), old(doc.nextSpan), panel.inputValue, panel.options, compiles, exec)
    {
      var reaction := FunctionKey(key, panel != null, |matches|);
      if reaction.shows {
        if !panel.visible {
          panel.visible := true;
        }
      }
      match reaction.action
      case Search => PerformSearch(doc, panel, compiles, exec);
      case Next => FindNext(doc, panel);
      case Prev => FindPrev(doc, panel);
      case NoAction =>
    }
  }

  /** The page as it loads, each text node whole with the text of `texts`,
      and the global `searchState` as the script starts: the state is
      consistent with the page, so the invariant every event keeps holds
      from the first event on. */
  method Start(body: Tree, texts: seq<string>) returns (s: SearchState, doc: Document)
    requires body.Element? && |texts| == TextCount(body.children)
    ensures fresh(s) && fresh(doc) && s.Consistent(doc)
    ensures doc.body == body && doc.nextSpan == 0
    ensures |doc.runs| == |texts| && forall k :: 0 <= k < |texts| ==> doc.runs[k] == [Plain(texts[k])]
    ensures s.highlights == [] && s.currentHighlight == None && s.currentMatchIndex == -1
    ensures s.matches == [] && s.lastSearchText == ""
  {
    doc := new Document(body, texts);
    s := new SearchState();
    WholeScanOk(doc.runs, 0);
  }

  /** One run of `performTextSearch`'s batch loop over the collected nodes:
      the shared `processedNodes`, the search's own `matches`, and the
      regular expression with its `lastIndex`. */
  class TextSearch {
    const textNodes: seq<nat>
    const regex: Regex
    const exec: Exec
    var processedNodes: nat
    var matches: seq<MatchRecord>
    var lastIndex: nat
    /** The page, the fresh spans and `highlights` when the search began. */
    ghost const start: Scan
    /** The node loop's body. */
    ghost const step: (Scan, nat) -> Scan

    constructor (textNodes: seq<nat>, regex: Regex, exec: Exec, ghost start: Scan)
      requires start.matches == []
      ensures this.textNodes == textNodes && this.regex == regex && this.exec == exec && this.start == start
      ensures processedNodes == 0 && matches == [] && lastIndex == 0
      ensures StepIs(step, exec, regex)
    {
      this.textNodes := textNodes;
      this.regex := regex;
      this.exec := exec;
      this.start := start;
      this.step := NodeStep(exec, regex);
      processedNodes := 0;
      matches := [];
      lastIndex := 0;
      NodeStepIs(exec, regex);
    }

    /** What the loop has changed so far. */
    ghost function Snapshot(doc: Document, state: SearchState): Scan
      reads this, doc, state
    {
      Scan(doc.runs, doc.nextSpan, state.highlights, matches)
    }

    /** The nodes before `processedNodes` have been processed, in order,
        each exactly once, and the regular expression is back at the start
        of a text. */
    ghost predicate Valid(doc: Document, state: SearchState)
      reads this, doc, state
    {
      && processedNodes <= |textNodes|
      && |doc.runs| == |start.runs|
      && (forall i :: 0 <= i < |textNodes| ==> textNodes[i] < |start.runs|)
      && lastIndex == 0
      && StepIs(step, exec, regex)
      && Snapshot(doc, state) == ForNodes(start, step, textNodes, 0, processedNodes)
    }

    /** One pass of the node loop: gather every match of the node's text
        from its start, then wrap them in spans from the last to the first;
        a match whose range cannot be set is skipped. */
    method ProcessTextNode(doc: Document, state: SearchState, node: nat)
      requires node < |doc.runs| && lastIndex == 0 && StepIs(step, exec, regex)
      modifies this`matches, this`lastIndex, doc`runs, doc`nextSpan, state`highlights
      ensures lastIndex == 0 && |doc.runs| == old(|doc.runs|)
      ensures Snapshot(doc, state) == step(old(Snapshot(doc, state)), node)
    {
      var text := NodeText(doc.runs[node]);
      var allMatches, after := CollectMatches(exec, regex, text, lastIndex);
      ghost var target := ProcessNode(Snapshot(doc, state), exec, regex, node);
      var j := |allMatches| - 1;
      while j >= 0
        invariant -1 <= j < |allMatches|
        invariant |doc.runs| == old(|doc.runs|)
        invariant InsertFrom(Snapshot(doc, state), node, allMatches, j + 1) == target
      {
        ghost var before := Snapshot(doc, state);
        var found := allMatches[j];
        var run := SurroundRange(doc.runs[node], found.index, |found.text|, doc.nextSpan);
        if run.Some? {
          var span := doc.nextSpan;
          doc.runs := doc.runs[node := run.value];
          doc.nextSpan := doc.nextSpan + 1;
          state.highlights := state.highlights + [span];
          matches := matches + [MatchRecord(span, found.text)];
        }
        assert Snapshot(doc, state) == InsertMatch(before, node, found);
        assert InsertFrom(before, node, allMatches, j + 1) == InsertFrom(Snapshot(doc, state), node, allMatches, j);
        j := j - 1;
      }
      lastIndex := after;
      assert target == step(old(Snapshot(doc, state)), node);
    }

    /** `processNextBatch`: report the progress, process the nodes from
        `processedNodes` to the end of the window, move `processedNodes` to
        it, and hand back the matches once every node is done. */
    method ProcessNextBatch(doc: Document, state: SearchState)
      returns (progress: Option<nat>, result: Option<seq<MatchRecord>>)
      requires Valid(doc, state)
      modifies this`processedNodes, this`matches, this`lastIndex, doc`runs, doc`nextSpan, state`highlights
      ensures Valid(doc, state)
      ensures progress == Progress(old(processedNodes), |textNodes|)
      ensures processedNodes == BatchEnd(old(processedNodes), |textNodes|)
      ensures Snapshot(doc, state) ==
        ForNodes(old(Snapshot(doc, state)), step, textNodes, old(processedNodes), processedNodes)
      ensures result == if processedNodes < |textNodes| then None else Some(matches)
    {
      var endIndex := BatchEnd(processedNodes, |textNodes|);
      progress := Progress(processedNodes, |textNodes|);
      var i := processedNodes;
      while i < endIndex
        invariant processedNodes == old(processedNodes) && processedNodes <= i <= endIndex
        invariant |doc.runs| == |start.runs| && lastIndex == 0
        invariant Snapshot(doc, state) == ForNodes(start, step, textNodes, 0, i)
      {
        ProcessTextNode(doc, state, textNodes[i]);
        assert Snapshot(doc, state) == ForNodes(start, step, textNodes, 0, i + 1);
        i := i + 1;
      }
      ForNodesSplit(start, step, textNodes, 0, old(processedNodes), endIndex);
      processedNodes := endIndex;
      if processedNodes < |textNodes| {
        result := None;
      } else {
        result := Some(matches);
      }
    }
  }
}
