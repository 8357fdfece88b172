/** The highlight store's effect on the page: `clearHighlights` turns every
    span it lists back into text and normalizes the span's parent, and
    `highlightMatch` moves the "current" class from one span to another. */
module Highlights {
  import opened Wrappers
  import opened Dom

  /** The spans still in the page after `clearHighlights` has handled
      `hs[0]`, ..., `hs[|hs| - 1]` in turn (`forEach` order). */
  function ClearAll(runs: seq<Run>, hs: seq<SpanId>): (r: seq<Run>)
    ensures |r| == |runs|
    ensures forall k :: 0 <= k < |runs| ==> TextOf(r[k]) == TextOf(runs[k])
    decreases |hs|
  {
    if hs == [] then runs
    else ClearSpan(ClearAll(runs, hs[..|hs| - 1]), hs[|hs| - 1])
  }

  /** After the clear a span is in a slot exactly when it was there before
      and is not listed; the same holds for the current class. */
  lemma {:induction false} ClearAllSpans(runs: seq<Run>, hs: seq<SpanId>, k: nat, h: SpanId)
    requires k < |runs|
    ensures h in Spans(ClearAll(runs, hs)[k]) <==> h in Spans(runs[k]) && h !in hs
    ensures h in CurrentSpans(ClearAll(runs, hs)[k]) <==> h in CurrentSpans(runs[k]) && h !in hs
    decreases |hs|
  {
    if hs != [] {
      ClearAllSpans(runs, hs[..|hs| - 1], k, h);
      InitLastIn(hs, h);
    }
  }

  /** Membership in a non-empty list splits into its first items and its last. */
  lemma InitLastIn(hs: seq<SpanId>, h: SpanId)
    requires hs != []
    ensures h in hs <==> h in hs[..|hs| - 1] || h == hs[|hs| - 1]
  {
    assert hs == hs[..|hs| - 1] + [hs[|hs| - 1]];
  }

  /** The page invariant of every slot: each span holds text, and the slot
      is its single original text node or holds a span. */
  ghost predicate SlotsOk(runs: seq<Run>) {
    forall k :: 0 <= k < |runs| ==> MarksNonEmpty(runs[k]) && Settled(runs[k])
  }

  /** Clearing one span keeps the invariant: a slot that loses its last
      span is normalized back into a single text node, which is not empty
      because the span held text. */
  lemma ClearSpanOk(runs: seq<Run>, h: SpanId)
    requires SlotsOk(runs)
    ensures SlotsOk(ClearSpan(runs, h))
  {
    var r := ClearSpan(runs, h);
    forall k | 0 <= k < |runs| ensures MarksNonEmpty(r[k]) && Settled(r[k]) {
      if h in Spans(runs[k]) {
        var x := Unmark(runs[k], h);
        assert r[k] == Normalize(x);
        NormalizeFacts(x);
        if Spans(r[k]) == {} {
          MarkGivesText(runs[k]);
          NormalizeWithoutSpans(x);
          ConsFacts(Plain(TextOf(x)), []);
          assert [Plain(TextOf(x))] + [] == [Plain(TextOf(x))];
        }
      }
    }
  }

  lemma {:induction false} ClearAllOk(runs: seq<Run>, hs: seq<SpanId>)
    requires SlotsOk(runs)
    ensures SlotsOk(ClearAll(runs, hs))
    decreases |hs|
  {
    if hs != [] {
      var init := hs[..|hs| - 1];
      ClearAllOk(runs, init);
      ClearSpanOk(ClearAll(runs, init), hs[|hs| - 1]);
    }
  }

  /** The clear round trip: when every span of the page is listed, each
      slot becomes a single text node holding exactly the text it had, so
      the page reads as it did before the search. */
  lemma ClearAllRestores(runs: seq<Run>, hs: seq<SpanId>)
    requires SlotsOk(runs)
    requires forall k, h :: 0 <= k < |runs| && h in Spans(runs[k]) ==> h in hs
    ensures SlotsOk(ClearAll(runs, hs))
    ensures forall k :: 0 <= k < |runs| ==> ClearAll(runs, hs)[k] == [Plain(TextOf(runs[k]))]
    ensures forall k :: 0 <= k < |runs| ==> Spans(ClearAll(runs, hs)[k]) == {} && CurrentSpans(ClearAll(runs, hs)[k]) == {}
  {
    var r := ClearAll(runs, hs);
    ClearAllOk(runs, hs);
    forall k | 0 <= k < |runs| ensures r[k] == [Plain(TextOf(runs[k]))] && Spans(r[k]) == {} && CurrentSpans(r[k]) == {} {
      forall h ensures h !in Spans(r[k]) {
        ClearAllSpans(runs, hs, k, h);
      }
      assert Spans(r[k]) == {};
    }
  }

  /** A span not in the page is skipped: clearing it changes nothing. */
  lemma ClearDetached(runs: seq<Run>, hs: seq<SpanId>)
    requires forall i, k :: 0 <= i < |hs| && 0 <= k < |runs| ==> hs[i] !in Spans(runs[k])
    ensures ClearAll(runs, hs) == runs
    decreases |hs|
  {
    if hs != [] {
      var init := hs[..|hs| - 1];
      ClearDetached(runs, init);
      assert !Attached(runs, hs[|hs| - 1]);
    }
  }

  // ---------------------------------------------------------------------
  // `highlightMatch`.

  /** `currentHighlight` after `highlightMatch(index)`: the listed span when
      `index` is in range, otherwise unchanged. */
  function NewCurrent(cur: Option<SpanId>, hs: seq<SpanId>, index: int): (c: Option<SpanId>)
    ensures 0 <= index < |hs| ==> c == Some(hs[index])
    ensures !(0 <= index < |hs|) ==> c == cur
  {
    if 0 <= index < |hs| then Some(hs[index]) else cur
  }

  /** The class names after `highlightMatch(index)`: the old current span
      gets the plain highlight class back, then `hs[index]`, if there is
      one, gets the current class. */
  function Recolor(runs: seq<Run>, cur: Option<SpanId>, hs: seq<SpanId>, index: int): (r: seq<Run>)
    ensures |r| == |runs|
    ensures forall k :: 0 <= k < |runs| ==> TextOf(r[k]) == TextOf(runs[k]) && Spans(r[k]) == Spans(runs[k])
  {
    var reset := if cur.Some? then SetSpanClass(runs, cur.value, false) else runs;
    if 0 <= index < |hs| then SetSpanClass(reset, hs[index], true) else reset
  }

  /** At most one span carries the current class, and it is the one
      `currentHighlight` names. */
  ghost predicate CurrentOk(runs: seq<Run>, cur: Option<SpanId>) {
    forall k :: 0 <= k < |runs| ==> CurrentSpans(runs[k]) <= OptionSet(cur)
  }

  /** `highlightMatch` keeps "at most one current span": afterwards only the
      span `currentHighlight` names can be current; when `index` is in
      range that span is `hs[index]` and it is current wherever it is in
      the page; when it is not, no span is current any more. It also keeps
      the slot invariant. */
  lemma RecolorOk(runs: seq<Run>, cur: Option<SpanId>, hs: seq<SpanId>, index: int)
    requires CurrentOk(runs, cur)
    ensures CurrentOk(Recolor(runs, cur, hs, index), NewCurrent(cur, hs, index))
    ensures 0 <= index < |hs| ==> forall k :: 0 <= k < |runs| && hs[index] in Spans(runs[k]) ==>
      CurrentSpans(Recolor(runs, cur, hs, index)[k]) == {hs[index]}
    ensures !(0 <= index < |hs|) ==> forall k :: 0 <= k < |runs| ==> CurrentSpans(Recolor(runs, cur, hs, index)[k]) == {}
    ensures SlotsOk(runs) ==> SlotsOk(Recolor(runs, cur, hs, index))
  {
    var reset := if cur.Some? then SetSpanClass(runs, cur.value, false) else runs;
    assert |reset| == |runs|;
    assert forall k :: 0 <= k < |runs| ==> CurrentSpans(reset[k]) == {} by {
      forall k | 0 <= k < |runs| ensures CurrentSpans(reset[k]) == {} {
        assert CurrentSpans(runs[k]) <= OptionSet(cur);
      }
    }
    assert forall k :: 0 <= k < |runs| ==> Spans(reset[k]) == Spans(runs[k]);
    if SlotsOk(runs) {
      assert SlotsOk(reset) by {
        forall k | 0 <= k < |runs| ensures MarksNonEmpty(reset[k]) && Settled(reset[k]) {
          if Spans(runs[k]) == {} {
            assert reset[k] == runs[k];
          }
        }
      }
      if 0 <= index < |hs| {
        var r := SetSpanClass(reset, hs[index], true);
        forall k | 0 <= k < |runs| ensures MarksNonEmpty(r[k]) && Settled(r[k]) {
          if Spans(reset[k]) == {} {
            assert r[k] == reset[k];
          }
        }
      }
    }
  }
}
