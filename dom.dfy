/** The in-memory document the engine works on. The element structure of
    `document.body` is a fixed tree whose text nodes are numbered in document
    order; each of them is a "slot" holding a run of sibling DOM nodes that
    started out as that single text node: the original text node itself
    first, then any highlight spans and the text nodes that inserting them
    split off. */
module Dom {
  import opened Wrappers

  /** Identity of a highlight span element. */
  type SpanId = nat

  /** One DOM node of a run: a text node, or a highlight span holding its
      matched text; `current` is whether its class is the "current" one
      (`easy-regex-search-panel-current`) rather than the plain highlight
      class. */
  datatype Segment =
    | Plain(text: string)
    | Mark(span: SpanId, text: string, current: bool)

  type Run = seq<Segment>

  /** The element structure: a text node, or an element with its tag name,
      its `contenteditable` attribute (`None` when absent or `inherit`), its
      class list and its children. */
  datatype Tree =
    | TextLeaf
    | Element(tag: string, contentEditable: Option<bool>, classes: set<string>, children: seq<Tree>)

  /** The number of text nodes in a forest. */
  function TextCount(ts: seq<Tree>): nat
    decreases ts
  {
    if ts == [] then 0
    else match ts[0]
      case TextLeaf => 1 + TextCount(ts[1..])
      case Element(_, _, _, cs) => TextCount(cs) + TextCount(ts[1..])
  }

  // ---------------------------------------------------------------------
  // Reading a run.

  /** `textContent` of the run's nodes taken together. */
  function TextOf(run: Run): string {
    if run == [] then "" else run[0].text + TextOf(run[1..])
  }

  /** The spans in a run. */
  function Spans(run: Run): set<SpanId> {
    if run == [] then {}
    else (if run[0].Mark? then {run[0].span} else {}) + Spans(run[1..])
  }

  /** The spans in a run that carry the "current" class. */
  function CurrentSpans(run: Run): (s: set<SpanId>)
    ensures s <= Spans(run)
  {
    if run == [] then {}
    else (if run[0].Mark? && run[0].current then {run[0].span} else {}) + CurrentSpans(run[1..])
  }

  /** The data of the original text node, which stays first in its run. */
  function NodeText(run: Run): string {
    if run != [] && run[0].Plain? then run[0].text else ""
  }

  /** Every span holds some text. */
  predicate MarksNonEmpty(run: Run) {
    forall j :: 0 <= j < |run| && run[j].Mark? ==> run[j].text != ""
  }

  /** A slot is either the untouched single text node or holds a span. */
  predicate Settled(run: Run) {
    run == [Plain(TextOf(run))] || Spans(run) != {}
  }

  /** What `Node.normalize()` leaves: no empty text node and no two adjacent
      text nodes. */
  predicate Normalized(run: Run) {
    && (forall j :: 0 <= j < |run| && run[j].Plain? ==> run[j].text != "")
    && (forall j :: 0 <= j < |run| - 1 ==> !(run[j].Plain? && run[j + 1].Plain?))
  }

  lemma ConsFacts(x: Segment, run: Run)
    ensures TextOf([x] + run) == x.text + TextOf(run)
    ensures Spans([x] + run) == (if x.Mark? then {x.span} else {}) + Spans(run)
    ensures CurrentSpans([x] + run) == (if x.Mark? && x.current then {x.span} else {}) + CurrentSpans(run)
  {
    var r := [x] + run;
    assert r[0] == x && r[1..] == run;
  }

  lemma {:induction false} AppendText(a: Run, b: Run)
    ensures TextOf(a + b) == TextOf(a) + TextOf(b)
  {
    if a == [] {
      assert a + b == b;
    } else {
      assert a + b == [a[0]] + (a[1..] + b);
      ConsFacts(a[0], a[1..] + b);
      AppendText(a[1..], b);
    }
  }

  lemma {:induction false} AppendSpans(a: Run, b: Run)
    ensures Spans(a + b) == Spans(a) + Spans(b)
    ensures CurrentSpans(a + b) == CurrentSpans(a) + CurrentSpans(b)
  {
    if a == [] {
      assert a + b == b;
    } else {
      assert a + b == [a[0]] + (a[1..] + b);
      ConsFacts(a[0], a[1..] + b);
      AppendSpans(a[1..], b);
    }
  }

  lemma AppendFacts(a: Run, b: Run)
    ensures TextOf(a + b) == TextOf(a) + TextOf(b)
    ensures Spans(a + b) == Spans(a) + Spans(b)
    ensures CurrentSpans(a + b) == CurrentSpans(a) + CurrentSpans(b)
  {
    AppendText(a, b);
    AppendSpans(a, b);
  }

  /** A run without spans is all text nodes. */
  lemma {:induction false} NoSpansAllPlain(run: Run)
    requires Spans(run) == {}
    ensures forall j :: 0 <= j < |run| ==> run[j].Plain?
  {
    if run != [] {
      NoSpansAllPlain(run[1..]);
      forall j | 0 <= j < |run| ensures run[j].Plain? {
        if j > 0 {
          assert run[j] == run[1..][j - 1];
        }
      }
    }
  }

  /** A span's text is part of its run's text. */
  lemma {:induction false} MarkGivesText(run: Run)
    requires MarksNonEmpty(run) && Spans(run) != {}
    ensures TextOf(run) != ""
  {
    if run[0].Mark? {
    } else {
      assert MarksNonEmpty(run[1..]) by {
        forall j | 0 <= j < |run[1..]| && run[1..][j].Mark? ensures run[1..][j].text != "" {
          assert run[1..][j] == run[j + 1];
        }
      }
      MarkGivesText(run[1..]);
    }
  }

  lemma MarksNonEmptyCons(s: Segment, run: Run)
    ensures MarksNonEmpty([s] + run) <==> (s.Mark? ==> s.text != "") && MarksNonEmpty(run)
  {
    var r := [s] + run;
    assert r[0] == s;
    assert forall j :: 0 <= j < |run| ==> r[j + 1] == run[j];
    if MarksNonEmpty(run) && (s.Mark? ==> s.text != "") {
      forall j | 0 <= j < |r| && r[j].Mark? ensures r[j].text != "" {
        if j > 0 {
          assert r[j] == run[j - 1];
        }
      }
    }
  }

  lemma MarksNonEmptyTail(run: Run)
    requires run != []
    ensures MarksNonEmpty(run) <==> (run[0].Mark? ==> run[0].text != "") && MarksNonEmpty(run[1..])
  {
    assert run == [run[0]] + run[1..];
    MarksNonEmptyCons(run[0], run[1..]);
  }

  // ---------------------------------------------------------------------
  // The DOM operations the engine performs on a run.

  /** `Node.normalize()`: drop the empty text nodes and join adjacent ones;
      spans are kept in place. */
  function Normalize(run: Run): Run {
    if run == [] then []
    else
      var rest := Normalize(run[1..]);
      match run[0]
      case Mark(_, _, _) => [run[0]] + rest
      case Plain(t) =>
        if t == "" then rest
        else if rest != [] && rest[0].Plain? then [Plain(t + rest[0].text)] + rest[1..]
        else [Plain(t)] + rest
  }

  lemma NormalizedCons(x: Segment, run: Run)
    ensures Normalized([x] + run) <==>
      (x.Plain? ==> x.text != "" && (run == [] || !run[0].Plain?)) && Normalized(run)
  {
    var r := [x] + run;
    assert r[0] == x;
    assert forall j :: 0 <= j < |run| ==> r[j + 1] == run[j];
    if (x.Plain? ==> x.text != "" && (run == [] || !run[0].Plain?)) && Normalized(run) {
      forall j | 0 <= j < |r| && r[j].Plain? ensures r[j].text != "" {
        if j > 0 { assert r[j] == run[j - 1]; }
      }
      forall j | 0 <= j < |r| - 1 ensures !(r[j].Plain? && r[j + 1].Plain?) {
        if j > 0 { assert r[j] == run[j - 1] && r[j + 1] == run[j]; }
      }
    }
  }

  /** Joining a non-empty text node onto the text node that starts a
      normalized run keeps the text and the spans ... */
  lemma JoinFacts(t: string, rest: Run)
    requires rest != [] && rest[0].Plain?
    ensures var r := [Plain(t + rest[0].text)] + rest[1..];
      && TextOf(r) == t + TextOf(rest)
      && Spans(r) == Spans(rest) && CurrentSpans(r) == CurrentSpans(rest)
  {
    var u, tl := rest[0].text, rest[1..];
    var r := [Plain(t + u)] + tl;
    assert rest == [Plain(u)] + tl;
    ConsFacts(Plain(t + u), tl);
    ConsFacts(Plain(u), tl);
    Assoc(t, u, TextOf(tl));
  }

  lemma Assoc(a: string, b: string, c: string)
    ensures (a + b) + c == a + (b + c)
  {
  }

  /** ... and leaves a normalized run with no empty span. */
  lemma JoinShape(t: string, rest: Run)
    requires t != "" && rest != [] && rest[0].Plain? && Normalized(rest)
    ensures var r := [Plain(t + rest[0].text)] + rest[1..];
      && (MarksNonEmpty(rest) ==> MarksNonEmpty(r))
      && Normalized(r)
  {
    var x := Plain(t + rest[0].text);
    assert rest == [rest[0]] + rest[1..];
    MarksNonEmptyTail(rest);
    MarksNonEmptyCons(x, rest[1..]);
    NormalizedCons(rest[0], rest[1..]);
    NormalizedCons(x, rest[1..]);
  }

  /** Normalizing keeps the text, the spans and their classes, and leaves a
      normalized run. */
  lemma {:induction false} NormalizeFacts(run: Run)
    ensures TextOf(Normalize(run)) == TextOf(run)
    ensures Spans(Normalize(run)) == Spans(run)
    ensures CurrentSpans(Normalize(run)) == CurrentSpans(run)
    ensures MarksNonEmpty(run) ==> MarksNonEmpty(Normalize(run))
    ensures Normalized(Normalize(run))
  {
    if run != [] {
      var rest := Normalize(run[1..]);
      NormalizeFacts(run[1..]);
      ConsFacts(run[0], run[1..]);
      MarksNonEmptyTail(run);
      match run[0]
      case Mark(_, _, _) =>
        ConsFacts(run[0], rest);
        MarksNonEmptyCons(run[0], rest);
        NormalizedCons(run[0], rest);
      case Plain(t) =>
        if t == "" {
        } else if rest != [] && rest[0].Plain? {
          JoinFacts(t, rest);
          JoinShape(t, rest);
        } else {
          ConsFacts(Plain(t), rest);
          MarksNonEmptyCons(Plain(t), rest);
          NormalizedCons(Plain(t), rest);
        }
    }
  }

  /** Once no span is left, normalizing yields the single text node holding
      the whole text (or nothing, for empty text). */
  lemma {:induction false} NormalizeWithoutSpans(run: Run)
    requires Spans(run) == {}
    ensures Normalize(run) == if TextOf(run) == "" then [] else [Plain(TextOf(run))]
  {
    if run != [] {
      assert run[0].Plain?;
      ConsFacts(run[0], run[1..]);
      assert run == [run[0]] + run[1..];
      NormalizeWithoutSpans(run[1..]);
      var rest := Normalize(run[1..]);
      var t := run[0].text;
      var u := TextOf(run[1..]);
      assert TextOf(run) == t + u;
      if t == "" {
        assert t + u == u;
      } else if u == "" {
        assert rest == [];
        assert t + u == t;
        assert [Plain(t)] + rest == [Plain(t)];
      } else {
        assert rest == [Plain(u)];
        assert rest[1..] == [];
        assert [Plain(t + rest[0].text)] + rest[1..] == [Plain(t + u)];
      }
    }
  }

  /** `parent.replaceChild(document.createTextNode(span.textContent), span)`:
      the span `h` becomes a text node holding the same text. */
  function Unmark(run: Run, h: SpanId): (r: Run)
    ensures TextOf(r) == TextOf(run)
    ensures Spans(r) == Spans(run) - {h}
    ensures CurrentSpans(r) == CurrentSpans(run) - {h}
    ensures MarksNonEmpty(run) ==> MarksNonEmpty(r)
  {
    if run == [] then []
    else
      var s := if run[0].Mark? && run[0].span == h then Plain(run[0].text) else run[0];
      var rest := Unmark(run[1..], h);
      ConsFacts(s, rest);
      MarksNonEmptyTail(run);
      MarksNonEmptyCons(s, rest);
      [s] + rest
  }

  /** `span.className = ...` on span `h`: `current` says which class. */
  function SetClass(run: Run, h: SpanId, current: bool): (r: Run)
    ensures TextOf(r) == TextOf(run)
    ensures Spans(r) == Spans(run)
    ensures current ==> CurrentSpans(r) == CurrentSpans(run) + (Spans(run) * {h})
    ensures !current ==> CurrentSpans(r) == CurrentSpans(run) - {h}
    ensures MarksNonEmpty(run) ==> MarksNonEmpty(r)
    ensures Spans(run) == {} ==> r == run
  {
    if run == [] then []
    else
      var s := if run[0].Mark? && run[0].span == h then Mark(h, run[0].text, current) else run[0];
      var rest := SetClass(run[1..], h, current);
      ConsFacts(s, rest);
      MarksNonEmptyTail(run);
      MarksNonEmptyCons(s, rest);
      [s] + rest
  }

  /** A text node's data cut into the text before the range, a fresh span
      holding the range and the text after it, followed by `tail`. */
  function Split(t: string, start: nat, len: nat, id: SpanId, tail: Run): Run
    requires start + len <= |t|
  {
    [Plain(t[..start])] + ([Mark(id, t[start..start + len], false)] + ([Plain(t[start + len..])] + tail))
  }

  lemma SplitFacts(t: string, start: nat, len: nat, id: SpanId, tail: Run)
    requires start + len <= |t|
    ensures TextOf(Split(t, start, len, id, tail)) == t + TextOf(tail)
    ensures Spans(Split(t, start, len, id, tail)) == {id} + Spans(tail)
    ensures CurrentSpans(Split(t, start, len, id, tail)) == CurrentSpans(tail)
    ensures MarksNonEmpty(tail) && len > 0 ==> MarksNonEmpty(Split(t, start, len, id, tail))
  {
    var a, b, c := t[..start], t[start..start + len], t[start + len..];
    var r2 := [Plain(c)] + tail;
    var r1 := [Mark(id, b, false)] + r2;
    ConsFacts(Plain(c), tail);
    ConsFacts(Mark(id, b, false), r2);
    ConsFacts(Plain(a), r1);
    MarksNonEmptyCons(Plain(c), tail);
    MarksNonEmptyCons(Mark(id, b, false), r2);
    MarksNonEmptyCons(Plain(a), r1);
    Assoc(b, c, TextOf(tail));
    Assoc(a, b + c, TextOf(tail));
    Assoc(a, b, c);
    SliceJoin(t, start, start + len);
  }

  /** Cutting a string twice and gluing the pieces back gives it back. */
  lemma SliceJoin(t: string, i: nat, j: nat)
    requires i <= j <= |t|
    ensures t[..i] + t[i..j] + t[j..] == t
  {
    assert t[..i] + t[i..j] == t[..j];
    assert t[..j] + t[j..] == t;
  }

  /** `range.setStart(node, start); range.setEnd(node, start + len);
      range.surroundContents(span)` with the run's original text node as
      `node` and a fresh span `id`. Either offset past the end of the node's
      data throws (`None`); otherwise the node keeps the text before the
      range, the span takes the range's text, and a new text node after it
      takes the rest. */
  function SurroundRange(run: Run, start: nat, len: nat, id: SpanId): (r: Option<Run>)
    ensures r.Some? <==> run != [] && run[0].Plain? && start + len <= |run[0].text|
  {
    if run != [] && run[0].Plain? && start + len <= |run[0].text| then
      Some(Split(run[0].text, start, len, id, run[1..]))
    else None
  }

  /** A range that can be set is surrounded in place: the node keeps the
      text before the range, the span takes the range and a new text node
      the rest, ... */
  lemma SurroundRangeShape(run: Run, start: nat, len: nat, id: SpanId)
    requires run != [] && run[0].Plain? && start + len <= |run[0].text|
    ensures var t := run[0].text;
      SurroundRange(run, start, len, id).value ==
        [Plain(t[..start]), Mark(id, t[start..start + len], false), Plain(t[start + len..])] + run[1..]
  {
    var t := run[0].text;
    var a, b, c := Plain(t[..start]), Mark(id, t[start..start + len], false), Plain(t[start + len..]);
    assert [a, b, c] + run[1..] == [a] + ([b] + ([c] + run[1..]));
  }

  /** ... so the run keeps its text and its current span, gains span `id`,
      and has no empty span when the range is not empty. */
  lemma SurroundRangeFacts(run: Run, start: nat, len: nat, id: SpanId)
    requires run != [] && run[0].Plain? && start + len <= |run[0].text|
    ensures var r := SurroundRange(run, start, len, id).value;
      && TextOf(r) == TextOf(run)
      && Spans(r) == Spans(run) + {id}
      && CurrentSpans(r) == CurrentSpans(run)
      && (MarksNonEmpty(run) && len > 0 ==> MarksNonEmpty(r))
  {
    var tail := run[1..];
    SplitFacts(run[0].text, start, len, id, tail);
    ConsFacts(run[0], tail);
    assert run == [run[0]] + tail;
    MarksNonEmptyTail(run);
  }

  // ---------------------------------------------------------------------
  // The same operations over every slot of the document.

  /** Some slot holds span `h`: the span has a parent. */
  predicate Attached(runs: seq<Run>, h: SpanId) {
    exists k :: 0 <= k < |runs| && h in Spans(runs[k])
  }

  /** One step of `clearHighlights`: if span `h` has a parent, it is replaced
      by a text node and its parent is normalized; a detached span is
      skipped. */
  function ClearSpan(runs: seq<Run>, h: SpanId): (r: seq<Run>)
    ensures |r| == |runs|
    ensures forall k :: 0 <= k < |runs| ==> TextOf(r[k]) == TextOf(runs[k])
    ensures forall k :: 0 <= k < |runs| ==> Spans(r[k]) == Spans(runs[k]) - {h}
    ensures forall k :: 0 <= k < |runs| ==> CurrentSpans(r[k]) == CurrentSpans(runs[k]) - {h}
    ensures !Attached(runs, h) ==> r == runs
  {
    var r := seq(|runs|, k requires 0 <= k < |runs| =>
      if h in Spans(runs[k]) then Normalize(Unmark(runs[k], h)) else runs[k]);
    assert forall k :: 0 <= k < |runs| ==>
      TextOf(r[k]) == TextOf(runs[k]) && Spans(r[k]) == Spans(runs[k]) - {h} && CurrentSpans(r[k]) == CurrentSpans(runs[k]) - {h}
    by {
      forall k | 0 <= k < |runs|
        ensures TextOf(r[k]) == TextOf(runs[k]) && Spans(r[k]) == Spans(runs[k]) - {h}
        ensures CurrentSpans(r[k]) == CurrentSpans(runs[k]) - {h}
      {
        NormalizeFacts(Unmark(runs[k], h));
      }
    }
    r
  }

  /** `span.className = ...` for span `h`, wherever it is. */
  function SetSpanClass(runs: seq<Run>, h: SpanId, current: bool): (r: seq<Run>)
    ensures |r| == |runs|
    ensures forall k :: 0 <= k < |runs| ==> TextOf(r[k]) == TextOf(runs[k])
    ensures forall k :: 0 <= k < |runs| ==> Spans(r[k]) == Spans(runs[k])
    ensures current ==> forall k :: 0 <= k < |runs| ==>
      CurrentSpans(r[k]) == CurrentSpans(runs[k]) + (Spans(runs[k]) * {h})
    ensures !current ==> forall k :: 0 <= k < |runs| ==>
      CurrentSpans(r[k]) == CurrentSpans(runs[k]) - {h}
    ensures forall k :: 0 <= k < |runs| && MarksNonEmpty(runs[k]) ==> MarksNonEmpty(r[k])
    ensures forall k :: 0 <= k < |runs| && Spans(runs[k]) == {} ==> r[k] == runs[k]
  {
    seq(|runs|, k requires 0 <= k < |runs| => SetClass(runs[k], h, current))
  }

  /** The page: its element skeleton and the runs of its text slots. New span
      identities are drawn from `nextSpan`, like `document.createElement`
      handing out fresh objects. */
  class Document {
    const body: Tree
    var runs: seq<Run>
    var nextSpan: SpanId

    /** One run per text node of `body`; every span holds text; each slot is
        its single original text node or holds a span; every span in the
        document was handed out before `nextSpan`. */
    ghost predicate Valid()
      reads this
    {
      && body.Element?
      && |runs| == TextCount(body.children)
      && (forall k :: 0 <= k < |runs| ==> MarksNonEmpty(runs[k]) && Settled(runs[k]))
      && (forall k, h :: 0 <= k < |runs| && h in Spans(runs[k]) ==> h < nextSpan)
    }

    /** A page as loaded: every text node whole, no span yet. */
    constructor (body: Tree, texts: seq<string>)
      requires body.Element? && |texts| == TextCount(body.children)
      ensures Valid()
      ensures this.body == body && nextSpan == 0
      ensures |runs| == |texts| && forall k :: 0 <= k < |texts| ==> runs[k] == [Plain(texts[k])]
    {
      this.body := body;
      runs := seq(|texts|, k requires 0 <= k < |texts| => [Plain(texts[k])]);
      nextSpan := 0;
      new;
      forall k | 0 <= k < |runs| ensures MarksNonEmpty(runs[k]) && Settled(runs[k]) {
        ConsFacts(Plain(texts[k]), []);
        assert [Plain(texts[k])] + [] == runs[k];
        assert TextOf(runs[k]) == texts[k];
      }
    }
  }
}
