/** `processNextBatch` of `performTextSearch`: for every collected text node,
    all matches of the global regular expression are gathered left to right
    with `regex.exec`, then each is wrapped in a highlight span from the last
    match to the first, so that the offsets of the earlier matches still
    refer to the original node; a match whose range cannot be set is
    skipped. Nodes are handled in windows of 100. */
module Matcher {
  import opened Wrappers
  import opened Pattern
  import opened Dom

  /** A successful `regex.exec(text)`: `match.index` and `match[0]`. */
  datatype MatchSpan = MatchSpan(index: nat, text: string)

  /** The host's `RegExp.prototype.exec` for a regular expression with the
      `g` flag, as a function of the text and of `lastIndex`. */
  type ExecFn = (Regex, string, nat) -> Option<MatchSpan>

  /** What is assumed of the host's matcher: a match starts at or after
      `lastIndex`, is not empty, and is the text at its position. */
  ghost predicate ExecOk(exec: ExecFn) {
    forall re, s, from: nat :: exec(re, s, from).Some? ==>
      var m := exec(re, s, from).value;
      && from <= m.index
      && m.text != ""
      && m.index + |m.text| <= |s|
      && s[m.index..m.index + |m.text|] == m.text
  }

  /** A matcher that behaves as assumed. */
  type Exec = exec: ExecFn | ExecOk(exec) witness (re: Regex, s: string, from: nat) => None

  /** The end offset of a match: `match.index + match.length`, which `exec`
      stores in `lastIndex`. */
  function End(m: MatchSpan): nat {
    m.index + |m.text|
  }

  /** The first `j` matches of `ms` are non-empty pieces of `u`, each ending
      at or before the next one starts. */
  predicate Fits(ms: seq<MatchSpan>, u: string, j: nat)
    requires j <= |ms|
  {
    && (forall i :: 0 <= i < j ==> ms[i].text != "" && End(ms[i]) <= |u| && u[ms[i].index..End(ms[i])] == ms[i].text)
    && (forall i :: 0 <= i < j - 1 ==> End(ms[i]) <= ms[i + 1].index)
  }

  /** The matches `while (match = regex.exec(text))` gathers when `lastIndex`
      starts at `from`. They lie in `text`, from `from` on, in order and
      without overlap. */
  function AllMatches(exec: Exec, re: Regex, text: string, from: nat): (ms: seq<MatchSpan>)
    ensures Fits(ms, text, |ms|)
    ensures forall i :: 0 <= i < |ms| ==> from <= ms[i].index
    decreases |text| + 1 - from
  {
    match exec(re, text, from)
    case None => []
    case Some(m) =>
      var rest := AllMatches(exec, re, text, End(m));
      FitsCons(m, rest, text, from);
      [m] + rest
  }

  /** A match that fits, put in front of matches that fit and start after
      it ends, gives matches that fit. */
  lemma FitsCons(m: MatchSpan, rest: seq<MatchSpan>, u: string, from: nat)
    requires from <= m.index && m.text != "" && End(m) <= |u| && u[m.index..End(m)] == m.text
    requires Fits(rest, u, |rest|)
    requires forall i :: 0 <= i < |rest| ==> End(m) <= rest[i].index
    ensures Fits([m] + rest, u, |rest| + 1)
    ensures forall i :: 0 <= i < |rest| + 1 ==> from <= ([m] + rest)[i].index
  {
    var ms := [m] + rest;
    assert forall i :: 0 <= i < |rest| ==> ms[i + 1] == rest[i];
  }

  /** Matches that fit are strictly increasing in `index`. */
  lemma {:induction false} FitsIncreasing(ms: seq<MatchSpan>, u: string, j: nat)
    requires j <= |ms| && Fits(ms, u, j)
    ensures forall a, b :: 0 <= a < b < j ==> End(ms[a]) <= ms[b].index
    ensures forall a, b :: 0 <= a < b < j ==> ms[a].index < ms[b].index
  {
    if j > 1 {
      FitsIncreasing(ms, u, j - 1);
      forall a | 0 <= a < j - 1 ensures End(ms[a]) <= ms[j - 1].index {
        assert End(ms[a]) <= End(ms[j - 2]);
      }
    }
  }

  /** The gathering loop: `exec` from `lastIndex` until it finds nothing,
      which resets `lastIndex` to 0, so the next node is searched from its
      start. */
  method CollectMatches(exec: Exec, re: Regex, text: string, lastIndex0: nat)
    returns (allMatches: seq<MatchSpan>, lastIndex: nat)
    ensures allMatches == AllMatches(exec, re, text, lastIndex0)
    ensures lastIndex == 0
  {
    allMatches := [];
    lastIndex := lastIndex0;
    var found := exec(re, text, lastIndex);
    while found.Some?
      invariant found == exec(re, text, lastIndex)
      invariant allMatches + AllMatches(exec, re, text, lastIndex) == AllMatches(exec, re, text, lastIndex0)
      decreases |text| + 1 - lastIndex
    {
      assert AllMatches(exec, re, text, lastIndex) == [found.value] + AllMatches(exec, re, text, End(found.value));
      allMatches := allMatches + [found.value];
      lastIndex := End(found.value);
      found := exec(re, text, lastIndex);
    }
    lastIndex := 0;
  }

  // ---------------------------------------------------------------------
  // Inserting the highlight spans.

  /** An entry of the `matches` array: the span and the matched text. */
  datatype MatchRecord = MatchRecord(element: SpanId, text: string)

  /** What the batch loop changes: the document's runs, the next fresh span,
      `searchState.highlights` and the search's own `matches`. */
  datatype Scan = Scan(runs: seq<Run>, next: SpanId, highlights: seq<SpanId>, matches: seq<MatchRecord>)

  /** The span identities `base`, `base + 1`, ..., `base + n - 1`. */
  function Ids(base: SpanId, n: nat): (r: seq<SpanId>)
    ensures |r| == n && forall i :: 0 <= i < n ==> r[i] == base + i
  {
    seq(n, i => base + i)
  }

  /** The body of the `try` for one match `m` of node `k`: on success the new
      span is pushed to `highlights` and, with the match's text, to
      `matches`; when the range cannot be set nothing is pushed. */
  function InsertMatch(w: Scan, k: nat, m: MatchSpan): (r: Scan)
    requires k < |w.runs|
    ensures |r.runs| == |w.runs|
  {
    match SurroundRange(w.runs[k], m.index, |m.text|, w.next)
    case None => w
    case Some(run) =>
      Scan(w.runs[k := run], w.next + 1, w.highlights + [w.next], w.matches + [MatchRecord(w.next, m.text)])
  }

  /** `for (let j = j0 - 1; j >= 0; j--)`: the matches `ms[j0 - 1]` down to
      `ms[0]` of node `k`. */
  function InsertFrom(w: Scan, k: nat, ms: seq<MatchSpan>, j0: nat): (r: Scan)
    requires k < |w.runs| && j0 <= |ms|
    ensures |r.runs| == |w.runs|
    decreases j0
  {
    if j0 == 0 then w
    else InsertFrom(InsertMatch(w, k, ms[j0 - 1]), k, ms, j0 - 1)
  }

  /** The matches that fit a prefix still fit the text up to the last one's
      start. */
  lemma FitsPrefix(ms: seq<MatchSpan>, u: string, j: nat)
    requires 0 < j <= |ms| && Fits(ms, u, j)
    ensures ms[j - 1].index <= |u|
    ensures Fits(ms, u[..ms[j - 1].index], j - 1)
  {
    var s := ms[j - 1].index;
    FitsIncreasing(ms, u, j);
    forall i | 0 <= i < j - 1
      ensures End(ms[i]) <= s && u[..s][ms[i].index..End(ms[i])] == ms[i].text
    {
      assert u[..s][ms[i].index..End(ms[i])] == u[ms[i].index..End(ms[i])];
    }
  }

  /** The run that inserting spans for the first `j` matches, last first,
      makes of a text node holding `u`: match `i` becomes span
      `base + (j - 1 - i)` holding the match's text, with the rest of the
      text in plain nodes between them. */
  function Marked(u: string, ms: seq<MatchSpan>, j: nat, base: SpanId): (r: Run)
    requires j <= |ms| && Fits(ms, u, j)
    ensures |r| == 2 * j + 1
    decreases j
  {
    if j == 0 then [Plain(u)]
    else
      var m := ms[j - 1];
      FitsPrefix(ms, u, j);
      Marked(u[..m.index], ms, j - 1, base + 1) + [Mark(base, m.text, false), Plain(u[End(m)..])]
  }

  /** The set of the identities `Ids(base, n)`. */
  function IdSet(base: SpanId, n: nat): (r: set<SpanId>)
    ensures forall h :: h in r <==> base <= h < base + n
  {
    var ids := Ids(base, n);
    IdsCover(base, n);
    set h | h in ids
  }

  lemma IdsCover(base: SpanId, n: nat)
    ensures forall h :: base <= h < base + n ==> h in Ids(base, n)
  {
    forall h | base <= h < base + n ensures h in Ids(base, n) {
      assert Ids(base, n)[h - base] == h;
    }
  }

  /** The marked run holds the node's text and no empty span. */
  lemma {:induction false} MarkedText(u: string, ms: seq<MatchSpan>, j: nat, base: SpanId)
    requires j <= |ms| && Fits(ms, u, j)
    ensures TextOf(Marked(u, ms, j, base)) == u
    ensures MarksNonEmpty(Marked(u, ms, j, base))
    decreases j
  {
    if j == 0 {
      ConsFacts(Plain(u), []);
      assert [Plain(u)] == [Plain(u)] + [];
    } else {
      var m := ms[j - 1];
      FitsPrefix(ms, u, j);
      var u0 := u[..m.index];
      MarkedText(u0, ms, j - 1, base + 1);
      var front := Marked(u0, ms, j - 1, base + 1);
      var p := Plain(u[End(m)..]);
      var mk := Mark(base, m.text, false);
      assert [mk, p] == [mk] + ([p] + []);
      ConsFacts(p, []);
      ConsFacts(mk, [p]);
      AppendText(front, [mk, p]);
      SliceJoin(u, m.index, End(m));
      MarksNonEmptyCons(p, []);
      MarksNonEmptyCons(mk, [p]);
      MarksNonEmptyConcat(front, [mk, p]);
    }
  }

  /** The marked run holds exactly the spans `base` to `base + j - 1`, none
      of them current. */
  lemma {:induction false} MarkedSpans(u: string, ms: seq<MatchSpan>, j: nat, base: SpanId)
    requires j <= |ms| && Fits(ms, u, j)
    ensures Spans(Marked(u, ms, j, base)) == IdSet(base, j)
    ensures CurrentSpans(Marked(u, ms, j, base)) == {}
    decreases j
  {
    if j == 0 {
      ConsFacts(Plain(u), []);
      assert [Plain(u)] == [Plain(u)] + [];
    } else {
      var m := ms[j - 1];
      FitsPrefix(ms, u, j);
      var u0 := u[..m.index];
      MarkedSpans(u0, ms, j - 1, base + 1);
      var front := Marked(u0, ms, j - 1, base + 1);
      var p := Plain(u[End(m)..]);
      var mk := Mark(base, m.text, false);
      assert [mk, p] == [mk] + ([p] + []);
      ConsFacts(p, []);
      ConsFacts(mk, [p]);
      AppendSpans(front, [mk, p]);
      IdSetStep(base, j);
    }
  }

  lemma IdSetStep(base: SpanId, j: nat)
    requires 0 < j
    ensures IdSet(base + 1, j - 1) + {base} == IdSet(base, j)
  {
  }

  /** Match `i` is held, with its text, by span `base + (j - 1 - i)`. */
  lemma {:induction false} MarkedHolds(u: string, ms: seq<MatchSpan>, j: nat, base: SpanId)
    requires j <= |ms| && Fits(ms, u, j)
    ensures forall i :: 0 <= i < j ==> Mark(base + (j - 1 - i), ms[i].text, false) in Marked(u, ms, j, base)
    decreases j
  {
    if j > 0 {
      var m := ms[j - 1];
      FitsPrefix(ms, u, j);
      var u0 := u[..m.index];
      MarkedHolds(u0, ms, j - 1, base + 1);
      var front := Marked(u0, ms, j - 1, base + 1);
      var r := front + [Mark(base, m.text, false), Plain(u[End(m)..])];
      forall i | 0 <= i < j ensures Mark(base + (j - 1 - i), ms[i].text, false) in r {
        if i < j - 1 {
          assert Mark(base + 1 + (j - 2 - i), ms[i].text, false) in front;
        } else {
          assert r[|front|] == Mark(base, m.text, false);
        }
      }
    }
  }

  /** Match `i` becomes node `2 * i + 1` of the marked run, and the nodes
      before it read exactly as the node's text up to `ms[i].index`: the
      offsets of the earlier matches still hold after the later ones have
      been wrapped. */
  lemma {:induction false} MarkedOffset(u: string, ms: seq<MatchSpan>, j: nat, base: SpanId, i: nat)
    requires j <= |ms| && Fits(ms, u, j) && i < j
    ensures ms[i].index <= |u|
    ensures Marked(u, ms, j, base)[2 * i + 1] == Mark(base + (j - 1 - i), ms[i].text, false)
    ensures TextOf(Marked(u, ms, j, base)[..2 * i + 1]) == u[..ms[i].index]
    decreases j
  {
    var m := ms[j - 1];
    FitsPrefix(ms, u, j);
    var u0 := u[..m.index];
    var front := Marked(u0, ms, j - 1, base + 1);
    var tail := [Mark(base, m.text, false), Plain(u[End(m)..])];
    assert Marked(u, ms, j, base) == front + tail;
    if i == j - 1 {
      MarkedText(u0, ms, j - 1, base + 1);
      PrefixConcat(front, tail, |front|);
      assert (front + tail)[|front|] == tail[0];
    } else {
      MarkedOffset(u0, ms, j - 1, base + 1, i);
      PrefixConcat(front, tail, 2 * i + 1);
      PrefixTake(u, ms[i].index, m.index);
    }
  }

  lemma PrefixConcat(a: Run, b: Run, p: nat)
    requires p <= |a|
    ensures (a + b)[..p] == a[..p]
    ensures p < |a| ==> (a + b)[p] == a[p]
  {
  }

  lemma PrefixTake(u: string, x: nat, y: nat)
    requires x <= y <= |u|
    ensures u[..y][..x] == u[..x]
  {
  }

  lemma MarksNonEmptyConcat(a: Run, b: Run)
    requires MarksNonEmpty(a) && MarksNonEmpty(b)
    ensures MarksNonEmpty(a + b)
  {
    forall j | 0 <= j < |a + b| && (a + b)[j].Mark? ensures (a + b)[j].text != "" {
      if j >= |a| {
        assert (a + b)[j] == b[j - |a|];
      }
    }
  }

  /** The last of the first `j` fitting matches can be wrapped: the
      node keeps the text before it, followed by its span and the text
      after it. */
  lemma InsertLast(w: Scan, k: nat, ms: seq<MatchSpan>, j: nat, u: string, tail: Run)
    requires k < |w.runs| && 0 < j <= |ms| && Fits(ms, u, j)
    requires w.runs[k] == [Plain(u)] + tail
    ensures var m := ms[j - 1];
      InsertMatch(w, k, m) == Scan(
        w.runs[k := [Plain(u[..m.index])] + ([Mark(w.next, m.text, false), Plain(u[End(m)..])] + tail)],
        w.next + 1, w.highlights + [w.next], w.matches + [MatchRecord(w.next, m.text)])
  {
    var m := ms[j - 1];
    var run := w.runs[k];
    assert run[0] == Plain(u) && run[1..] == tail;
    assert End(m) <= |u|;
    var r := SurroundRange(run, m.index, |m.text|, w.next);
    SurroundRangeShape(run, m.index, |m.text|, w.next);
    var a, b, c := Plain(u[..m.index]), Mark(w.next, m.text, false), Plain(u[End(m)..]);
    assert u[m.index..End(m)] == m.text;
    assert r == Some([a, b, c] + tail);
    assert [a, b, c] + tail == [a] + ([b, c] + tail);
  }

  /** Inserting the first `j` fitting matches into a node still holding
      `u`, last first: every range can be set, so no match is skipped; the
      node's run becomes `Marked`; the spans get consecutive fresh
      identities, which `highlights` and `matches` receive in the order of
      insertion, that is from the last match of the node to the first. */
  lemma {:induction false} InsertFromExact(w: Scan, k: nat, ms: seq<MatchSpan>, j: nat, u: string, tail: Run)
    requires k < |w.runs| && j <= |ms| && Fits(ms, u, j)
    requires w.runs[k] == [Plain(u)] + tail
    ensures InsertFrom(w, k, ms, j) == Scan(w.runs[k := Marked(u, ms, j, w.next) + tail],
      w.next + j, w.highlights + Ids(w.next, j), w.matches + Records(ms, j, w.next))
    decreases j
  {
    if j == 0 {
      InsertFromNone(w, k, ms, u, tail);
    } else {
      var m := ms[j - 1];
      FitsPrefix(ms, u, j);
      InsertLast(w, k, ms, j, u, tail);
      InsertFromExact(InsertMatch(w, k, m), k, ms, j - 1, u[..m.index],
        [Mark(w.next, m.text, false), Plain(u[End(m)..])] + tail);
      ExactStep(w, k, ms, j, u, tail);
    }
  }

  /** The step of `InsertFromExact`: the last match wrapped first, then the
      others in the text before it. */
  lemma ExactStep(w: Scan, k: nat, ms: seq<MatchSpan>, j: nat, u: string, tail: Run)
    requires k < |w.runs| && 0 < j <= |ms| && Fits(ms, u, j)
    requires ms[j - 1].index <= |u| && Fits(ms, u[..ms[j - 1].index], j - 1)
    requires var m := ms[j - 1];
      var w1 := InsertMatch(w, k, m);
      var mid := [Mark(w.next, m.text, false), Plain(u[End(m)..])];
      && w1 == Scan(w.runs[k := [Plain(u[..m.index])] + (mid + tail)],
        w.next + 1, w.highlights + [w.next], w.matches + [MatchRecord(w.next, m.text)])
      && InsertFrom(w1, k, ms, j - 1) == Scan(w1.runs[k := Marked(u[..m.index], ms, j - 1, w1.next) + (mid + tail)],
        w1.next + (j - 1), w1.highlights + Ids(w1.next, j - 1), w1.matches + Records(ms, j - 1, w1.next))
    ensures InsertFrom(w, k, ms, j) == Scan(w.runs[k := Marked(u, ms, j, w.next) + tail],
      w.next + j, w.highlights + Ids(w.next, j), w.matches + Records(ms, j, w.next))
  {
    var m := ms[j - 1];
    var w1 := InsertMatch(w, k, m);
    var mid := [Mark(w.next, m.text, false), Plain(u[End(m)..])];
    var x := [Plain(u[..m.index])] + (mid + tail);
    var front := Marked(u[..m.index], ms, j - 1, w.next + 1);
    assert Marked(u, ms, j, w.next) == front + mid;
    assert InsertFrom(w, k, ms, j) == InsertFrom(w1, k, ms, j - 1);
    CombineStep(w, k, ms, j, x, front, mid, tail, InsertFrom(w1, k, ms, j - 1));
  }

  lemma InsertFromNone(w: Scan, k: nat, ms: seq<MatchSpan>, u: string, tail: Run)
    requires k < |w.runs| && Fits(ms, u, 0)
    requires w.runs[k] == [Plain(u)] + tail
    ensures InsertFrom(w, k, ms, 0) == Scan(w.runs[k := Marked(u, ms, 0, w.next) + tail],
      w.next, w.highlights + Ids(w.next, 0), w.matches + Records(ms, 0, w.next))
  {
    assert Marked(u, ms, 0, w.next) == [Plain(u)];
    assert w.runs[k := [Plain(u)] + tail] == w.runs;
    assert w.highlights + Ids(w.next, 0) == w.highlights;
    assert w.matches + Records(ms, 0, w.next) == w.matches;
  }

  lemma CombineStep(w: Scan, k: nat, ms: seq<MatchSpan>, j: nat, x: Run, front: Run, mid: Run, tail: Run, r: Scan)
    requires 0 < j <= |ms| && k < |w.runs|
    requires r == Scan(w.runs[k := x][k := front + (mid + tail)], w.next + 1 + (j - 1),
      w.highlights + [w.next] + Ids(w.next + 1, j - 1),
      w.matches + [MatchRecord(w.next, ms[j - 1].text)] + Records(ms, j - 1, w.next + 1))
    ensures r == Scan(w.runs[k := (front + mid) + tail], w.next + j, w.highlights + Ids(w.next, j),
      w.matches + Records(ms, j, w.next))
  {
    ReplaceTwice(w.runs, k, x, front, mid, tail);
    IdsStep(w.highlights, w.next, j);
    RecordsStep(w.matches, ms, j, w.next);
  }

  lemma ReplaceTwice(runs: seq<Run>, k: nat, x: Run, front: Run, mid: Run, tail: Run)
    requires k < |runs|
    ensures runs[k := x][k := front + (mid + tail)] == runs[k := (front + mid) + tail]
  {
    assert front + (mid + tail) == (front + mid) + tail;
  }

  lemma IdsStep(hs: seq<SpanId>, base: SpanId, j: nat)
    requires 0 < j
    ensures hs + [base] + Ids(base + 1, j - 1) == hs + Ids(base, j)
  {
    assert [base] + Ids(base + 1, j - 1) == Ids(base, j);
  }

  /** The `matches` entries for the first `j` matches of a node inserted
      last first with spans from `base` on. */
  function Records(ms: seq<MatchSpan>, j: nat, base: SpanId): (r: seq<MatchRecord>)
    requires j <= |ms|
    ensures |r| == j
    ensures forall i :: 0 <= i < j ==> r[i] == MatchRecord(base + i, ms[j - 1 - i].text)
  {
    seq(j, i requires 0 <= i < j => MatchRecord(base + i, ms[j - 1 - i].text))
  }

  lemma RecordsStep(rs: seq<MatchRecord>, ms: seq<MatchSpan>, j: nat, base: SpanId)
    requires 0 < j <= |ms|
    ensures rs + [MatchRecord(base, ms[j - 1].text)] + Records(ms, j - 1, base + 1) == rs + Records(ms, j, base)
  {
    assert [MatchRecord(base, ms[j - 1].text)] + Records(ms, j - 1, base + 1) == Records(ms, j, base);
  }

  // ---------------------------------------------------------------------
  // Nodes and batches.

  /** One iteration of the node loop: the matches of node `k`'s text, then
      their spans from the last to the first. */
  function ProcessNode(w: Scan, exec: Exec, re: Regex, k: nat): (r: Scan)
    requires k < |w.runs|
    ensures |r.runs| == |w.runs|
  {
    var ms := AllMatches(exec, re, NodeText(w.runs[k]), 0);
    InsertFrom(w, k, ms, |ms|)
  }

  /** A node still whole, holding `u`, ends up marked with all its matches,
      none skipped; its spans are the next `n` fresh ones, pushed from its
      last match to its first; no other slot changes. */
  lemma ProcessNodeClean(w: Scan, exec: Exec, re: Regex, k: nat, u: string)
    requires k < |w.runs| && w.runs[k] == [Plain(u)]
    ensures ProcessNode(w, exec, re, k) == CleanResult(w, k, u, AllMatches(exec, re, u, 0))
  {
    var ms := AllMatches(exec, re, u, 0);
    assert w.runs[k] == [Plain(u)] + [];
    InsertFromExact(w, k, ms, |ms|, u, []);
    assert Marked(u, ms, |ms|, w.next) + [] == Marked(u, ms, |ms|, w.next);
  }

  /** What processing a whole node holding `u` with matches `ms` yields. */
  function CleanResult(w: Scan, k: nat, u: string, ms: seq<MatchSpan>): Scan
    requires k < |w.runs| && Fits(ms, u, |ms|)
  {
    Scan(w.runs[k := Marked(u, ms, |ms|, w.next)], w.next + |ms|,
      w.highlights + Ids(w.next, |ms|), w.matches + Records(ms, |ms|, w.next))
  }

  /** The node loop's body as a step on the scan; a slot number out of range
      (which the loop never passes) changes nothing. */
  function NodeStep(exec: Exec, re: Regex): (Scan, nat) -> Scan {
    (v: Scan, k: nat) => if k < |v.runs| then ProcessNode(v, exec, re, k) else v
  }

  /** The node loop `for (let i = lo; i < hi; i++)` over `nodes`, with
      `step` as its body. */
  function ForNodes(w: Scan, step: (Scan, nat) -> Scan, nodes: seq<nat>, lo: nat, hi: nat): Scan
    requires lo <= hi <= |nodes|
    decreases hi
  {
    if hi == lo then w else step(ForNodes(w, step, nodes, lo, hi - 1), nodes[hi - 1])
  }

  /** Processing `[lo, mid)` and then `[mid, hi)` is processing `[lo, hi)`:
      cutting the nodes into batches changes nothing. */
  lemma {:induction false} ForNodesSplit(w: Scan, step: (Scan, nat) -> Scan, nodes: seq<nat>, lo: nat, mid: nat, hi: nat)
    requires lo <= mid <= hi <= |nodes|
    ensures ForNodes(w, step, nodes, lo, hi) == ForNodes(ForNodes(w, step, nodes, lo, mid), step, nodes, mid, hi)
    decreases hi
  {
    if hi > mid {
      ForNodesSplit(w, step, nodes, lo, mid, hi - 1);
    }
  }

  /** `step` is the node loop's body on every slot that exists. Its trigger
      is a processed node, so it is used only where one has been named. */
  ghost predicate StepIs(step: (Scan, nat) -> Scan, exec: Exec, re: Regex) {
    forall v: Scan, k: nat {:trigger ProcessNode(v, exec, re, k)} :: k < |v.runs| ==>
      step(v, k) == ProcessNode(v, exec, re, k)
  }

  lemma NodeStepIs(exec: Exec, re: Regex)
    ensures StepIs(NodeStep(exec, re), exec, re)
  {
  }

  /** Two loop bodies that agree on every slot give the same loop over
      nodes that exist. */
  lemma {:induction false} ForNodesSame(w: Scan, step: (Scan, nat) -> Scan, exec: Exec, re: Regex,
                                        nodes: seq<nat>, lo: nat, hi: nat)
    requires StepIs(step, exec, re) && lo <= hi <= |nodes|
    requires forall i :: lo <= i < hi ==> nodes[i] < |w.runs|
    ensures |ForNodes(w, step, nodes, lo, hi).runs| == |w.runs|
    ensures ForNodes(w, step, nodes, lo, hi) == ForNodes(w, NodeStep(exec, re), nodes, lo, hi)
    decreases hi
  {
    if hi > lo {
      ForNodesSame(w, step, exec, re, nodes, lo, hi - 1);
      var v := ForNodes(w, step, nodes, lo, hi - 1);
      assert step(v, nodes[hi - 1]) == ProcessNode(v, exec, re, nodes[hi - 1]);
    }
  }

  // ---------------------------------------------------------------------
  // What the batch loop keeps.

  /** The invariant of the page and the search state during a search:
      every span holds text, every slot is whole or holds a span, every
      span in the page is a fresh one handed out before `next` and listed in
      `highlights`, and `highlights` and `matches` are pushed in step. */
  ghost predicate ScanOk(w: Scan) {
    && (forall k :: 0 <= k < |w.runs| ==> MarksNonEmpty(w.runs[k]) && Settled(w.runs[k]))
    && (forall k, h :: 0 <= k < |w.runs| && h in Spans(w.runs[k]) ==> h < w.next)
    && (forall k, h :: 0 <= k < |w.runs| && h in Spans(w.runs[k]) ==> h in w.highlights)
    && |w.highlights| == |w.matches|
    && (forall i :: 0 <= i < |w.matches| ==> w.matches[i].element == w.highlights[i])
  }

  /** `r` is `w` with spans added in slot `k` at most: no slot's text or
      current span changed, no other slot changed, and `highlights` and
      `matches` only grew. */
  ghost predicate Extends(w: Scan, r: Scan) {
    && |r.runs| == |w.runs|
    && (forall k :: 0 <= k < |w.runs| ==> TextOf(r.runs[k]) == TextOf(w.runs[k]))
    && (forall k :: 0 <= k < |w.runs| ==> CurrentSpans(r.runs[k]) == CurrentSpans(w.runs[k]))
    && w.next <= r.next
    && w.highlights <= r.highlights
    && w.matches <= r.matches
  }

  /** Only slot `k` differs between `w` and `r`. */
  ghost predicate OnlySlot(w: Scan, r: Scan, k: nat) {
    |r.runs| == |w.runs| && forall k' :: 0 <= k' < |w.runs| && k' != k ==> r.runs[k'] == w.runs[k']
  }

  lemma ExtendsTrans(a: Scan, b: Scan, c: Scan)
    requires Extends(a, b) && Extends(b, c)
    ensures Extends(a, c)
  {
  }

  /** Wrapping one non-empty match keeps the invariant, the text and the
      current span of every slot, and touches no other slot. */
  lemma InsertMatchOk(w: Scan, k: nat, m: MatchSpan)
    requires ScanOk(w) && k < |w.runs| && m.text != ""
    ensures ScanOk(InsertMatch(w, k, m))
    ensures Extends(w, InsertMatch(w, k, m))
    ensures OnlySlot(w, InsertMatch(w, k, m), k)
  {
    var r := SurroundRange(w.runs[k], m.index, |m.text|, w.next);
    if r.Some? {
      SurroundRangeFacts(w.runs[k], m.index, |m.text|, w.next);
      var w1 := InsertMatch(w, k, m);
      assert w1.runs[k] == r.value;
      assert Spans(w1.runs[k]) == Spans(w.runs[k]) + {w.next};
      forall k', h | 0 <= k' < |w1.runs| && h in Spans(w1.runs[k'])
        ensures h < w1.next && h in w1.highlights
      {
        if k' != k {
          assert w1.runs[k'] == w.runs[k'];
          assert h in w.highlights;
        } else if h != w.next {
          assert h in Spans(w.runs[k]);
          assert h in w.highlights;
        }
      }
    }
  }

  /** The span loop for one node keeps the invariant. */
  lemma {:induction false} InsertFromOk(w: Scan, k: nat, ms: seq<MatchSpan>, j: nat)
    requires ScanOk(w) && k < |w.runs| && j <= |ms|
    requires forall i :: 0 <= i < j ==> ms[i].text != ""
    ensures ScanOk(InsertFrom(w, k, ms, j))
    ensures Extends(w, InsertFrom(w, k, ms, j))
    ensures OnlySlot(w, InsertFrom(w, k, ms, j), k)
    decreases j
  {
    if j > 0 {
      var w1 := InsertMatch(w, k, ms[j - 1]);
      InsertMatchOk(w, k, ms[j - 1]);
      InsertFromOk(w1, k, ms, j - 1);
      ExtendsTrans(w, w1, InsertFrom(w1, k, ms, j - 1));
    }
  }

  /** A step that keeps the invariant, keeps every slot's text and current
      span, and touches only the slot it is given. */
  ghost predicate StepOk(step: (Scan, nat) -> Scan) {
    forall v: Scan, k: nat {:trigger step(v, k)} :: ScanOk(v) && k < |v.runs| ==>
      ScanOk(step(v, k)) && Extends(v, step(v, k)) && OnlySlot(v, step(v, k), k)
  }

  /** A step that makes a whole slot holding `u` into the slot marked with
      all the matches of `u`. */
  ghost predicate StepClean(step: (Scan, nat) -> Scan, exec: Exec, re: Regex) {
    forall v: Scan, k: nat {:trigger step(v, k)} :: k < |v.runs| && v.runs[k] == [Plain(NodeText(v.runs[k]))] ==>
      step(v, k) == CleanResult(v, k, NodeText(v.runs[k]), AllMatches(exec, re, NodeText(v.runs[k]), 0))
  }

  /** The node loop's body is such a step, on both counts. */
  lemma NodeStepOk(exec: Exec, re: Regex)
    ensures StepOk(NodeStep(exec, re))
    ensures StepClean(NodeStep(exec, re), exec, re)
  {
    var step := NodeStep(exec, re);
    forall v: Scan, k: nat | ScanOk(v) && k < |v.runs|
      ensures ScanOk(step(v, k)) && Extends(v, step(v, k)) && OnlySlot(v, step(v, k), k)
    {
      var ms := AllMatches(exec, re, NodeText(v.runs[k]), 0);
      InsertFromOk(v, k, ms, |ms|);
    }
    forall v: Scan, k: nat | k < |v.runs| && v.runs[k] == [Plain(NodeText(v.runs[k]))]
      ensures step(v, k) == CleanResult(v, k, NodeText(v.runs[k]), AllMatches(exec, re, NodeText(v.runs[k]), 0))
    {
      ProcessNodeClean(v, exec, re, k, NodeText(v.runs[k]));
    }
  }

  /** The node loop over `[lo, hi)` with such a step keeps the invariant,
      keeps every slot's text and current span, and touches only the slots
      it processes. */
  lemma {:induction false} ForNodesOk(w: Scan, step: (Scan, nat) -> Scan, nodes: seq<nat>, lo: nat, hi: nat)
    requires lo <= hi <= |nodes| && StepOk(step) && ScanOk(w)
    requires forall i :: lo <= i < hi ==> nodes[i] < |w.runs|
    ensures ScanOk(ForNodes(w, step, nodes, lo, hi))
    ensures Extends(w, ForNodes(w, step, nodes, lo, hi))
    ensures forall k {:trigger ForNodes(w, step, nodes, lo, hi).runs[k]} :: 0 <= k < |w.runs| && k !in nodes[lo..hi] ==> ForNodes(w, step, nodes, lo, hi).runs[k] == w.runs[k]
    decreases hi
  {
    if hi > lo {
      var w1 := ForNodes(w, step, nodes, lo, hi - 1);
      ForNodesOk(w, step, nodes, lo, hi - 1);
      var k := nodes[hi - 1];
      var r := step(w1, k);
      assert ScanOk(r) && Extends(w1, r) && OnlySlot(w1, r, k);
      ExtendsTrans(w, w1, r);
      forall k' | 0 <= k' < |w.runs| && k' !in nodes[lo..hi] ensures r.runs[k'] == w.runs[k'] {
        assert nodes[lo..hi] == nodes[lo..hi - 1] + [k];
      }
    }
  }

  /** The number of matches in the texts of `nodes[lo..hi]`. */
  function MatchTotal(exec: Exec, re: Regex, runs: seq<Run>, nodes: seq<nat>, lo: nat, hi: nat): nat
    requires lo <= hi <= |nodes|
    requires forall i :: lo <= i < hi ==> nodes[i] < |runs|
    decreases hi
  {
    if hi == lo then 0
    else MatchTotal(exec, re, runs, nodes, lo, hi - 1) + |AllMatches(exec, re, NodeText(runs[nodes[hi - 1]]), 0)|
  }

  /** Nodes listed in increasing order that are whole when the loop starts:
      every one of their matches gets a span, so the loop hands out exactly
      as many spans, and pushes exactly as many entries, as there are
      matches; each node ends up marked with all its matches, its spans
      numbered after those of the nodes before it; no other slot changes. */
  lemma {:induction false} ForNodesClean(w: Scan, step: (Scan, nat) -> Scan, exec: Exec, re: Regex,
                                          nodes: seq<nat>, lo: nat, hi: nat)
    requires lo <= hi <= |nodes| && StepClean(step, exec, re)
    requires forall i :: lo <= i < hi ==> nodes[i] < |w.runs|
    requires forall a, b :: lo <= a < b < hi ==> nodes[a] < nodes[b]
    requires forall i :: lo <= i < hi ==> w.runs[nodes[i]] == [Plain(NodeText(w.runs[nodes[i]]))]
    ensures var r := ForNodes(w, step, nodes, lo, hi);
      && |r.runs| == |w.runs|
      && r.next == w.next + MatchTotal(exec, re, w.runs, nodes, lo, hi)
      && |r.highlights| == |w.highlights| + MatchTotal(exec, re, w.runs, nodes, lo, hi)
      && |r.matches| == |w.matches| + MatchTotal(exec, re, w.runs, nodes, lo, hi)
      && (forall k {:trigger r.runs[k]} :: 0 <= k < |w.runs| && k !in nodes[lo..hi] ==> r.runs[k] == w.runs[k])
      && (forall i {:trigger r.runs[nodes[i]]} :: lo <= i < hi ==> r.runs[nodes[i]] == MarkedSlots(w, exec, re, nodes, lo, hi)[i - lo])
    decreases hi
  {
    if hi > lo {
      var w1 := ForNodes(w, step, nodes, lo, hi - 1);
      ForNodesClean(w, step, exec, re, nodes, lo, hi - 1);
      var k := nodes[hi - 1];
      LastNotBefore(nodes, lo, hi);
      assert w1.runs[k] == w.runs[k];
      var u := NodeText(w.runs[k]);
      var r := ForNodes(w, step, nodes, lo, hi);
      assert r == step(w1, k);
      assert r == CleanResult(w1, k, u, AllMatches(exec, re, u, 0));
      CleanStepCounts(w, w1, r, exec, re, nodes, lo, hi);
      CleanStepUntouched(w, w1, r, exec, re, nodes, lo, hi);
      CleanStepMarked(w, w1.runs, r.runs, w1.next, exec, re, nodes, lo, hi);
    }
  }

  /** One step of `ForNodesClean`: the counts grow by the node's matches. */
  lemma CleanStepCounts(w: Scan, w1: Scan, r: Scan, exec: Exec, re: Regex, nodes: seq<nat>, lo: nat, hi: nat)
    requires lo < hi <= |nodes| && forall i :: lo <= i < hi ==> nodes[i] < |w.runs|
    requires |w1.runs| == |w.runs|
    requires w1.next == w.next + MatchTotal(exec, re, w.runs, nodes, lo, hi - 1)
    requires |w1.highlights| == |w.highlights| + MatchTotal(exec, re, w.runs, nodes, lo, hi - 1)
    requires |w1.matches| == |w.matches| + MatchTotal(exec, re, w.runs, nodes, lo, hi - 1)
    requires var u := NodeText(w.runs[nodes[hi - 1]]);
      r == CleanResult(w1, nodes[hi - 1], u, AllMatches(exec, re, u, 0))
    ensures |r.runs| == |w.runs|
    ensures r.next == w.next + MatchTotal(exec, re, w.runs, nodes, lo, hi)
    ensures |r.highlights| == |w.highlights| + MatchTotal(exec, re, w.runs, nodes, lo, hi)
    ensures |r.matches| == |w.matches| + MatchTotal(exec, re, w.runs, nodes, lo, hi)
  {
  }

  /** One step of `ForNodesClean`: every slot not yet processed is still as
      it was. */
  lemma CleanStepUntouched(w: Scan, w1: Scan, r: Scan, exec: Exec, re: Regex, nodes: seq<nat>, lo: nat, hi: nat)
    requires lo < hi <= |nodes| && forall i :: lo <= i < hi ==> nodes[i] < |w.runs|
    requires |w1.runs| == |w.runs|
    requires forall k {:trigger w1.runs[k]} :: 0 <= k < |w.runs| && k !in nodes[lo..hi - 1] ==> w1.runs[k] == w.runs[k]
    requires var u := NodeText(w.runs[nodes[hi - 1]]);
      r == CleanResult(w1, nodes[hi - 1], u, AllMatches(exec, re, u, 0))
    ensures forall k {:trigger r.runs[k]} :: 0 <= k < |w.runs| && k !in nodes[lo..hi] ==> r.runs[k] == w.runs[k]
  {
    var k := nodes[hi - 1];
    var u := NodeText(w.runs[k]);
    var ms := AllMatches(exec, re, u, 0);
    var x := Marked(u, ms, |ms|, w1.next);
    assert r.runs == w1.runs[k := x];
    UpdateUntouched(w.runs, w1.runs, r.runs, nodes, lo, hi, x);
  }

  /** One step of `ForNodesClean`: the node is marked, its spans numbered
      after those of the nodes before it. */
  lemma CleanStepMarked(w: Scan, mid: seq<Run>, after: seq<Run>, base: SpanId, exec: Exec, re: Regex,
                        nodes: seq<nat>, lo: nat, hi: nat)
    requires lo < hi <= |nodes| && forall i :: lo <= i < hi ==> nodes[i] < |w.runs|
    requires forall a, b :: lo <= a < b < hi ==> nodes[a] < nodes[b]
    requires |mid| == |w.runs|
    requires base == w.next + MatchTotal(exec, re, w.runs, nodes, lo, hi - 1)
    requires forall i {:trigger mid[nodes[i]]} :: lo <= i < hi - 1 ==> mid[nodes[i]] == MarkedSlots(w, exec, re, nodes, lo, hi - 1)[i - lo]
    requires var u := NodeText(w.runs[nodes[hi - 1]]); var ms := AllMatches(exec, re, u, 0);
      after == mid[nodes[hi - 1] := Marked(u, ms, |ms|, base)]
    ensures forall i {:trigger after[nodes[i]]} :: lo <= i < hi ==> after[nodes[i]] == MarkedSlots(w, exec, re, nodes, lo, hi)[i - lo]
  {
    var u := NodeText(w.runs[nodes[hi - 1]]);
    var ms := AllMatches(exec, re, u, 0);
    var x := Marked(u, ms, |ms|, base);
    var before, all := MarkedSlots(w, exec, re, nodes, lo, hi - 1), MarkedSlots(w, exec, re, nodes, lo, hi);
    assert all == before + [x];
    LastNotBefore(nodes, lo, hi);
    UpdateOthers(mid, after, nodes, lo, hi, x);
    forall i | lo <= i < hi ensures after[nodes[i]] == all[i - lo] {
      if i < hi - 1 {
        assert all[i - lo] == before[i - lo];
      }
    }
  }

  /** Writing slot `nodes[hi - 1]` leaves every slot outside `nodes[lo..hi]`
      as it was. */
  lemma UpdateUntouched(before: seq<Run>, mid: seq<Run>, after: seq<Run>, nodes: seq<nat>, lo: nat, hi: nat, x: Run)
    requires lo < hi <= |nodes| && nodes[hi - 1] < |mid| && |mid| == |before|
    requires forall k {:trigger mid[k]} :: 0 <= k < |before| && k !in nodes[lo..hi - 1] ==> mid[k] == before[k]
    requires after == mid[nodes[hi - 1] := x]
    ensures forall k {:trigger after[k]} :: 0 <= k < |before| && k !in nodes[lo..hi] ==> after[k] == before[k]
  {
    assert nodes[lo..hi] == nodes[lo..hi - 1] + [nodes[hi - 1]];
    forall k | 0 <= k < |before| && k !in nodes[lo..hi] ensures after[k] == before[k] {
      assert k != nodes[hi - 1] && k !in nodes[lo..hi - 1];
    }
  }

  /** Writing slot `nodes[hi - 1]` leaves the slots of the nodes before it
      in the window as they were. */
  lemma UpdateOthers(mid: seq<Run>, after: seq<Run>, nodes: seq<nat>, lo: nat, hi: nat, x: Run)
    requires lo < hi <= |nodes| && forall i :: lo <= i < hi ==> nodes[i] < |mid|
    requires nodes[hi - 1] !in nodes[lo..hi - 1]
    requires after == mid[nodes[hi - 1] := x]
    ensures forall i {:trigger after[nodes[i]]} :: lo <= i < hi - 1 ==> after[nodes[i]] == mid[nodes[i]]
    ensures after[nodes[hi - 1]] == x
  {
    forall i | lo <= i < hi - 1 ensures after[nodes[i]] == mid[nodes[i]] {
      assert nodes[lo..hi - 1][i - lo] == nodes[i];
    }
  }

  /** In a strictly increasing window the last node is not among the earlier ones. */
  lemma LastNotBefore(nodes: seq<nat>, lo: nat, hi: nat)
    requires lo < hi <= |nodes|
    requires forall a, b :: lo <= a < b < hi ==> nodes[a] < nodes[b]
    ensures nodes[hi - 1] !in nodes[lo..hi - 1]
  {
    var before := nodes[lo..hi - 1];
    forall j | 0 <= j < |before| ensures before[j] != nodes[hi - 1] {
      assert before[j] == nodes[lo + j];
    }
  }

  /** The runs that the nodes `nodes[lo..hi]` end up with, in order, when
      they are processed from a whole page: each node marked with all its
      matches, its spans numbered after those of the nodes before it. */
  function MarkedSlots(w: Scan, exec: Exec, re: Regex, nodes: seq<nat>, lo: nat, hi: nat): (s: seq<Run>)
    requires lo <= hi <= |nodes| && forall i :: lo <= i < hi ==> nodes[i] < |w.runs|
    ensures |s| == hi - lo
    decreases hi
  {
    if hi == lo then []
    else
      var u := NodeText(w.runs[nodes[hi - 1]]);
      var ms := AllMatches(exec, re, u, 0);
      MarkedSlots(w, exec, re, nodes, lo, hi - 1) + [Marked(u, ms, |ms|, w.next + MatchTotal(exec, re, w.runs, nodes, lo, hi - 1))]
  }

  // ---------------------------------------------------------------------
  // Windows and progress.

  /** The number of nodes per call of `processNextBatch`. */
  const BatchSize: nat := 100

  /** `endIndex = Math.min(processedNodes + batchSize, totalNodes)`. */
  function BatchEnd(processed: nat, total: nat): (e: nat)
    requires processed <= total
    ensures processed <= e <= total
    ensures e - processed <= BatchSize
    ensures processed < total ==> processed < e
    ensures e < total ==> e == processed + BatchSize
  {
    if processed + BatchSize < total then processed + BatchSize else total
  }

  /** `Math.round((processedNodes / totalNodes) * 100)`, computed exactly:
      the integer nearest to `100 * processed / total`, halves rounded up;
      with no nodes the division is `NaN`, here `None`. */
  function Progress(processed: nat, total: nat): (r: Option<nat>)
    ensures r.Some? <==> total > 0
    ensures r.Some? ==> 2 * r.value * total <= 200 * processed + total < 2 * (r.value + 1) * total
  {
    if total == 0 then None else Some((200 * processed + total) / (2 * total))
  }

  /** The percentage shown while nodes remain lies between 0 and 100. */
  lemma ProgressBounds(processed: nat, total: nat)
    requires processed <= total && total > 0
    ensures Progress(processed, total).Some?
    ensures Progress(processed, total).value <= 100
    ensures processed == 0 ==> Progress(processed, total).value == 0
    ensures processed == total ==> Progress(processed, total).value == 100
  {
    var r := Progress(processed, total).value;
    assert (2 * r) * total <= 201 * total;
    MulCancel(2 * r, 201, total);
    if processed == 0 {
      assert (2 * r) * total <= 1 * total;
      MulCancel(2 * r, 1, total);
    }
    if processed == total {
      assert 201 * total < (2 * (r + 1)) * total;
      MulCancelStrict(201, 2 * (r + 1), total);
    }
  }

  /** The percentage never goes down as nodes are processed. */
  lemma ProgressMonotone(p: nat, q: nat, total: nat)
    requires p <= q && total > 0
    ensures Progress(p, total).value <= Progress(q, total).value
  {
    var a, b := Progress(p, total).value, Progress(q, total).value;
    assert (2 * a) * total < (2 * (b + 1)) * total;
    MulCancelStrict(2 * a, 2 * (b + 1), total);
  }

  lemma MulCancel(a: int, b: int, t: int)
    requires t > 0 && a * t <= b * t
    ensures a <= b
  {
  }

  lemma MulCancelStrict(a: int, b: int, t: int)
    requires t > 0 && a * t < b * t
    ensures a < b
  {
  }
}
