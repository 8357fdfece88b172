/** The order of a whole search's results: which span `highlights[i]` is
    and which entry `matches[i]` holds once the node loop has covered
    several nodes. */
module Order {
  import opened Dom
  import opened Pattern
  import opened Matcher

  /** The `matches` entries that processing `nodes[lo..hi]` from a whole
      page pushes: node after node in the order given, each node's entries
      from its last match to its first, naming its spans, which are numbered
      after those of the nodes before it. */
  function AllRecords(w: Scan, exec: Exec, re: Regex, nodes: seq<nat>, lo: nat, hi: nat): (rs: seq<MatchRecord>)
    requires lo <= hi <= |nodes| && forall i :: lo <= i < hi ==> nodes[i] < |w.runs|
    ensures |rs| == MatchTotal(exec, re, w.runs, nodes, lo, hi)
    decreases hi
  {
    if hi == lo then [] else AllRecords(w, exec, re, nodes, lo, hi - 1) + NodeRecords(w, exec, re, nodes, lo, hi - 1)
  }

  /** The entries of node `nodes[i]`, its spans numbered after those of
      `nodes[lo..i]`. */
  function NodeRecords(w: Scan, exec: Exec, re: Regex, nodes: seq<nat>, lo: nat, i: nat): (rs: seq<MatchRecord>)
    requires lo <= i < |nodes| && forall j :: lo <= j <= i ==> nodes[j] < |w.runs|
    ensures |rs| == |AllMatches(exec, re, NodeText(w.runs[nodes[i]]), 0)|
  {
    var ms := AllMatches(exec, re, NodeText(w.runs[nodes[i]]), 0);
    Records(ms, |ms|, w.next + MatchTotal(exec, re, w.runs, nodes, lo, i))
  }

  /** The order of the whole search's results: over whole nodes listed in
      increasing order, the loop appends to `highlights` the fresh spans in
      the order they are handed out, and to `matches` the entries of each
      node in turn. */
  lemma {:induction false} ForNodesOrder(w: Scan, step: (Scan, nat) -> Scan, exec: Exec, re: Regex,
                                          nodes: seq<nat>, lo: nat, hi: nat)
    requires lo <= hi <= |nodes| && StepClean(step, exec, re)
    requires forall i :: lo <= i < hi ==> nodes[i] < |w.runs|
    requires forall a, b :: lo <= a < b < hi ==> nodes[a] < nodes[b]
    requires forall i :: lo <= i < hi ==> w.runs[nodes[i]] == [Plain(NodeText(w.runs[nodes[i]]))]
    ensures var r := ForNodes(w, step, nodes, lo, hi);
      && r.highlights == w.highlights + Ids(w.next, MatchTotal(exec, re, w.runs, nodes, lo, hi))
      && r.matches == w.matches + AllRecords(w, exec, re, nodes, lo, hi)
    decreases hi
  {
    if hi > lo {
      var w1 := ForNodes(w, step, nodes, lo, hi - 1);
      var r := ForNodes(w, step, nodes, lo, hi);
      var ms := AllMatches(exec, re, NodeText(w.runs[nodes[hi - 1]]), 0);
      assert w1.next == w.next + MatchTotal(exec, re, w.runs, nodes, lo, hi - 1)
        && r.highlights == w1.highlights + Ids(w1.next, |ms|)
        && r.matches == w1.matches + Records(ms, |ms|, w1.next) by {
        var k := nodes[hi - 1];
        ForNodesClean(w, step, exec, re, nodes, lo, hi - 1);
        LastNotBefore(nodes, lo, hi);
        assert w1.runs[k] == w.runs[k];
        assert r == step(w1, k);
      }
      assert w1.highlights == w.highlights + Ids(w.next, MatchTotal(exec, re, w.runs, nodes, lo, hi - 1))
        && w1.matches == w.matches + AllRecords(w, exec, re, nodes, lo, hi - 1) by {
        ForNodesOrder(w, step, exec, re, nodes, lo, hi - 1);
      }
      OrderStep(w, w1, r, exec, re, nodes, lo, hi, ms);
    }
  }

  /** One step of `ForNodesOrder`: the last node's spans and entries go
      after those of the nodes before it. */
  lemma OrderStep(w: Scan, w1: Scan, r: Scan, exec: Exec, re: Regex, nodes: seq<nat>, lo: nat, hi: nat,
                  ms: seq<MatchSpan>)
    requires lo < hi <= |nodes| && forall i :: lo <= i < hi ==> nodes[i] < |w.runs|
    requires ms == AllMatches(exec, re, NodeText(w.runs[nodes[hi - 1]]), 0)
    requires w1.next == w.next + MatchTotal(exec, re, w.runs, nodes, lo, hi - 1)
    requires w1.highlights == w.highlights + Ids(w.next, MatchTotal(exec, re, w.runs, nodes, lo, hi - 1))
    requires w1.matches == w.matches + AllRecords(w, exec, re, nodes, lo, hi - 1)
    requires r.highlights == w1.highlights + Ids(w1.next, |ms|)
    requires r.matches == w1.matches + Records(ms, |ms|, w1.next)
    ensures r.highlights == w.highlights + Ids(w.next, MatchTotal(exec, re, w.runs, nodes, lo, hi))
    ensures r.matches == w.matches + AllRecords(w, exec, re, nodes, lo, hi)
  {
    var t := MatchTotal(exec, re, w.runs, nodes, lo, hi - 1);
    HighlightsStep(w.highlights, w1.highlights, r.highlights, w.next, t, w1.next, |ms|);
    MatchesStep(w, exec, re, nodes, lo, hi, ms, w1.next, w.matches, w1.matches, r.matches);
  }

  /** One step of `ForNodesOrder` for `highlights`: the node's spans go
      after those of the nodes before it. */
  lemma HighlightsStep(hs0: seq<SpanId>, hs1: seq<SpanId>, hs2: seq<SpanId>,
                       base: SpanId, t: nat, base1: SpanId, n: nat)
    requires hs1 == hs0 + Ids(base, t) && base1 == base + t && hs2 == hs1 + Ids(base1, n)
    ensures hs2 == hs0 + Ids(base, t + n)
  {
    IdsJoin(base, t, n);
    assert hs2 == hs0 + (Ids(base, t) + Ids(base + t, n));
  }

  /** One step of `ForNodesOrder` for `matches`: the node's entries go after
      those of the nodes before it. */
  lemma MatchesStep(w: Scan, exec: Exec, re: Regex, nodes: seq<nat>, lo: nat, hi: nat,
                    ms: seq<MatchSpan>, base: SpanId,
                    ms0: seq<MatchRecord>, ms1: seq<MatchRecord>, ms2: seq<MatchRecord>)
    requires lo < hi <= |nodes| && forall i :: lo <= i < hi ==> nodes[i] < |w.runs|
    requires ms == AllMatches(exec, re, NodeText(w.runs[nodes[hi - 1]]), 0)
    requires base == w.next + MatchTotal(exec, re, w.runs, nodes, lo, hi - 1)
    requires ms1 == ms0 + AllRecords(w, exec, re, nodes, lo, hi - 1)
    requires ms2 == ms1 + Records(ms, |ms|, base)
    ensures ms2 == ms0 + AllRecords(w, exec, re, nodes, lo, hi)
  {
    var front, mine := AllRecords(w, exec, re, nodes, lo, hi - 1), NodeRecords(w, exec, re, nodes, lo, hi - 1);
    assert mine == Records(ms, |ms|, base);
    AllRecordsStep(w, exec, re, nodes, lo, hi);
    RecordsAssoc(ms0, front, mine);
  }

  lemma RecordsAssoc(a: seq<MatchRecord>, b: seq<MatchRecord>, c: seq<MatchRecord>)
    ensures (a + b) + c == a + (b + c)
  {
  }

  /** The last node's entries come after those of the nodes before it. */
  lemma {:induction false} AllRecordsStep(w: Scan, exec: Exec, re: Regex, nodes: seq<nat>, lo: nat, hi: nat)
    requires lo < hi <= |nodes| && forall i :: lo <= i < hi ==> nodes[i] < |w.runs|
    ensures AllRecords(w, exec, re, nodes, lo, hi) ==
      AllRecords(w, exec, re, nodes, lo, hi - 1) + NodeRecords(w, exec, re, nodes, lo, hi - 1)
  {
  }

  /** Spans handed out in two runs are those handed out in one. */
  lemma IdsJoin(base: SpanId, m: nat, n: nat)
    ensures Ids(base, m) + Ids(base + m, n) == Ids(base, m + n)
  {
    var c := Ids(base, m) + Ids(base + m, n);
    assert forall i :: 0 <= i < |c| ==> c[i] == base + i;
  }
}
