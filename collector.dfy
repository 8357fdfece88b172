/** Collecting the searchable text nodes of `document.body`: a `TreeWalker`
    over text nodes whose filter rejects text inside scripts, styles, text
    areas, editable elements and the search panel, then a loop that keeps
    the nodes whose trimmed text is non-empty. */
module Collector {
  import opened Wrappers
  import opened Dom

  /** The class of the search panel's own container. */
  const PanelClass: string := "easy-regex-search-panel"

  /** What the filter asks of a text node's parent element: its `tagName`,
      its `isContentEditable`, and whether `closest('.easy-regex-search-panel')`
      finds an element (the parent itself or an ancestor). */
  datatype ParentInfo = ParentInfo(tag: string, editable: bool, inPanel: bool)

  /** The facts for element `e` inside an element described by `outer`:
      `contenteditable` set to true or false decides, otherwise it is
      inherited; being in the panel is inherited or starts at `e`. */
  function EnterElement(e: Tree, outer: ParentInfo): ParentInfo
    requires e.Element?
  {
    ParentInfo(
      e.tag,
      match e.contentEditable
      case Some(b) => b
      case None => outer.editable,
      outer.inPanel || PanelClass in e.classes)
  }

  /** The parent of every text node of a forest, in document (pre-)order:
      a text node's parent is the element owning the forest, and the text
      nodes below an element follow it before its next sibling. */
  function TextParents(ts: seq<Tree>, parent: ParentInfo): (ps: seq<ParentInfo>)
    ensures |ps| == TextCount(ts)
    decreases ts
  {
    if ts == [] then []
    else match ts[0]
      case TextLeaf => [parent] + TextParents(ts[1..], parent)
      case Element(_, _, _, cs) => TextParents(cs, EnterElement(ts[0], parent)) + TextParents(ts[1..], parent)
  }

  /** The parents of the text nodes of `body`, numbered like the document's
      slots. The root element above `body` is neither editable nor part of
      the panel. */
  function BodyTextParents(body: Tree): (ps: seq<ParentInfo>)
    requires body.Element?
    ensures |ps| == TextCount(body.children)
  {
    TextParents(body.children, EnterElement(body, ParentInfo("HTML", false, false)))
  }

  /** The elements enclosing text node `k` of a forest, outermost first. */
  function Ancestors(ts: seq<Tree>, k: nat): (path: seq<Tree>)
    requires k < TextCount(ts)
    ensures forall i :: 0 <= i < |path| ==> path[i].Element?
    decreases ts
  {
    match ts[0]
    case TextLeaf => if k == 0 then [] else Ancestors(ts[1..], k - 1)
    case Element(_, _, _, cs) =>
      if k < TextCount(cs) then [ts[0]] + Ancestors(cs, k)
      else Ancestors(ts[1..], k - TextCount(cs))
  }

  /** Entering the elements of `path` in turn, from the facts `p` outside them. */
  function EnterAll(path: seq<Tree>, p: ParentInfo): ParentInfo
    requires forall i :: 0 <= i < |path| ==> path[i].Element?
  {
    if path == [] then p else EnterAll(path[1..], EnterElement(path[0], p))
  }

  /** What the filter sees of text node `k` is what entering its enclosing
      elements, outermost first, makes of the facts outside the forest. */
  lemma {:induction false} TextParentsPath(ts: seq<Tree>, parent: ParentInfo, k: nat)
    requires k < TextCount(ts)
    ensures TextParents(ts, parent)[k] == EnterAll(Ancestors(ts, k), parent)
    decreases ts
  {
    match ts[0]
    case TextLeaf =>
      if k > 0 {
        TextParentsPath(ts[1..], parent, k - 1);
      }
    case Element(_, _, _, cs) =>
      var inner := TextParents(cs, EnterElement(ts[0], parent));
      if k < TextCount(cs) {
        TextParentsPath(cs, EnterElement(ts[0], parent), k);
        var path := [ts[0]] + Ancestors(cs, k);
        assert path[1..] == Ancestors(cs, k);
        assert TextParents(ts, parent)[k] == inner[k];
      } else {
        TextParentsPath(ts[1..], parent, k - TextCount(cs));
        assert TextParents(ts, parent)[k] == TextParents(ts[1..], parent)[k - |inner|];
      }
  }

  /** `path[i]` sets `contenteditable` and no element inside it does. */
  predicate InnermostSetter(path: seq<Tree>, i: nat)
    requires i < |path|
  {
    path[i].Element? && path[i].contentEditable.Some? &&
    forall j :: i < j < |path| ==> path[j].Element? && path[j].contentEditable.None?
  }

  /** Entering a path: the tag is the innermost element's; the node is in
      the panel exactly when it was already or some element on the path
      has the panel's class; it is editable as the innermost element that
      sets `contenteditable` says, or as outside when none does. */
  lemma {:induction false} EnterAllFacts(path: seq<Tree>, p: ParentInfo)
    requires forall i :: 0 <= i < |path| ==> path[i].Element?
    ensures path == [] ==> EnterAll(path, p) == p
    ensures path != [] ==> EnterAll(path, p).tag == path[|path| - 1].tag
    ensures EnterAll(path, p).inPanel <==>
      p.inPanel || exists i :: 0 <= i < |path| && PanelClass in path[i].classes
    ensures (forall i :: 0 <= i < |path| ==> path[i].contentEditable.None?) ==>
      EnterAll(path, p).editable == p.editable
    ensures forall i :: 0 <= i < |path| && InnermostSetter(path, i) ==>
      EnterAll(path, p).editable == path[i].contentEditable.value
  {
    if path != [] {
      var rest := path[1..];
      var q := EnterElement(path[0], p);
      EnterAllFacts(rest, q);
      assert forall i :: 0 < i < |path| ==> path[i] == rest[i - 1];
      if q.inPanel && !p.inPanel {
        assert PanelClass in path[0].classes;
      }
      if exists i :: 0 < i < |path| && PanelClass in path[i].classes {
        var i :| 0 < i < |path| && PanelClass in path[i].classes;
        assert PanelClass in rest[i - 1].classes;
      }
      if exists i :: 0 <= i < |rest| && PanelClass in rest[i].classes {
        var i :| 0 <= i < |rest| && PanelClass in rest[i].classes;
        assert PanelClass in path[i + 1].classes;
      }
    }
  }

  /** The filter's facts about the parent of text node `k` of `body`, stated
      over the elements from `body` down to that parent. */
  lemma BodyParentFacts(body: Tree, k: nat)
    requires body.Element? && k < TextCount(body.children)
    ensures var path := [body] + Ancestors(body.children, k);
      var q := BodyTextParents(body)[k];
      && q.tag == path[|path| - 1].tag
      && (q.inPanel <==> exists i :: 0 <= i < |path| && PanelClass in path[i].classes)
      && ((forall i :: 0 <= i < |path| ==> path[i].contentEditable.None?) ==> !q.editable)
      && (forall i :: 0 <= i < |path| && InnermostSetter(path, i) ==> q.editable == path[i].contentEditable.value)
  {
    var root := ParentInfo("HTML", false, false);
    var path := [body] + Ancestors(body.children, k);
    TextParentsPath(body.children, EnterElement(body, root), k);
    assert path[1..] == Ancestors(body.children, k);
    assert EnterAll(path, root) == EnterAll(Ancestors(body.children, k), EnterElement(body, root));
    EnterAllFacts(path, root);
  }

  /** The `acceptNode` filter of the walker. */
  predicate AcceptNode(p: ParentInfo) {
    && p.tag != "SCRIPT"
    && p.tag != "STYLE"
    && p.tag != "TEXTAREA"
    && !p.editable
    && !p.inPanel
  }

  /** The text nodes from number `k` on that the walker returns, in order. */
  function AcceptedFrom(ps: seq<ParentInfo>, k: nat): (r: seq<nat>)
    requires k <= |ps|
    ensures forall j :: 0 <= j < |r| ==> k <= r[j] < |ps| && AcceptNode(ps[r[j]])
    ensures forall a, b :: 0 <= a < b < |r| ==> r[a] < r[b]
    ensures forall m :: k <= m < |ps| && AcceptNode(ps[m]) ==> m in r
    decreases |ps| - k
  {
    if k == |ps| then []
    else (if AcceptNode(ps[k]) then [k] else []) + AcceptedFrom(ps, k + 1)
  }

  /** The successive results of `walker.nextNode()` on `body`. */
  function WalkerNodes(body: Tree): (r: seq<nat>)
    requires body.Element?
  {
    AcceptedFrom(BodyTextParents(body), 0)
  }

  // ---------------------------------------------------------------------
  // `String.prototype.trim`.

  /** The white space and line terminators that `trim` removes. */
  predicate IsJsSpace(c: char) {
    || c in "\t\n\U{000B}\U{000C}\r \U{00A0}\U{1680}\U{2028}\U{2029}\U{202F}\U{205F}\U{3000}\U{FEFF}"
    || ('\U{2000}' <= c <= '\U{200A}')
  }

  predicate AllSpace(s: string) {
    forall i :: 0 <= i < |s| ==> IsJsSpace(s[i])
  }

  function TrimStart(s: string): string {
    if s != [] && IsJsSpace(s[0]) then TrimStart(s[1..]) else s
  }

  function TrimEnd(s: string): string {
    if s != [] && IsJsSpace(s[|s| - 1]) then TrimEnd(s[..|s| - 1]) else s
  }

  /** `s.trim()`. */
  function Trim(s: string): string {
    TrimEnd(TrimStart(s))
  }

  lemma {:induction false} TrimStartEmpty(s: string)
    ensures TrimStart(s) == "" <==> AllSpace(s)
  {
    if s != [] && IsJsSpace(s[0]) {
      TrimStartEmpty(s[1..]);
      assert forall i :: 1 <= i < |s| ==> s[i] == s[1..][i - 1];
    }
  }

  lemma {:induction false} TrimEndKeepsFirst(s: string)
    requires s != [] && !IsJsSpace(s[0])
    ensures TrimEnd(s) != ""
  {
    if IsJsSpace(s[|s| - 1]) {
      assert |s| > 1;
      assert s[..|s| - 1][0] == s[0];
      TrimEndKeepsFirst(s[..|s| - 1]);
    }
  }

  /** `s.trim()` is empty, and so falsy, exactly when `s` is all white space. */
  lemma TrimEmptyIff(s: string)
    ensures Trim(s) == "" <==> AllSpace(s)
  {
    var t := TrimStart(s);
    TrimStartEmpty(s);
    if t != "" {
      TrimStartFirst(s);
      TrimEndKeepsFirst(t);
    }
  }

  lemma {:induction false} TrimStartFirst(s: string)
    requires TrimStart(s) != ""
    ensures !IsJsSpace(TrimStart(s)[0])
  {
    if s != [] && IsJsSpace(s[0]) {
      TrimStartFirst(s[1..]);
    }
  }

  /** Text that the collector keeps. */
  predicate NonBlank(s: string) {
    Trim(s) != ""
  }

  /** The nodes of `walk` whose text is non-blank, in the order of `walk`. */
  function Keep(walk: seq<nat>, texts: seq<string>): (r: seq<nat>)
    requires forall j :: 0 <= j < |walk| ==> walk[j] < |texts|
  {
    if walk == [] then []
    else
      var last := walk[|walk| - 1];
      Keep(walk[..|walk| - 1], texts) + (if NonBlank(texts[last]) then [last] else [])
  }

  /** `Keep` is the sub-sequence of non-blank nodes: it keeps the order, drops
      only blank nodes and keeps every non-blank one. */
  lemma KeepFacts(walk: seq<nat>, texts: seq<string>)
    requires forall j :: 0 <= j < |walk| ==> walk[j] < |texts|
    requires forall a, b :: 0 <= a < b < |walk| ==> walk[a] < walk[b]
    ensures var r := Keep(walk, texts);
      && (forall j :: 0 <= j < |r| ==> r[j] in walk && NonBlank(texts[r[j]]))
      && (forall a, b :: 0 <= a < b < |r| ==> r[a] < r[b])
      && (forall m :: m in walk && NonBlank(texts[m]) ==> m in r)
  {
    KeepKept(walk, texts);
    KeepOrdered(walk, texts);
    KeepAll(walk, texts);
  }

  lemma {:induction false} KeepKept(walk: seq<nat>, texts: seq<string>)
    requires forall j :: 0 <= j < |walk| ==> walk[j] < |texts|
    ensures forall x :: x in Keep(walk, texts) ==> x in walk && NonBlank(texts[x])
  {
    if walk != [] {
      var init, last := walk[..|walk| - 1], walk[|walk| - 1];
      KeepKept(init, texts);
      assert walk == init + [last];
      assert Keep(walk, texts) == Keep(init, texts) + (if NonBlank(texts[last]) then [last] else []);
    }
  }

  lemma {:induction false} KeepOrdered(walk: seq<nat>, texts: seq<string>)
    requires forall j :: 0 <= j < |walk| ==> walk[j] < |texts|
    requires forall a, b :: 0 <= a < b < |walk| ==> walk[a] < walk[b]
    ensures forall a, b :: 0 <= a < b < |Keep(walk, texts)| ==> Keep(walk, texts)[a] < Keep(walk, texts)[b]
  {
    if walk != [] {
      var init := walk[..|walk| - 1];
      var last := walk[|walk| - 1];
      KeepOrdered(init, texts);
      KeepKept(init, texts);
      var r0 := Keep(init, texts);
      var r := Keep(walk, texts);
      assert r == r0 + (if NonBlank(texts[last]) then [last] else []);
      forall j | 0 <= j < |r0| ensures r0[j] < last {
        assert r0[j] in r0;
        var a :| 0 <= a < |init| && init[a] == r0[j];
      }
      forall a, b | 0 <= a < b < |r| ensures r[a] < r[b] {
        assert r[a] == r0[a];
        if b < |r0| {
          assert r[b] == r0[b];
        } else {
          assert r[b] == last && r0[a] < last;
        }
      }
    }
  }

  lemma {:induction false} KeepAll(walk: seq<nat>, texts: seq<string>)
    requires forall j :: 0 <= j < |walk| ==> walk[j] < |texts|
    ensures var r := Keep(walk, texts);
      forall m :: m in walk && NonBlank(texts[m]) ==> m in r
  {
    if walk != [] {
      var init := walk[..|walk| - 1];
      var last := walk[|walk| - 1];
      KeepAll(init, texts);
      assert walk == init + [last];
      forall m | m in walk && NonBlank(texts[m]) ensures m in Keep(walk, texts) {
        if m != last {
          assert m in init;
        }
      }
    }
  }

  /** The filtering loop: the nodes of `walk` with non-blank text, in order. */
  method KeepNonBlank(walk: seq<nat>, texts: seq<string>) returns (kept: seq<nat>)
    requires forall j :: 0 <= j < |walk| ==> walk[j] < |texts|
    ensures kept == Keep(walk, texts)
  {
    kept := [];
    var i := 0;
    while i < |walk|
      invariant 0 <= i <= |walk|
      invariant kept == Keep(walk[..i], texts)
    {
      var node := walk[i];
      assert walk[..i + 1][..i] == walk[..i];
      if NonBlank(texts[node]) {
        kept := kept + [node];
      }
      i := i + 1;
    }
    assert walk[..i] == walk;
  }

  /** The text of every slot of the document. */
  function Texts(runs: seq<Run>): (t: seq<string>)
    ensures |t| == |runs|
    ensures forall k :: 0 <= k < |runs| ==> t[k] == NodeText(runs[k])
  {
    seq(|runs|, k requires 0 <= k < |runs| => NodeText(runs[k]))
  }

  /** The text nodes a search works on: those the walker returns whose
      trimmed text is non-empty. They are slots of the page, in document
      order. */
  function SearchNodes(body: Tree, runs: seq<Run>): (nodes: seq<nat>)
    requires body.Element? && |runs| == TextCount(body.children)
    ensures forall j :: 0 <= j < |nodes| ==> nodes[j] < |runs|
    ensures forall a, b :: 0 <= a < b < |nodes| ==> nodes[a] < nodes[b]
  {
    var texts := Texts(runs);
    var walk := WalkerNodes(body);
    KeepFacts(walk, texts);
    Keep(walk, texts)
  }

  /** Each node a search works on is accepted by the filter and non-blank,
      and every accepted non-blank node is among them. */
  lemma SearchNodesFilter(body: Tree, runs: seq<Run>)
    requires body.Element? && |runs| == TextCount(body.children)
    ensures var nodes := SearchNodes(body, runs);
      && (forall j :: 0 <= j < |nodes| ==>
            AcceptNode(BodyTextParents(body)[nodes[j]]) && NonBlank(NodeText(runs[nodes[j]])))
      && (forall k :: 0 <= k < |runs| ==>
            (AcceptNode(BodyTextParents(body)[k]) && NonBlank(NodeText(runs[k])) ==> k in nodes))
  {
    var ps, walk, texts := BodyTextParents(body), WalkerNodes(body), Texts(runs);
    KeepFacts(walk, texts);
    var nodes := Keep(walk, texts);
    assert nodes == SearchNodes(body, runs);
    forall j | 0 <= j < |nodes| ensures AcceptNode(ps[nodes[j]]) && NonBlank(NodeText(runs[nodes[j]])) {
      var a :| 0 <= a < |walk| && walk[a] == nodes[j];
      assert texts[nodes[j]] == NodeText(runs[nodes[j]]);
    }
    forall k | 0 <= k < |runs| && AcceptNode(ps[k]) && NonBlank(NodeText(runs[k])) ensures k in nodes {
      assert k in walk;
      assert NonBlank(texts[k]);
    }
  }

  /** The collection loop of `performTextSearch`: each node the walker
      returns is kept when its trimmed text is non-empty. */
  method CollectTextNodes(doc: Document) returns (textNodes: seq<nat>)
    requires doc.body.Element? && |doc.runs| == TextCount(doc.body.children)
    ensures textNodes == SearchNodes(doc.body, doc.runs)
  {
    var texts := Texts(doc.runs);
    var walk := WalkerNodes(doc.body);
    textNodes := KeepNonBlank(walk, texts);
  }
}
