/** Moving through the results, and the choice each key makes between a
    new search and moving to the next or previous match. */
module Navigation {

  /** JavaScript's `a / n` truncated toward zero. */
  function TruncDiv(a: int, n: int): int
    requires n > 0
  {
    if a >= 0 then a / n else -((-a) / n)
  }

  /** JavaScript's `a % n`: what is left of `a` after taking away `n` times
      the quotient truncated toward zero, so the remainder takes the sign of
      `a` and is smaller than `n` in size. */
  function JsRem(a: int, n: int): (r: int)
    requires n > 0
    ensures a == n * TruncDiv(a, n) + r
    ensures -n < r < n
    ensures a >= 0 ==> r >= 0
    ensures a <= 0 ==> r <= 0
  {
    if a >= 0 then a % n else -((-a) % n)
  }

  /** Below `2 * n` the remainder subtracts `n` at most once. */
  lemma ModRange(a: int, n: int)
    requires n > 0 && 0 <= a < 2 * n
    ensures a % n == if a < n then a else a - n
  {
    if a < n {
      assert a == n * 0 + a;
    } else {
      assert a == n * 1 + (a - n);
    }
  }

  /** `findNext`: `(currentMatchIndex + 1) % matches.length`. */
  function NextIndex(i: int, n: int): int
    requires n > 0
  {
    JsRem(i + 1, n)
  }

  /** `findPrev`: `(currentMatchIndex - 1 + matches.length) % matches.length`. */
  function PrevIndex(i: int, n: int): int
    requires n > 0
  {
    JsRem(i - 1 + n, n)
  }

  /** From a valid index, or from -1 (no match chosen yet), both moves land
      on a valid index: the next one after `i`, wrapping from the last to
      the first, and the one before it, wrapping from the first to the
      last; from -1 `findPrev` goes to the last but one (to 0 when there is
      a single match). */
  lemma MovesInRange(i: int, n: int)
    requires n > 0 && -1 <= i < n
    ensures 0 <= NextIndex(i, n) < n
    ensures 0 <= PrevIndex(i, n) < n
    ensures NextIndex(i, n) == if i == n - 1 then 0 else i + 1
    ensures PrevIndex(i, n) == if i == 0 then n - 1 else if i == -1 && n == 1 then 0 else if i == -1 then n - 2 else i - 1
  {
    ModRange(i + 1, n);
    if i == -1 && n == 1 {
      assert PrevIndex(i, n) == -((1) % 1);
    } else {
      ModRange(i - 1 + n, n);
    }
  }

  /** `findPrev` undoes `findNext` and the other way round. */
  lemma PrevUndoesNext(i: int, n: int)
    requires n > 0 && 0 <= i < n
    ensures PrevIndex(NextIndex(i, n), n) == i
    ensures NextIndex(PrevIndex(i, n), n) == i
  {
    MovesInRange(i, n);
    MovesInRange(NextIndex(i, n), n);
    MovesInRange(PrevIndex(i, n), n);
  }

  /** The index after `k` calls of `findNext` from `i`. */
  function NextTimes(i: int, n: int, k: nat): int
    requires n > 0
  {
    if k == 0 then i else NextIndex(NextTimes(i, n, k - 1), n)
  }

  /** Up to `n` steps forward from a valid index count on from `i`, wrapping
      once past the last match. */
  lemma {:induction false} NextTimesWrap(i: int, n: int, k: nat)
    requires n > 0 && 0 <= i < n && k <= n
    ensures NextTimes(i, n, k) == if i + k < n then i + k else i + k - n
  {
    if k > 0 {
      NextTimesWrap(i, n, k - 1);
      MovesInRange(NextTimes(i, n, k - 1), n);
    }
  }

  /** `matches.length` calls of `findNext` come back to where they started. */
  lemma NextCycle(i: int, n: int)
    requires n > 0 && 0 <= i < n
    ensures NextTimes(i, n, n) == i
  {
    NextTimesWrap(i, n, n);
  }

  // ---------------------------------------------------------------------
  // What a key does.

  /** What a handler ends up doing. */
  datatype Action = NoAction | Search | Next | Prev

  const EnterKey: string := "Enter"
  const EscapeKey: string := "Escape"
  const F3Key: string := "F3"
  const F4Key: string := "F4"

  /** The search box's `Enter` rule: a new search when there are no results
      or the text in the box is not the one last searched for, otherwise the
      previous match with Shift and the next one without. */
  function InputEnter(matchCount: nat, current: string, last: string, shift: bool): (a: Action)
    ensures a != NoAction
    ensures a == Search <==> matchCount == 0 || current != last
    ensures a == Prev <==> matchCount > 0 && current == last && shift
    ensures a == Next <==> matchCount > 0 && current == last && !shift
  {
    if matchCount == 0 || current != last then Search
    else if shift then Prev
    else Next
  }

  /** The search box's key listener. */
  function InputKey(key: string, matchCount: nat, current: string, last: string, shift: bool): (a: Action)
    ensures key != EnterKey ==> a == NoAction
    ensures key == EnterKey ==> a == InputEnter(matchCount, current, last, shift)
  {
    if key == EnterKey then InputEnter(matchCount, current, last, shift) else NoAction
  }

  /** The panel's key listener, for a key that reached the panel from
      `fromInput` (the search box) or from elsewhere in it: `Escape` hides
      the panel and clears the highlights (`closes`), and `Enter` searches
      unless it came from the search box. */
  datatype PanelReaction = PanelReaction(closes: bool, action: Action)

  function PanelKey(key: string, fromInput: bool): (p: PanelReaction)
    ensures p.closes <==> key == EscapeKey
    ensures p.action == Search <==> key == EnterKey && !fromInput
    ensures p.action in {NoAction, Search}
  {
    PanelReaction(key == EscapeKey, if key == EnterKey && !fromInput then Search else NoAction)
  }

  /** `Enter` is handled by exactly one of the two listeners: pressed in the
      search box, the box's rule decides and the panel does nothing more
      (the event bubbles up to it); pressed elsewhere in the panel, the
      panel searches. */
  lemma EnterHandledOnce(fromInput: bool, matchCount: nat, current: string, last: string, shift: bool)
    ensures var box := if fromInput then InputKey(EnterKey, matchCount, current, last, shift) else NoAction;
      var panel := PanelKey(EnterKey, fromInput);
      && (box == NoAction <==> !fromInput)
      && (panel.action == NoAction <==> fromInput)
      && !panel.closes
  {
  }

  /** The page's listener for `F3` and `F4`. With no panel nothing happens.
      Otherwise the panel is shown (`shows`) and, without results, a search
      starts; with results `F3` moves to the next match and `F4` to the
      previous one. Other keys are ignored. */
  datatype PageReaction = PageReaction(shows: bool, action: Action)

  function FunctionKey(key: string, panelExists: bool, matchCount: nat): (p: PageReaction)
    ensures !panelExists || (key != F3Key && key != F4Key) ==> p == PageReaction(false, NoAction)
    ensures panelExists && (key == F3Key || key == F4Key) ==> p.shows
    ensures panelExists && (key == F3Key || key == F4Key) && matchCount == 0 ==> p.action == Search
    ensures panelExists && key == F3Key && matchCount > 0 ==> p.action == Next
    ensures panelExists && key == F4Key && matchCount > 0 ==> p.action == Prev
  {
    if !panelExists then PageReaction(false, NoAction)
    else if key == F3Key then PageReaction(true, if matchCount == 0 then Search else Next)
    else if key == F4Key then PageReaction(true, if matchCount == 0 then Search else Prev)
    else PageReaction(false, NoAction)
  }

  /** A key only moves through the results when there are some, so a move
      a key asks for is never a no-op. */
  lemma MovesNeedResults(key: string, fromInput: bool, panelExists: bool, matchCount: nat,
                         current: string, last: string, shift: bool)
    ensures InputKey(key, matchCount, current, last, shift) in {Next, Prev} ==> matchCount > 0
    ensures FunctionKey(key, panelExists, matchCount).action in {Next, Prev} ==> matchCount > 0
  {
  }
}
