/** What `renderMatches` does to the overlay divs, as functions on the div
    list: the nested helpers `appendTextToDiv`, `beginText` and
    `highlightDiv`, one loop step per match (the text before the match, then
    the match itself), the closing append after the last match, and the fold
    over the rendered range. The lemmas state which divs change and how:
    untouched divs, the span classes a match produces, and that every div
    the loop rewrites still shows its item's full text. */
module MatchRendering {
  import opened Wrappers
  import opened JsStrings
  import opened TextLayerTypes

  /** `appendTextToDiv(n, from, to, cls)`: div `n` gains a text node holding
      `items[n].substring(from, to)`, inside a span of class `cls` if given.
      What this does to the divs is `AppendTextFacts`. */
  function AppendTextToDiv(divs: seq<Div>, items: seq<string>, n: nat, from: int, to: Option<int>, cls: Option<string>): (r: seq<Div>)
    requires n < |items| <= |divs|
    ensures |r| == |divs|
  {
    divs[n := divs[n].(pieces := divs[n].pieces + [Piece(Substring(items[n], from, to), cls)])]
  }

  /** `beginText(p, cls)`: div `p.divIdx` is emptied, then given the text of
      its item before `p.offset`. What this does to the divs is `BeginTextFacts`. */
  function BeginText(divs: seq<Div>, items: seq<string>, p: Pos, cls: Option<string>): (r: seq<Div>)
    requires p.divIdx < |items| <= |divs|
    ensures |r| == |divs|
  {
    var n := p.divIdx;
    AppendTextToDiv(divs[n := divs[n].(pieces := [])], items, n, 0, Some(p.offset), cls)
  }

  /** `appendTextToDiv` changes only div `n`, keeps its class and flags, and,
      for in-range offsets, extends its text by the item's characters from
      `from` to `to` (to the item's end for an undefined `to`). */
  lemma AppendTextFacts(divs: seq<Div>, items: seq<string>, n: nat, from: int, to: Option<int>, cls: Option<string>)
    requires n < |items| <= |divs|
    ensures var r := AppendTextToDiv(divs, items, n, from, to, cls);
      (forall d :: 0 <= d < |r| && d != n ==> r[d] == divs[d]) &&
      r[n].className == divs[n].className && r[n].isWhitespace == divs[n].isWhitespace &&
      r[n].positioned == divs[n].positioned &&
      (to.Some? && 0 <= from <= to.value <= |items[n]| ==>
         Text(r[n].pieces) == Text(divs[n].pieces) + items[n][from..to.value]) &&
      (to.None? && 0 <= from <= |items[n]| ==> Text(r[n].pieces) == Text(divs[n].pieces) + items[n][from..])
  {
    var p := Piece(Substring(items[n], from, to), cls);
    TextAppend(divs[n].pieces, p);
    if to.Some? && 0 <= from <= to.value <= |items[n]| {
      SubstringSlice(items[n], from, to.value);
    }
    if to.None? && 0 <= from <= |items[n]| {
      SubstringSlice(items[n], from, |items[n]|);
    }
  }

  /** `beginText` changes only div `p.divIdx`, keeps its class and flags, and,
      for an in-range offset, leaves it showing its item up to `p.offset`. */
  lemma BeginTextFacts(divs: seq<Div>, items: seq<string>, p: Pos, cls: Option<string>)
    requires p.divIdx < |items| <= |divs|
    ensures var r, n := BeginText(divs, items, p, cls), p.divIdx;
      (forall d :: 0 <= d < |r| && d != n ==> r[d] == divs[d]) &&
      r[n].className == divs[n].className && r[n].isWhitespace == divs[n].isWhitespace &&
      r[n].positioned == divs[n].positioned &&
      (0 <= p.offset <= |items[n]| ==> Text(r[n].pieces) == items[n][..p.offset])
  {
    var n := p.divIdx;
    var emptied := divs[n := divs[n].(pieces := [])];
    AppendTextFacts(emptied, items, n, 0, Some(p.offset), cls);
    if 0 <= p.offset <= |items[n]| {
      assert Text(emptied[n].pieces) == "";
      assert items[n][0..p.offset] == items[n][..p.offset];
    }
  }

  /** `highlightDiv(n, c)` for every `n` with `lo <= n < hi`. */
  function HighlightRange(divs: seq<Div>, lo: int, hi: int, c: string): (r: seq<Div>)
    ensures |r| == |divs|
  {
    seq(|divs|, k requires 0 <= k < |divs| => if lo <= k < hi then divs[k].(className := c) else divs[k])
  }

  /** The first half of a loop step: close the previous match's div and
      restart the match's begin div, or, when the match begins in the div
      where the previous one ended, append the text between the two. */
  function Lead(divs: seq<Div>, items: seq<string>, b: Pos, pe: Option<Pos>): (r: seq<Div>)
    requires b.divIdx < |items| <= |divs|
    requires pe.Some? ==> pe.value.divIdx < |items|
    ensures |r| == |divs|
  {
    if pe.None? || b.divIdx != pe.value.divIdx then
      var closed := if pe.Some? then AppendTextToDiv(divs, items, pe.value.divIdx, pe.value.offset, None, None) else divs;
      BeginText(closed, items, b, None)
    else
      AppendTextToDiv(divs, items, b.divIdx, pe.value.offset, Some(b.offset), None)
  }

  /** The second half of a loop step: the match's own spans and classes. */
  function Mark(divs: seq<Div>, items: seq<string>, m: Match, suffix: string): (r: seq<Div>)
    requires m.begin.divIdx <= m.end.divIdx < |items| <= |divs|
    ensures |r| == |divs|
  {
    var b, e := m.begin, m.end;
    if b.divIdx == e.divIdx then
      AppendTextToDiv(divs, items, b.divIdx, b.offset, Some(e.offset), Some("highlight" + suffix))
    else
      var head := AppendTextToDiv(divs, items, b.divIdx, b.offset, None, Some("highlight begin" + suffix));
      var middle := HighlightRange(head, b.divIdx + 1, e.divIdx, "highlight middle" + suffix);
      BeginText(middle, items, e, Some("highlight end" + suffix))
  }

  function Step(divs: seq<Div>, items: seq<string>, m: Match, pe: Option<Pos>, suffix: string): (r: seq<Div>)
    requires m.begin.divIdx <= m.end.divIdx < |items| <= |divs|
    requires pe.Some? ==> pe.value.divIdx < |items|
    ensures |r| == |divs|
  {
    Mark(Lead(divs, items, m.begin, pe), items, m, suffix)
  }

  /** After the loop: the rest of the last match's end div. */
  function CloseLast(divs: seq<Div>, items: seq<string>, pe: Option<Pos>): (r: seq<Div>)
    requires |items| <= |divs|
    requires pe.Some? ==> pe.value.divIdx < |items|
    ensures |r| == |divs|
  {
    if pe.Some? then AppendTextToDiv(divs, items, pe.value.divIdx, pe.value.offset, None, None) else divs
  }

  function Suffix(i: int, sel: int): string {
    if i == sel then " selected" else ""
  }

  /** The render loop from match `i` to `i1` (exclusive), `pe` being the
      previous match's end (`prevEnd`); `sel` is the selected match on the
      selected page and -1 elsewhere. */
  function Render(divs: seq<Div>, items: seq<string>, ms: seq<Match>, i: nat, i1: nat, pe: Option<Pos>, sel: int): (r: seq<Div>)
    requires i <= i1 <= |ms| && InRange(ms, |items|) && |items| <= |divs|
    requires pe.Some? ==> pe.value.divIdx < |items|
    ensures |r| == |divs|
    decreases i1 - i, 1
  {
    if i == i1 then CloseLast(divs, items, pe)
    else RenderNext(divs, items, ms, i, i1, pe, sel)
  }

  /** One round of the render loop on match `i`, then the rest of the loop. */
  function RenderNext(divs: seq<Div>, items: seq<string>, ms: seq<Match>, i: nat, i1: nat, pe: Option<Pos>, sel: int): (r: seq<Div>)
    requires i < i1 <= |ms| && InRange(ms, |items|) && |items| <= |divs|
    requires pe.Some? ==> pe.value.divIdx < |items|
    ensures |r| == |divs|
    decreases i1 - i, 0
  {
    Render(Step(divs, items, ms[i], pe, Suffix(i, sel)), items, ms, i + 1, i1, Some(ms[i].end), sel)
  }

  /** The loop on `i < i1` is the step for match `i`, then the loop from `i + 1`. */
  lemma RenderUnfold(divs: seq<Div>, items: seq<string>, ms: seq<Match>, i: nat, i1: nat, pe: Option<Pos>, sel: int)
    requires i < i1 <= |ms| && InRange(ms, |items|) && |items| <= |divs|
    requires pe.Some? ==> pe.value.divIdx < |items|
    ensures Render(divs, items, ms, i, i1, pe, sel) ==
      Render(Step(divs, items, ms[i], pe, Suffix(i, sel)), items, ms, i + 1, i1, Some(ms[i].end), sel)
  {
    assert Render(divs, items, ms, i, i1, pe, sel) == RenderNext(divs, items, ms, i, i1, pe, sel);
  }

  /** The loop state of `renderMatches`: the divs `divs` at match `i`,
      with previous end `pe`, finish as the loop from `i0` on `start` does. */
  predicate RenderResumes(start: seq<Div>, divs: seq<Div>, items: seq<string>, ms: seq<Match>, i0: nat, i: nat, i1: nat, pe: Option<Pos>, sel: int)
  {
    i0 <= i <= i1 <= |ms| && InRange(ms, |items|) && |items| <= |start| && |items| <= |divs| &&
    (pe.Some? ==> pe.value.divIdx < |items|) &&
    Render(divs, items, ms, i, i1, pe, sel) == Render(start, items, ms, i0, i1, None, sel)
  }

  /** One step of the render loop: the step for match `i`, taking `divs` to
      `next`, keeps the state, now at match `i + 1` with `ms[i]`'s end. */
  lemma RenderAdvance(start: seq<Div>, divs: seq<Div>, next: seq<Div>, items: seq<string>, ms: seq<Match>,
                      i0: nat, i: nat, i1: nat, pe: Option<Pos>, sel: int, j: nat, pj: Option<Pos>)
    requires i0 <= i < i1 <= |ms| && InRange(ms, |items|) && |items| <= |start| && |items| <= |divs|
    requires pe.Some? ==> pe.value.divIdx < |items|
    requires RenderResumes(start, divs, items, ms, i0, i, i1, pe, sel)
    requires next == Mark(Lead(divs, items, ms[i].begin, pe), items, ms[i], Suffix(i, sel))
    requires j == i + 1 && pj == Some(ms[i].end)
    ensures |items| <= |next| && RenderResumes(start, next, items, ms, i0, j, i1, pj, sel)
  {
    assert Step(divs, items, ms[i], pe, Suffix(i, sel)) == next;
    assert Render(divs, items, ms, i, i1, pe, sel) == RenderNext(divs, items, ms, i, i1, pe, sel);
  }

  /** The end of the render loop: the closing append gives the whole loop. */
  lemma RenderFinish(start: seq<Div>, divs: seq<Div>, items: seq<string>, ms: seq<Match>, i0: nat, i1: nat, pe: Option<Pos>, sel: int)
    requires i0 <= i1 <= |ms| && InRange(ms, |items|) && |items| <= |start| && |items| <= |divs|
    requires pe.Some? ==> pe.value.divIdx < |items|
    requires RenderResumes(start, divs, items, ms, i0, i1, i1, pe, sel)
    ensures CloseLast(divs, items, pe) == Render(start, items, ms, i0, i1, None, sel)
  {
  }

  /** The loop range `renderMatches` picks, `[i0, i1)`: all matches with
      highlight-all, else only the selected one on the selected page. */
  predicate LoopRange(ms: seq<Match>, ctrl: Option<FindController>, pageIdx: int, i0: int, i1: int) {
    |ms| > 0 && (HighlightAll(ctrl) || IsSelectedPage(ctrl, pageIdx)) &&
    (HighlightAll(ctrl) ==> i0 == 0 && i1 == |ms|) &&
    (!HighlightAll(ctrl) ==> i0 == SelectedMatchIdx(ctrl) && i1 == i0 + 1)
  }

  /** Over its loop range, `renderMatches` is the render loop from `None`. */
  lemma RenderedRange(divs: seq<Div>, items: seq<string>, ms: seq<Match>, ctrl: Option<FindController>, pageIdx: int, i0: int, i1: int)
    requires InRange(ms, |items|) && |items| <= |divs| && SelectionValid(ctrl, pageIdx, |ms|)
    requires LoopRange(ms, ctrl, pageIdx, i0, i1)
    ensures 0 <= i0 <= i1 <= |ms|
    ensures RenderedDivs(divs, items, ms, ctrl, pageIdx) == Render(divs, items, ms, i0, i1, None, SelectedFor(ctrl, pageIdx))
  {
    if HighlightAll(ctrl) {
      RenderedAll(divs, items, ms, ctrl, pageIdx);
    } else {
      RenderedSelected(divs, items, ms, ctrl, pageIdx, i0);
    }
  }

  /** With highlight-all every match is rendered. */
  lemma RenderedAll(divs: seq<Div>, items: seq<string>, ms: seq<Match>, ctrl: Option<FindController>, pageIdx: int)
    requires InRange(ms, |items|) && |items| <= |divs| && SelectionValid(ctrl, pageIdx, |ms|)
    requires |ms| > 0 && HighlightAll(ctrl)
    ensures RenderedDivs(divs, items, ms, ctrl, pageIdx) == Render(divs, items, ms, 0, |ms|, None, SelectedFor(ctrl, pageIdx))
  { }

  /** Otherwise, on the selected page, only the selected match is. */
  lemma RenderedSelected(divs: seq<Div>, items: seq<string>, ms: seq<Match>, ctrl: Option<FindController>, pageIdx: int, k: nat)
    requires InRange(ms, |items|) && |items| <= |divs| && k < |ms|
    requires !HighlightAll(ctrl) && IsSelectedPage(ctrl, pageIdx) && k == SelectedMatchIdx(ctrl)
    ensures RenderedDivs(divs, items, ms, ctrl, pageIdx) == Render(divs, items, ms, k, k + 1, None, k)
  { }

  /** Over its loop range, the scroll list of `renderMatches`. */
  lemma ScrolledRange(ms: seq<Match>, ctrl: Option<FindController>, pageIdx: int, i0: int, i1: int, presentation: bool)
    requires SelectionValid(ctrl, pageIdx, |ms|) && LoopRange(ms, ctrl, pageIdx, i0, i1)
    ensures 0 <= i0 <= i1 <= |ms|
    ensures Scrolled(ms, ctrl, pageIdx, presentation) == ScrollsIn(ms, i0, i1, SelectedFor(ctrl, pageIdx), presentation)
  {
  }

  /** One step of the scroll list, from `hi` to `next`, one match further:
      `cur` was the list at `hi`, and `now` gains the match's begin div when
      `scrolls` says the match at `hi` is scrolled to. */
  lemma ScrollsAdvance(ms: seq<Match>, lo: nat, hi: nat, next: nat, sel: int, presentation: bool,
                       before: seq<nat>, cur: seq<nat>, scrolls: bool, now: seq<nat>)
    requires lo <= hi < |ms| && next == hi + 1
    requires cur == before + ScrollsIn(ms, lo, hi, sel, presentation)
    requires scrolls == (hi == sel && !presentation)
    requires now == if scrolls then cur + [ms[hi].begin.divIdx] else cur
    ensures now == before + ScrollsIn(ms, lo, next, sel, presentation)
  {
  }

  /** The selected match index as `isSelected` sees it: -1 off the selected page. */
  function SelectedFor(ctrl: Option<FindController>, pageIdx: int): int {
    if IsSelectedPage(ctrl, pageIdx) then SelectedMatchIdx(ctrl) else -1
  }

  /** Without highlight-all, on the selected page, `matches[selectedMatchIdx]`
      must exist: the source reads its `begin` unguarded. */
  predicate SelectionValid(ctrl: Option<FindController>, pageIdx: int, n: nat) {
    n > 0 && !HighlightAll(ctrl) && IsSelectedPage(ctrl, pageIdx) ==> 0 <= SelectedMatchIdx(ctrl) < n
  }

  /** Whether match `k` is inside the loop range `[i0, i1)`. */
  predicate IsRendered(ctrl: Option<FindController>, pageIdx: int, k: int) {
    HighlightAll(ctrl) || (IsSelectedPage(ctrl, pageIdx) && k == SelectedMatchIdx(ctrl))
  }

  function HighlightSuffix(ctrl: Option<FindController>, pageIdx: int, k: int): string {
    if IsSelectedPage(ctrl, pageIdx) && k == SelectedMatchIdx(ctrl) then " selected" else ""
  }

  /** The divs after `renderMatches(ms)`. */
  function RenderedDivs(divs: seq<Div>, items: seq<string>, ms: seq<Match>, ctrl: Option<FindController>, pageIdx: int): (r: seq<Div>)
    requires InRange(ms, |items|) && |items| <= |divs| && SelectionValid(ctrl, pageIdx, |ms|)
    ensures |r| == |divs|
  {
    var sel := SelectedFor(ctrl, pageIdx);
    if |ms| == 0 then divs
    else if HighlightAll(ctrl) then Render(divs, items, ms, 0, |ms|, None, sel)
    else if !IsSelectedPage(ctrl, pageIdx) then divs
    else Render(divs, items, ms, sel, sel + 1, None, sel)
  }

  /** The `scrollIntoView` calls of the loop from `lo` to `hi`: the begin div
      of the selected match, unless in presentation mode. */
  function ScrollsIn(ms: seq<Match>, lo: nat, hi: nat, sel: int, presentation: bool): seq<nat>
    requires lo <= hi <= |ms|
    decreases hi
  {
    if hi == lo then []
    else ScrollsIn(ms, lo, hi - 1, sel, presentation) +
         (if hi - 1 == sel && !presentation then [ms[hi - 1].begin.divIdx] else [])
  }

  function Scrolled(ms: seq<Match>, ctrl: Option<FindController>, pageIdx: int, presentation: bool): seq<nat>
    requires SelectionValid(ctrl, pageIdx, |ms|)
  {
    var sel := SelectedFor(ctrl, pageIdx);
    if |ms| == 0 then []
    else if HighlightAll(ctrl) then ScrollsIn(ms, 0, |ms|, sel, presentation)
    else if !IsSelectedPage(ctrl, pageIdx) then []
    else ScrollsIn(ms, sel, sel + 1, sel, presentation)
  }

  /** The loop scrolls at most once: to the selected match's begin div. */
  lemma {:induction false} ScrollsInSelected(ms: seq<Match>, lo: nat, hi: nat, sel: int, presentation: bool)
    requires lo <= hi <= |ms|
    ensures ScrollsIn(ms, lo, hi, sel, presentation)
         == if lo <= sel < hi && !presentation then [ms[sel].begin.divIdx] else []
    decreases hi
  {
    if hi > lo {
      ScrollsInSelected(ms, lo, hi - 1, sel, presentation);
    }
  }

  /** `renderMatches` scrolls exactly when the selected match of the selected
      page exists and the viewer is not in presentation mode, and then to
      that match's begin div. */
  lemma ScrolledOnlySelected(ms: seq<Match>, ctrl: Option<FindController>, pageIdx: int, presentation: bool)
    requires SelectionValid(ctrl, pageIdx, |ms|)
    ensures Scrolled(ms, ctrl, pageIdx, presentation)
         == if IsSelectedPage(ctrl, pageIdx) && 0 <= SelectedMatchIdx(ctrl) < |ms| && !presentation
            then [ms[SelectedMatchIdx(ctrl)].begin.divIdx] else []
  {
    var sel := SelectedFor(ctrl, pageIdx);
    if |ms| > 0 {
      if HighlightAll(ctrl) {
        ScrollsInSelected(ms, 0, |ms|, sel, presentation);
      } else if IsSelectedPage(ctrl, pageIdx) {
        ScrollsInSelected(ms, sel, sel + 1, sel, presentation);
      }
    }
  }

  // ---------------------------------------------------------------------
  // Which divs the loop leaves alone.
  // ---------------------------------------------------------------------

  /** The previous match's end, when there is one, is `ms[i - 1].end`. */
  predicate FoldFrom(ms: seq<Match>, i: nat, i1: nat, pe: Option<Pos>) {
    i <= i1 <= |ms| && (pe.Some? ==> 0 < i && pe.value == ms[i - 1].end)
  }

  /** A div outside the spans of the remaining matches, and not the div of
      the previous match's end, is not changed by the rest of the loop. */
  lemma {:induction false} RenderUntouched(divs: seq<Div>, items: seq<string>, ms: seq<Match>, i: nat, i1: nat, pe: Option<Pos>, sel: int, d: nat)
    requires i <= i1 <= |ms| && InRange(ms, |items|) && |items| <= |divs|
    requires pe.Some? ==> pe.value.divIdx < |items|
    requires d < |divs| && (pe.Some? ==> d != pe.value.divIdx)
    requires forall k :: i <= k < i1 ==> !(ms[k].begin.divIdx <= d <= ms[k].end.divIdx)
    ensures Render(divs, items, ms, i, i1, pe, sel)[d] == divs[d]
    decreases i1 - i
  {
    if i < i1 {
      var s := Step(divs, items, ms[i], pe, Suffix(i, sel));
      RenderUnfold(divs, items, ms, i, i1, pe, sel);
      assert Render(divs, items, ms, i, i1, pe, sel) == Render(s, items, ms, i + 1, i1, Some(ms[i].end), sel);
      StepUntouched(divs, items, ms[i], pe, Suffix(i, sel), d);
      RenderUntouched(s, items, ms, i + 1, i1, Some(ms[i].end), sel, d);
    } else {
      assert Render(divs, items, ms, i, i1, pe, sel) == CloseLast(divs, items, pe);
    }
  }

  /** One loop step changes no div outside its match's span other than the
      previous match's end div. */
  lemma StepUntouched(divs: seq<Div>, items: seq<string>, m: Match, pe: Option<Pos>, suffix: string, d: nat)
    requires m.begin.divIdx <= m.end.divIdx < |items| <= |divs|
    requires pe.Some? ==> pe.value.divIdx < |items|
    requires d < |divs| && (pe.Some? ==> d != pe.value.divIdx) && !(m.begin.divIdx <= d <= m.end.divIdx)
    ensures Step(divs, items, m, pe, suffix)[d] == divs[d]
  {
    var lead := Lead(divs, items, m.begin, pe);
    assert lead[d] == divs[d];
  }

  /** The div of the previous match's end is only ever appended to: its
      pieces so far stay a prefix of its final pieces and its class stays. */
  lemma {:induction false} RenderExtends(divs: seq<Div>, items: seq<string>, ms: seq<Match>, i: nat, i1: nat, pe: Option<Pos>, sel: int)
    requires FoldFrom(ms, i, i1, pe) && InRange(ms, |items|) && Chained(ms) && |items| <= |divs|
    requires pe.Some?
    ensures var r := Render(divs, items, ms, i, i1, pe, sel);
      divs[pe.value.divIdx].pieces <= r[pe.value.divIdx].pieces &&
      r[pe.value.divIdx].className == divs[pe.value.divIdx].className
    decreases i1 - i
  {
    var p := pe.value.divIdx;
    if i < i1 {
      var m := ms[i];
      var s := Step(divs, items, m, pe, Suffix(i, sel));
      RenderUnfold(divs, items, ms, i, i1, pe, sel);
      assert ms[i - 1].end.divIdx <= m.begin.divIdx;
      StepExtends(divs, items, m, pe, Suffix(i, sel));
      if p == m.end.divIdx {
        RenderExtends(s, items, ms, i + 1, i1, Some(m.end), sel);
      } else {
        forall k | i + 1 <= k < i1 ensures !(ms[k].begin.divIdx <= p <= ms[k].end.divIdx) {
          assert m.end.divIdx <= ms[k].begin.divIdx;
        }
        RenderUntouched(s, items, ms, i + 1, i1, Some(m.end), sel, p);
      }
    }
  }

  /** One loop step only appends to the previous end div and keeps its class. */
  lemma StepExtends(divs: seq<Div>, items: seq<string>, m: Match, pe: Option<Pos>, suffix: string)
    requires m.begin.divIdx <= m.end.divIdx < |items| <= |divs|
    requires pe.Some? && pe.value.divIdx <= m.begin.divIdx
    ensures var s, p := Step(divs, items, m, pe, suffix), pe.value.divIdx;
      divs[p].pieces <= s[p].pieces && s[p].className == divs[p].className
  {
    var p := pe.value.divIdx;
    var lead := Lead(divs, items, m.begin, pe);
    assert divs[p].pieces <= lead[p].pieces && lead[p].className == divs[p].className;
    if m.begin.divIdx != m.end.divIdx && p == m.begin.divIdx {
      var head := AppendTextToDiv(lead, items, m.begin.divIdx, m.begin.offset, None, Some("highlight begin" + suffix));
      assert Step(divs, items, m, pe, suffix)[p].pieces == head[p].pieces;
    }
  }

  /** What one loop step does to the divs of its match. */
  lemma StepFacts(divs: seq<Div>, items: seq<string>, m: Match, pe: Option<Pos>, suffix: string)
    requires m.begin.divIdx <= m.end.divIdx < |items| <= |divs|
    requires pe.Some? ==> pe.value.divIdx <= m.begin.divIdx
    ensures var s, lead, b, e := Step(divs, items, m, pe, suffix), Lead(divs, items, m.begin, pe), m.begin, m.end;
      (b.divIdx == e.divIdx ==>
         s[b.divIdx].pieces == lead[b.divIdx].pieces + [Piece(Substring(items[b.divIdx], b.offset, Some(e.offset)), Some("highlight" + suffix))]) &&
      (b.divIdx < e.divIdx ==>
         s[b.divIdx].pieces == lead[b.divIdx].pieces + [Piece(Substring(items[b.divIdx], b.offset, None), Some("highlight begin" + suffix))] &&
         s[e.divIdx].pieces == [Piece(Substring(items[e.divIdx], 0, Some(e.offset)), Some("highlight end" + suffix))] &&
         forall n :: b.divIdx < n < e.divIdx ==> s[n] == divs[n].(className := "highlight middle" + suffix))
  {
    var lead := Lead(divs, items, m.begin, pe);
    var b, e := m.begin, m.end;
    if b.divIdx < e.divIdx {
      var head := AppendTextToDiv(lead, items, b.divIdx, b.offset, None, Some("highlight begin" + suffix));
      var middle := HighlightRange(head, b.divIdx + 1, e.divIdx, "highlight middle" + suffix);
      assert Step(divs, items, m, pe, suffix) == BeginText(middle, items, e, Some("highlight end" + suffix));
      forall n | b.divIdx < n < e.divIdx ensures middle[n] == divs[n].(className := "highlight middle" + suffix) {
        assert lead[n] == divs[n];
      }
    }
  }

  // ---------------------------------------------------------------------
  // The spans a match produces.
  // ---------------------------------------------------------------------

  /** A match inside one div leaves, in that div, one span holding exactly
      the matched substring, of class "highlight" plus the suffix. */
  lemma {:induction false} RenderSingleSpan(divs: seq<Div>, items: seq<string>, ms: seq<Match>, i: nat, i1: nat, pe: Option<Pos>, sel: int, k: nat)
    requires FoldFrom(ms, i, i1, pe) && InRange(ms, |items|) && Chained(ms) && |items| <= |divs|
    requires i <= k < i1 && ms[k].begin.divIdx == ms[k].end.divIdx
    ensures var b, e := ms[k].begin, ms[k].end;
      Piece(Substring(items[b.divIdx], b.offset, Some(e.offset)), Some("highlight" + Suffix(k, sel)))
        in Render(divs, items, ms, i, i1, pe, sel)[b.divIdx].pieces
    decreases i1 - i
  {
    var s := Step(divs, items, ms[i], pe, Suffix(i, sel));
    RenderUnfold(divs, items, ms, i, i1, pe, sel);
    if pe.Some? {
      assert ms[i - 1].end.divIdx <= ms[i].begin.divIdx;
    }
    if k == i {
      var b, e := ms[k].begin, ms[k].end;
      var piece := Piece(Substring(items[b.divIdx], b.offset, Some(e.offset)), Some("highlight" + Suffix(k, sel)));
      StepFacts(divs, items, ms[i], pe, Suffix(i, sel));
      assert piece == s[b.divIdx].pieces[|s[b.divIdx].pieces| - 1];
      RenderExtends(s, items, ms, i + 1, i1, Some(ms[i].end), sel);
      var r := Render(s, items, ms, i + 1, i1, Some(ms[i].end), sel);
      assert s[b.divIdx].pieces == r[b.divIdx].pieces[..|s[b.divIdx].pieces|];
      assert piece == r[b.divIdx].pieces[|s[b.divIdx].pieces| - 1];
    } else {
      RenderSingleSpan(s, items, ms, i + 1, i1, Some(ms[i].end), sel, k);
    }
  }

  predicate EndsWith(ps: seq<Piece>, p: Piece) {
    |ps| > 0 && ps[|ps| - 1] == p
  }

  /** A match over several divs ends its head div with a "highlight begin"
      span holding the head item from the begin offset on. */
  lemma {:induction false} RenderBeginSpan(divs: seq<Div>, items: seq<string>, ms: seq<Match>, i: nat, i1: nat, pe: Option<Pos>, sel: int, k: nat)
    requires FoldFrom(ms, i, i1, pe) && InRange(ms, |items|) && Chained(ms) && |items| <= |divs|
    requires i <= k < i1 && ms[k].begin.divIdx < ms[k].end.divIdx
    ensures var b := ms[k].begin;
      EndsWith(Render(divs, items, ms, i, i1, pe, sel)[b.divIdx].pieces,
               Piece(Substring(items[b.divIdx], b.offset, None), Some("highlight begin" + Suffix(k, sel))))
    decreases i1 - i
  {
    if k == i {
      BeginSpanHere(divs, items, ms, i, i1, pe, sel);
    } else {
      var s := Step(divs, items, ms[i], pe, Suffix(i, sel));
      RenderUnfold(divs, items, ms, i, i1, pe, sel);
      RenderBeginSpan(s, items, ms, i + 1, i1, Some(ms[i].end), sel, k);
    }
  }

  /** The step of `RenderBeginSpan` for the match the loop is at. */
  lemma BeginSpanHere(divs: seq<Div>, items: seq<string>, ms: seq<Match>, i: nat, i1: nat, pe: Option<Pos>, sel: int)
    requires FoldFrom(ms, i, i1, pe) && InRange(ms, |items|) && Chained(ms) && |items| <= |divs|
    requires i < i1 && ms[i].begin.divIdx < ms[i].end.divIdx
    ensures var b := ms[i].begin;
      EndsWith(Render(divs, items, ms, i, i1, pe, sel)[b.divIdx].pieces,
               Piece(Substring(items[b.divIdx], b.offset, None), Some("highlight begin" + Suffix(i, sel))))
  {
    var m := ms[i];
    var s := Step(divs, items, m, pe, Suffix(i, sel));
    RenderUnfold(divs, items, ms, i, i1, pe, sel);
    if pe.Some? {
      assert ms[i - 1].end.divIdx <= m.begin.divIdx;
    }
    StepFacts(divs, items, m, pe, Suffix(i, sel));
    forall h | i + 1 <= h < i1 ensures !(ms[h].begin.divIdx <= m.begin.divIdx <= ms[h].end.divIdx) {
      assert m.end.divIdx <= ms[h].begin.divIdx;
    }
    RenderUntouched(s, items, ms, i + 1, i1, Some(m.end), sel, m.begin.divIdx);
  }

  /** An interior div of a match over several divs only gets the class
      "highlight middle" plus the suffix; its pieces stay as they were. */
  lemma {:induction false} RenderMiddleDiv(divs: seq<Div>, items: seq<string>, ms: seq<Match>, i: nat, i1: nat, pe: Option<Pos>, sel: int, k: nat, n: nat)
    requires FoldFrom(ms, i, i1, pe) && InRange(ms, |items|) && Chained(ms) && |items| <= |divs|
    requires i <= k < i1 && ms[k].begin.divIdx < n < ms[k].end.divIdx
    ensures Render(divs, items, ms, i, i1, pe, sel)[n] == divs[n].(className := "highlight middle" + Suffix(k, sel))
    decreases i1 - i
  {
    var m := ms[i];
    var s := Step(divs, items, m, pe, Suffix(i, sel));
    RenderUnfold(divs, items, ms, i, i1, pe, sel);
    if pe.Some? {
      assert ms[i - 1].end.divIdx <= m.begin.divIdx;
    }
    if k == i {
      var lead := Lead(divs, items, m.begin, pe);
      var head := AppendTextToDiv(lead, items, m.begin.divIdx, m.begin.offset, None, Some("highlight begin" + Suffix(i, sel)));
      var middle := HighlightRange(head, m.begin.divIdx + 1, m.end.divIdx, "highlight middle" + Suffix(i, sel));
      assert s[n] == middle[n];
      forall h | i + 1 <= h < i1 ensures !(ms[h].begin.divIdx <= n <= ms[h].end.divIdx) {
        assert m.end.divIdx <= ms[h].begin.divIdx;
      }
      RenderUntouched(s, items, ms, i + 1, i1, Some(m.end), sel, n);
    } else {
      assert m.end.divIdx <= ms[k].begin.divIdx;
      assert s[n] == divs[n];
      RenderMiddleDiv(s, items, ms, i + 1, i1, Some(m.end), sel, k, n);
    }
  }

  /** A match over several divs restarts its tail div with a "highlight end"
      span holding the tail item up to the end offset. */
  lemma {:induction false} RenderEndSpan(divs: seq<Div>, items: seq<string>, ms: seq<Match>, i: nat, i1: nat, pe: Option<Pos>, sel: int, k: nat)
    requires FoldFrom(ms, i, i1, pe) && InRange(ms, |items|) && Chained(ms) && |items| <= |divs|
    requires i <= k < i1 && ms[k].begin.divIdx < ms[k].end.divIdx
    ensures var e := ms[k].end;
      var ps := Render(divs, items, ms, i, i1, pe, sel)[e.divIdx].pieces;
      |ps| > 0 && ps[0] == Piece(Substring(items[e.divIdx], 0, Some(e.offset)), Some("highlight end" + Suffix(k, sel)))
    decreases i1 - i
  {
    var s := Step(divs, items, ms[i], pe, Suffix(i, sel));
    RenderUnfold(divs, items, ms, i, i1, pe, sel);
    if k == i {
      var e := ms[i].end;
      assert s[e.divIdx].pieces == [Piece(Substring(items[e.divIdx], 0, Some(e.offset)), Some("highlight end" + Suffix(k, sel)))];
      RenderExtends(s, items, ms, i + 1, i1, Some(e), sel);
    } else {
      RenderEndSpan(s, items, ms, i + 1, i1, Some(ms[i].end), sel, k);
    }
  }

  // ---------------------------------------------------------------------
  // Text preservation.
  // ---------------------------------------------------------------------

  /** Div `d` shows exactly its item's text. */
  predicate Shows(divs: seq<Div>, items: seq<string>, d: nat)
    requires d < |items| <= |divs|
  {
    Text(divs[d].pieces) == items[d]
  }

  /** Div `p.divIdx` shows its item's text up to `p.offset`. */
  predicate ShowsUpTo(divs: seq<Div>, items: seq<string>, p: Pos)
    requires p.divIdx < |items| <= |divs|
  {
    0 <= p.offset <= |items[p.divIdx]| && Text(divs[p.divIdx].pieces) == items[p.divIdx][..p.offset]
  }

  lemma PrefixJoin(s: string, a: nat, b: nat)
    requires a <= b <= |s|
    ensures s[..a] + s[a..b] == s[..b]
    ensures s[..a] + s[a..] == s
  {
    assert s[..a] + s[a..] == s[..a] + s[a..|s|];
  }

  /** With the previous match's div shown up to its end, the first half of a
      step shows the begin div up to the begin offset, and a previous div it
      leaves is shown in full. */
  lemma LeadShowsText(divs: seq<Div>, items: seq<string>, b: Pos, pe: Option<Pos>)
    requires b.divIdx < |items| <= |divs| && 0 <= b.offset <= |items[b.divIdx]|
    requires pe.Some? ==> pe.value.divIdx <= b.divIdx && ShowsUpTo(divs, items, pe.value)
    requires pe.Some? && pe.value.divIdx == b.divIdx ==> pe.value.offset <= b.offset
    ensures ShowsUpTo(Lead(divs, items, b, pe), items, b)
    ensures pe.Some? && pe.value.divIdx != b.divIdx ==> Shows(Lead(divs, items, b, pe), items, pe.value.divIdx)
  {
    var r := Lead(divs, items, b, pe);
    var t := items[b.divIdx];
    SubstringSlice(t, 0, b.offset);
    if pe.Some? {
      var p := pe.value;
      var u := items[p.divIdx];
      SubstringSlice(u, p.offset, |u|);
      PrefixJoin(u, p.offset, |u|);
      if p.divIdx == b.divIdx {
        SubstringSlice(t, p.offset, b.offset);
        TextAppend(divs[p.divIdx].pieces, Piece(Substring(t, p.offset, Some(b.offset)), None));
        PrefixJoin(t, p.offset, b.offset);
      } else {
        TextAppend(divs[p.divIdx].pieces, Piece(Substring(u, p.offset, None), None));
      }
    }
    TextAppend([], Piece(Substring(t, 0, Some(b.offset)), None));
    assert t[0..b.offset] == t[..b.offset];
  }

  /** With the begin div shown up to the begin offset, the second half of a
      step shows the end div up to the end offset and, for a match over
      several divs, the head div in full. */
  lemma MarkShowsText(divs: seq<Div>, items: seq<string>, m: Match, suffix: string)
    requires m.begin.divIdx <= m.end.divIdx < |items| <= |divs| && OffsetsIn(items, m)
    requires ShowsUpTo(divs, items, m.begin)
    ensures ShowsUpTo(Mark(divs, items, m, suffix), items, m.end)
    ensures m.begin.divIdx < m.end.divIdx ==> Shows(Mark(divs, items, m, suffix), items, m.begin.divIdx)
  {
    var b, e := m.begin, m.end;
    var t, u := items[b.divIdx], items[e.divIdx];
    if b.divIdx == e.divIdx {
      SubstringSlice(t, b.offset, e.offset);
      TextAppend(divs[b.divIdx].pieces, Piece(Substring(t, b.offset, Some(e.offset)), Some("highlight" + suffix)));
      PrefixJoin(t, b.offset, e.offset);
    } else {
      var head := AppendTextToDiv(divs, items, b.divIdx, b.offset, None, Some("highlight begin" + suffix));
      var middle := HighlightRange(head, b.divIdx + 1, e.divIdx, "highlight middle" + suffix);
      SubstringSlice(t, b.offset, |t|);
      TextAppend(divs[b.divIdx].pieces, Piece(Substring(t, b.offset, None), Some("highlight begin" + suffix)));
      PrefixJoin(t, b.offset, |t|);
      assert middle[b.divIdx] == head[b.divIdx];
      SubstringSlice(u, 0, e.offset);
      TextAppend([], Piece(Substring(u, 0, Some(e.offset)), Some("highlight end" + suffix)));
      assert u[0..e.offset] == u[..e.offset];
    }
  }

  /** The closing append shows the last match's end div in full. */
  lemma CloseShowsText(divs: seq<Div>, items: seq<string>, p: Pos)
    requires p.divIdx < |items| <= |divs| && ShowsUpTo(divs, items, p)
    ensures Shows(CloseLast(divs, items, Some(p)), items, p.divIdx)
  {
    var u := items[p.divIdx];
    SubstringSlice(u, p.offset, |u|);
    TextAppend(divs[p.divIdx].pieces, Piece(Substring(u, p.offset, None), None));
    PrefixJoin(u, p.offset, |u|);
  }

  /** One loop step, for well-formed matches: the end div is shown up to
      the end offset, and the head div of a match over several divs and a
      previous div the step leaves are shown in full. */
  lemma StepText(divs: seq<Div>, items: seq<string>, ms: seq<Match>, i: nat, pe: Option<Pos>, suffix: string)
    requires FoldFrom(ms, i, i + 1, pe) && WellFormed(ms, items) && |items| <= |divs|
    requires pe.Some? ==> ShowsUpTo(divs, items, pe.value)
    ensures var m, s := ms[i], Step(divs, items, ms[i], pe, suffix);
      ShowsUpTo(s, items, m.end) &&
      (m.begin.divIdx < m.end.divIdx ==> Shows(s, items, m.begin.divIdx)) &&
      (pe.Some? && pe.value.divIdx != m.begin.divIdx ==> pe.value.divIdx < m.begin.divIdx && Shows(s, items, pe.value.divIdx))
  {
    var m := ms[i];
    assert OffsetsIn(items, m);
    if pe.Some? {
      assert ms[i - 1].end.divIdx <= m.begin.divIdx;
      assert ms[i - 1].end.divIdx == m.begin.divIdx ==> ms[i - 1].end.offset <= m.begin.offset;
    }
    var lead := Lead(divs, items, m.begin, pe);
    LeadShowsText(divs, items, m.begin, pe);
    MarkShowsText(lead, items, m, suffix);
  }

  /** The head and tail divs of matches `lo` to `hi` show their items' text. */
  predicate SpansShown(divs: seq<Div>, items: seq<string>, ms: seq<Match>, lo: nat, hi: nat)
    requires hi <= |ms| && InRange(ms, |items|) && |items| <= |divs|
  {
    forall k :: lo <= k < hi ==> Shows(divs, items, ms[k].begin.divIdx) && Shows(divs, items, ms[k].end.divIdx)
  }

  /** Text preservation: for well-formed matches, every head and tail div the
      loop rewrites shows its item's full text afterwards, and so does the
      div of the previous match's end. */
  lemma RenderText(divs: seq<Div>, items: seq<string>, ms: seq<Match>, i: nat, i1: nat, pe: Option<Pos>, sel: int)
    requires FoldFrom(ms, i, i1, pe) && WellFormed(ms, items) && |items| <= |divs|
    requires pe.Some? ==> ShowsUpTo(divs, items, pe.value)
    ensures pe.Some? ==> Shows(Render(divs, items, ms, i, i1, pe, sel), items, pe.value.divIdx)
    ensures SpansShown(Render(divs, items, ms, i, i1, pe, sel), items, ms, i, i1)
  {
    if pe.Some? {
      RenderEndText(divs, items, ms, i, i1, pe, sel);
    }
    forall k | i <= k < i1
      ensures var r := Render(divs, items, ms, i, i1, pe, sel);
        Shows(r, items, ms[k].begin.divIdx) && Shows(r, items, ms[k].end.divIdx)
    {
      RenderSpanText(divs, items, ms, i, i1, pe, sel, k);
    }
  }

  /** The div of the previous match's end, shown up to that end, is shown in
      full once the loop is over: the loop finishes it, or a later match's
      head or tail in the same div does. */
  lemma {:induction false} RenderEndText(divs: seq<Div>, items: seq<string>, ms: seq<Match>, i: nat, i1: nat, pe: Option<Pos>, sel: int)
    requires FoldFrom(ms, i, i1, pe) && WellFormed(ms, items) && |items| <= |divs|
    requires pe.Some? && ShowsUpTo(divs, items, pe.value)
    ensures Shows(Render(divs, items, ms, i, i1, pe, sel), items, pe.value.divIdx)
    decreases i1 - i, 1
  {
    if i == i1 {
      CloseShowsText(divs, items, pe.value);
    } else {
      var s := Step(divs, items, ms[i], pe, Suffix(i, sel));
      RenderUnfold(divs, items, ms, i, i1, pe, sel);
      StepText(divs, items, ms, i, pe, Suffix(i, sel));
      EndRest(s, items, ms, i, i1, pe.value, sel);
    }
  }

  /** The rest of the loop after match `i`'s step shows the previous end
      div `p` in full, given the step showed it in full unless it is also
      the tail div, which the step showed up to the end offset. */
  lemma {:induction false} EndRest(s: seq<Div>, items: seq<string>, ms: seq<Match>, i: nat, i1: nat, p: Pos, sel: int)
    requires i < i1 <= |ms| && WellFormed(ms, items) && |items| <= |s|
    requires p.divIdx <= ms[i].begin.divIdx && ShowsUpTo(s, items, ms[i].end)
    requires p.divIdx != ms[i].end.divIdx ==> Shows(s, items, p.divIdx)
    ensures Shows(Render(s, items, ms, i + 1, i1, Some(ms[i].end), sel), items, p.divIdx)
    decreases i1 - i, 0
  {
    var m := ms[i];
    RenderEndText(s, items, ms, i + 1, i1, Some(m.end), sel);
    if p.divIdx != m.end.divIdx {
      forall h | i + 1 <= h < i1 ensures m.end.divIdx <= ms[h].begin.divIdx {
      }
      RenderUntouched(s, items, ms, i + 1, i1, Some(m.end), sel, p.divIdx);
    }
  }

  /** The head and tail divs of match `k`, rendered from `i` on, show their
      items' text once the loop is over. */
  lemma {:induction false} RenderSpanText(divs: seq<Div>, items: seq<string>, ms: seq<Match>, i: nat, i1: nat, pe: Option<Pos>, sel: int, k: nat)
    requires FoldFrom(ms, i, i1, pe) && WellFormed(ms, items) && |items| <= |divs|
    requires pe.Some? ==> ShowsUpTo(divs, items, pe.value)
    requires i <= k < i1
    ensures var r := Render(divs, items, ms, i, i1, pe, sel);
      Shows(r, items, ms[k].begin.divIdx) && Shows(r, items, ms[k].end.divIdx)
    decreases i1 - i
  {
    var s := SpanStep(divs, items, ms, i, i1, pe, sel);
    if k > i {
      RenderSpanText(s, items, ms, i + 1, i1, Some(ms[i].end), sel, k);
    }
  }

  /** The step of `RenderSpanText`: after one step the end div is shown up
      to the end offset, and once the loop is over the match's head and
      tail divs are shown in full. */
  lemma SpanStep(divs: seq<Div>, items: seq<string>, ms: seq<Match>, i: nat, i1: nat, pe: Option<Pos>, sel: int)
    returns (s: seq<Div>)
    requires FoldFrom(ms, i, i1, pe) && i < i1 && WellFormed(ms, items) && |items| <= |divs|
    requires pe.Some? ==> ShowsUpTo(divs, items, pe.value)
    ensures |s| == |divs| && ShowsUpTo(s, items, ms[i].end)
    ensures var r := Render(s, items, ms, i + 1, i1, Some(ms[i].end), sel);
      r == Render(divs, items, ms, i, i1, pe, sel) &&
      Shows(r, items, ms[i].begin.divIdx) && Shows(r, items, ms[i].end.divIdx)
  {
    s := Step(divs, items, ms[i], pe, Suffix(i, sel));
    RenderUnfold(divs, items, ms, i, i1, pe, sel);
    StepText(divs, items, ms, i, pe, Suffix(i, sel));
    SpanRest(s, items, ms, i, i1, sel);
  }

  /** The rest of the loop after match `i`'s step keeps its head and tail
      divs shown in full, given the step left the tail div shown up to the
      end offset and, over several divs, the head div in full. */
  lemma SpanRest(s: seq<Div>, items: seq<string>, ms: seq<Match>, i: nat, i1: nat, sel: int)
    requires i < i1 <= |ms| && WellFormed(ms, items) && |items| <= |s|
    requires ShowsUpTo(s, items, ms[i].end)
    requires ms[i].begin.divIdx < ms[i].end.divIdx ==> Shows(s, items, ms[i].begin.divIdx)
    ensures var r := Render(s, items, ms, i + 1, i1, Some(ms[i].end), sel);
      Shows(r, items, ms[i].begin.divIdx) && Shows(r, items, ms[i].end.divIdx)
  {
    var m := ms[i];
    RenderEndText(s, items, ms, i + 1, i1, Some(m.end), sel);
    if m.begin.divIdx < m.end.divIdx {
      forall h | i + 1 <= h < i1 ensures m.end.divIdx <= ms[h].begin.divIdx {
      }
      RenderUntouched(s, items, ms, i + 1, i1, Some(m.end), sel, m.begin.divIdx);
    }
  }

  // ---------------------------------------------------------------------
  // The same properties for a whole `renderMatches` call.
  // ---------------------------------------------------------------------

  /** `renderMatches` changes no div outside the spans of the matches it
      renders: with no matches, or without highlight-all off the selected
      page, it changes nothing; without highlight-all on the selected page,
      only the divs of `matches[selectedMatchIdx]` can change. */
  lemma RenderedUntouched(divs: seq<Div>, items: seq<string>, ms: seq<Match>, ctrl: Option<FindController>, pageIdx: int, d: nat)
    requires InRange(ms, |items|) && |items| <= |divs| && SelectionValid(ctrl, pageIdx, |ms|) && d < |divs|
    requires forall k :: 0 <= k < |ms| && IsRendered(ctrl, pageIdx, k) ==> !(ms[k].begin.divIdx <= d <= ms[k].end.divIdx)
    ensures RenderedDivs(divs, items, ms, ctrl, pageIdx)[d] == divs[d]
  {
    var sel := SelectedFor(ctrl, pageIdx);
    if |ms| > 0 {
      if HighlightAll(ctrl) {
        RenderUntouched(divs, items, ms, 0, |ms|, None, sel, d);
      } else if IsSelectedPage(ctrl, pageIdx) {
        RenderUntouched(divs, items, ms, sel, sel + 1, None, sel, d);
      }
    }
  }

  lemma RenderedNothing(divs: seq<Div>, items: seq<string>, ms: seq<Match>, ctrl: Option<FindController>, pageIdx: int)
    requires InRange(ms, |items|) && |items| <= |divs| && SelectionValid(ctrl, pageIdx, |ms|)
    requires |ms| == 0 || (!HighlightAll(ctrl) && !IsSelectedPage(ctrl, pageIdx))
    ensures RenderedDivs(divs, items, ms, ctrl, pageIdx) == divs
  {
  }

  /** The loop range of a `renderMatches` call that renders match `k`. */
  lemma RenderedFold(divs: seq<Div>, items: seq<string>, ms: seq<Match>, ctrl: Option<FindController>, pageIdx: int, k: nat)
    returns (lo: nat, hi: nat)
    requires InRange(ms, |items|) && |items| <= |divs| && SelectionValid(ctrl, pageIdx, |ms|)
    requires k < |ms| && IsRendered(ctrl, pageIdx, k)
    ensures lo <= k < hi <= |ms|
    ensures Suffix(k, SelectedFor(ctrl, pageIdx)) == HighlightSuffix(ctrl, pageIdx, k)
    ensures RenderedDivs(divs, items, ms, ctrl, pageIdx) == Render(divs, items, ms, lo, hi, None, SelectedFor(ctrl, pageIdx))
  {
    if HighlightAll(ctrl) {
      lo, hi := 0, |ms|;
    } else {
      lo, hi := k, k + 1;
    }
  }

  /** A rendered match inside one div leaves one "highlight" span (plus
      " selected" for the selected match of the selected page) holding
      exactly `substring(begin.offset, end.offset)` of its item. */
  lemma RenderedSingleSpan(divs: seq<Div>, items: seq<string>, ms: seq<Match>, ctrl: Option<FindController>, pageIdx: int, k: nat)
    requires InRange(ms, |items|) && Chained(ms) && |items| <= |divs| && SelectionValid(ctrl, pageIdx, |ms|)
    requires k < |ms| && IsRendered(ctrl, pageIdx, k) && ms[k].begin.divIdx == ms[k].end.divIdx
    ensures var b, e := ms[k].begin, ms[k].end;
      Piece(Substring(items[b.divIdx], b.offset, Some(e.offset)), Some("highlight" + HighlightSuffix(ctrl, pageIdx, k)))
        in RenderedDivs(divs, items, ms, ctrl, pageIdx)[b.divIdx].pieces
  {
    var lo, hi := RenderedFold(divs, items, ms, ctrl, pageIdx, k);
    RenderSingleSpan(divs, items, ms, lo, hi, None, SelectedFor(ctrl, pageIdx), k);
  }

  /** A rendered match over several divs: its head div ends with a
      "highlight begin" span from the begin offset to the end of the item,
      every div strictly inside gets class "highlight middle" with its
      pieces kept, and its tail div starts with a "highlight end" span of
      the item up to the end offset; each class carries " selected" for the
      selected match of the selected page. */
  lemma RenderedSpanningMatch(divs: seq<Div>, items: seq<string>, ms: seq<Match>, ctrl: Option<FindController>, pageIdx: int, k: nat)
    requires InRange(ms, |items|) && Chained(ms) && |items| <= |divs| && SelectionValid(ctrl, pageIdx, |ms|)
    requires k < |ms| && IsRendered(ctrl, pageIdx, k) && ms[k].begin.divIdx < ms[k].end.divIdx
    ensures var b, e, suffix, r := ms[k].begin, ms[k].end, HighlightSuffix(ctrl, pageIdx, k), RenderedDivs(divs, items, ms, ctrl, pageIdx);
      EndsWith(r[b.divIdx].pieces, Piece(Substring(items[b.divIdx], b.offset, None), Some("highlight begin" + suffix))) &&
      (forall n :: b.divIdx < n < e.divIdx ==> r[n] == divs[n].(className := "highlight middle" + suffix)) &&
      |r[e.divIdx].pieces| > 0 &&
      r[e.divIdx].pieces[0] == Piece(Substring(items[e.divIdx], 0, Some(e.offset)), Some("highlight end" + suffix))
  {
    var sel := SelectedFor(ctrl, pageIdx);
    var lo, hi := RenderedFold(divs, items, ms, ctrl, pageIdx, k);
    RenderBeginSpan(divs, items, ms, lo, hi, None, sel, k);
    RenderEndSpan(divs, items, ms, lo, hi, None, sel, k);
    forall n | ms[k].begin.divIdx < n < ms[k].end.divIdx
      ensures Render(divs, items, ms, lo, hi, None, sel)[n] == divs[n].(className := "highlight middle" + Suffix(k, sel))
    {
      RenderMiddleDiv(divs, items, ms, lo, hi, None, sel, k, n);
    }
  }

  /** Text preservation for a whole call: with well-formed matches, the head
      and tail div of every rendered match show exactly their item's text. */
  lemma RenderedText(divs: seq<Div>, items: seq<string>, ms: seq<Match>, ctrl: Option<FindController>, pageIdx: int, k: nat)
    requires WellFormed(ms, items) && |items| <= |divs| && SelectionValid(ctrl, pageIdx, |ms|)
    requires k < |ms| && IsRendered(ctrl, pageIdx, k)
    ensures var r := RenderedDivs(divs, items, ms, ctrl, pageIdx);
      Text(r[ms[k].begin.divIdx].pieces) == items[ms[k].begin.divIdx] &&
      Text(r[ms[k].end.divIdx].pieces) == items[ms[k].end.divIdx]
  {
    var lo, hi := RenderedFold(divs, items, ms, ctrl, pageIdx, k);
    RenderText(divs, items, ms, lo, hi, None, SelectedFor(ctrl, pageIdx));
    assert SpansShown(Render(divs, items, ms, lo, hi, None, SelectedFor(ctrl, pageIdx)), items, ms, lo, hi);
  }
}
