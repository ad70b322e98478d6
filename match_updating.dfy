/** What `updateMatches` does, as functions on the div list: every div of
    every old match is reset to its item's plain text with no class, then,
    with an active find controller, the controller's matches for the page are
    converted and rendered. The main lemma is that clearing undoes rendering. */
module MatchUpdating {
  import opened Wrappers
  import opened TextLayerTypes
  import opened MatchConversion
  import opened MatchRendering

  /** `div.textContent = str; div.className = ''`. */
  function Reset(d: Div, s: string): (r: Div)
    ensures Text(r.pieces) == s && Plain(r)
    ensures r.isWhitespace == d.isWhitespace && r.positioned == d.positioned
  {
    d.(pieces := TextContent(s), className := "")
  }

  /** A div without highlighting: no class, and only plain text nodes. */
  predicate Plain(d: Div) {
    d.className == "" && forall k :: 0 <= k < |d.pieces| ==> d.pieces[k].className.None?
  }

  /** Div `d` lies in the span of one of the first `c` matches. */
  predicate CoveredBy(ms: seq<Match>, c: nat, d: int)
    requires c <= |ms|
  {
    exists k :: 0 <= k < c && ms[k].begin.divIdx <= d <= ms[k].end.divIdx
  }

  /** The divs after the clearing loop over `ms`. */
  function Cleared(divs: seq<Div>, items: seq<string>, ms: seq<Match>): (r: seq<Div>)
    requires |items| <= |divs|
    ensures |r| == |divs|
  {
    seq(|divs|, d requires 0 <= d < |divs| =>
      if d < |items| && CoveredBy(ms, |ms|, d) then Reset(divs[d], items[d]) else divs[d])
  }

  /** Clearing resets exactly the divs in the span of some match to their
      item's text with an empty class, and leaves every other div as it was. */
  lemma ClearedDivs(divs: seq<Div>, items: seq<string>, ms: seq<Match>, d: nat)
    requires InRange(ms, |items|) && |items| <= |divs| && d < |divs|
    ensures var r := Cleared(divs, items, ms);
      (CoveredBy(ms, |ms|, d) ==> d < |items| && Text(r[d].pieces) == items[d] && r[d].className == "") &&
      (!CoveredBy(ms, |ms|, d) ==> r[d] == divs[d])
  {
    if CoveredBy(ms, |ms|, d) {
      var k :| 0 <= k < |ms| && ms[k].begin.divIdx <= d <= ms[k].end.divIdx;
    }
  }

  /** Highlighting sits only where the matches are: every div outside the
      span of each match in `ms` is plain. */
  predicate PlainOutside(divs: seq<Div>, ms: seq<Match>) {
    forall d :: 0 <= d < |divs| && !CoveredBy(ms, |ms|, d) ==> Plain(divs[d])
  }

  /** When highlighting sits only where the matches are, clearing them
      leaves no div with a class or a span. */
  lemma ClearedPlain(divs: seq<Div>, items: seq<string>, ms: seq<Match>)
    requires InRange(ms, |items|) && |items| <= |divs| && PlainOutside(divs, ms)
    ensures forall d :: 0 <= d < |divs| ==> Plain(Cleared(divs, items, ms)[d])
  {
    forall d | 0 <= d < |divs| ensures Plain(Cleared(divs, items, ms)[d]) {
      ClearedDivs(divs, items, ms, d);
    }
  }

  /** The two lists agree on every div's whitespace and position flags. */
  predicate SameFlags(a: seq<Div>, b: seq<Div>) {
    |a| == |b| && forall d :: 0 <= d < |a| ==> a[d].isWhitespace == b[d].isWhitespace && a[d].positioned == b[d].positioned
  }

  lemma StepKeepsFlags(divs: seq<Div>, items: seq<string>, m: Match, pe: Option<Pos>, suffix: string)
    requires m.begin.divIdx <= m.end.divIdx < |items| <= |divs|
    requires pe.Some? ==> pe.value.divIdx < |items|
    ensures SameFlags(Step(divs, items, m, pe, suffix), divs)
  {
    var lead := Lead(divs, items, m.begin, pe);
    assert SameFlags(lead, divs);
    if m.begin.divIdx < m.end.divIdx {
      var head := AppendTextToDiv(lead, items, m.begin.divIdx, m.begin.offset, None, Some("highlight begin" + suffix));
      var middle := HighlightRange(head, m.begin.divIdx + 1, m.end.divIdx, "highlight middle" + suffix);
      assert SameFlags(middle, divs);
    }
  }

  /** Rendering touches only the pieces and classes of divs. */
  lemma {:induction false} RenderKeepsFlags(divs: seq<Div>, items: seq<string>, ms: seq<Match>, i: nat, i1: nat, pe: Option<Pos>, sel: int)
    requires i <= i1 <= |ms| && InRange(ms, |items|) && |items| <= |divs|
    requires pe.Some? ==> pe.value.divIdx < |items|
    ensures SameFlags(Render(divs, items, ms, i, i1, pe, sel), divs)
    decreases i1 - i
  {
    if i < i1 {
      var s := Step(divs, items, ms[i], pe, Suffix(i, sel));
      StepKeepsFlags(divs, items, ms[i], pe, Suffix(i, sel));
      RenderKeepsFlags(s, items, ms, i + 1, i1, Some(ms[i].end), sel);
    }
  }

  /** Clearing undoes rendering: whatever `renderMatches(ms)` did to the
      divs, the clearing loop over the same `ms` gives the same divs as
      clearing the divs it started from. */
  lemma ClearUndoesRender(divs: seq<Div>, items: seq<string>, ms: seq<Match>, ctrl: Option<FindController>, pageIdx: int)
    requires InRange(ms, |items|) && |items| <= |divs| && SelectionValid(ctrl, pageIdx, |ms|)
    ensures Cleared(RenderedDivs(divs, items, ms, ctrl, pageIdx), items, ms) == Cleared(divs, items, ms)
  {
    var r := RenderedDivs(divs, items, ms, ctrl, pageIdx);
    var sel := SelectedFor(ctrl, pageIdx);
    assert SameFlags(r, divs) by {
      if |ms| > 0 && HighlightAll(ctrl) {
        RenderKeepsFlags(divs, items, ms, 0, |ms|, None, sel);
      } else if |ms| > 0 && IsSelectedPage(ctrl, pageIdx) {
        RenderKeepsFlags(divs, items, ms, sel, sel + 1, None, sel);
      }
    }
    forall d | 0 <= d < |divs| ensures Cleared(r, items, ms)[d] == Cleared(divs, items, ms)[d] {
      if !CoveredBy(ms, |ms|, d) {
        RenderedUntouched(divs, items, ms, ctrl, pageIdx, d);
      }
    }
  }

  /** What `updateMatches` demands once it goes past the clearing loop:
      items to convert against unless there is nothing to convert, and a
      selected match that exists when only it is rendered. */
  predicate UpdateOk(items: seq<string>, ctrl: Option<FindController>, pageIdx: int) {
    IsActive(ctrl) ==>
      (|items| > 0 || |PageMatches(ctrl, pageIdx)| == 0) &&
      SelectionValid(ctrl, pageIdx, |PageMatches(ctrl, pageIdx)|)
  }

  /** `convertMatches(xs)`, which on no offsets returns no matches without
      looking at the items. */
  function ConvertAll(items: seq<string>, q: nat, xs: seq<int>): (r: seq<Match>)
    requires |items| > 0 || |xs| == 0
    ensures |r| == |xs| && InRange(r, |items|) && Chained(r)
  {
    if |xs| == 0 then [] else Convert(items, q, xs, 0)
  }

  /** `this.matches` after `updateMatches` has got past the `renderingDone` guard. */
  function UpdatedMatches(items: seq<string>, ms: seq<Match>, ctrl: Option<FindController>, pageIdx: int): (r: seq<Match>)
    requires UpdateOk(items, ctrl, pageIdx)
    ensures IsActive(ctrl) ==> |r| == |PageMatches(ctrl, pageIdx)| && InRange(r, |items|) && Chained(r)
  {
    if IsActive(ctrl) then ConvertAll(items, QueryLen(ctrl), PageMatches(ctrl, pageIdx)) else ms
  }

  /** The divs after `updateMatches` has got past the `renderingDone` guard. */
  function UpdatedDivs(divs: seq<Div>, items: seq<string>, ms: seq<Match>, ctrl: Option<FindController>, pageIdx: int): (r: seq<Div>)
    requires |items| <= |divs| && UpdateOk(items, ctrl, pageIdx)
    ensures |r| == |divs|
  {
    var cleared := Cleared(divs, items, ms);
    if IsActive(ctrl) then RenderedDivs(cleared, items, UpdatedMatches(items, ms, ctrl, pageIdx), ctrl, pageIdx)
    else cleared
  }

  /** An update keeps highlighting where the matches are: if it sat only in
      the spans of the old matches, it sits only in the spans of the new
      ones afterwards, and after an update with an inactive controller no
      div has a class or a span at all. */
  lemma UpdatedPlain(divs: seq<Div>, items: seq<string>, ms: seq<Match>, ctrl: Option<FindController>, pageIdx: int)
    requires InRange(ms, |items|) && |items| <= |divs| && UpdateOk(items, ctrl, pageIdx) && PlainOutside(divs, ms)
    ensures var r, ms2 := UpdatedDivs(divs, items, ms, ctrl, pageIdx), UpdatedMatches(items, ms, ctrl, pageIdx);
      PlainOutside(r, ms2) && (!IsActive(ctrl) ==> forall d :: 0 <= d < |r| ==> Plain(r[d]))
  {
    var cleared := Cleared(divs, items, ms);
    ClearedPlain(divs, items, ms);
    if IsActive(ctrl) {
      var ms2 := UpdatedMatches(items, ms, ctrl, pageIdx);
      var r := UpdatedDivs(divs, items, ms, ctrl, pageIdx);
      forall d | 0 <= d < |r| && !CoveredBy(ms2, |ms2|, d) ensures Plain(r[d]) {
        RenderedUntouched(cleared, items, ms2, ctrl, pageIdx, d);
      }
    }
  }

  /** An update followed by one with an inactive controller leaves the divs
      as clearing both match sets leaves them, and, when highlighting sat
      only where the old matches were, with no class or span anywhere:
      nothing of the first update's highlighting survives. */
  lemma UpdateThenDeactivate(divs: seq<Div>, items: seq<string>, ms: seq<Match>, ctrl: Option<FindController>, off: Option<FindController>, pageIdx: int)
    requires |items| <= |divs| && IsActive(ctrl) && UpdateOk(items, ctrl, pageIdx) && !IsActive(off)
    ensures var ms2 := UpdatedMatches(items, ms, ctrl, pageIdx);
      var r := UpdatedDivs(UpdatedDivs(divs, items, ms, ctrl, pageIdx), items, ms2, off, pageIdx);
      r == Cleared(Cleared(divs, items, ms), items, ms2) &&
      (InRange(ms, |items|) && PlainOutside(divs, ms) ==> forall d :: 0 <= d < |r| ==> Plain(r[d]))
  {
    var ms2 := UpdatedMatches(items, ms, ctrl, pageIdx);
    ClearUndoesRender(Cleared(divs, items, ms), items, ms2, ctrl, pageIdx);
    if InRange(ms, |items|) && PlainOutside(divs, ms) {
      UpdatedPlain(divs, items, ms, ctrl, pageIdx);
      UpdatedPlain(UpdatedDivs(divs, items, ms, ctrl, pageIdx), items, ms2, off, pageIdx);
    }
  }

  /** Text preservation end to end: when the controller's offsets for the
      page come from a search that resumes after each hit and lie inside the
      page text, every match the update renders leaves its head and tail
      divs showing their items' text. */
  lemma UpdatedText(divs: seq<Div>, items: seq<string>, ms: seq<Match>, ctrl: Option<FindController>, pageIdx: int, k: nat)
    requires |items| > 0 && |items| <= |divs| && IsActive(ctrl) && UpdateOk(items, ctrl, pageIdx)
    requires var xs := PageMatches(ctrl, pageIdx);
      NonOverlapping(xs, QueryLen(ctrl)) && (|xs| > 0 ==> xs[|xs| - 1] + QueryLen(ctrl) <= Prefix(items, |items|))
    requires k < |PageMatches(ctrl, pageIdx)| && IsRendered(ctrl, pageIdx, k)
    ensures var ms2, r := UpdatedMatches(items, ms, ctrl, pageIdx), UpdatedDivs(divs, items, ms, ctrl, pageIdx);
      k < |ms2| &&
      Text(r[ms2[k].begin.divIdx].pieces) == items[ms2[k].begin.divIdx] &&
      Text(r[ms2[k].end.divIdx].pieces) == items[ms2[k].end.divIdx]
  {
    var xs := PageMatches(ctrl, pageIdx);
    ConvertWellFormed(items, QueryLen(ctrl), xs);
    RenderedText(Cleared(divs, items, ms), items, UpdatedMatches(items, ms, ctrl, pageIdx), ctrl, pageIdx, k);
  }
}
