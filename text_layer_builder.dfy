/** The text layer builder of one page: the overlay divs it creates for the
    page's text items, the layer they are attached to, and the search
    highlighting it renders into them and clears again. Each method follows
    the source's own loop and is proved against the functions of
    MatchConversion, MatchRendering and MatchUpdating. */
module TextLayer {
  import opened Wrappers
  import opened JsStrings
  import opened TextLayerTypes
  import opened MatchConversion
  import opened MatchRendering
  import opened MatchUpdating

  /** Above this many divs `renderLayer` gives up. */
  const MAX_TEXT_DIVS_TO_RENDER: nat := 100000

  /** The div `appendText` creates for an item: a whitespace-only item is
      flagged and gets nothing else; any other item gets its text, its
      position and font style and its dataset entries. */
  function NewDiv(s: string): Div {
    if !HasNonWhiteSpace(s) then Div([], "", true, false) else Div(TextContent(s), "", false, true)
  }

  /** The divs `setTextContent` appends, one per item in item order. */
  function NewDivs(ss: seq<string>): seq<Div>
    decreases |ss|
  {
    if ss == [] then [] else NewDivs(ss[..|ss| - 1]) + [NewDiv(ss[|ss| - 1])]
  }

  /** One div per item, in item order; a div is flagged as whitespace exactly
      when its item has no non-whitespace character, and then has no content
      and no style; any other div shows exactly its item's text. */
  lemma {:induction false} NewDivsFacts(ss: seq<string>)
    ensures var r := NewDivs(ss);
      |r| == |ss| &&
      forall k :: 0 <= k < |ss| ==>
        Plain(r[k]) &&
        (r[k].isWhitespace <==> !HasNonWhiteSpace(ss[k])) &&
        (r[k].isWhitespace ==> r[k].pieces == [] && !r[k].positioned) &&
        (!r[k].isWhitespace ==> Text(r[k].pieces) == ss[k] && r[k].positioned)
    decreases |ss|
  {
    if ss != [] {
      NewDivsFacts(ss[..|ss| - 1]);
      var r := NewDivs(ss);
      forall k | 0 <= k < |ss| - 1 ensures r[k] == NewDivs(ss[..|ss| - 1])[k] && ss[k] == ss[..|ss| - 1][k] {
      }
    }
  }

  /** The divs `renderLayer` puts in the fragment, among the first `n`, in
      order: not flagged as whitespace and measured wider than zero. */
  function ToRender(divs: seq<Div>, measure: Div -> real, n: nat): seq<nat>
    requires n <= |divs|
  {
    if n == 0 then []
    else ToRender(divs, measure, n - 1) +
         (if !divs[n - 1].isWhitespace && measure(divs[n - 1]) > 0.0 then [n - 1] else [])
  }

  lemma {:induction false} ToRenderFacts(divs: seq<Div>, measure: Div -> real, n: nat)
    requires n <= |divs|
    ensures var r := ToRender(divs, measure, n);
      (forall d: nat :: d in r <==> d < n && !divs[d].isWhitespace && measure(divs[d]) > 0.0) &&
      (forall a, b :: 0 <= a < b < |r| ==> r[a] < r[b])
  {
    if n > 0 {
      ToRenderFacts(divs, measure, n - 1);
      var prev := ToRender(divs, measure, n - 1);
      assert forall a :: 0 <= a < |prev| ==> prev[a] in prev;
    }
  }

  /** `layer` without the elements of `s`. */
  function Without(layer: seq<nat>, s: seq<nat>): (r: seq<nat>)
    ensures forall x :: x in r <==> x in layer && x !in s
  {
    if layer == [] then []
    else Without(layer[..|layer| - 1], s) + (if layer[|layer| - 1] in s then [] else [layer[|layer| - 1]])
  }

  /** `textLayerDiv.appendChild(fragment)`: the fragment's children move, in
      order, to the end of the layer, leaving any earlier place they had. */
  function Attach(layer: seq<nat>, frag: seq<nat>): seq<nat> {
    Without(layer, frag) + frag
  }

  /** No div occurs twice: the DOM keeps a node under one parent once. */
  predicate NoDuplicates(s: seq<nat>) {
    forall a, b :: 0 <= a < b < |s| ==> s[a] != s[b]
  }

  lemma {:induction false} WithoutNoDuplicates(layer: seq<nat>, s: seq<nat>)
    requires NoDuplicates(layer)
    ensures NoDuplicates(Without(layer, s))
    decreases |layer|
  {
    if layer != [] {
      var init, last := layer[..|layer| - 1], layer[|layer| - 1];
      WithoutNoDuplicates(init, s);
      var w := Without(init, s);
      assert last !in init by {
        forall a | 0 <= a < |init| ensures init[a] != last {
          assert init[a] == layer[a];
        }
      }
      assert last !in w;
    }
  }

  /** After attaching, the layer holds what it held and the fragment, the
      fragment last, and each div at most once if it did before. */
  lemma AttachFacts(layer: seq<nat>, frag: seq<nat>)
    ensures var r := Attach(layer, frag);
      (forall x :: x in r <==> x in layer || x in frag) &&
      r[|r| - |frag|..] == frag &&
      (NoDuplicates(layer) && NoDuplicates(frag) ==> NoDuplicates(r))
  {
    var w := Without(layer, frag);
    var r := w + frag;
    if NoDuplicates(layer) && NoDuplicates(frag) {
      WithoutNoDuplicates(layer, frag);
      forall a, b | 0 <= a < b < |r| ensures r[a] != r[b] {
        if a < |w| <= b {
          assert r[a] in w && r[b] == frag[b - |w|];
        } else if |w| <= a {
          assert r[a] == frag[a - |w|] && r[b] == frag[b - |w|];
        }
      }
    }
  }

  /** `renderLayer` attaches each div at most once. */
  lemma AttachRendered(layer: seq<nat>, divs: seq<Div>, measure: Div -> real)
    requires NoDuplicates(layer)
    ensures NoDuplicates(Attach(layer, ToRender(divs, measure, |divs|)))
  {
    var frag := ToRender(divs, measure, |divs|);
    ToRenderFacts(divs, measure, |divs|);
    assert NoDuplicates(frag);
    AttachFacts(layer, frag);
  }

  class TextLayerBuilder {
    const pageIdx: int
    const isViewerInPresentationMode: bool
    /** The strings of `textContent.items`. */
    var items: seq<string>
    var textDivs: seq<Div>
    var matches: seq<Match>
    var divContentDone: bool
    var renderingDone: bool
    /** The text divs attached to `textLayerDiv`, in child order. */
    var layer: seq<nat>
    /** The divs `scrollIntoView` was called on, in call order. */
    var scrolls: seq<nat>

    /** Every item has its div, the current matches never go back,
        highlighting sits only in their spans, and no div is attached twice. */
    ghost predicate Valid()
      reads this
    {
      |items| <= |textDivs| && Chained(matches) &&
      (forall k :: 0 <= k < |matches| ==> matches[k].begin.divIdx <= matches[k].end.divIdx) &&
      PlainOutside(textDivs, matches) && NoDuplicates(layer)
    }

    constructor(pageIndex: int, presentationMode: bool)
      ensures Valid()
      ensures pageIdx == pageIndex && isViewerInPresentationMode == presentationMode
      ensures items == [] && textDivs == [] && matches == [] && layer == [] && scrolls == []
      ensures !divContentDone && !renderingDone
    {
      pageIdx := pageIndex;
      isViewerInPresentationMode := presentationMode;
      items := [];
      textDivs := [];
      matches := [];
      divContentDone := false;
      renderingDone := false;
      layer := [];
      scrolls := [];
    }

    method AppendText(s: string)
      modifies this`textDivs
      ensures textDivs == old(textDivs) + [NewDiv(s)]
    {
      if !HasNonWhiteSpace(s) {
        textDivs := textDivs + [Div([], "", true, false)];
        return;
      }
      textDivs := textDivs + [Div(TextContent(s), "", false, true)];
    }

    method SetTextContent(newItems: seq<string>)
      requires Valid()
      modifies this`items, this`textDivs, this`divContentDone
      ensures Valid()
      ensures items == newItems && divContentDone
      ensures textDivs == old(textDivs) + NewDivs(newItems)
    {
      ghost var divs0 := textDivs;
      assert PlainOutside(divs0, matches);
      items := newItems;
      var i := 0;
      while i < |newItems|
        invariant 0 <= i <= |newItems| && items == newItems
        invariant textDivs == old(textDivs) + NewDivs(newItems[..i])
      {
        assert newItems[..i + 1][..i] == newItems[..i];
        AppendText(newItems[i]);
        i := i + 1;
      }
      assert newItems[..i] == newItems;
      NewDivsFacts(newItems);
      forall d | 0 <= d < |textDivs| && !CoveredBy(matches, |matches|, d) ensures Plain(textDivs[d]) {
        if d >= |divs0| {
          assert textDivs[d] == NewDivs(newItems)[d - |divs0|];
        }
      }
      divContentDone := true;
    }

    /** One walk of `convertMatches` along the items: from item `i0`, which
        starts at page offset `index0`, move on to the next item while there
        is one and `target` lies past the current item (at or past its end for
        a begin, strictly past it for an end). */
    method Walk(i0: nat, index0: int, target: int, strict: bool) returns (i: nat, iIndex: int)
      requires i0 < |items| && index0 == Prefix(items, i0)
      ensures i0 <= i < |items| && i == Seek(items, i0, target, strict) && iIndex == Prefix(items, i)
    {
      i, iIndex := i0, index0;
      var end := |items| - 1;
      while i != end && (if strict then target > iIndex + |items[i]| else target >= iIndex + |items[i]|)
        invariant i0 <= i <= end && iIndex == Prefix(items, i)
        invariant Seek(items, i, target, strict) == Seek(items, i0, target, strict)
        decreases end - i
      {
        SeekStep(items, i, target, strict);
        iIndex := iIndex + |items[i]|;
        i := i + 1;
      }
      SeekStep(items, i, target, strict);
    }

    method ConvertMatches(ctrl: Option<FindController>, xs: seq<int>) returns (ret: seq<Match>)
      requires |items| > 0 || |xs| == 0
      ensures ret == ConvertAll(items, QueryLen(ctrl), xs)
    {
      var i: nat := 0;
      var iIndex := 0;
      var queryLen := QueryLen(ctrl);
      ret := [];
      var m := 0;
      while m < |xs|
        invariant 0 <= m <= |xs| && |ret| == m
        invariant |xs| > 0 ==> i < |items| && iIndex == Prefix(items, i) && Resumes(items, queryLen, xs, m, i, ret)
      {
        var matchIdx := xs[m];
        var b, bIndex := Walk(i, iIndex, matchIdx, false);
        var begin := Pos(b, matchIdx - bIndex);
        matchIdx := matchIdx + queryLen;
        var e, eIndex := Walk(b, bIndex, matchIdx, true);
        var found := Match(begin, Pos(e, matchIdx - eIndex));
        ghost var m0, i0, done := m, i, ret;
        ret := ret + [found];
        i, iIndex := e, eIndex;
        m := m + 1;
        ConvertResume(items, queryLen, xs, m0, i0, b, e, bIndex, eIndex, done, found, m, ret);
      }
      if |xs| > 0 {
        ConvertFinish(items, queryLen, xs, m, i, ret);
      }
    }

    method AppendTextToDiv(n: nat, from: int, to: Option<int>, cls: Option<string>)
      requires n < |items| <= |textDivs|
      modifies this`textDivs
      ensures textDivs == MatchRendering.AppendTextToDiv(old(textDivs), items, n, from, to, cls)
    {
      var content := Substring(items[n], from, to);
      textDivs := textDivs[n := textDivs[n].(pieces := textDivs[n].pieces + [Piece(content, cls)])];
    }

    method BeginText(p: Pos, cls: Option<string>)
      requires p.divIdx < |items| <= |textDivs|
      modifies this`textDivs
      ensures textDivs == MatchRendering.BeginText(old(textDivs), items, p, cls)
    {
      var n := p.divIdx;
      textDivs := textDivs[n := textDivs[n].(pieces := [])];
      AppendTextToDiv(n, 0, Some(p.offset), cls);
    }

    method HighlightDiv(n: nat, c: string)
      requires n < |textDivs|
      modifies this`textDivs
      ensures textDivs == old(textDivs)[n := old(textDivs)[n].(className := c)]
    {
      textDivs := textDivs[n := textDivs[n].(className := c)];
    }

    /** The text between the previous match and match `b`'s begin: either
        the rest of the previous match's end div and the start of the begin
        div, or, within one div, the text between the two. */
    method LeadText(b: Pos, prevEnd: Option<Pos>)
      requires b.divIdx < |items| <= |textDivs|
      requires prevEnd.Some? ==> prevEnd.value.divIdx < |items|
      modifies this`textDivs
      ensures textDivs == Lead(old(textDivs), items, b, prevEnd)
    {
      if prevEnd.None? || b.divIdx != prevEnd.value.divIdx {
        if prevEnd.Some? {
          AppendTextToDiv(prevEnd.value.divIdx, prevEnd.value.offset, None, None);
        }
        BeginText(b, None);
      } else {
        AppendTextToDiv(prevEnd.value.divIdx, prevEnd.value.offset, Some(b.offset), None);
      }
    }

    /** The spans and classes of match `m`: one `highlight` span within a
        div, or a `begin` span, `middle` classes on the divs between and an
        `end` span. */
    method MarkMatch(m: Match, highlightSuffix: string)
      requires m.begin.divIdx <= m.end.divIdx < |items| <= |textDivs|
      modifies this`textDivs
      ensures textDivs == Mark(old(textDivs), items, m, highlightSuffix)
    {
      var begin, end := m.begin, m.end;
      if begin.divIdx == end.divIdx {
        AppendTextToDiv(begin.divIdx, begin.offset, Some(end.offset), Some("highlight" + highlightSuffix));
      } else {
        AppendTextToDiv(begin.divIdx, begin.offset, None, Some("highlight begin" + highlightSuffix));
        ghost var head := textDivs;
        var n := begin.divIdx + 1;
        while n < end.divIdx
          invariant begin.divIdx + 1 <= n <= end.divIdx && |textDivs| == |head|
          invariant textDivs == HighlightRange(head, begin.divIdx + 1, n, "highlight middle" + highlightSuffix)
          modifies this`textDivs
        {
          HighlightDiv(n, "highlight middle" + highlightSuffix);
          n := n + 1;
        }
        BeginText(end, Some("highlight end" + highlightSuffix));
      }
    }

    /** One round of the `renderMatches` loop: the scroll to the selected
        match, the text before match `ms[i]`, then its spans and classes. */
    method RenderMatch(ghost start: seq<Div>, ghost scrolls0: seq<nat>, ms: seq<Match>, ghost i0: nat, i: nat, ghost i1: nat,
                       prevEnd: Option<Pos>, ghost sel: int, isSelected: bool, ghost next: nat, ghost nextEnd: Option<Pos>)
      requires i0 <= i < i1 <= |ms| && InRange(ms, |items|) && |items| <= |start| && |items| <= |textDivs|
      requires prevEnd.Some? ==> prevEnd.value.divIdx < |items|
      requires isSelected == (i == sel)
      requires RenderResumes(start, textDivs, items, ms, i0, i, i1, prevEnd, sel)
      requires scrolls == scrolls0 + ScrollsIn(ms, i0, i, sel, isViewerInPresentationMode)
      requires next == i + 1 && nextEnd == Some(ms[i].end)
      modifies this`textDivs, this`scrolls
      ensures |textDivs| == |old(textDivs)|
      ensures RenderResumes(start, textDivs, items, ms, i0, next, i1, nextEnd, sel)
      ensures scrolls == scrolls0 + ScrollsIn(ms, i0, next, sel, isViewerInPresentationMode)
    {
      var m := ms[i];
      var highlightSuffix := if isSelected then " selected" else "";
      ghost var sc := scrolls;
      if isSelected && !isViewerInPresentationMode {
        scrolls := scrolls + [m.begin.divIdx];
      }
      ScrollsAdvance(ms, i0, i, next, sel, isViewerInPresentationMode, scrolls0, sc, isSelected && !isViewerInPresentationMode, scrolls);
      ghost var before := textDivs;
      LeadText(m.begin, prevEnd);
      MarkMatch(m, highlightSuffix);
      RenderAdvance(start, before, textDivs, items, ms, i0, i, i1, prevEnd, sel, next, nextEnd);
    }

    method RenderMatches(ctrl: Option<FindController>, ms: seq<Match>)
      requires InRange(ms, |items|) && |items| <= |textDivs| && SelectionValid(ctrl, pageIdx, |ms|)
      modifies this`textDivs, this`scrolls
      ensures textDivs == RenderedDivs(old(textDivs), items, ms, ctrl, pageIdx)
      ensures scrolls == old(scrolls) + Scrolled(ms, ctrl, pageIdx, isViewerInPresentationMode)
    {
      if |ms| == 0 {
        return;
      }
      var prevEnd: Option<Pos> := None;
      var isSelectedPage := IsSelectedPage(ctrl, pageIdx);
      var selectedMatchIdx := SelectedMatchIdx(ctrl);
      var highlightAll := HighlightAll(ctrl);
      var i0, i1 := selectedMatchIdx, selectedMatchIdx + 1;
      if highlightAll {
        i0, i1 := 0, |ms|;
      } else if !isSelectedPage {
        return;
      }
      ghost var sel := SelectedFor(ctrl, pageIdx);
      ghost var start, scrolls0 := textDivs, scrolls;
      RenderedRange(start, items, ms, ctrl, pageIdx, i0, i1);
      ScrolledRange(ms, ctrl, pageIdx, i0, i1, isViewerInPresentationMode);
      var i: nat := i0;
      while i < i1
        invariant i0 <= i <= i1 <= |ms| && |textDivs| == |start|
        invariant prevEnd.Some? ==> prevEnd.value.divIdx < |items|
        invariant RenderResumes(start, textDivs, items, ms, i0, i, i1, prevEnd, sel)
        invariant scrolls == scrolls0 + ScrollsIn(ms, i0, i, sel, isViewerInPresentationMode)
      {
        var m := ms[i];
        var next := i + 1;
        var isSelected := isSelectedPage && i == selectedMatchIdx;
        RenderMatch(start, scrolls0, ms, i0, i, i1, prevEnd, sel, isSelected, next, Some(m.end));
        prevEnd := Some(m.end);
        i := next;
      }
      RenderFinish(start, textDivs, items, ms, i0, i1, prevEnd, sel);
      if prevEnd.Some? {
        AppendTextToDiv(prevEnd.value.divIdx, prevEnd.value.offset, None, None);
      }
    }

    /** The clearing loop of `updateMatches`: every div of every match in
        `ms`, from the first div not yet cleared, gets its item's text back
        and loses its class. */
    method ClearMatches(ms: seq<Match>)
      requires InRange(ms, |items|) && Chained(ms) && |items| <= |textDivs|
      modifies this`textDivs
      ensures textDivs == Cleared(old(textDivs), items, ms)
    {
      var clearedUntilDivIdx := -1;
      ghost var start := textDivs;
      var i := 0;
      while i < |ms|
        invariant 0 <= i <= |ms| && |textDivs| == |start|
        invariant clearedUntilDivIdx == if i == 0 then -1 else ms[i - 1].end.divIdx + 1
        modifies this`textDivs
        invariant forall d :: 0 <= d < |textDivs| ==>
          textDivs[d] == if d < |items| && CoveredBy(ms, i, d) then Reset(start[d], items[d]) else start[d]
      {
        var m := ms[i];
        var begin := if clearedUntilDivIdx > m.begin.divIdx then clearedUntilDivIdx else m.begin.divIdx;
        if i > 0 {
          assert ms[i - 1].end.divIdx <= m.begin.divIdx;
        }
        var n := begin;
        while n <= m.end.divIdx
          invariant begin <= n <= m.end.divIdx + 1 && |textDivs| == |start|
          modifies this`textDivs
          invariant forall d :: 0 <= d < |textDivs| ==>
            textDivs[d] == if d < |items| && (CoveredBy(ms, i, d) || begin <= d < n) then Reset(start[d], items[d]) else start[d]
        {
          textDivs := textDivs[n := Reset(textDivs[n], items[n])];
          n := n + 1;
        }
        forall d | 0 <= d < |textDivs|
          ensures textDivs[d] == if d < |items| && CoveredBy(ms, i + 1, d) then Reset(start[d], items[d]) else start[d]
        {
          if m.begin.divIdx <= d < begin {
            assert ms[i - 1].begin.divIdx <= d <= ms[i - 1].end.divIdx;
          }
          if CoveredBy(ms, i + 1, d) && !CoveredBy(ms, i, d) {
            assert m.begin.divIdx <= d <= m.end.divIdx;
          }
        }
        clearedUntilDivIdx := m.end.divIdx + 1;
        i := i + 1;
      }
      assert textDivs == Cleared(start, items, ms);
    }

    /** Past the `renderingDone` guard the source reads `textContent.items`,
        which `setTextContent` must have set (`divContentDone`). */
    method UpdateMatches(ctrl: Option<FindController>)
      requires Valid()
      requires renderingDone ==> divContentDone && InRange(matches, |items|) && UpdateOk(items, ctrl, pageIdx)
      modifies this`textDivs, this`matches, this`scrolls
      ensures Valid() && (renderingDone ==> InRange(matches, |items|))
      ensures renderingDone && !IsActive(ctrl) ==> forall d :: 0 <= d < |textDivs| ==> Plain(textDivs[d])
      ensures !renderingDone ==> textDivs == old(textDivs) && matches == old(matches) && scrolls == old(scrolls)
      ensures renderingDone ==>
        textDivs == UpdatedDivs(old(textDivs), items, old(matches), ctrl, pageIdx) &&
        matches == UpdatedMatches(items, old(matches), ctrl, pageIdx) &&
        scrolls == old(scrolls) + (if IsActive(ctrl) then Scrolled(matches, ctrl, pageIdx, isViewerInPresentationMode) else [])
    {
      if !renderingDone {
        return;
      }
      UpdatedPlain(textDivs, items, matches, ctrl, pageIdx);
      ClearMatches(matches);
      if !IsActive(ctrl) {
        return;
      }
      matches := ConvertMatches(ctrl, PageMatches(ctrl, pageIdx));
      RenderMatches(ctrl, matches);
    }

    /** The loop of `renderLayer` that fills the fragment: whitespace divs
        are skipped, every other div is measured and kept if wider than zero. */
    method CollectFragment(measure: Div -> real) returns (frag: seq<nat>)
      ensures frag == ToRender(textDivs, measure, |textDivs|)
    {
      frag := [];
      var i := 0;
      while i < |textDivs|
        invariant 0 <= i <= |textDivs| && frag == ToRender(textDivs, measure, i)
      {
        var textDiv := textDivs[i];
        if textDiv.isWhitespace {
          i := i + 1;
          continue;
        }
        var width := measure(textDiv);
        if width > 0.0 {
          frag := frag + [i];
        }
        i := i + 1;
      }
    }

    /** Under the cap the source goes on to `updateMatches` and its read of
        `textContent.items`. */
    method RenderLayer(measure: Div -> real, ctrl: Option<FindController>)
      requires Valid()
      requires |textDivs| <= MAX_TEXT_DIVS_TO_RENDER ==>
        divContentDone && InRange(matches, |items|) && UpdateOk(items, ctrl, pageIdx)
      modifies this
      ensures Valid() && (|old(textDivs)| <= MAX_TEXT_DIVS_TO_RENDER ==> InRange(matches, |items|))
      ensures items == old(items) && divContentDone == old(divContentDone)
      ensures |old(textDivs)| > MAX_TEXT_DIVS_TO_RENDER ==>
        textDivs == old(textDivs) && matches == old(matches) && layer == old(layer) &&
        scrolls == old(scrolls) && renderingDone == old(renderingDone)
      ensures |old(textDivs)| <= MAX_TEXT_DIVS_TO_RENDER && !IsActive(ctrl) ==>
        forall d :: 0 <= d < |textDivs| ==> Plain(textDivs[d])
      ensures |old(textDivs)| <= MAX_TEXT_DIVS_TO_RENDER ==>
        renderingDone &&
        layer == Attach(old(layer), ToRender(old(textDivs), measure, |old(textDivs)|)) &&
        textDivs == UpdatedDivs(old(textDivs), items, old(matches), ctrl, pageIdx) &&
        matches == UpdatedMatches(items, old(matches), ctrl, pageIdx) &&
        scrolls == old(scrolls) + (if IsActive(ctrl) then Scrolled(matches, ctrl, pageIdx, isViewerInPresentationMode) else [])
    {
      if |textDivs| > MAX_TEXT_DIVS_TO_RENDER {
        return;
      }
      var frag := CollectFragment(measure);
      AttachRendered(layer, textDivs, measure);
      layer := Attach(layer, frag);
      renderingDone := true;
      UpdateMatches(ctrl);
    }
  }
}
