/** The records the text layer works on: the overlay divs built for a page's
    text items (the strings of `textContent.items`, held as `seq<string>`),
    converted match positions and the find controller's state, with the
    accessors the source reads off that controller. */
module TextLayerTypes {
  import opened Wrappers

  /** A child node of a text div: a plain text node (`className == None`) or
      a `span` of the given class wrapping a text node. */
  datatype Piece = Piece(text: string, className: Option<string>)

  /** One overlay div: its child nodes, its `className`, whether
      `dataset.isWhitespace` is set, and whether `appendText` gave it its
      position, font style and dataset entries (geometry itself is not
      modelled). */
  datatype Div = Div(pieces: seq<Piece>, className: string, isWhitespace: bool, positioned: bool)

  /** A position inside the text layer: item (div) index and character offset. */
  datatype Pos = Pos(divIdx: nat, offset: int)

  datatype Match = Match(begin: Pos, end: Pos)

  /** The part of the find controller the text layer reads. */
  datatype FindController = FindController(
    query: string,
    active: bool,
    highlightAll: bool,
    selectedPageIdx: int,
    selectedMatchIdx: int,
    pageMatches: map<int, seq<int>>)

  /** The text a div displays: its pieces concatenated in order. */
  function Text(ps: seq<Piece>): string
  {
    if ps == [] then "" else Text(ps[..|ps| - 1]) + ps[|ps| - 1].text
  }

  lemma TextAppend(ps: seq<Piece>, p: Piece)
    ensures Text(ps + [p]) == Text(ps) + p.text
  {
    assert (ps + [p])[..|ps|] == ps;
  }

  /** `div.textContent = s`: the div's children become one text node, or none for "". */
  function TextContent(s: string): (ps: seq<Piece>)
    ensures Text(ps) == s
  {
    if s == "" then [] else [Piece(s, None)]
  }

  // The controller reads of convertMatches and renderMatches; an absent
  // controller reads as query length 0, no highlight-all, no selection.

  function QueryLen(ctrl: Option<FindController>): nat {
    if ctrl.None? then 0 else |ctrl.value.query|
  }

  predicate HighlightAll(ctrl: Option<FindController>) {
    ctrl.Some? && ctrl.value.highlightAll
  }

  predicate IsSelectedPage(ctrl: Option<FindController>, pageIdx: int) {
    ctrl.Some? && pageIdx == ctrl.value.selectedPageIdx
  }

  function SelectedMatchIdx(ctrl: Option<FindController>): int {
    if ctrl.None? then -1 else ctrl.value.selectedMatchIdx
  }

  predicate IsActive(ctrl: Option<FindController>) {
    ctrl.Some? && ctrl.value.active
  }

  /** `pageMatches[pageIdx] || []`. */
  function PageMatches(ctrl: Option<FindController>, pageIdx: int): seq<int> {
    if ctrl.Some? && pageIdx in ctrl.value.pageMatches then ctrl.value.pageMatches[pageIdx] else []
  }

  /** Every match starts no later than it ends and lies within the first `n` items. */
  predicate InRange(ms: seq<Match>, n: nat) {
    forall k :: 0 <= k < |ms| ==> ms[k].begin.divIdx <= ms[k].end.divIdx < n
  }

  /** Matches never go back: each one starts at or after the div where every earlier one ends. */
  predicate Chained(ms: seq<Match>) {
    forall j, k :: 0 <= j < k < |ms| ==> ms[j].end.divIdx <= ms[k].begin.divIdx
  }

  /** A match whose offsets lie inside their items and, inside one item, in order. */
  predicate OffsetsIn(items: seq<string>, m: Match)
    requires m.begin.divIdx <= m.end.divIdx < |items|
  {
    0 <= m.begin.offset <= |items[m.begin.divIdx]| &&
    0 <= m.end.offset <= |items[m.end.divIdx]| &&
    (m.begin.divIdx == m.end.divIdx ==> m.begin.offset <= m.end.offset)
  }

  /** What renderMatches needs for every div it rewrites to keep its text:
      in-range, chained matches with in-range offsets, where a match starting
      in the div where the previous one ended starts at or after that end. */
  predicate WellFormed(ms: seq<Match>, items: seq<string>) {
    InRange(ms, |items|) && Chained(ms) &&
    (forall k :: 0 <= k < |ms| ==> OffsetsIn(items, ms[k])) &&
    (forall j, k :: 0 <= j < |ms| && 0 <= k < |ms| && k == j + 1 && ms[j].end.divIdx == ms[k].begin.divIdx ==>
       ms[j].end.offset <= ms[k].begin.offset)
  }
}
