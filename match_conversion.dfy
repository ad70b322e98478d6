/** convertMatches: mapping global character offsets of the page text into
    (item index, offset within item) positions by a forward walk over the
    items. */
module MatchConversion {
  import opened TextLayerTypes

  /** Total length of the first `k` items: the global offset where item `k` starts. */
  function Prefix(items: seq<string>, k: nat): nat
    requires k <= |items|
  {
    if k == 0 then 0 else Prefix(items, k - 1) + |items[k - 1]|
  }

  /** The strings of items `lo .. hi-1`, concatenated. */
  function Concat(items: seq<string>, lo: nat, hi: nat): string
    requires lo <= hi <= |items|
    decreases hi
  {
    if lo == hi then "" else Concat(items, lo, hi - 1) + items[hi - 1]
  }

  /** The page text the find controller searches: all item strings joined. */
  function PageText(items: seq<string>): string {
    Concat(items, 0, |items|)
  }

  /** The global offset of a position. */
  function Global(items: seq<string>, p: Pos): int
    requires p.divIdx <= |items|
  {
    Prefix(items, p.divIdx) + p.offset
  }

  /** One of the two while loops of convertMatches: starting at item `i`, step
      to the next item while `i` is not the last one and `target` lies at or
      beyond (`strict`: strictly beyond) the end of item `i`. */
  function Seek(items: seq<string>, i: nat, target: int, strict: bool): (j: nat)
    requires i < |items|
    ensures i <= j < |items|
    decreases |items| - i
  {
    if i == |items| - 1 then i
    else if (if strict then target > Prefix(items, i + 1) else target >= Prefix(items, i + 1))
    then Seek(items, i + 1, target, strict)
    else i
  }

  /** The result of convertMatches for offsets `xs` when the walk is at item
      `i`: the begin walk uses `>=`, the end walk starts where the begin
      walk stopped, targets the offset plus the query length and uses `>`;
      the next offset's walk resumes where this end walk stopped. */
  function Convert(items: seq<string>, q: nat, xs: seq<int>, i: nat): (r: seq<Match>)
    requires i < |items|
    ensures |r| == |xs|
    ensures forall k :: 0 <= k < |r| ==> i <= r[k].begin.divIdx
    ensures InRange(r, |items|) && Chained(r)
    decreases |xs|
  {
    if xs == [] then []
    else
      var b := Seek(items, i, xs[0], false);
      var e := Seek(items, b, xs[0] + q, true);
      [Match(Pos(b, xs[0] - Prefix(items, b)), Pos(e, xs[0] + q - Prefix(items, e)))] + Convert(items, q, xs[1..], e)
  }

  /** Offsets from a search that resumes after each hit: the first is not
      negative and each next one starts at least `q` characters after the
      previous one (ascending and non-overlapping). */
  predicate NonOverlapping(xs: seq<int>, q: nat) {
    (forall k :: 0 <= k < |xs| ==> 0 <= xs[k]) &&
    forall k :: 0 < k < |xs| ==> xs[k - 1] + q <= xs[k]
  }

  /** What the begin walk guarantees for offset `x` once it starts at or
      before the item holding `x`: the position denotes `x`, its offset is
      not negative, and it lies inside its item unless the walk reached
      the last item. */
  predicate BeginRule(items: seq<string>, x: int, p: Pos)
    requires p.divIdx < |items|
  {
    Global(items, p) == x && 0 <= p.offset &&
    (p.offset < |items[p.divIdx]| || p.divIdx == |items| - 1)
  }

  /** What the end walk guarantees for the end offset `y`: the position
      denotes `y`; every item the walk stepped over ends strictly before
      `y`, so an end exactly at an item boundary stays in the earlier item;
      the end lies inside its item (possibly at its very end) unless the
      walk reached the last item. */
  predicate EndRule(items: seq<string>, y: int, b: Pos, e: Pos)
    requires b.divIdx <= e.divIdx < |items|
  {
    Global(items, e) == y &&
    (forall h :: b.divIdx < h <= e.divIdx ==> Prefix(items, h) < y) &&
    (e.offset <= |items[e.divIdx]| || e.divIdx == |items| - 1)
  }

  lemma {:induction false} PrefixMonotone(items: seq<string>, j: nat, k: nat)
    requires j <= k <= |items|
    ensures Prefix(items, j) <= Prefix(items, k)
    decreases k
  {
    if j < k { PrefixMonotone(items, j, k - 1); }
  }

  /** What either walk reaches from item `i`. */
  lemma {:induction false} SeekFacts(items: seq<string>, i: nat, t: int, strict: bool)
    requires i < |items|
    ensures var j := Seek(items, i, t, strict);
      (j == i || (if strict then t > Prefix(items, j) else t >= Prefix(items, j))) &&
      (j == |items| - 1 || (if strict then t <= Prefix(items, j + 1) else t < Prefix(items, j + 1))) &&
      (forall h :: i < h <= j ==> (if strict then t > Prefix(items, h) else t >= Prefix(items, h)))
    decreases |items| - i
  {
    if i < |items| - 1 && (if strict then t > Prefix(items, i + 1) else t >= Prefix(items, i + 1)) {
      SeekFacts(items, i + 1, t, strict);
    }
  }

  /** One step of a walk, with the end of item `i` written as the running
      sum the source keeps. */
  lemma SeekStep(items: seq<string>, i: nat, t: int, strict: bool)
    requires i < |items|
    ensures Seek(items, i, t, strict)
         == if i == |items| - 1 then i
            else if (if strict then t > Prefix(items, i) + |items[i]| else t >= Prefix(items, i) + |items[i]|)
            then Seek(items, i + 1, t, strict)
            else i
  {
    assert Prefix(items, i + 1) == Prefix(items, i) + |items[i]|;
  }

  /** The loop state of the conversion: `done` followed by the conversion
      resumed at offset `m` and item `i` is the whole conversion. */
  predicate Resumes(items: seq<string>, q: nat, xs: seq<int>, m: nat, i: nat, done: seq<Match>)
    requires m <= |xs| && i < |items|
  {
    done + Convert(items, q, xs[m..], i) == Convert(items, q, xs, 0)
  }

  /** The conversion resumed at offset `m`: the match begun by the walk at
      `b` and ended by the walk at `e`, then the rest resumed from `e`. */
  lemma ConvertAdvance(items: seq<string>, q: nat, xs: seq<int>, m: nat, i: nat, b: nat, e: nat)
    requires i < |items| && m < |xs|
    requires b == Seek(items, i, xs[m], false) && e == Seek(items, b, xs[m] + q, true)
    ensures Convert(items, q, xs[m..], i)
         == [Match(Pos(b, xs[m] - Prefix(items, b)), Pos(e, xs[m] + q - Prefix(items, e)))] + Convert(items, q, xs[m + 1..], e)
  {
    var rest := xs[m..];
    assert rest[0] == xs[m] && rest[1..] == xs[m + 1..];
  }

  /** One round of the conversion loop: with the matches for the offsets
      before `m` in `done`, `found` is the next one and the rest resume
      from where its end walk stopped. */
  lemma ConvertResume(items: seq<string>, q: nat, xs: seq<int>, m: nat, i: nat, b: nat, e: nat, bIndex: int, eIndex: int,
                      done: seq<Match>, found: Match, next: nat, ret: seq<Match>)
    requires i < |items| && m < |xs|
    requires b == Seek(items, i, xs[m], false) && e == Seek(items, b, xs[m] + q, true)
    requires bIndex == Prefix(items, b) && eIndex == Prefix(items, e)
    requires found == Match(Pos(b, xs[m] - bIndex), Pos(e, xs[m] + q - eIndex))
    requires Resumes(items, q, xs, m, i, done)
    requires next == m + 1 && ret == done + [found]
    ensures e < |items| && Resumes(items, q, xs, next, e, ret)
  {
    ConvertAdvance(items, q, xs, m, i, b, e);
    assert xs[next..] == xs[m + 1..];
    AppendOne(done, found, Convert(items, q, xs[m + 1..], e), Convert(items, q, xs[m..], i), Convert(items, q, xs, 0));
  }

  /** The conversion loop's state once every offset is done is the whole conversion. */
  lemma ConvertFinish(items: seq<string>, q: nat, xs: seq<int>, m: nat, i: nat, done: seq<Match>)
    requires i < |items| && m == |xs| && Resumes(items, q, xs, m, i, done)
    ensures done == Convert(items, q, xs, 0)
  {
    assert xs[m..] == [];
  }

  /** Moving one element from the front of the rest to the end of what is done. */
  lemma AppendOne<T>(done: seq<T>, x: T, tail: seq<T>, rest: seq<T>, whole: seq<T>)
    requires rest == [x] + tail && done + rest == whole
    ensures (done + [x]) + tail == whole
  {
    assert (done + [x]) + tail == done + ([x] + tail);
  }

  /** The begin and end rules for every offset, by induction over the walk,
      given that the walk starts at or before the first offset. */
  lemma {:induction false} ConvertRulesFrom(items: seq<string>, q: nat, xs: seq<int>, i: nat)
    requires i < |items|
    requires forall k :: 0 < k < |xs| ==> xs[k - 1] + q <= xs[k]
    requires |xs| > 0 ==> Prefix(items, i) <= xs[0]
    ensures var r := Convert(items, q, xs, i);
      forall k :: 0 <= k < |xs| ==>
        BeginRule(items, xs[k], r[k].begin) && EndRule(items, xs[k] + q, r[k].begin, r[k].end)
    decreases |xs|
  {
    if xs != [] {
      var r := Convert(items, q, xs, i);
      var e := FirstMatchRules(items, q, xs, i);
      var xs' := xs[1..];
      assert forall k :: 0 < k < |xs'| ==> xs'[k - 1] + q <= xs'[k] by {
        forall k | 0 < k < |xs'| ensures xs'[k - 1] + q <= xs'[k] { assert xs'[k - 1] == xs[k] && xs'[k] == xs[k + 1]; }
      }
      if |xs'| > 0 {
        assert xs[0] + q <= xs'[0];
      }
      ConvertRulesFrom(items, q, xs', e);
      var rest := Convert(items, q, xs', e);
      forall k | 0 <= k < |xs|
        ensures BeginRule(items, xs[k], r[k].begin) && EndRule(items, xs[k] + q, r[k].begin, r[k].end)
      {
        if k > 0 { assert r[k] == rest[k - 1] && xs[k] == xs'[k - 1]; }
      }
    }
  }

  /** The rules for the first offset, and where its end walk leaves the cursor. */
  lemma FirstMatchRules(items: seq<string>, q: nat, xs: seq<int>, i: nat) returns (e: nat)
    requires i < |items| && |xs| > 0 && Prefix(items, i) <= xs[0]
    ensures var r := Convert(items, q, xs, i);
      e < |items| && e == r[0].end.divIdx && Prefix(items, e) <= xs[0] + q &&
      r == [r[0]] + Convert(items, q, xs[1..], e) &&
      BeginRule(items, xs[0], r[0].begin) && EndRule(items, xs[0] + q, r[0].begin, r[0].end)
  {
    var x := xs[0];
    var b := Seek(items, i, x, false);
    e := Seek(items, b, x + q, true);
    SeekFacts(items, i, x, false);
    SeekFacts(items, b, x + q, true);
    PrefixMonotone(items, i, b);
  }

  /** Items are disjoint spans of the page text: an offset lies in at most one. */
  lemma {:induction false} ItemUnique(items: seq<string>, x: int, b: nat)
    requires b < |items| && Prefix(items, b) <= x < Prefix(items, b) + |items[b]|
    ensures forall j :: 0 <= j < |items| ==> (Prefix(items, j) <= x < Prefix(items, j) + |items[j]| <==> j == b)
  {
    forall j | 0 <= j < |items|
      ensures Prefix(items, j) <= x < Prefix(items, j) + |items[j]| <==> j == b
    {
      if j < b { PrefixMonotone(items, j + 1, b); }
      if j > b { PrefixMonotone(items, b + 1, j); }
    }
  }

  /** Begin rule: for ascending non-overlapping offsets, every offset inside
      the page text begins in the one item whose span
      `[Prefix(j), Prefix(j) + |items[j]|)` contains it, at offset
      `x - Prefix(j)`; an offset exactly at an item boundary therefore begins
      in the later item. */
  lemma ConvertBeginRule(items: seq<string>, q: nat, xs: seq<int>, k: nat)
    requires |items| > 0 && NonOverlapping(xs, q)
    requires k < |xs| && xs[k] < Prefix(items, |items|)
    ensures var b := Convert(items, q, xs, 0)[k].begin;
      b.offset == xs[k] - Prefix(items, b.divIdx) &&
      forall j :: 0 <= j < |items| ==> (Prefix(items, j) <= xs[k] < Prefix(items, j) + |items[j]| <==> j == b.divIdx)
  {
    ConvertRulesFrom(items, q, xs, 0);
    var b := Convert(items, q, xs, 0)[k].begin;
    assert BeginRule(items, xs[k], b);
    ItemUnique(items, xs[k], b.divIdx);
  }

  /** The begin rule needs the offsets not to overlap: with a query of length
      3 over items "ab" and "cd", offsets 0 and 1 are ascending but overlap,
      and the second begin walk starts from item 1, where the first end walk
      stopped, so offset 1, which lies in item 0, begins in item 1 at offset -1. */
  lemma OverlapBreaksBeginRule()
    ensures var items := ["ab", "cd"];
      var b := Convert(items, 3, [0, 1], 0)[1].begin;
      b == Pos(1, -1) && Prefix(items, 0) <= 1 < Prefix(items, 0) + |items[0]|
  {
    var items := ["ab", "cd"];
    assert Prefix(items, 1) == 2;
    assert Seek(items, 0, 3, true) == 1;
    var xs: seq<int> := [0, 1];
    assert xs[1..] == [1];
    assert Convert(items, 3, xs, 0)[1] == Convert(items, 3, [1], 1)[0];
  }

  /** Offsets that never go back and are not negative; unlike
      `NonOverlapping`, two of them may be closer than the query length. */
  predicate Ascending(xs: seq<int>) {
    (forall k :: 0 <= k < |xs| ==> 0 <= xs[k]) &&
    forall k :: 0 < k < |xs| ==> xs[k - 1] <= xs[k]
  }

  /** The end rule for every offset needs only ascending offsets: each end
      walk starts at an item that begins no later than its target, and
      stops at an item that begins no later than it either. */
  lemma {:induction false} EndRulesFrom(items: seq<string>, q: nat, xs: seq<int>, i: nat)
    requires i < |items|
    requires forall k :: 0 < k < |xs| ==> xs[k - 1] <= xs[k]
    requires |xs| > 0 ==> Prefix(items, i) <= xs[0] + q
    ensures var r := Convert(items, q, xs, i);
      forall k :: 0 <= k < |xs| ==>
        Prefix(items, r[k].end.divIdx) <= xs[k] + q && EndRule(items, xs[k] + q, r[k].begin, r[k].end)
    decreases |xs|
  {
    if xs != [] {
      var r := Convert(items, q, xs, i);
      var x := xs[0];
      var e := FirstEndRule(items, q, xs, i);
      var xs' := xs[1..];
      assert forall k :: 0 < k < |xs'| ==> xs'[k - 1] <= xs'[k] by {
        forall k | 0 < k < |xs'| ensures xs'[k - 1] <= xs'[k] { assert xs'[k - 1] == xs[k] && xs'[k] == xs[k + 1]; }
      }
      if |xs'| > 0 {
        assert x <= xs'[0];
      }
      EndRulesFrom(items, q, xs', e);
      var rest := Convert(items, q, xs', e);
      forall k | 0 <= k < |xs|
        ensures Prefix(items, r[k].end.divIdx) <= xs[k] + q && EndRule(items, xs[k] + q, r[k].begin, r[k].end)
      {
        if k > 0 { assert r[k] == rest[k - 1] && xs[k] == xs'[k - 1]; }
      }
    }
  }

  /** The end rule for the first offset, and where its end walk leaves the
      cursor, when the walk starts at an item beginning no later than the
      end offset. */
  lemma FirstEndRule(items: seq<string>, q: nat, xs: seq<int>, i: nat) returns (e: nat)
    requires i < |items| && |xs| > 0 && Prefix(items, i) <= xs[0] + q
    ensures var r := Convert(items, q, xs, i);
      e < |items| && e == r[0].end.divIdx && Prefix(items, e) <= xs[0] + q &&
      r == [r[0]] + Convert(items, q, xs[1..], e) &&
      EndRule(items, xs[0] + q, r[0].begin, r[0].end)
  {
    var x := xs[0];
    var b := Seek(items, i, x, false);
    e := Seek(items, b, x + q, true);
    SeekFacts(items, i, x, false);
    SeekFacts(items, b, x + q, true);
    if e < |items| - 1 {
      assert Prefix(items, e + 1) == Prefix(items, e) + |items[e]|;
    }
  }

  /** End rule: for ascending offsets, overlapping or not, whose match lies
      inside the page text, the end position denotes `x + q`; its item is
      the first one from the begin item on whose end is at or beyond
      `x + q` (strict `>` while walking), so a match ending exactly at an
      item boundary ends in the earlier item with the offset equal to that
      item's length. */
  lemma ConvertEndRule(items: seq<string>, q: nat, xs: seq<int>, k: nat)
    requires |items| > 0 && Ascending(xs)
    requires k < |xs| && xs[k] + q <= Prefix(items, |items|)
    ensures var m := Convert(items, q, xs, 0)[k];
      m.end.offset == xs[k] + q - Prefix(items, m.end.divIdx) &&
      0 <= m.end.offset <= |items[m.end.divIdx]| &&
      (m.begin.divIdx < m.end.divIdx ==> 0 < m.end.offset) &&
      (forall h :: m.begin.divIdx < h <= m.end.divIdx ==> Prefix(items, h) < xs[k] + q)
  {
    if |xs| > 0 {
      assert 0 <= xs[0];
    }
    EndRulesFrom(items, q, xs, 0);
    var m := Convert(items, q, xs, 0)[k];
    assert EndRule(items, xs[k] + q, m.begin, m.end);
    if m.end.divIdx == |items| - 1 {
      assert Prefix(items, |items|) == Prefix(items, m.end.divIdx) + |items[m.end.divIdx]|;
    }
    if m.begin.divIdx < m.end.divIdx {
      assert Prefix(items, m.end.divIdx) < xs[k] + q;
    }
  }

  /** Ascending, non-overlapping offsets whose matches all lie inside the page
      text convert to well-formed matches, the input renderMatches needs. */
  lemma ConvertWellFormed(items: seq<string>, q: nat, xs: seq<int>)
    requires |items| > 0 && NonOverlapping(xs, q)
    requires |xs| > 0 ==> xs[|xs| - 1] + q <= Prefix(items, |items|)
    ensures WellFormed(Convert(items, q, xs, 0), items)
  {
    var r := Convert(items, q, xs, 0);
    ConvertRulesFrom(items, q, xs, 0);
    assert forall k :: 0 <= k < |xs| ==> xs[k] + q <= Prefix(items, |items|) by {
      forall k | 0 <= k < |xs| ensures xs[k] + q <= Prefix(items, |items|) {
        Bounded(xs, q, k);
      }
    }
    assert Ascending(xs);
    forall k | 0 <= k < |r| ensures OffsetsIn(items, r[k]) {
      ConvertEndRule(items, q, xs, k);
    }
  }

  lemma {:induction false} Bounded(xs: seq<int>, q: nat, k: nat)
    requires k < |xs| && forall h :: 0 < h < |xs| ==> xs[h - 1] + q <= xs[h]
    ensures xs[k] + q <= xs[|xs| - 1] + q
    decreases |xs| - k
  {
    if k < |xs| - 1 { Bounded(xs, q, k + 1); }
  }

  /** The characters a match covers: from its begin offset to its end offset
      in one item, or the tail of the begin item, the whole items in between
      and the head of the end item. These are the characters renderMatches
      puts in highlight spans and divs. */
  function MatchText(items: seq<string>, m: Match): string
    requires m.begin.divIdx <= m.end.divIdx < |items| && OffsetsIn(items, m)
  {
    var b, e := m.begin, m.end;
    if b.divIdx == e.divIdx then items[b.divIdx][b.offset..e.offset]
    else items[b.divIdx][b.offset..] + Concat(items, b.divIdx + 1, e.divIdx) + items[e.divIdx][..e.offset]
  }

  lemma {:induction false} ConcatLength(items: seq<string>, lo: nat, hi: nat)
    requires lo <= hi <= |items|
    ensures |Concat(items, lo, hi)| == Prefix(items, hi) - Prefix(items, lo)
    decreases hi
  {
    if lo < hi { ConcatLength(items, lo, hi - 1); }
  }

  lemma {:induction false} ConcatSplit(items: seq<string>, lo: nat, mid: nat, hi: nat)
    requires lo <= mid <= hi <= |items|
    ensures Concat(items, lo, hi) == Concat(items, lo, mid) + Concat(items, mid, hi)
    decreases hi
  {
    if mid < hi { ConcatSplit(items, lo, mid, hi - 1); }
  }

  /** Items `j .. h-1` sit in the page text at global offsets `[Prefix(j), Prefix(h))`. */
  lemma PageTextSlice(items: seq<string>, j: nat, h: nat)
    requires j <= h <= |items|
    ensures Prefix(items, j) <= Prefix(items, h) <= |PageText(items)|
    ensures PageText(items)[Prefix(items, j)..Prefix(items, h)] == Concat(items, j, h)
  {
    ConcatSplit(items, 0, j, |items|);
    ConcatSplit(items, j, h, |items|);
    ConcatLength(items, 0, j);
    ConcatLength(items, j, h);
    ConcatLength(items, 0, |items|);
    var a, c := Concat(items, 0, j), Concat(items, j, h);
    assert PageText(items) == a + (c + Concat(items, h, |items|));
    assert (a + (c + Concat(items, h, |items|)))[|a|..|a| + |c|] == c;
  }

  /** Item `j` sits in the page text at global offsets `[Prefix(j), Prefix(j) + |items[j]|)`. */
  lemma ItemInPage(items: seq<string>, j: nat)
    requires j < |items|
    ensures Prefix(items, j) + |items[j]| <= |PageText(items)|
    ensures PageText(items)[Prefix(items, j)..Prefix(items, j) + |items[j]|] == items[j]
  {
    PageTextSlice(items, j, j + 1);
    assert Concat(items, j, j + 1) == items[j];
  }

  lemma SliceOfSlice(s: string, lo: nat, hi: nat, a: nat, c: nat)
    requires lo <= hi <= |s| && a <= c <= hi - lo
    ensures s[lo..hi][a..c] == s[lo + a..lo + c]
  {
    var u, v := s[lo..hi][a..c], s[lo + a..lo + c];
    assert |u| == |v|;
    forall i | 0 <= i < |u| ensures u[i] == v[i] { }
  }

  lemma SliceJoin3(s: string, a: nat, b: nat, c: nat, d: nat)
    requires a <= b <= c <= d <= |s|
    ensures s[a..d] == s[a..b] + s[b..c] + s[c..d]
  {
    var t := s[a..b] + s[b..c] + s[c..d];
    forall i | 0 <= i < d - a ensures s[a..d][i] == t[i] {
      if i < b - a {
        assert t[i] == s[a..b][i];
      } else if i < c - a {
        assert t[i] == s[b..c][i - (b - a)];
      } else {
        assert t[i] == s[c..d][i - (c - a)];
      }
    }
    assert s[a..d] == t;
  }

  /** A well-formed match covers, in the page text, exactly the characters
      between the global offsets of its begin and its end. */
  lemma MatchTextInPage(items: seq<string>, m: Match)
    requires m.begin.divIdx <= m.end.divIdx < |items| && OffsetsIn(items, m)
    ensures 0 <= Global(items, m.begin) <= Global(items, m.end) <= |PageText(items)|
    ensures PageText(items)[Global(items, m.begin)..Global(items, m.end)] == MatchText(items, m)
  {
    if m.begin.divIdx == m.end.divIdx {
      SingleItemText(items, m.begin.divIdx, m.begin.offset, m.end.offset);
    } else {
      SpanningText(items, m.begin.divIdx, m.begin.offset, m.end.divIdx, m.end.offset);
    }
  }

  lemma SingleItemText(items: seq<string>, b: nat, bo: nat, eo: nat)
    requires b < |items| && bo <= eo <= |items[b]|
    ensures Prefix(items, b) + eo <= |PageText(items)|
    ensures PageText(items)[Prefix(items, b) + bo..Prefix(items, b) + eo] == items[b][bo..eo]
  {
    ItemInPage(items, b);
    SliceOfSlice(PageText(items), Prefix(items, b), Prefix(items, b) + |items[b]|, bo, eo);
  }

  lemma SpanningText(items: seq<string>, b: nat, bo: nat, e: nat, eo: nat)
    requires b < e < |items| && bo <= |items[b]| && eo <= |items[e]|
    ensures Prefix(items, b) + bo <= Prefix(items, e) + eo <= |PageText(items)|
    ensures PageText(items)[Prefix(items, b) + bo..Prefix(items, e) + eo]
         == items[b][bo..] + Concat(items, b + 1, e) + items[e][..eo]
  {
    var lo, c, d, hi := SpanningParts(items, b, bo, e, eo);
    JoinThree(PageText(items), lo, c, d, hi, items[b][bo..], Concat(items, b + 1, e), items[e][..eo]);
  }

  /** Where the three parts of a spanning match sit in the page text. */
  lemma SpanningParts(items: seq<string>, b: nat, bo: nat, e: nat, eo: nat) returns (lo: nat, c: nat, d: nat, hi: nat)
    requires b < e < |items| && bo <= |items[b]| && eo <= |items[e]|
    ensures lo == Prefix(items, b) + bo && hi == Prefix(items, e) + eo
    ensures lo <= c <= d <= hi <= |PageText(items)|
    ensures PageText(items)[lo..c] == items[b][bo..]
    ensures PageText(items)[c..d] == Concat(items, b + 1, e)
    ensures PageText(items)[d..hi] == items[e][..eo]
  {
    ItemTail(items, b, bo);
    PageTextSlice(items, b + 1, e);
    ItemHead(items, e, eo);
    lo, c, d, hi := Prefix(items, b) + bo, Prefix(items, b + 1), Prefix(items, e), Prefix(items, e) + eo;
  }

  /** The rest of item `b` from offset `bo` is the page text up to the start
      of item `b + 1`. */
  lemma ItemTail(items: seq<string>, b: nat, bo: nat)
    requires b < |items| && bo <= |items[b]|
    ensures Prefix(items, b) + bo <= Prefix(items, b + 1) <= |PageText(items)|
    ensures PageText(items)[Prefix(items, b) + bo..Prefix(items, b + 1)] == items[b][bo..]
  {
    SingleItemText(items, b, bo, |items[b]|);
    assert items[b][bo..|items[b]|] == items[b][bo..];
  }

  /** The first `eo` characters of item `e` are the page text from the
      start of item `e`. */
  lemma ItemHead(items: seq<string>, e: nat, eo: nat)
    requires e < |items| && eo <= |items[e]|
    ensures Prefix(items, e) + eo <= |PageText(items)|
    ensures PageText(items)[Prefix(items, e)..Prefix(items, e) + eo] == items[e][..eo]
  {
    SingleItemText(items, e, 0, eo);
    assert items[e][0..eo] == items[e][..eo];
  }

  lemma JoinThree(s: string, a: nat, b: nat, c: nat, d: nat, x: string, y: string, z: string)
    requires a <= b <= c <= d <= |s|
    requires s[a..b] == x && s[b..c] == y && s[c..d] == z
    ensures s[a..d] == x + y + z
  {
    SliceJoin3(s, a, b, c, d);
  }

  /** Round trip: converting the offsets of a search for a query of length
      `q` and reading the converted match back out of the items gives the
      `q` characters of the page text at that offset. */
  lemma ConvertRecoversMatchedText(items: seq<string>, q: nat, xs: seq<int>, k: nat)
    requires |items| > 0 && NonOverlapping(xs, q)
    requires |xs| > 0 ==> xs[|xs| - 1] + q <= Prefix(items, |items|)
    requires k < |xs|
    ensures var m := Convert(items, q, xs, 0)[k];
      OffsetsIn(items, m) &&
      xs[k] + q <= |PageText(items)| &&
      MatchText(items, m) == PageText(items)[xs[k]..xs[k] + q]
  {
    var r := Convert(items, q, xs, 0);
    var m := r[k];
    ConvertWellFormed(items, q, xs);
    assert OffsetsIn(items, m);
    ConvertRulesFrom(items, q, xs, 0);
    assert BeginRule(items, xs[k], m.begin) && EndRule(items, xs[k] + q, m.begin, m.end);
    MatchTextInPage(items, m);
  }
}
