// The viewer's interaction handlers in src/pdf_viewer/interactions.rs: the
// geometry of text-markup rectangles (overlap, subtraction, normalisation,
// the anchor of a selection), adding and clearing markups from the text
// selection, the text-selection hover menu, the tab context menu, the text
// hover target and the end of a tab drag. Coordinates and ratios are reals,
// so nothing here claims bit-exact `f32` behaviour.
module Interactions {
  import opened Wrappers
  import opened Types
  import opened Tab
  import opened Viewer
  import opened SeqFilter
  import TextSelection
  import Text
  import Store
  import Persistence
  import Recency
  import RecentBookmarkNotes

  // ---------------------------------------------------------------------
  // Rectangle geometry

  /** `TEXT_MARKUP_RECT_EPSILON`. */
  const TEXT_MARKUP_RECT_EPSILON: real := 0.00001

  /** `f32::max` and `f32::min` on numbers. */
  function Max(a: real, b: real): real { if a >= b then a else b }
  function Min(a: real, b: real): real { if a <= b then a else b }

  /** `rects_overlap`: the intersection of the two rectangles is wider and
      taller than nothing. */
  predicate RectsOverlap(a: TextMarkupRect, b: TextMarkupRect)
  {
    && Max(a.leftRatio, b.leftRatio) < Min(a.rightRatio, b.rightRatio)
    && Max(a.bottomRatio, b.bottomRatio) < Min(a.topRatio, b.topRatio)
  }

  /** The point lies strictly inside the rectangle. */
  predicate Inside(r: TextMarkupRect, x: real, y: real)
  {
    r.leftRatio < x < r.rightRatio && r.bottomRatio < y < r.topRatio
  }

  /** Two rectangles overlap exactly when some point lies strictly inside
      both: overlap is of the open boxes (left, right) x (bottom, top). */
  lemma RectsOverlapIffCommonPoint(a: TextMarkupRect, b: TextMarkupRect)
    ensures RectsOverlap(a, b) <==> exists x, y :: Inside(a, x, y) && Inside(b, x, y)
  {
    if RectsOverlap(a, b) {
      var x := (Max(a.leftRatio, b.leftRatio) + Min(a.rightRatio, b.rightRatio)) / 2.0;
      var y := (Max(a.bottomRatio, b.bottomRatio) + Min(a.topRatio, b.topRatio)) / 2.0;
      assert Inside(a, x, y) && Inside(b, x, y);
    }
    if exists x, y :: Inside(a, x, y) && Inside(b, x, y) {
      var x, y :| Inside(a, x, y) && Inside(b, x, y);
      assert Max(a.leftRatio, b.leftRatio) < x < Min(a.rightRatio, b.rightRatio);
      assert Max(a.bottomRatio, b.bottomRatio) < y < Min(a.topRatio, b.topRatio);
    }
  }

  /** `p` lies within `q` (edges may touch). */
  predicate Within(p: TextMarkupRect, q: TextMarkupRect)
  {
    && q.leftRatio <= p.leftRatio && p.rightRatio <= q.rightRatio
    && q.bottomRatio <= p.bottomRatio && p.topRatio <= q.topRatio
  }

  /** Wider and taller than epsilon, the filter that ends both
      `subtract_text_markup_rect` and `normalize_text_markup_rects`. */
  predicate Thick(r: TextMarkupRect)
  {
    r.rightRatio - r.leftRatio > TEXT_MARKUP_RECT_EPSILON && r.topRatio - r.bottomRatio > TEXT_MARKUP_RECT_EPSILON
  }

  function ThickFilter(): TextMarkupRect -> bool
  {
    (r: TextMarkupRect) => Thick(r)
  }

  /** A rectangle inside another only overlaps what the outer one does. */
  lemma OverlapWithin(p: TextMarkupRect, q: TextMarkupRect, c: TextMarkupRect)
    requires Within(p, q) && RectsOverlap(p, c)
    ensures RectsOverlap(q, c)
  {
  }

  /** The strips `subtract_text_markup_rect` pushes for overlapping
      rectangles, in its order: left of, right of, above and below the
      intersection, each only when the base reaches more than epsilon
      beyond the intersection on that side. */
  function Strips(base: TextMarkupRect, cutter: TextMarkupRect): seq<TextMarkupRect>
  {
    var left := Max(base.leftRatio, cutter.leftRatio);
    var right := Min(base.rightRatio, cutter.rightRatio);
    var bottom := Max(base.bottomRatio, cutter.bottomRatio);
    var top := Min(base.topRatio, cutter.topRatio);
    var eps := TEXT_MARKUP_RECT_EPSILON;
    (if base.leftRatio + eps < left then [TextMarkupRect(base.leftRatio, base.topRatio, left, base.bottomRatio)] else [])
    + (if right + eps < base.rightRatio then [TextMarkupRect(right, base.topRatio, base.rightRatio, base.bottomRatio)] else [])
    + (if top + eps < base.topRatio then [TextMarkupRect(left, base.topRatio, right, top)] else [])
    + (if base.bottomRatio + eps < bottom then [TextMarkupRect(left, bottom, right, base.bottomRatio)] else [])
  }

  /** `subtract_text_markup_rect`: `base` itself when the two do not
      overlap, otherwise the strips wider and taller than epsilon. */
  function SubtractTextMarkupRect(base: TextMarkupRect, cutter: TextMarkupRect): (r: seq<TextMarkupRect>)
    ensures !RectsOverlap(base, cutter) ==> r == [base]
    ensures RectsOverlap(base, cutter) ==> |r| <= 4 && forall p :: p in r ==> Thick(p)
  {
    if !RectsOverlap(base, cutter) then [base]
    else Retain(Strips(base, cutter), ThickFilter())
  }

  /** The strips of overlapping rectangles lie within the base and clear of
      the cutter, and no two of them overlap. */
  lemma StripsFacts(base: TextMarkupRect, cutter: TextMarkupRect)
    requires RectsOverlap(base, cutter)
    ensures forall p :: p in Strips(base, cutter) ==> Within(p, base) && !RectsOverlap(p, cutter)
    ensures forall p, q :: p in Strips(base, cutter) && q in Strips(base, cutter) && p != q ==> !RectsOverlap(p, q)
  {
  }

  /** What `subtract_text_markup_rect` returns for overlapping rectangles:
      at most four pieces, each within the base, clear of the cutter, wider
      and taller than epsilon, and no two overlapping. */
  lemma SubtractTextMarkupRectFacts(base: TextMarkupRect, cutter: TextMarkupRect)
    requires RectsOverlap(base, cutter)
    ensures var r := SubtractTextMarkupRect(base, cutter);
      && |r| <= 4
      && (forall p :: p in r ==> Within(p, base) && !RectsOverlap(p, cutter) && Thick(p))
      && (forall p, q :: p in r && q in r && p != q ==> !RectsOverlap(p, q))
  {
    StripsFacts(base, cutter);
  }

  /** The inner loop of `subtract_text_markup_rects`: each rectangle cut by
      one cutter, the pieces in order. */
  function CutAll(rects: seq<TextMarkupRect>, cutter: TextMarkupRect): seq<TextMarkupRect>
  {
    if rects == [] then []
    else CutAll(rects[..|rects| - 1], cutter) + SubtractTextMarkupRect(rects[|rects| - 1], cutter)
  }

  /** Cutting every rectangle by one cutter keeps each result within a
      rectangle it came from and clear of the cutter, and keeps the
      rectangles the cutter does not touch. */
  lemma {:induction false} CutAllFacts(rects: seq<TextMarkupRect>, cutter: TextMarkupRect)
    ensures forall p :: p in CutAll(rects, cutter) ==> exists q :: q in rects && Within(p, q)
    ensures forall p :: p in CutAll(rects, cutter) ==> !RectsOverlap(p, cutter)
    ensures forall q :: q in rects && !RectsOverlap(q, cutter) ==> q in CutAll(rects, cutter)
  {
    if rects != [] {
      var init, last := rects[..|rects| - 1], rects[|rects| - 1];
      CutAllFacts(init, cutter);
      assert rects == init + [last];
      if RectsOverlap(last, cutter) {
        SubtractTextMarkupRectFacts(last, cutter);
      }
      forall p | p in CutAll(rects, cutter)
        ensures exists q :: q in rects && Within(p, q)
      {
        if p !in CutAll(init, cutter) {
          assert Within(p, last);
        }
      }
    }
  }

  /** `subtract_text_markup_rects` without its early exit: the bases cut by
      each cutter in turn. */
  function Remainder(bases: seq<TextMarkupRect>, cutters: seq<TextMarkupRect>): seq<TextMarkupRect>
  {
    if cutters == [] then bases
    else CutAll(Remainder(bases, cutters[..|cutters| - 1]), cutters[|cutters| - 1])
  }

  /** What is left of the bases: each piece lies within a base and clear of
      every cutter, and a base that no cutter touches is kept whole. */
  lemma {:induction false} RemainderFacts(bases: seq<TextMarkupRect>, cutters: seq<TextMarkupRect>)
    ensures forall p :: p in Remainder(bases, cutters) ==> exists q :: q in bases && Within(p, q)
    ensures forall p, c :: p in Remainder(bases, cutters) && c in cutters ==> !RectsOverlap(p, c)
    ensures forall q :: q in bases && (forall c :: c in cutters ==> !RectsOverlap(q, c)) ==> q in Remainder(bases, cutters)
  {
    if cutters != [] {
      var init, last := cutters[..|cutters| - 1], cutters[|cutters| - 1];
      var before := Remainder(bases, init);
      RemainderFacts(bases, init);
      CutAllFacts(before, last);
      assert cutters == init + [last];
      forall p | p in Remainder(bases, cutters)
        ensures exists q :: q in bases && Within(p, q)
      {
        var m :| m in before && Within(p, m);
        var q :| q in bases && Within(m, q);
        assert Within(p, q);
      }
      forall p, c | p in Remainder(bases, cutters) && c in cutters
        ensures !RectsOverlap(p, c)
      {
        if c != last {
          assert c in init;
          var m :| m in before && Within(p, m);
          if RectsOverlap(p, c) {
            OverlapWithin(p, m, c);
          }
        }
      }
    }
  }

  /** Once nothing is left, later cutters leave nothing. */
  lemma {:induction false} RemainderStaysEmpty(bases: seq<TextMarkupRect>, cutters: seq<TextMarkupRect>, i: nat)
    requires i <= |cutters| && Remainder(bases, cutters[..i]) == []
    ensures Remainder(bases, cutters) == []
  {
    if i < |cutters| {
      var init := cutters[..|cutters| - 1];
      assert init[..i] == cutters[..i];
      RemainderStaysEmpty(bases, init, i);
    } else {
      assert cutters[..i] == cutters;
    }
  }

  /** `subtract_text_markup_rects`: every base cut by each cutter in turn,
      stopping early once nothing is left. */
  method SubtractTextMarkupRects(bases: seq<TextMarkupRect>, cutters: seq<TextMarkupRect>) returns (remaining: seq<TextMarkupRect>)
    ensures remaining == Remainder(bases, cutters)
  {
    remaining := bases;
    assert cutters[..0] == [];
    var i := 0;
    while i < |cutters|
      invariant i <= |cutters|
      invariant remaining == Remainder(bases, cutters[..i])
    {
      var next: seq<TextMarkupRect> := [];
      var k := 0;
      while k < |remaining|
        invariant k <= |remaining|
        invariant next == CutAll(remaining[..k], cutters[i])
      {
        assert remaining[..k + 1][..k] == remaining[..k];
        next := next + SubtractTextMarkupRect(remaining[k], cutters[i]);
        k := k + 1;
      }
      assert remaining[..k] == remaining;
      assert cutters[..i + 1][..i] == cutters[..i];
      remaining := next;
      i := i + 1;
      if remaining == [] {
        RemainderStaysEmpty(bases, cutters, i);
        break;
      }
    }
    if i == |cutters| {
      assert cutters[..i] == cutters;
    }
  }

  predicate InUnitSquare(r: TextMarkupRect)
  {
    0.0 <= r.leftRatio <= r.rightRatio <= 1.0 && 0.0 <= r.bottomRatio <= r.topRatio <= 1.0
  }

  function Abs(x: real): real { if x < 0.0 then -x else x }

  /** One rectangle of `normalize_text_markup_rects`: its edges as page
      fractions clamped to [0, 1] and put in order; None when that is no
      wider or no taller than epsilon. */
  function NormalizeRect(width: real, height: real, b: TextSelection.Bounds): (r: Option<TextMarkupRect>)
    requires width > 0.0 && height > 0.0
    ensures r.Some? ==> InUnitSquare(r.value) && Thick(r.value)
    ensures r.Some? ==> {r.value.leftRatio, r.value.rightRatio} == {Clamp01(b.left / width), Clamp01(b.right / width)}
    ensures r.Some? ==> {r.value.bottomRatio, r.value.topRatio} == {Clamp01(b.bottom / height), Clamp01(b.top / height)}
    ensures r.None? <==>
      || Abs(Clamp01(b.right / width) - Clamp01(b.left / width)) <= TEXT_MARKUP_RECT_EPSILON
      || Abs(Clamp01(b.top / height) - Clamp01(b.bottom / height)) <= TEXT_MARKUP_RECT_EPSILON
  {
    var l, rr := Clamp01(b.left / width), Clamp01(b.right / width);
    var t, bo := Clamp01(b.top / height), Clamp01(b.bottom / height);
    var left, right := if l <= rr then l else rr, if l <= rr then rr else l;
    var bottom, top := if bo <= t then bo else t, if bo <= t then t else bo;
    if right - left > TEXT_MARKUP_RECT_EPSILON && top - bottom > TEXT_MARKUP_RECT_EPSILON then
      Some(TextMarkupRect(left, top, right, bottom))
    else None
  }

  /** The `filter_map` of `normalize_text_markup_rects` on a positive page:
      the normalised rectangles of the inputs that keep one, in order. */
  function NormalizeAll(width: real, height: real, rects: seq<TextSelection.Bounds>): (r: seq<TextMarkupRect>)
    requires width > 0.0 && height > 0.0
    ensures |r| <= |rects|
    ensures forall p :: p in r ==> InUnitSquare(p) && Thick(p)
    ensures forall p :: p in r ==> exists i :: 0 <= i < |rects| && NormalizeRect(width, height, rects[i]) == Some(p)
    ensures forall i :: 0 <= i < |rects| && NormalizeRect(width, height, rects[i]).Some? ==>
      NormalizeRect(width, height, rects[i]).value in r
  {
    if rects == [] then []
    else
      var rest := NormalizeAll(width, height, rects[1..]);
      assert forall i :: 1 <= i < |rects| ==> rects[i] == rects[1..][i - 1];
      match NormalizeRect(width, height, rects[0])
      case Some(p) => [p] + rest
      case None => rest
  }

  /** `normalize_text_markup_rects`: nothing for a page without a positive
      size; otherwise each selection box as page fractions in the unit
      square, ordered, with the degenerate ones dropped. */
  function NormalizeTextMarkupRects(width: real, height: real, rects: seq<TextSelection.Bounds>): (r: seq<TextMarkupRect>)
    ensures width <= 0.0 || height <= 0.0 ==> r == []
    ensures width > 0.0 && height > 0.0 ==> r == NormalizeAll(width, height, rects)
  {
    if width <= 0.0 || height <= 0.0 then [] else NormalizeAll(width, height, rects)
  }

  // ---------------------------------------------------------------------
  // The anchor of a selection

  /** The bounding box of non-empty selection boxes, folded in order. */
  function Hull(rects: seq<TextSelection.Bounds>): (h: TextSelection.Bounds)
    requires rects != []
  {
    if |rects| == 1 then rects[0]
    else
      var h := Hull(rects[..|rects| - 1]);
      var b := rects[|rects| - 1];
      TextSelection.Bounds(Min(h.left, b.left), Max(h.top, b.top), Max(h.right, b.right), Min(h.bottom, b.bottom))
  }

  /** The hull holds every box, and each of its edges is some box's edge. */
  lemma {:induction false} HullFacts(rects: seq<TextSelection.Bounds>)
    requires rects != []
    ensures forall i :: 0 <= i < |rects| ==>
      && Hull(rects).left <= rects[i].left && rects[i].right <= Hull(rects).right
      && Hull(rects).bottom <= rects[i].bottom && rects[i].top <= Hull(rects).top
    ensures exists i :: 0 <= i < |rects| && rects[i].left == Hull(rects).left
    ensures exists i :: 0 <= i < |rects| && rects[i].right == Hull(rects).right
    ensures exists i :: 0 <= i < |rects| && rects[i].bottom == Hull(rects).bottom
    ensures exists i :: 0 <= i < |rects| && rects[i].top == Hull(rects).top
  {
    if |rects| > 1 {
      var init := rects[..|rects| - 1];
      HullFacts(init);
      var n := |rects| - 1;
      assert forall i :: 0 <= i < n ==> init[i] == rects[i];
      var l :| 0 <= l < |init| && init[l].left == Hull(init).left;
      var r :| 0 <= r < |init| && init[r].right == Hull(init).right;
      var b :| 0 <= b < |init| && init[b].bottom == Hull(init).bottom;
      var t :| 0 <= t < |init| && init[t].top == Hull(init).top;
      assert rects[if rects[n].left <= Hull(init).left then n else l].left == Hull(rects).left;
      assert rects[if rects[n].right >= Hull(init).right then n else r].right == Hull(rects).right;
      assert rects[if rects[n].bottom <= Hull(init).bottom then n else b].bottom == Hull(rects).bottom;
      assert rects[if rects[n].top >= Hull(init).top then n else t].top == Hull(rects).top;
    } else {
      assert rects[0].left == Hull(rects).left;
    }
  }

  /** The anchor at the centre of a box, clamped to the page and given as
      page fractions. */
  function CenterAnchor(pageIndex: nat, width: real, height: real, h: TextSelection.Bounds): MarkdownNoteAnchor
    requires width > 0.0 && height > 0.0
  {
    var cx := Clamp((h.left + h.right) * 0.5, 0.0, width);
    var cy := Clamp((h.bottom + h.top) * 0.5, 0.0, height);
    MarkdownNoteAnchor(pageIndex, Clamp01(cx / width), Clamp01(cy / height))
  }

  /** What `selection_anchor_from_rects` computes: None for a page without
      a positive size or no boxes, otherwise the centre of their hull. */
  function SelectionAnchor(pageIndex: nat, width: real, height: real, rects: seq<TextSelection.Bounds>): (r: Option<MarkdownNoteAnchor>)
    ensures r.None? <==> width <= 0.0 || height <= 0.0 || rects == []
  {
    if width <= 0.0 || height <= 0.0 || rects == [] then None
    else Some(CenterAnchor(pageIndex, width, height, Hull(rects)))
  }

  /** The anchor is on the selection's page, its ratios lie in [0, 1], and
      when the hull's centre lies on the page the ratios are exactly that
      centre over the page size. */
  lemma SelectionAnchorFacts(pageIndex: nat, width: real, height: real, rects: seq<TextSelection.Bounds>)
    requires width > 0.0 && height > 0.0 && rects != []
    ensures var a := SelectionAnchor(pageIndex, width, height, rects).value;
      && a.pageIndex == pageIndex
      && 0.0 <= a.xRatio <= 1.0 && 0.0 <= a.yRatio <= 1.0
    ensures var a := SelectionAnchor(pageIndex, width, height, rects).value;
      var cx := (Hull(rects).left + Hull(rects).right) * 0.5;
      0.0 <= cx <= width ==> a.xRatio == cx / width
    ensures var a := SelectionAnchor(pageIndex, width, height, rects).value;
      var cy := (Hull(rects).bottom + Hull(rects).top) * 0.5;
      0.0 <= cy <= height ==> a.yRatio == cy / height
  {
    var h := Hull(rects);
    var cx := (h.left + h.right) * 0.5;
    var cy := (h.bottom + h.top) * 0.5;
    if 0.0 <= cx <= width {
      UnitRatio(cx, width);
    }
    if 0.0 <= cy <= height {
      UnitRatio(cy, height);
    }
  }

  /** `selection_anchor_from_rects`: the one loop over the boxes folds their
      hull (starting from the first box rather than from infinities, which
      reals lack, and which always end finite here). */
  method SelectionAnchorFromRects(pageIndex: nat, width: real, height: real, rects: seq<TextSelection.Bounds>)
    returns (r: Option<MarkdownNoteAnchor>)
    ensures r == SelectionAnchor(pageIndex, width, height, rects)
  {
    if width <= 0.0 || height <= 0.0 || rects == [] {
      return None;
    }
    var minLeft, maxRight, minBottom, maxTop := rects[0].left, rects[0].right, rects[0].bottom, rects[0].top;
    var i := 1;
    while i < |rects|
      invariant 1 <= i <= |rects|
      invariant TextSelection.Bounds(minLeft, maxTop, maxRight, minBottom) == Hull(rects[..i])
    {
      assert rects[..i + 1][..i] == rects[..i];
      minLeft := Min(minLeft, rects[i].left);
      maxRight := Max(maxRight, rects[i].right);
      minBottom := Min(minBottom, rects[i].bottom);
      maxTop := Max(maxTop, rects[i].top);
      i := i + 1;
    }
    assert rects[..i] == rects;
    var centerX := Clamp((minLeft + maxRight) * 0.5, 0.0, width);
    var centerY := Clamp((minBottom + maxTop) * 0.5, 0.0, height);
    r := Some(MarkdownNoteAnchor(pageIndex, Clamp01(centerX / width), Clamp01(centerY / height)));
  }

  // ---------------------------------------------------------------------
  // Markups on the viewer

  /** `set_text_selection_markup_color`: only a different colour is
      stored (and repainted). */
  method SetTextSelectionMarkupColor(v: PdfViewer, color: TextMarkupColor)
    modifies v`textSelectionMarkupColor
    ensures v.textSelectionMarkupColor == color
  {
    if v.textSelectionMarkupColor != color {
      v.textSelectionMarkupColor := color;
    }
  }

  /** Whether a markup in `markups` has the id. */
  predicate MarkupIdUsed(markups: seq<TextMarkupEntry>, id: nat)
  {
    exists i :: 0 <= i < |markups| && markups[i].id == id
  }

  /** `next_text_markup_id`: the least id from the clock's starting point
      that no markup uses, by the same saturating search as note ids. */
  method NextTextMarkupId(v: PdfViewer, nowMillis: nat) returns (id: nat)
    requires exists c :: RecentBookmarkNotes.IdSearchStart(nowMillis) <= c <= RecentBookmarkNotes.U64_MAX && !MarkupIdUsed(v.textMarkups, c)
    ensures RecentBookmarkNotes.IdSearchStart(nowMillis) <= id <= RecentBookmarkNotes.U64_MAX
    ensures !MarkupIdUsed(v.textMarkups, id)
    ensures forall c :: RecentBookmarkNotes.IdSearchStart(nowMillis) <= c < id ==> MarkupIdUsed(v.textMarkups, c)
  {
    var start := RecentBookmarkNotes.IdSearchStart(nowMillis);
    ghost var free :| start <= free <= RecentBookmarkNotes.U64_MAX && !MarkupIdUsed(v.textMarkups, free);
    var candidate := start;
    while MarkupIdUsed(v.textMarkups, candidate)
      invariant start <= candidate <= free
      invariant forall c :: start <= c < candidate ==> MarkupIdUsed(v.textMarkups, c)
      decreases free - candidate
    {
      candidate := candidate + 1;
    }
    id := candidate;
  }

  /** Some rectangle of the first list overlaps some rectangle of the
      second (the nested `any` of `has_overlap`). */
  predicate HasOverlap(rects: seq<TextMarkupRect>, range: seq<TextMarkupRect>)
  {
    exists i, j :: 0 <= i < |rects| && 0 <= j < |range| && RectsOverlap(rects[i], range[j])
  }

  /** The markup is on the file and page and overlaps the range. */
  predicate Touches(m: TextMarkupEntry, path: Path, pageIndex: nat, range: seq<TextMarkupRect>)
  {
    m.path == path && m.pageIndex == pageIndex && HasOverlap(m.rects, range)
  }

  /** Some markup touches the range: what both removals report. */
  predicate AnyTouches(markups: seq<TextMarkupEntry>, path: Path, pageIndex: nat, range: seq<TextMarkupRect>)
  {
    exists i :: 0 <= i < |markups| && Touches(markups[i], path, pageIndex, range)
  }

  /** The overlapping markup with its rectangles cut down to what lies
      outside the range, stamped `now`. */
  function Trimmed(m: TextMarkupEntry, range: seq<TextMarkupRect>, now: nat): TextMarkupEntry
  {
    m.(rects := Remainder(m.rects, range), updatedAtUnixSecs := now)
  }

  /** One markup of `remove_markup_overlaps_for_range`: kept when it does
      not touch the range, otherwise trimmed, or dropped when nothing of it
      remains. */
  function TrimOne(m: TextMarkupEntry, path: Path, pageIndex: nat, range: seq<TextMarkupRect>, now: nat): seq<TextMarkupEntry>
  {
    if !Touches(m, path, pageIndex, range) then [m]
    else if Remainder(m.rects, range) == [] then []
    else [Trimmed(m, range, now)]
  }

  /** The list `remove_markup_overlaps_for_range` rebuilds. */
  function OverlapsRemoved(markups: seq<TextMarkupEntry>, path: Path, pageIndex: nat, range: seq<TextMarkupRect>, now: nat): seq<TextMarkupEntry>
  {
    if markups == [] then []
    else OverlapsRemoved(markups[..|markups| - 1], path, pageIndex, range, now) + TrimOne(markups[|markups| - 1], path, pageIndex, range, now)
  }

  /** The filter of markups on another file or page. */
  function OffPage(path: Path, pageIndex: nat): TextMarkupEntry -> bool
  {
    (m: TextMarkupEntry) => m.path != path || m.pageIndex != pageIndex
  }

  /** A trimmed markup no longer touches the range. */
  lemma TrimmedClear(m: TextMarkupEntry, path: Path, pageIndex: nat, range: seq<TextMarkupRect>, now: nat)
    ensures !Touches(Trimmed(m, range, now), path, pageIndex, range)
  {
    var rest := Remainder(m.rects, range);
    RemainderFacts(m.rects, range);
    forall i, j | 0 <= i < |rest| && 0 <= j < |range|
      ensures !RectsOverlap(rest[i], range[j])
    {
      assert rest[i] in rest && range[j] in range;
    }
  }

  lemma RetainOne<T(!new)>(x: T, keep: T -> bool)
    ensures Retain([x], keep) == if keep(x) then [x] else []
  {
    assert [x][..0] == [];
  }

  /** Every markup that does not touch the range survives the rebuild,
      and everything the rebuild keeps is such a markup or a touching one
      trimmed to a non-empty remainder. */
  lemma {:induction false} OverlapsRemovedMembers(markups: seq<TextMarkupEntry>, path: Path, pageIndex: nat, range: seq<TextMarkupRect>, now: nat)
    ensures var r := OverlapsRemoved(markups, path, pageIndex, range, now);
      forall m :: m in markups && !Touches(m, path, pageIndex, range) ==> m in r
    ensures var r := OverlapsRemoved(markups, path, pageIndex, range, now);
      forall m :: m in r ==>
        || (m in markups && !Touches(m, path, pageIndex, range))
        || (exists o :: o in markups && Touches(o, path, pageIndex, range) && m == Trimmed(o, range, now) && m.rects != [])
  {
    if markups != [] {
      var init, last := markups[..|markups| - 1], markups[|markups| - 1];
      assert markups == init + [last];
      OverlapsRemovedMembers(init, path, pageIndex, range, now);
    }
  }

  /** After the rebuild no markup touches the range. */
  lemma {:induction false} OverlapsRemovedClear(markups: seq<TextMarkupEntry>, path: Path, pageIndex: nat, range: seq<TextMarkupRect>, now: nat)
    ensures var r := OverlapsRemoved(markups, path, pageIndex, range, now);
      forall m :: m in r ==> !Touches(m, path, pageIndex, range)
  {
    if markups != [] {
      var init, last := markups[..|markups| - 1], markups[|markups| - 1];
      OverlapsRemovedClear(init, path, pageIndex, range, now);
      TrimmedClear(last, path, pageIndex, range, now);
    }
  }

  /** The markups on other files or pages keep their order. */
  lemma {:induction false} OverlapsRemovedOffPage(markups: seq<TextMarkupEntry>, path: Path, pageIndex: nat, range: seq<TextMarkupRect>, now: nat)
    ensures Retain(OverlapsRemoved(markups, path, pageIndex, range, now), OffPage(path, pageIndex))
      == Retain(markups, OffPage(path, pageIndex))
  {
    if markups != [] {
      var init, last := markups[..|markups| - 1], markups[|markups| - 1];
      var keep := OffPage(path, pageIndex);
      var trimmed := TrimOne(last, path, pageIndex, range, now);
      assert markups == init + [last];
      OverlapsRemovedOffPage(init, path, pageIndex, range, now);
      RetainConcat(OverlapsRemoved(init, path, pageIndex, range, now), trimmed, keep);
      RetainConcat(init, [last], keep);
      RetainOne(last, keep);
      if trimmed != [] {
        RetainOne(trimmed[0], keep);
        assert trimmed == [trimmed[0]];
      }
    }
  }

  /** Nothing touching the range, the rebuilt list is the list itself. */
  lemma {:induction false} OverlapsRemovedUntouched(markups: seq<TextMarkupEntry>, path: Path, pageIndex: nat, range: seq<TextMarkupRect>, now: nat)
    requires !AnyTouches(markups, path, pageIndex, range)
    ensures OverlapsRemoved(markups, path, pageIndex, range, now) == markups
  {
    if markups != [] {
      var init := markups[..|markups| - 1];
      assert !AnyTouches(init, path, pageIndex, range) by {
        assert forall k :: 0 <= k < |init| ==> init[k] == markups[k];
      }
      OverlapsRemovedUntouched(init, path, pageIndex, range, now);
      assert markups == init + [markups[|markups| - 1]];
    }
  }

  /** The rebuilt list uses no id the list did not. */
  lemma {:induction false} OverlapsRemovedIds(markups: seq<TextMarkupEntry>, path: Path, pageIndex: nat, range: seq<TextMarkupRect>, now: nat, id: nat)
    requires MarkupIdUsed(OverlapsRemoved(markups, path, pageIndex, range, now), id)
    ensures MarkupIdUsed(markups, id)
  {
    var init, last := markups[..|markups| - 1], markups[|markups| - 1];
    if MarkupIdUsed(OverlapsRemoved(init, path, pageIndex, range, now), id) {
      OverlapsRemovedIds(init, path, pageIndex, range, now, id);
      var k :| 0 <= k < |init| && init[k].id == id;
      assert markups[k].id == id;
    } else {
      assert last.id == id;
    }
  }

  /** One more markup touches when the prefix did or the new one does. */
  lemma AnyTouchesPrefix(markups: seq<TextMarkupEntry>, path: Path, pageIndex: nat, range: seq<TextMarkupRect>, i: nat)
    requires i < |markups|
    ensures AnyTouches(markups[..i + 1], path, pageIndex, range)
      <==> AnyTouches(markups[..i], path, pageIndex, range) || Touches(markups[i], path, pageIndex, range)
  {
    var a, b := markups[..i + 1], markups[..i];
    assert forall k :: 0 <= k < i ==> a[k] == b[k] == markups[k];
    assert a[i] == markups[i];
  }

  /** `remove_markup_overlaps_for_range`: each markup on the file and page
      that overlaps the range is trimmed to what lies outside it (or
      dropped); the result says whether any did. */
  method RemoveMarkupOverlapsForRange(v: PdfViewer, path: Path, pageIndex: nat, range: seq<TextMarkupRect>, now: nat)
    returns (changed: bool)
    modifies v`textMarkups
    ensures v.textMarkups == OverlapsRemoved(old(v.textMarkups), path, pageIndex, range, now)
    ensures changed <==> AnyTouches(old(v.textMarkups), path, pageIndex, range)
  {
    var markups := v.textMarkups;
    if range == [] || markups == [] {
      OverlapsRemovedUntouched(markups, path, pageIndex, range, now);
      return false;
    }
    changed := false;
    var rebuilt: seq<TextMarkupEntry> := [];
    var i := 0;
    while i < |markups|
      invariant i <= |markups|
      invariant rebuilt == OverlapsRemoved(markups[..i], path, pageIndex, range, now)
      invariant changed <==> AnyTouches(markups[..i], path, pageIndex, range)
    {
      assert markups[..i + 1][..i] == markups[..i];
      AnyTouchesPrefix(markups, path, pageIndex, range, i);
      var m := markups[i];
      if m.path != path || m.pageIndex != pageIndex {
        rebuilt := rebuilt + [m];
      } else if !HasOverlap(m.rects, range) {
        rebuilt := rebuilt + [m];
      } else {
        changed := true;
        var remaining := SubtractTextMarkupRects(m.rects, range);
        if remaining != [] {
          rebuilt := rebuilt + [m.(rects := remaining, updatedAtUnixSecs := now)];
        }
      }
      i := i + 1;
    }
    assert markups[..i] == markups;
    v.textMarkups := rebuilt;
  }

  /** The filter `remove_markup_overlaps_for_range_complete` keeps: markups
      that do not touch the range. */
  function NotTouching(path: Path, pageIndex: nat, range: seq<TextMarkupRect>): TextMarkupEntry -> bool
  {
    (m: TextMarkupEntry) => !Touches(m, path, pageIndex, range)
  }

  /** The markups the loop of `remove_markup_overlaps_for_range_complete`
      pushes, in order. */
  function Untouched(markups: seq<TextMarkupEntry>, path: Path, pageIndex: nat, range: seq<TextMarkupRect>): seq<TextMarkupEntry>
  {
    if markups == [] then []
    else
      var last := markups[|markups| - 1];
      Untouched(markups[..|markups| - 1], path, pageIndex, range) + (if Touches(last, path, pageIndex, range) then [] else [last])
  }

  lemma {:induction false} UntouchedIsRetain(markups: seq<TextMarkupEntry>, path: Path, pageIndex: nat, range: seq<TextMarkupRect>)
    ensures Untouched(markups, path, pageIndex, range) == Retain(markups, NotTouching(path, pageIndex, range))
  {
    if markups != [] {
      UntouchedIsRetain(markups[..|markups| - 1], path, pageIndex, range);
    }
  }

  /** `remove_markup_overlaps_for_range_complete`: every markup on the file
      and page that overlaps the range is deleted and all others keep their
      order; the result says whether any was. */
  method RemoveMarkupOverlapsForRangeComplete(v: PdfViewer, path: Path, pageIndex: nat, range: seq<TextMarkupRect>)
    returns (changed: bool)
    modifies v`textMarkups
    ensures v.textMarkups == Retain(old(v.textMarkups), NotTouching(path, pageIndex, range))
    ensures changed <==> AnyTouches(old(v.textMarkups), path, pageIndex, range)
    ensures !changed ==> v.textMarkups == old(v.textMarkups)
  {
    var markups := v.textMarkups;
    var keep := NotTouching(path, pageIndex, range);
    if range == [] || markups == [] {
      RetainLength(markups, keep);
      return false;
    }
    changed := false;
    var rebuilt: seq<TextMarkupEntry> := [];
    var i := 0;
    while i < |markups|
      invariant i <= |markups|
      invariant rebuilt == Untouched(markups[..i], path, pageIndex, range)
      invariant changed <==> AnyTouches(markups[..i], path, pageIndex, range)
    {
      assert markups[..i + 1][..i] == markups[..i];
      AnyTouchesPrefix(markups, path, pageIndex, range, i);
      var m := markups[i];
      if m.path != path || m.pageIndex != pageIndex {
        rebuilt := rebuilt + [m];
      } else if HasOverlap(m.rects, range) {
        changed := true;
      } else {
        rebuilt := rebuilt + [m];
      }
      i := i + 1;
    }
    assert markups[..i] == markups;
    UntouchedIsRetain(markups, path, pageIndex, range);
    RetainLength(markups, keep);
    v.textMarkups := rebuilt;
  }

  // ---------------------------------------------------------------------
  // The text selection

  /** What `active_text_selection_snapshot` returns: the selection's page,
      its trimmed text, the page size and the selection's boxes. */
  datatype SelectionSnapshot = SelectionSnapshot(
    pageIndex: nat, selectedText: string, pageWidth: real, pageHeight: real, rects: seq<TextSelection.Bounds>)

  /** `active_text_selection_snapshot`: the active tab's current selection
      on a cached page, None when there is none, when it covers no boxes or
      when its text is only white space. */
  function ActiveTextSelectionSnapshot(v: PdfViewer): (r: Option<SelectionSnapshot>)
    reads v.tabBar, Selections(v.tabBar.tabs)
    requires v.tabBar.Valid()
    ensures v.ActiveTab().None? ==> r.None?
    ensures r.Some? ==>
      var m := v.ActiveTab().value.selection;
      && m.currentSelection.Some? && m.currentSelection.value.pageIndex == r.value.pageIndex
      && r.value.pageIndex in m.caches
      && r.value.pageWidth == m.caches[r.value.pageIndex].pageWidth
      && r.value.pageHeight == m.caches[r.value.pageIndex].pageHeight
    ensures r.Some? ==> r.value.rects != [] && r.value.selectedText != []
    ensures r.Some? ==> !Text.IsWhitespace(r.value.selectedText[0]) && !Text.IsWhitespace(r.value.selectedText[|r.value.selectedText| - 1])
  {
    match v.ActiveTab()
    case None => None
    case Some(tab) =>
      var m := tab.selection;
      match m.currentSelection
      case None => None
      case Some(selection) =>
        match m.GetPageCache(selection.pageIndex)
        case None => None
        case Some(cache) => SnapshotOf(cache, selection)
  }

  /** The snapshot of `selection` over its page's text `cache`: the
      selection's bounds and its trimmed text, when neither is empty. */
  function SnapshotOf(cache: TextSelection.PageTextCache, selection: TextSelection.Selection): (r: Option<SelectionSnapshot>)
    ensures r.Some? ==> r.value.pageIndex == selection.pageIndex
    ensures r.Some? ==> r.value.pageWidth == cache.pageWidth && r.value.pageHeight == cache.pageHeight
    ensures r.Some? ==> r.value.rects != [] && r.value.selectedText != []
    ensures r.Some? ==> !Text.IsWhitespace(r.value.selectedText[0]) && !Text.IsWhitespace(r.value.selectedText[|r.value.selectedText| - 1])
  {
    var rects := TextSelection.SelectionBounds(cache, selection);
    var text := Text.Trim(TextSelection.GetText(cache, selection));
    if rects == [] || text == [] then None
    else Some(SelectionSnapshot(selection.pageIndex, text, cache.pageWidth, cache.pageHeight, rects))
  }

  /** The anchor of the active selection, if it has one. */
  function ActiveSelectionAnchor(v: PdfViewer): (r: Option<MarkdownNoteAnchor>)
    reads v.tabBar, Selections(v.tabBar.tabs)
    requires v.tabBar.Valid()
    ensures ActiveTextSelectionSnapshot(v).None? ==> r.None?
    ensures r.Some? ==> 0.0 <= r.value.xRatio <= 1.0 && 0.0 <= r.value.yRatio <= 1.0
    ensures r.Some? ==> r.value.pageIndex == ActiveTextSelectionSnapshot(v).value.pageIndex
  {
    match ActiveTextSelectionSnapshot(v)
    case None => None
    case Some(s) =>
      if s.pageWidth > 0.0 && s.pageHeight > 0.0 then
        SelectionAnchorFacts(s.pageIndex, s.pageWidth, s.pageHeight, s.rects);
        SelectionAnchor(s.pageIndex, s.pageWidth, s.pageHeight, s.rects)
      else None
  }

  /** `active_text_selection_anchor`. */
  method ActiveTextSelectionAnchor(v: PdfViewer) returns (r: Option<MarkdownNoteAnchor>)
    requires v.tabBar.Valid()
    ensures r == ActiveSelectionAnchor(v)
  {
    var snapshot := ActiveTextSelectionSnapshot(v);
    if snapshot.None? {
      return None;
    }
    var s := snapshot.value;
    r := SelectionAnchorFromRects(s.pageIndex, s.pageWidth, s.pageHeight, s.rects);
  }

  /** The file, selection and normalised rectangles that adding or
      clearing markups from the selection works on. */
  datatype MarkupTarget = MarkupTarget(path: Path, snapshot: SelectionSnapshot, rects: seq<TextMarkupRect>)

  /** The guards shared by `clear_text_markups_in_selection` and
      `add_text_markup_from_selection`: the active tab has a file and a
      selection snapshot whose boxes keep some normalised rectangle. */
  function SelectionTarget(v: PdfViewer): (r: Option<MarkupTarget>)
    reads v.tabBar, v.tabBar.tabs, Selections(v.tabBar.tabs)
    requires v.tabBar.Valid()
    ensures r.Some? <==>
      && v.ActiveTabPath().Some? && ActiveTextSelectionSnapshot(v).Some?
      && var s := ActiveTextSelectionSnapshot(v).value;
         NormalizeTextMarkupRects(s.pageWidth, s.pageHeight, s.rects) != []
    ensures r.Some? ==> r.value.path == v.ActiveTabPath().value && r.value.snapshot == ActiveTextSelectionSnapshot(v).value
    ensures r.Some? ==> r.value.rects == NormalizeTextMarkupRects(r.value.snapshot.pageWidth, r.value.snapshot.pageHeight, r.value.snapshot.rects)
  {
    match v.ActiveTabPath()
    case None => None
    case Some(path) =>
      match ActiveTextSelectionSnapshot(v)
      case None => None
      case Some(s) =>
        var rects := NormalizeTextMarkupRects(s.pageWidth, s.pageHeight, s.rects);
        if rects == [] then None else Some(MarkupTarget(path, s, rects))
  }

  /** The text-selection hover menu is closed and forgets its position and
      anchor. */
  predicate HoverMenuCleared(v: PdfViewer)
    reads v`textSelectionHoverMenuOpen, v`textSelectionHoverMenuPosition, v`textSelectionHoverMenuAnchor
  {
    !v.textSelectionHoverMenuOpen && v.textSelectionHoverMenuPosition == None && v.textSelectionHoverMenuAnchor == None
  }

  /** `clear_text_selection_hover_menu_state`: the menu ends cleared, and
      the result says whether there was anything to clear. */
  method ClearTextSelectionHoverMenuState(v: PdfViewer) returns (hadState: bool)
    modifies v`textSelectionHoverMenuOpen, v`textSelectionHoverMenuPosition, v`textSelectionHoverMenuAnchor
    ensures HoverMenuCleared(v)
    ensures hadState <==> !old(HoverMenuCleared(v))
  {
    hadState := v.textSelectionHoverMenuOpen || v.textSelectionHoverMenuPosition.Some? || v.textSelectionHoverMenuAnchor.Some?;
    if hadState {
      v.textSelectionHoverMenuOpen := false;
      v.textSelectionHoverMenuPosition := None;
      v.textSelectionHoverMenuAnchor := None;
    }
  }

  /** `close_text_selection_hover_menu`. */
  method CloseTextSelectionHoverMenu(v: PdfViewer)
    modifies v`textSelectionHoverMenuOpen, v`textSelectionHoverMenuPosition, v`textSelectionHoverMenuAnchor
    ensures HoverMenuCleared(v)
  {
    var _ := ClearTextSelectionHoverMenuState(v);
  }

  /** The context menu is closed: open flag, position, tab, note anchor and
      note id cleared, as opening the hover menu leaves it. */
  predicate ContextMenuDismissed(v: PdfViewer)
    reads v`contextMenuOpen, v`contextMenuPosition, v`contextMenuTabId, v`contextMenuNoteAnchor, v`contextMenuNoteId
  {
    && !v.contextMenuOpen && v.contextMenuPosition == None && v.contextMenuTabId == None
    && v.contextMenuNoteAnchor == None && v.contextMenuNoteId == None
  }

  /** `open_text_selection_hover_menu`: the context menu goes away (its
      markup id stays) and the hover menu opens at the position. */
  method OpenTextSelectionHoverMenu(v: PdfViewer, position: (real, real), anchor: Option<MarkdownNoteAnchor>)
    modifies v`contextMenuOpen, v`contextMenuPosition, v`contextMenuTabId, v`contextMenuNoteAnchor, v`contextMenuNoteId
    modifies v`textSelectionHoverMenuOpen, v`textSelectionHoverMenuPosition, v`textSelectionHoverMenuAnchor
    ensures ContextMenuDismissed(v)
    ensures v.textSelectionHoverMenuOpen && v.textSelectionHoverMenuPosition == Some(position)
    ensures v.textSelectionHoverMenuAnchor == anchor
  {
    v.contextMenuOpen := false;
    v.contextMenuPosition := None;
    v.contextMenuTabId := None;
    v.contextMenuNoteAnchor := None;
    v.contextMenuNoteId := None;
    v.textSelectionHoverMenuOpen := true;
    v.textSelectionHoverMenuPosition := Some(position);
    v.textSelectionHoverMenuAnchor := anchor;
  }

  /** The active tab's selection manager, the one object the selection
      handlers change. */
  function ActiveSelectionSet(v: PdfViewer): set<object>
    reads v.tabBar
    requires v.tabBar.Valid()
  {
    match v.ActiveTab() case Some(t) => {t.selection} case None => {}
  }

  /** The manager has no selection and no drag in progress. */
  predicate NoSelection(m: TextSelection.Manager)
    reads m
  {
    m.currentSelection == None && m.selectionStart == None && !m.isSelecting
  }

  /** `clear_text_selection`: the hover menu is cleared and the active
      tab's selection dropped, its text caches kept. */
  method ClearTextSelection(v: PdfViewer)
    requires v.Valid()
    modifies v`textSelectionHoverMenuOpen, v`textSelectionHoverMenuPosition, v`textSelectionHoverMenuAnchor
    modifies ActiveSelectionSet(v)
    ensures v.Valid() && HoverMenuCleared(v)
    ensures v.ActiveTab().Some? ==>
      NoSelection(v.ActiveTab().value.selection)
      && v.ActiveTab().value.selection.caches == old(v.ActiveTab().value.selection.caches)
    ensures unchanged(v.textMarkupsStore)
  {
    var _ := ClearTextSelectionHoverMenuState(v);
    var tab := v.ActiveTab();
    if tab.Some? {
      tab.value.selection.ClearSelection();
    }
  }

  /** Whether `select_all_text` has something to select: the active tab's
      current page exists and its cached text has characters. */
  predicate CanSelectAll(v: PdfViewer)
    reads v.tabBar, v.tabBar.tabs, Selections(v.tabBar.tabs)
    requires v.tabBar.Valid()
  {
    match v.ActiveTab()
    case None => false
    case Some(t) =>
      t.activePage < |t.pages| && t.activePage in t.selection.caches && |t.selection.caches[t.activePage].chars| > 0
  }

  /** `select_all_text`: the whole cached text of the active page becomes
      the selection, anchored at its first character, with no drag in
      progress; without such a page nothing changes. */
  method SelectAllText(v: PdfViewer)
    requires v.Valid()
    modifies ActiveSelectionSet(v)
    ensures v.Valid()
    ensures !old(CanSelectAll(v)) ==> unchanged(ActiveSelectionSet(v))
    ensures old(CanSelectAll(v)) ==>
      var t := v.ActiveTab().value;
      var m := t.selection;
      && m.caches == old(m.caches)
      && m.currentSelection == Some(TextSelection.Selection(t.activePage, 0, |m.caches[t.activePage].chars|))
      && m.selectionStart == Some((t.activePage, 0)) && !m.isSelecting
  {
    var tab := v.ActiveTab();
    if tab.None? {
      return;
    }
    var t := tab.value;
    if t.activePage >= |t.pages| {
      return;
    }
    var cache := t.selection.GetPageCache(t.activePage);
    if cache.None? || |cache.value.chars| == 0 {
      return;
    }
    var count := |cache.value.chars|;
    t.selection.StartSelection(t.activePage, 0);
    t.selection.UpdateSelection(t.activePage, count);
    t.selection.EndSelection();
  }

  // ---------------------------------------------------------------------
  // Adding and clearing markups from the selection

  /** The markup order of both `sort_by` calls: updated time, then id,
      newest first. */
  function MarkupKey(m: TextMarkupEntry): (nat, nat)
  {
    (m.updatedAtUnixSecs, m.id)
  }

  /** The markup `add_text_markup_from_selection` inserts. */
  function NewMarkup(id: nat, kind: TextMarkupKind, color: TextMarkupColor, target: MarkupTarget, now: nat): TextMarkupEntry
  {
    TextMarkupEntry(id, target.path, target.snapshot.pageIndex, kind, color, target.snapshot.selectedText, target.rects, now, now)
  }

  /** The list part of `add_text_markup_from_selection`: overlaps trimmed
      away, the new markup put in with a fresh id, the list sorted. */
  method InsertMarkup(v: PdfViewer, kind: TextMarkupKind, target: MarkupTarget, now: nat, nowMillis: nat)
    returns (entry: TextMarkupEntry)
    requires exists c :: RecentBookmarkNotes.IdSearchStart(nowMillis) <= c <= RecentBookmarkNotes.U64_MAX && !MarkupIdUsed(v.textMarkups, c)
    modifies v`textMarkups
    ensures entry == NewMarkup(entry.id, kind, v.textSelectionMarkupColor, target, now)
    ensures RecentBookmarkNotes.IdSearchStart(nowMillis) <= entry.id <= RecentBookmarkNotes.U64_MAX
    ensures var rebuilt := OverlapsRemoved(old(v.textMarkups), target.path, target.snapshot.pageIndex, target.rects, now);
      && !MarkupIdUsed(rebuilt, entry.id)
      && v.textMarkups == Recency.Sort(MarkupKey, [entry] + rebuilt)
  {
    ghost var free :| RecentBookmarkNotes.IdSearchStart(nowMillis) <= free <= RecentBookmarkNotes.U64_MAX && !MarkupIdUsed(v.textMarkups, free);
    var _ := RemoveMarkupOverlapsForRange(v, target.path, target.snapshot.pageIndex, target.rects, now);
    if MarkupIdUsed(v.textMarkups, free) {
      OverlapsRemovedIds(old(v.textMarkups), target.path, target.snapshot.pageIndex, target.rects, now, free);
    }
    var id := NextTextMarkupId(v, nowMillis);
    entry := NewMarkup(id, kind, v.textSelectionMarkupColor, target, now);
    v.textMarkups := Recency.Sort(MarkupKey, [entry] + v.textMarkups);
  }

  /** `add_text_markup_from_selection`: false, changing nothing, unless the
      active tab has a file and a selection with rectangles to mark; then
      the markups overlapping the new one are trimmed, the new markup is
      added with a fresh id, the list is sorted newest first and written
      out, and the selection is cleared. */
  method AddTextMarkupFromSelection(v: PdfViewer, kind: TextMarkupKind, now: nat, nowMillis: nat, ghost target: Option<MarkupTarget>)
    returns (added: bool, ghost entry: TextMarkupEntry)
    requires v.Valid()
    requires target == SelectionTarget(v)
    requires exists c :: RecentBookmarkNotes.IdSearchStart(nowMillis) <= c <= RecentBookmarkNotes.U64_MAX && !MarkupIdUsed(v.textMarkups, c)
    modifies v`textMarkups, v.textMarkupsStore
    modifies v`textSelectionHoverMenuOpen, v`textSelectionHoverMenuPosition, v`textSelectionHoverMenuAnchor
    modifies ActiveSelectionSet(v)
    ensures v.Valid()
    ensures added <==> target.Some?
    ensures !added ==> v.textMarkups == old(v.textMarkups) && unchanged(v.textMarkupsStore) && unchanged(ActiveSelectionSet(v))
    ensures !added ==> unchanged(v`textSelectionHoverMenuOpen, v`textSelectionHoverMenuPosition, v`textSelectionHoverMenuAnchor)
    ensures added ==>
      var t := target.value;
      var rebuilt := OverlapsRemoved(old(v.textMarkups), t.path, t.snapshot.pageIndex, t.rects, now);
      && entry == NewMarkup(entry.id, kind, v.textSelectionMarkupColor, t, now)
      && RecentBookmarkNotes.IdSearchStart(nowMillis) <= entry.id <= RecentBookmarkNotes.U64_MAX
      && !MarkupIdUsed(rebuilt, entry.id)
      && v.textMarkups == Recency.Sort(MarkupKey, [entry] + rebuilt)
    ensures added ==> v.textMarkupsStore.entries == Store.Written(v.textMarkups, v.serializeMarkup)
    ensures added ==> HoverMenuCleared(v) && (v.ActiveTab().Some? ==> NoSelection(v.ActiveTab().value.selection))
  {
    var t := SelectionTarget(v);
    if t.None? {
      entry := NewMarkup(0, kind, v.textSelectionMarkupColor, MarkupTarget("", SelectionSnapshot(0, "", 0.0, 0.0, []), []), now);
      return false, entry;
    }
    var e := AddMarkupAt(v, kind, t.value, now, nowMillis);
    entry := e;
    added := true;
  }

  /** `add_text_markup_from_selection` past its guards. */
  method AddMarkupAt(v: PdfViewer, kind: TextMarkupKind, t: MarkupTarget, now: nat, nowMillis: nat)
    returns (entry: TextMarkupEntry)
    requires v.Valid()
    requires exists c :: RecentBookmarkNotes.IdSearchStart(nowMillis) <= c <= RecentBookmarkNotes.U64_MAX && !MarkupIdUsed(v.textMarkups, c)
    modifies v`textMarkups, v.textMarkupsStore
    modifies v`textSelectionHoverMenuOpen, v`textSelectionHoverMenuPosition, v`textSelectionHoverMenuAnchor
    modifies ActiveSelectionSet(v)
    ensures v.Valid()
    ensures var rebuilt := OverlapsRemoved(old(v.textMarkups), t.path, t.snapshot.pageIndex, t.rects, now);
      && entry == NewMarkup(entry.id, kind, v.textSelectionMarkupColor, t, now)
      && RecentBookmarkNotes.IdSearchStart(nowMillis) <= entry.id <= RecentBookmarkNotes.U64_MAX
      && !MarkupIdUsed(rebuilt, entry.id)
      && v.textMarkups == Recency.Sort(MarkupKey, [entry] + rebuilt)
    ensures v.textMarkupsStore.entries == Store.Written(v.textMarkups, v.serializeMarkup)
    ensures HoverMenuCleared(v) && (v.ActiveTab().Some? ==> NoSelection(v.ActiveTab().value.selection))
  {
    entry := InsertMarkup(v, kind, t, now, nowMillis);
    ghost var markups := v.textMarkups;
    PersistAndClearSelection(v);
    assert v.textMarkups == markups;
  }

  /** The common ending of both selection actions: the markups are
      written out and the selection cleared. */
  method PersistAndClearSelection(v: PdfViewer)
    requires v.Valid()
    modifies v.textMarkupsStore
    modifies v`textSelectionHoverMenuOpen, v`textSelectionHoverMenuPosition, v`textSelectionHoverMenuAnchor
    modifies ActiveSelectionSet(v)
    ensures v.Valid() && unchanged(v`textMarkups, v`textSelectionMarkupColor)
    ensures v.textMarkupsStore.entries == Store.Written(v.textMarkups, v.serializeMarkup)
    ensures HoverMenuCleared(v)
    ensures v.ActiveTab().Some? ==> NoSelection(v.ActiveTab().value.selection)
  {
    Persistence.PersistTextMarkups(v);
    ClearTextSelection(v);
  }

  /** `clear_text_markups_in_selection`: false, changing nothing, unless
      the active tab has a file and a selection with rectangles; then every
      markup on that page overlapping the selection is deleted (the rest
      re-sorted and written out when any was) and the selection cleared.
      The result says whether any markup went. */
  method ClearTextMarkupsInSelection(v: PdfViewer, ghost target: Option<MarkupTarget>) returns (changed: bool)
    requires v.Valid()
    requires target == SelectionTarget(v)
    modifies v`textMarkups, v.textMarkupsStore
    modifies v`textSelectionHoverMenuOpen, v`textSelectionHoverMenuPosition, v`textSelectionHoverMenuAnchor
    modifies ActiveSelectionSet(v)
    ensures v.Valid()
    ensures target.None? ==> !changed && v.textMarkups == old(v.textMarkups) && unchanged(v.textMarkupsStore)
    ensures target.None? ==> unchanged(ActiveSelectionSet(v))
    ensures target.None? ==> unchanged(v`textSelectionHoverMenuOpen, v`textSelectionHoverMenuPosition, v`textSelectionHoverMenuAnchor)
    ensures target.Some? ==>
      && MarkupsCleared(v, old(v.textMarkups), old(v.textMarkupsStore.entries), target.value, changed)
      && HoverMenuCleared(v) && (v.ActiveTab().Some? ==> NoSelection(v.ActiveTab().value.selection))
  {
    var t := SelectionTarget(v);
    if t.None? {
      return false;
    }
    changed := ClearMarkupsAt(v, t.value);
  }

  /** What clearing does to the markups and their tree, from the markups
      `before` and the tree's `entries` before: the result says whether any
      markup on the page overlaps the selection; if so those are deleted,
      the rest re-sorted and written out; otherwise nothing changes. */
  ghost predicate MarkupsCleared(v: PdfViewer, before: seq<TextMarkupEntry>, entries: seq<Sled.Entry>, t: MarkupTarget, changed: bool)
    reads v`textMarkups, v.textMarkupsStore
  {
    && (changed <==> AnyTouches(before, t.path, t.snapshot.pageIndex, t.rects))
    && (changed ==> v.textMarkups == Recency.Sort(MarkupKey, Retain(before, NotTouching(t.path, t.snapshot.pageIndex, t.rects))))
    && (changed ==> v.textMarkupsStore.entries == Store.Written(v.textMarkups, v.serializeMarkup))
    && (!changed ==> v.textMarkups == before && v.textMarkupsStore.entries == entries)
  }

  /** `clear_text_markups_in_selection` past its guards. */
  method ClearMarkupsAt(v: PdfViewer, t: MarkupTarget) returns (changed: bool)
    requires v.Valid()
    modifies v`textMarkups, v.textMarkupsStore
    modifies v`textSelectionHoverMenuOpen, v`textSelectionHoverMenuPosition, v`textSelectionHoverMenuAnchor
    modifies ActiveSelectionSet(v)
    ensures v.Valid()
    ensures MarkupsCleared(v, old(v.textMarkups), old(v.textMarkupsStore.entries), t, changed)
    ensures HoverMenuCleared(v) && (v.ActiveTab().Some? ==> NoSelection(v.ActiveTab().value.selection))
  {
    changed := RemoveAndResort(v, t);
    ClearTextSelection(v);
  }

  /** The list part of `clear_text_markups_in_selection`. */
  method RemoveAndResort(v: PdfViewer, t: MarkupTarget) returns (changed: bool)
    requires v.Valid()
    modifies v`textMarkups, v.textMarkupsStore
    ensures v.Valid()
    ensures MarkupsCleared(v, old(v.textMarkups), old(v.textMarkupsStore.entries), t, changed)
  {
    changed := RemoveMarkupOverlapsForRangeComplete(v, t.path, t.snapshot.pageIndex, t.rects);
    if changed {
      v.textMarkups := Recency.Sort(MarkupKey, v.textMarkups);
      Persistence.PersistTextMarkups(v);
    }
  }

  /** After clearing, no markup on the page overlaps the selection, every
      other markup is kept as often as before, and the list is sorted. */
  lemma ClearedMarkups(markups: seq<TextMarkupEntry>, t: MarkupTarget)
    ensures var r := Recency.Sort(MarkupKey, Retain(markups, NotTouching(t.path, t.snapshot.pageIndex, t.rects)));
      && Recency.Ordered(MarkupKey, r)
      && (forall m :: m in r ==> !Touches(m, t.path, t.snapshot.pageIndex, t.rects))
      && (forall m :: !Touches(m, t.path, t.snapshot.pageIndex, t.rects) ==> multiset(r)[m] == multiset(markups)[m])
  {
    var keep := NotTouching(t.path, t.snapshot.pageIndex, t.rects);
    var r := Recency.Sort(MarkupKey, Retain(markups, keep));
    forall m | m in r
      ensures !Touches(m, t.path, t.snapshot.pageIndex, t.rects)
    {
      assert m in multiset(r);
    }
    forall m | !Touches(m, t.path, t.snapshot.pageIndex, t.rects)
      ensures multiset(r)[m] == multiset(markups)[m]
    {
      RetainMultiset(markups, keep, m);
    }
  }

  /** After adding, the list is sorted, holds the new markup, and keeps
      every markup the trimming left; nothing else on the page overlaps the
      new markup's rectangles. */
  lemma AddedMarkups(rebuilt: seq<TextMarkupEntry>, entry: TextMarkupEntry, path: Path, pageIndex: nat)
    requires forall m :: m in rebuilt ==> !Touches(m, path, pageIndex, entry.rects)
    ensures var r := Recency.Sort(MarkupKey, [entry] + rebuilt);
      && Recency.Ordered(MarkupKey, r)
      && entry in r
      && multiset(r) == multiset(rebuilt) + multiset{entry}
      && (forall m :: m in r && m != entry ==> !Touches(m, path, pageIndex, entry.rects))
  {
    var r := Recency.Sort(MarkupKey, [entry] + rebuilt);
    assert multiset([entry] + rebuilt) == multiset{entry} + multiset(rebuilt);
    assert entry in multiset(r);
    forall m | m in r && m != entry
      ensures !Touches(m, path, pageIndex, entry.rects)
    {
      assert m in multiset(r);
    }
  }

  // ---------------------------------------------------------------------
  // Markup queries and deletion

  /** The filter of markups on a file's page. */
  function OnPage(path: Path, pageIndex: nat): TextMarkupEntry -> bool
  {
    (m: TextMarkupEntry) => m.path == path && m.pageIndex == pageIndex
  }

  /** `active_tab_text_markups_for_page`: the markups on that page of the
      active tab's file, in list order; none without a file. */
  function ActiveTabTextMarkupsForPage(v: PdfViewer, pageIndex: nat): (r: seq<TextMarkupEntry>)
    reads v, v.tabBar, v.tabBar.tabs
    requires v.tabBar.Valid()
    ensures v.ActiveTabPath().None? ==> r == []
    ensures forall m :: m in r <==> m in v.textMarkups && v.ActiveTabPath() == Some(m.path) && m.pageIndex == pageIndex
  {
    match v.ActiveTabPath()
    case None => []
    case Some(path) => Retain(v.textMarkups, OnPage(path, pageIndex))
  }

  /** `text_markup_by_id`: the first markup with the id. */
  function TextMarkupById(markups: seq<TextMarkupEntry>, id: nat): (r: Option<TextMarkupEntry>)
    ensures r.None? <==> !MarkupIdUsed(markups, id)
    ensures r.Some? ==> r.value in markups && r.value.id == id
  {
    Find(markups, (m: TextMarkupEntry) => m.id == id)
  }

  /** The filter of markups with another id. */
  function OtherMarkupId(id: nat): TextMarkupEntry -> bool
  {
    (m: TextMarkupEntry) => m.id != id
  }

  /** `delete_text_markup_by_id`: every markup with the id goes; when any
      did, the hovered markup is forgotten and the list written out,
      otherwise nothing changes. */
  method DeleteTextMarkupById(v: PdfViewer, id: nat)
    requires v.Valid()
    modifies v`textMarkups, v`hoveredTextMarkupId, v.textMarkupsStore
    ensures v.Valid()
    ensures v.textMarkups == Retain(old(v.textMarkups), OtherMarkupId(id))
    ensures MarkupIdUsed(old(v.textMarkups), id) ==>
      v.hoveredTextMarkupId == None && v.textMarkupsStore.entries == Store.Written(v.textMarkups, v.serializeMarkup)
    ensures !MarkupIdUsed(old(v.textMarkups), id) ==>
      v.textMarkups == old(v.textMarkups) && v.hoveredTextMarkupId == old(v.hoveredTextMarkupId) && unchanged(v.textMarkupsStore)
  {
    var originalLength := |v.textMarkups|;
    RetainLength(v.textMarkups, OtherMarkupId(id));
    v.textMarkups := Retain(v.textMarkups, OtherMarkupId(id));
    if |v.textMarkups| != originalLength {
      v.hoveredTextMarkupId := None;
      Persistence.PersistTextMarkups(v);
    }
  }

  // ---------------------------------------------------------------------
  // Context menu, hover target and tab drag

  /** `open_tab_context_menu` off macOS: for a present tab the context menu
      opens for it at the position, with no note anchor or note id, and the
      hover menu is cleared; an unknown tab changes nothing. */
  method OpenTabContextMenu(v: PdfViewer, tabId: nat, position: (real, real))
    modifies v`contextMenuOpen, v`contextMenuPosition, v`contextMenuTabId, v`contextMenuNoteAnchor, v`contextMenuNoteId
    modifies v`textSelectionHoverMenuOpen, v`textSelectionHoverMenuPosition, v`textSelectionHoverMenuAnchor
    ensures !HasId(v.tabBar.tabs, tabId) ==>
      unchanged(v`contextMenuOpen, v`contextMenuPosition, v`contextMenuTabId, v`contextMenuNoteAnchor, v`contextMenuNoteId)
      && unchanged(v`textSelectionHoverMenuOpen, v`textSelectionHoverMenuPosition, v`textSelectionHoverMenuAnchor)
    ensures HasId(v.tabBar.tabs, tabId) ==>
      && v.contextMenuOpen && v.contextMenuPosition == Some(position) && v.contextMenuTabId == Some(tabId)
      && v.contextMenuNoteAnchor == None && v.contextMenuNoteId == None
      && HoverMenuCleared(v)
  {
    if v.tabBar.TabIndexById(tabId).None? {
      return;
    }
    var _ := ClearTextSelectionHoverMenuState(v);
    v.contextMenuOpen := true;
    v.contextMenuPosition := Some(position);
    v.contextMenuTabId := Some(tabId);
    v.contextMenuNoteAnchor := None;
    v.contextMenuNoteId := None;
    var _ := ClearTextSelectionHoverMenuState(v);
  }

  /** The context menu counts as closed when it is not open and has no
      position and no tab. */
  predicate ContextMenuClosed(v: PdfViewer)
    reads v`contextMenuOpen, v`contextMenuPosition, v`contextMenuTabId
  {
    !v.contextMenuOpen && v.contextMenuPosition == None && v.contextMenuTabId == None
  }

  /** `close_context_menu`: already closed, nothing changes (not even a
      leftover note or markup target); otherwise all six fields clear. */
  method CloseContextMenu(v: PdfViewer)
    modifies v`contextMenuOpen, v`contextMenuPosition, v`contextMenuTabId
    modifies v`contextMenuNoteAnchor, v`contextMenuNoteId, v`contextMenuTextMarkupId
    ensures old(ContextMenuClosed(v)) ==>
      unchanged(v`contextMenuOpen, v`contextMenuPosition, v`contextMenuTabId)
      && unchanged(v`contextMenuNoteAnchor, v`contextMenuNoteId, v`contextMenuTextMarkupId)
    ensures !old(ContextMenuClosed(v)) ==>
      ContextMenuDismissed(v) && v.contextMenuTextMarkupId == None
  {
    if ContextMenuClosed(v) {
      return;
    }
    v.contextMenuOpen := false;
    v.contextMenuPosition := None;
    v.contextMenuTabId := None;
    v.contextMenuNoteAnchor := None;
    v.contextMenuNoteId := None;
    v.contextMenuTextMarkupId := None;
  }

  /** The hover target `set_text_hover_hit` wants: the active tab and the
      page when the mouse is over text and a tab is active. */
  function HoverTarget(activeTabId: Option<nat>, pageIndex: nat, isOverText: bool): (r: Option<(nat, nat)>)
    ensures r.Some? <==> isOverText && activeTabId.Some?
    ensures r.Some? ==> r.value == (activeTabId.value, pageIndex)
  {
    if isOverText then (match activeTabId case Some(id) => Some((id, pageIndex)) case None => None) else None
  }

  /** `set_text_hover_hit`: the target becomes the wanted one, and the
      result says whether it changed. */
  method SetTextHoverHit(v: PdfViewer, pageIndex: nat, isOverText: bool) returns (changed: bool)
    modifies v`textHoverTarget
    ensures v.textHoverTarget == HoverTarget(v.tabBar.activeTabId, pageIndex, isOverText)
    ensures changed <==> old(v.textHoverTarget) != v.textHoverTarget
  {
    var next := HoverTarget(v.tabBar.activeTabId, pageIndex, isOverText);
    if v.textHoverTarget != next {
      v.textHoverTarget := next;
      changed := true;
    } else {
      changed := false;
    }
  }

  /** `current_drag_source_tab_id`. */
  function CurrentDragSourceTabId(state: DragState): (r: Option<nat>)
    ensures r.None? <==> state == NoDrag
    ensures r.Some? ==> r.value == state.sourceTabId
  {
    match state
    case Started(source) => Some(source)
    case Over(source, _) => Some(source)
    case NoDrag => None
  }

  /** The reordering `finish_tab_drag` performs: for a drag over a tab,
      the source's and target's indices when both tabs are present at
      different places. */
  function DragMove(tabs: seq<PdfTab>, state: DragState): Option<(nat, nat)>
  {
    match state
    case Over(source, target) =>
      (match (IndexOf(tabs, source), IndexOf(tabs, target))
       case (Some(i), Some(j)) => if i != j then Some((i, j)) else None
       case _ => None)
    case _ => None
  }

  /** With unique ids a drag moves a tab exactly when it is over another
      tab and both are present; the source then lands at the target's
      index. */
  lemma DragMoveIff(tabs: seq<PdfTab>, state: DragState)
    requires UniqueIds(tabs)
    ensures DragMove(tabs, state).Some? <==>
      state.Over? && HasId(tabs, state.sourceTabId) && HasId(tabs, state.targetTabId) && state.sourceTabId != state.targetTabId
    ensures DragMove(tabs, state).Some? ==>
      var (i, j) := DragMove(tabs, state).value;
      i < |tabs| && j < |tabs| && tabs[i].id == state.sourceTabId && tabs[j].id == state.targetTabId
  {
  }

  /** `finish_tab_drag`: a pending start is dropped; a drag over another
      present tab moves the source there and writes the open tabs out; any
      drag in progress ends with no mouse position; without a drag
      nothing else changes. */
  method FinishTabDrag(v: PdfViewer, ghost move: Option<(nat, nat)>)
    requires v.Valid()
    requires move == DragMove(v.tabBar.tabs, v.dragState)
    modifies v`pendingDragStart, v`dragState, v`dragMousePosition, v.tabBar`tabs, v.openTabsStore
    ensures v.Valid()
    ensures v.pendingDragStart == None
    ensures old(v.dragState) == NoDrag ==> v.dragState == NoDrag && v.dragMousePosition == old(v.dragMousePosition)
    ensures old(v.dragState) != NoDrag ==> v.dragState == NoDrag && v.dragMousePosition == None
    ensures move.Some? ==> v.tabBar.tabs == MoveItem(old(v.tabBar.tabs), move.value.0, move.value.1) && Persistence.OpenTabsPersisted(v)
    ensures move.None? ==> v.tabBar.tabs == old(v.tabBar.tabs) && unchanged(v.openTabsStore)
  {
    v.pendingDragStart := None;
    if v.dragState.Over? {
      EndDragOver(v, move);
    } else if v.dragState.Started? {
      v.dragState := NoDrag;
      v.dragMousePosition := None;
    }
  }

  /** `finish_tab_drag` for a drag over a tab. */
  method EndDragOver(v: PdfViewer, ghost move: Option<(nat, nat)>)
    requires v.Valid() && v.dragState.Over?
    requires move == DragMove(v.tabBar.tabs, v.dragState)
    modifies v`dragState, v`dragMousePosition, v.tabBar`tabs, v.openTabsStore
    ensures v.Valid()
    ensures v.dragState == NoDrag && v.dragMousePosition == None
    ensures move.Some? ==> v.tabBar.tabs == MoveItem(old(v.tabBar.tabs), move.value.0, move.value.1) && Persistence.OpenTabsPersisted(v)
    ensures move.None? ==> v.tabBar.tabs == old(v.tabBar.tabs) && unchanged(v.openTabsStore)
  {
    var source, target := v.dragState.sourceTabId, v.dragState.targetTabId;
    // The drag fields are cleared before the move rather than after it:
    // persisting the open tabs does not read them.
    v.dragState := NoDrag;
    v.dragMousePosition := None;
    MoveDraggedTab(v, source, target, move);
  }

  /** The reordering of a drag over a tab, persisted when the order
      changes. */
  method MoveDraggedTab(v: PdfViewer, source: nat, target: nat, ghost move: Option<(nat, nat)>)
    requires v.Valid()
    requires move == DragMove(v.tabBar.tabs, Over(source, target))
    modifies v.tabBar`tabs, v.openTabsStore
    ensures v.Valid()
    ensures move.Some? ==> v.tabBar.tabs == MoveItem(old(v.tabBar.tabs), move.value.0, move.value.1) && Persistence.OpenTabsPersisted(v)
    ensures move.None? ==> v.tabBar.tabs == old(v.tabBar.tabs) && unchanged(v.openTabsStore)
  {
    var sourceIndex := v.tabBar.TabIndexById(source);
    var targetIndex := v.tabBar.TabIndexById(target);
    if sourceIndex.Some? && targetIndex.Some? && sourceIndex.value != targetIndex.value {
      MoveAndPersist(v, sourceIndex.value, targetIndex.value);
    }
  }

  /** `move_tab` followed by `persist_open_tabs`. */
  method MoveAndPersist(v: PdfViewer, fromIndex: nat, toIndex: nat)
    requires v.Valid() && fromIndex < |v.tabBar.tabs| && toIndex < |v.tabBar.tabs|
    modifies v.tabBar`tabs, v.openTabsStore
    ensures v.Valid()
    ensures v.tabBar.tabs == MoveItem(old(v.tabBar.tabs), fromIndex, toIndex) && Persistence.OpenTabsPersisted(v)
  {
    ghost var before := v.tabBar.tabs;
    var _ := v.tabBar.MoveTab(fromIndex, toIndex);
    PermutedSelectionsValid(before, v.tabBar.tabs);
    Persistence.PersistOpenTabs(v);
  }

  /** Reordering the tabs keeps every selection manager valid. */
  lemma PermutedSelectionsValid(before: seq<PdfTab>, after: seq<PdfTab>)
    requires AllSelectionsValid(before) && multiset(after) == multiset(before)
    ensures AllSelectionsValid(after)
  {
    forall i | 0 <= i < |after|
      ensures after[i].selection.Valid()
    {
      assert after[i] in multiset(before);
      var k :| 0 <= k < |before| && before[k] == after[i];
    }
  }
}
