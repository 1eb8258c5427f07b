// Page geometry and the text mouse handlers of the page list
// (src/pdf_viewer/display_list.rs). A page image is fitted into its
// on-screen box keeping its aspect ratio and centred ("contain"); note
// anchors are page-relative ratios measured from the page's bottom-left
// corner, screen points are measured from the box's top-left corner.
// Geometry is over `real`; f32 rounding is not modelled.
module DisplayList {
  import opened Wrappers
  import opened Types
  import opened Tab
  import opened Viewer
  import TextSelection
  import Interactions
  import RecentBookmarkNotes

  const MARKDOWN_NOTE_BUBBLE_OFFSET_X: real := 14.0
  const MARKDOWN_NOTE_BUBBLE_PADDING: real := 8.0

  // ---------------------------------------------------------------------
  // The content box

  /** Where the page image sits in its box: its size and its offsets from
      the box's top-left corner. */
  datatype ContentBox = ContentBox(width: real, height: real, xOffset: real, yOffset: real)

  /** `page_content_transform`: no box unless every size and the scale are
      positive. A page wider than the box (by aspect) fills the box's
      width, otherwise its height; the other side is the page's scaled
      size, and the image is centred. */
  function PageContentTransform(widthPt: real, heightPt: real, widthScreen: real, heightScreen: real, scale: real)
    : (r: Option<ContentBox>)
    ensures r.None? <==> widthPt <= 0.0 || heightPt <= 0.0 || widthScreen <= 0.0 || heightScreen <= 0.0 || scale <= 0.0
    ensures r.Some? ==> 2.0 * r.value.xOffset + r.value.width == widthScreen
    ensures r.Some? ==> 2.0 * r.value.yOffset + r.value.height == heightScreen
    ensures r.Some? && widthPt / heightPt > widthScreen / heightScreen ==>
      r.value.width == widthScreen && r.value.height == heightPt * scale
    ensures r.Some? && widthPt / heightPt <= widthScreen / heightScreen ==>
      r.value.width == widthPt * scale && r.value.height == heightScreen
  {
    if widthPt <= 0.0 || heightPt <= 0.0 || widthScreen <= 0.0 || heightScreen <= 0.0 || scale <= 0.0 then None
    else
      var containerAspect := widthScreen / heightScreen;
      var contentAspect := widthPt / heightPt;
      var (w, h) := if contentAspect > containerAspect then (widthScreen, heightPt * scale) else (widthPt * scale, heightScreen);
      Some(ContentBox(w, h, (widthScreen - w) / 2.0, (heightScreen - h) / 2.0))
  }

  /** The scale the page list uses: box width over page width. */
  function FitScale(page: PageSummary, widthScreen: real): real
    requires page.widthPt > 0.0
  {
    widthScreen / page.widthPt
  }

  /** The content box of a page at the page list's scale. */
  function PageBox(page: PageSummary, widthScreen: real, heightScreen: real): Option<ContentBox>
  {
    if page.widthPt <= 0.0 || page.heightPt <= 0.0 then None
    else PageContentTransform(page.widthPt, page.heightPt, widthScreen, heightScreen, FitScale(page, widthScreen))
  }

  /** At the page list's scale the image fills the box's width, and its
      height never exceeds the page's own scaled height. */
  lemma PageBoxFacts(page: PageSummary, widthScreen: real, heightScreen: real)
    requires PageBox(page, widthScreen, heightScreen).Some?
    ensures var b := PageBox(page, widthScreen, heightScreen).value;
      && page.widthPt > 0.0 && page.heightPt > 0.0 && widthScreen > 0.0 && heightScreen > 0.0
      && b.width == widthScreen && b.width == page.widthPt * FitScale(page, widthScreen)
      && 0.0 < b.height <= page.heightPt * FitScale(page, widthScreen)
  {
    var w, h := page.widthPt, page.heightPt;
    var s := FitScale(page, widthScreen);
    assert w * s == widthScreen;
    var b := PageBox(page, widthScreen, heightScreen).value;
    if w / h <= widthScreen / heightScreen {
      // w * heightScreen <= widthScreen * h, so heightScreen <= h * s.
      assert (w / h) * h == w;
      assert (widthScreen / heightScreen) * heightScreen == widthScreen;
      assert w * heightScreen <= widthScreen * h by {
        assert (w / h) * (h * heightScreen) <= (widthScreen / heightScreen) * (h * heightScreen);
      }
      assert heightScreen * w <= (h * s) * w;
      assert b.height == heightScreen;
    }
  }

  // ---------------------------------------------------------------------
  // Anchors and screen points

  /** The point lies in the content box. */
  predicate InBox(b: ContentBox, x: real, y: real)
  {
    0.0 <= x - b.xOffset <= b.width && 0.0 <= y - b.yOffset <= b.height
  }

  /** A point of a content box as clamped ratios of a `w` by `h` page
      drawn at scale `s`, the vertical one upwards from the bottom. */
  function BoxPointToRatios(b: ContentBox, s: real, w: real, h: real, x: real, y: real): (real, real)
    requires s > 0.0 && w > 0.0 && h > 0.0
  {
    var pdfX := (x - b.xOffset) / s;
    var pdfY := (b.height - (y - b.yOffset)) / s;
    (Clamp01(pdfX / w), Clamp01(pdfY / h))
  }

  /** Clamped ratios of a `w` by `h` page drawn at scale `s` as a point of
      its content box. */
  function RatiosToBoxPoint(b: ContentBox, s: real, w: real, h: real, xRatio: real, yRatio: real): (real, real)
  {
    var pdfX := Clamp01(xRatio) * w;
    var pdfY := Clamp01(yRatio) * h;
    (b.xOffset + pdfX * s, b.yOffset + (b.height - pdfY * s))
  }

  /** Ratios in [0, 1] go to a point horizontally within the scaled page
      and come back unchanged. */
  lemma RatiosRoundTrip(b: ContentBox, s: real, w: real, h: real, xRatio: real, yRatio: real)
    requires s > 0.0 && w > 0.0 && h > 0.0
    requires 0.0 <= xRatio <= 1.0 && 0.0 <= yRatio <= 1.0
    ensures var p := RatiosToBoxPoint(b, s, w, h, xRatio, yRatio);
      && 0.0 <= p.0 - b.xOffset <= w * s
      && BoxPointToRatios(b, s, w, h, p.0, p.1) == (xRatio, yRatio)
  {
    var p := RatiosToBoxPoint(b, s, w, h, xRatio, yRatio);
    assert Clamp01(xRatio) == xRatio && Clamp01(yRatio) == yRatio;
    var cx := p.0 - b.xOffset;
    var cy := b.height - (p.1 - b.yOffset);
    assert cx == (xRatio * w) * s;
    assert cy == (yRatio * h) * s;
    ScaledRatio(xRatio, w, s);
    Rescale(xRatio, w, s);
    Rescale(yRatio, h, s);
    assert (cx / s) / w == xRatio;
    assert (cy / s) / h == yRatio;
  }

  /** A point within the scaled page goes to ratios and comes back
      unchanged. */
  lemma BoxPointRoundTrip(b: ContentBox, s: real, w: real, h: real, x: real, y: real)
    requires s > 0.0 && w > 0.0 && h > 0.0
    requires 0.0 <= x - b.xOffset <= w * s && 0.0 <= b.height - (y - b.yOffset) <= h * s
    ensures var q := BoxPointToRatios(b, s, w, h, x, y);
      RatiosToBoxPoint(b, s, w, h, q.0, q.1) == (x, y)
  {
    var cx := x - b.xOffset;
    var cy := b.height - (y - b.yOffset);
    Unscale(cx, w, s);
    Unscale(cy, h, s);
    var rx, ry := (cx / s) / w, (cy / s) / h;
    assert Clamp01(rx) == rx && Clamp01(ry) == ry;
    assert BoxPointToRatios(b, s, w, h, x, y) == (rx, ry);
    assert (rx * w) * s == cx && (ry * h) * s == cy;
    RatiosToBoxPointInRange(b, s, w, h, rx, ry);
  }

  lemma RatiosToBoxPointInRange(b: ContentBox, s: real, w: real, h: real, xRatio: real, yRatio: real)
    requires 0.0 <= xRatio <= 1.0 && 0.0 <= yRatio <= 1.0
    ensures RatiosToBoxPoint(b, s, w, h, xRatio, yRatio) == (b.xOffset + (xRatio * w) * s, b.yOffset + (b.height - (yRatio * h) * s))
  {
    assert Clamp01(xRatio) == xRatio && Clamp01(yRatio) == yRatio;
    var p := RatiosToBoxPoint(b, s, w, h, xRatio, yRatio);
    assert p.0 == b.xOffset + (Clamp01(xRatio) * w) * s;
    assert p.1 == b.yOffset + (b.height - (Clamp01(yRatio) * h) * s);
    assert p.0 == b.xOffset + (xRatio * w) * s;
    assert p.1 == b.yOffset + (b.height - (yRatio * h) * s);
  }

  /** `page_local_screen_to_note_anchor` for a given page: no anchor for a
      page without a positive size or outside the content box; otherwise
      the point's position as ratios of the page, upwards from the bottom,
      clamped into [0, 1]. */
  function ScreenToAnchor(page: PageSummary, pageIndex: nat, x: real, y: real, widthScreen: real, heightScreen: real)
    : (r: Option<MarkdownNoteAnchor>)
    ensures r.Some? <==> PageBox(page, widthScreen, heightScreen).Some? && InBox(PageBox(page, widthScreen, heightScreen).value, x, y)
    ensures r.Some? ==> r.value.pageIndex == pageIndex && 0.0 <= r.value.xRatio <= 1.0 && 0.0 <= r.value.yRatio <= 1.0
  {
    match PageBox(page, widthScreen, heightScreen)
    case None => None
    case Some(b) =>
      if !InBox(b, x, y) then None
      else
        var (xRatio, yRatio) := BoxPointToRatios(b, FitScale(page, widthScreen), page.widthPt, page.heightPt, x, y);
        Some(MarkdownNoteAnchor(pageIndex, xRatio, yRatio))
  }

  /** `note_anchor_to_page_local_screen` for a given page: the anchor's
      (clamped) ratios as a point of the content box. */
  function AnchorToScreen(page: PageSummary, anchor: MarkdownNoteAnchor, widthScreen: real, heightScreen: real)
    : (r: Option<(real, real)>)
    ensures r.Some? <==> PageBox(page, widthScreen, heightScreen).Some?
  {
    match PageBox(page, widthScreen, heightScreen)
    case None => None
    case Some(b) =>
      Some(RatiosToBoxPoint(b, FitScale(page, widthScreen), page.widthPt, page.heightPt, anchor.xRatio, anchor.yRatio))
  }

  /** A length within a scaled side is a ratio in [0, 1] of it, and scaling
      that ratio back gives the length. */
  lemma Unscale(c: real, w: real, s: real)
    requires w > 0.0 && s > 0.0 && 0.0 <= c <= w * s
    ensures 0.0 <= (c / s) / w <= 1.0
    ensures (((c / s) / w) * w) * s == c
  {
    var q := (c / s) / w;
    assert (c / s) * s == c;
    assert q * w == c / s;
    assert (q * w) * s == c;
  }

  /** A ratio of a side, scaled, is back the same ratio once unscaled. */
  lemma Rescale(a: real, w: real, s: real)
    requires w > 0.0 && s > 0.0
    ensures ((a * w) * s) / s / w == a
  {
    assert ((a * w) * s) / s == a * w;
  }

  /** A ratio in [0, 1] of a side, scaled, lies within the scaled side. */
  lemma ScaledRatio(a: real, w: real, s: real)
    requires 0.0 <= a <= 1.0 && w > 0.0 && s > 0.0
    ensures 0.0 <= (a * w) * s <= w * s
  {
    assert a * w <= 1.0 * w;
  }

  /** An anchor is mapped to a point of the box horizontally always, and
      back to itself whenever the point lies in the box. */
  lemma AnchorRoundTrip(page: PageSummary, anchor: MarkdownNoteAnchor, widthScreen: real, heightScreen: real)
    requires 0.0 <= anchor.xRatio <= 1.0 && 0.0 <= anchor.yRatio <= 1.0
    requires AnchorToScreen(page, anchor, widthScreen, heightScreen).Some?
    ensures var p := AnchorToScreen(page, anchor, widthScreen, heightScreen).value;
      var b := PageBox(page, widthScreen, heightScreen).value;
      0.0 <= p.0 - b.xOffset <= b.width
    ensures var p := AnchorToScreen(page, anchor, widthScreen, heightScreen).value;
      ScreenToAnchor(page, anchor.pageIndex, p.0, p.1, widthScreen, heightScreen).Some? ==>
      ScreenToAnchor(page, anchor.pageIndex, p.0, p.1, widthScreen, heightScreen) == Some(anchor)
  {
    PageBoxFacts(page, widthScreen, heightScreen);
    var b := PageBox(page, widthScreen, heightScreen).value;
    RatiosRoundTrip(b, FitScale(page, widthScreen), page.widthPt, page.heightPt, anchor.xRatio, anchor.yRatio);
  }

  /** A point of the box is mapped to an anchor and back to itself. */
  lemma ScreenRoundTrip(page: PageSummary, pageIndex: nat, x: real, y: real, widthScreen: real, heightScreen: real)
    requires ScreenToAnchor(page, pageIndex, x, y, widthScreen, heightScreen).Some?
    ensures AnchorToScreen(page, ScreenToAnchor(page, pageIndex, x, y, widthScreen, heightScreen).value, widthScreen, heightScreen)
      == Some((x, y))
  {
    PageBoxFacts(page, widthScreen, heightScreen);
    var b := PageBox(page, widthScreen, heightScreen).value;
    BoxPointRoundTrip(b, FitScale(page, widthScreen), page.widthPt, page.heightPt, x, y);
  }

  /** The pages of the active tab. */
  function ActiveTabPages(v: PdfViewer): (r: Option<seq<PageSummary>>)
    reads v.tabBar, v.tabBar.tabs
    requires v.tabBar.Valid()
    ensures r.Some? <==> v.ActiveTab().Some?
    ensures r.Some? ==> r.value == v.ActiveTab().value.pages
  {
    match v.ActiveTab() case Some(t) => Some(t.pages) case None => None
  }

  /** `page_local_screen_to_note_anchor`: no anchor without an active tab
      or for a page it does not have. */
  function PageLocalScreenToNoteAnchor(v: PdfViewer, pageIndex: nat, x: real, y: real, widthScreen: real, heightScreen: real)
    : (r: Option<MarkdownNoteAnchor>)
    reads v.tabBar, v.tabBar.tabs
    requires v.tabBar.Valid()
    ensures r.Some? ==> ActiveTabPages(v).Some? && pageIndex < |ActiveTabPages(v).value|
    ensures r.Some? ==> r == ScreenToAnchor(ActiveTabPages(v).value[pageIndex], pageIndex, x, y, widthScreen, heightScreen)
    ensures ActiveTabPages(v).Some? && pageIndex < |ActiveTabPages(v).value| ==>
      r == ScreenToAnchor(ActiveTabPages(v).value[pageIndex], pageIndex, x, y, widthScreen, heightScreen)
  {
    match ActiveTabPages(v)
    case None => None
    case Some(pages) => if pageIndex < |pages| then ScreenToAnchor(pages[pageIndex], pageIndex, x, y, widthScreen, heightScreen) else None
  }

  /** `note_anchor_to_page_local_screen`: no point without an active tab
      or for a page it does not have. */
  function NoteAnchorToPageLocalScreen(v: PdfViewer, pageIndex: nat, anchor: MarkdownNoteAnchor, widthScreen: real, heightScreen: real)
    : (r: Option<(real, real)>)
    reads v.tabBar, v.tabBar.tabs
    requires v.tabBar.Valid()
    ensures r.Some? ==> ActiveTabPages(v).Some? && pageIndex < |ActiveTabPages(v).value|
    ensures ActiveTabPages(v).Some? && pageIndex < |ActiveTabPages(v).value| ==>
      r == AnchorToScreen(ActiveTabPages(v).value[pageIndex], anchor, widthScreen, heightScreen)
  {
    match ActiveTabPages(v)
    case None => None
    case Some(pages) => if pageIndex < |pages| then AnchorToScreen(pages[pageIndex], anchor, widthScreen, heightScreen) else None
  }

  // ---------------------------------------------------------------------
  // Note markers

  /** `note_bubble_position`: the bubble starts a fixed offset right of
      the marker at the marker's height, kept a padding away from the box's
      edges (or at the padding when the box is too small). */
  function NoteBubblePosition(markerX: real, markerY: real, widthScreen: real, heightScreen: real): (r: (real, real))
    ensures MARKDOWN_NOTE_BUBBLE_PADDING <= r.0 <= Max(widthScreen - MARKDOWN_NOTE_BUBBLE_PADDING, MARKDOWN_NOTE_BUBBLE_PADDING)
    ensures MARKDOWN_NOTE_BUBBLE_PADDING <= r.1 <= Max(heightScreen - MARKDOWN_NOTE_BUBBLE_PADDING, MARKDOWN_NOTE_BUBBLE_PADDING)
    ensures MARKDOWN_NOTE_BUBBLE_PADDING <= markerX + MARKDOWN_NOTE_BUBBLE_OFFSET_X <= widthScreen - MARKDOWN_NOTE_BUBBLE_PADDING ==>
      r.0 == markerX + MARKDOWN_NOTE_BUBBLE_OFFSET_X
    ensures MARKDOWN_NOTE_BUBBLE_PADDING <= markerY <= heightScreen - MARKDOWN_NOTE_BUBBLE_PADDING ==> r.1 == markerY
  {
    var leftMin := MARKDOWN_NOTE_BUBBLE_PADDING;
    var leftMax := Max(widthScreen - MARKDOWN_NOTE_BUBBLE_PADDING, leftMin);
    var topMin := MARKDOWN_NOTE_BUBBLE_PADDING;
    var topMax := Max(heightScreen - MARKDOWN_NOTE_BUBBLE_PADDING, topMin);
    (Clamp(markerX + MARKDOWN_NOTE_BUBBLE_OFFSET_X, leftMin, leftMax), Clamp(markerY, topMin, topMax))
  }

  function Max(a: real, b: real): (r: real)
    ensures r >= a && r >= b && (r == a || r == b)
  {
    if a >= b then a else b
  }

  /** A note drawn on a page: its marker point, its preview text and where
      its bubble goes. */
  datatype NoteMarker = NoteMarker(id: nat, x: real, y: real, preview: string, bubbleLeft: real, bubbleTop: real)

  /** The marker of a note at a screen point. */
  function MarkerAt(note: MarkdownNoteEntry, p: (real, real), widthScreen: real, heightScreen: real): NoteMarker
  {
    var (left, top) := NoteBubblePosition(p.0, p.1, widthScreen, heightScreen);
    NoteMarker(note.id, p.0, p.1, note.markdown, left, top)
  }

  /** The markers of the notes on a page: one per note, in order, unless
      the page has no content box, when there are none. */
  function MarkersOnPage(notes: seq<MarkdownNoteEntry>, page: PageSummary, pageIndex: nat, widthScreen: real, heightScreen: real)
    : (r: seq<NoteMarker>)
    ensures PageBox(page, widthScreen, heightScreen).None? ==> r == []
    ensures PageBox(page, widthScreen, heightScreen).Some? ==> |r| == |notes|
    ensures PageBox(page, widthScreen, heightScreen).Some? ==> forall i :: 0 <= i < |notes| ==>
      var p := AnchorToScreen(page, MarkdownNoteAnchor(pageIndex, notes[i].xRatio, notes[i].yRatio), widthScreen, heightScreen);
      p.Some? && r[i] == MarkerAt(notes[i], p.value, widthScreen, heightScreen)
  {
    if notes == [] then []
    else
      var rest := MarkersOnPage(notes[1..], page, pageIndex, widthScreen, heightScreen);
      match AnchorToScreen(page, MarkdownNoteAnchor(pageIndex, notes[0].xRatio, notes[0].yRatio), widthScreen, heightScreen)
      case None => rest
      case Some(p) => [MarkerAt(notes[0], p, widthScreen, heightScreen)] + rest
  }

  /** `markdown_note_markers_for_page`: the markers of the active file's
      notes on the page. */
  function MarkdownNoteMarkersForPage(v: PdfViewer, pageIndex: nat, widthScreen: real, heightScreen: real)
    : (r: seq<NoteMarker>)
    reads v, v.tabBar, v.tabBar.tabs
    requires v.tabBar.Valid()
    ensures !(ActiveTabPages(v).Some? && pageIndex < |ActiveTabPages(v).value|) ==> r == []
    ensures ActiveTabPages(v).Some? && pageIndex < |ActiveTabPages(v).value| ==>
      r == MarkersOnPage(RecentBookmarkNotes.ActiveTabMarkdownNotesForPage(v, pageIndex), ActiveTabPages(v).value[pageIndex],
        pageIndex, widthScreen, heightScreen)
  {
    match ActiveTabPages(v)
    case None => []
    case Some(pages) =>
      if pageIndex < |pages| then
        MarkersOnPage(RecentBookmarkNotes.ActiveTabMarkdownNotesForPage(v, pageIndex), pages[pageIndex], pageIndex, widthScreen, heightScreen)
      else []
  }

  /** The mouse is within the hit radius of the marker. */
  predicate NearMarker(m: NoteMarker, x: real, y: real, hitRadius: real)
  {
    var dx := m.x - x;
    var dy := m.y - y;
    dx * dx + dy * dy <= hitRadius * hitRadius
  }

  /** The index of the first marker near the mouse. */
  function FirstNearMarker(markers: seq<NoteMarker>, x: real, y: real, hitRadius: real): (r: Option<nat>)
    ensures r.None? <==> forall i :: 0 <= i < |markers| ==> !NearMarker(markers[i], x, y, hitRadius)
    ensures r.Some? ==> r.value < |markers| && NearMarker(markers[r.value], x, y, hitRadius)
    ensures r.Some? ==> forall i :: 0 <= i < r.value ==> !NearMarker(markers[i], x, y, hitRadius)
  {
    if markers == [] then None
    else if NearMarker(markers[0], x, y, hitRadius) then Some(0)
    else
      match FirstNearMarker(markers[1..], x, y, hitRadius)
      case None => None
      case Some(i) => Some(i + 1)
  }

  /** `hit_test_markdown_note_id_on_page`: the id of the first marker, in
      list order, within the marker radius plus 6 of the mouse. The
      marker radius is a constant of src/pdf_viewer/constants.rs, which is
      not part of this model, so it is a parameter. */
  function HitTestMarkdownNoteIdOnPage(v: PdfViewer, pageIndex: nat, x: real, y: real, widthScreen: real, heightScreen: real,
    markerRadius: real): (r: Option<nat>)
    reads v, v.tabBar, v.tabBar.tabs
    requires v.tabBar.Valid()
    ensures var markers := MarkdownNoteMarkersForPage(v, pageIndex, widthScreen, heightScreen);
      var i := FirstNearMarker(markers, x, y, markerRadius + 6.0);
      && (r.None? <==> i.None?)
      && (r.Some? ==> r.value == markers[i.value].id)
  {
    var markers := MarkdownNoteMarkersForPage(v, pageIndex, widthScreen, heightScreen);
    match FirstNearMarker(markers, x, y, markerRadius + 6.0)
    case None => None
    case Some(i) => Some(markers[i].id)
  }

  // ---------------------------------------------------------------------
  // Selection rectangles on screen

  /** An f32 quotient: finite, or what dividing by zero gives. */
  datatype Quotient = Finite(value: real) | PosInf | NegInf | NaN

  /** `a / b` in f32: by a (positive) zero it is infinite with the sign of
      `a`, or NaN for 0 / 0. */
  function Divide(a: real, b: real): (r: Quotient)
    ensures b != 0.0 ==> r == Finite(a / b)
  {
    if b != 0.0 then Finite(a / b)
    else if a > 0.0 then PosInf
    else if a < 0.0 then NegInf
    else NaN
  }

  /** `x > y` on f32 quotients: false whenever NaN is involved. */
  predicate Greater(x: Quotient, y: Quotient)
  {
    match x
    case NaN => false
    case NegInf => false
    case PosInf => y.Finite? || y.NegInf?
    case Finite(a) => (y.Finite? && a > y.value) || y.NegInf?
  }

  /** A selection box (page points, y upwards) as a screen rectangle: flip,
      scale, shift, and order each pair of edges. */
  function ScreenRect(b: TextSelection.Bounds, heightPt: real, scale: real, xOffset: real, yOffset: real)
    : (r: TextSelection.Bounds)
    ensures r.left <= r.right && r.top <= r.bottom
    ensures {r.left, r.right} == {b.left * scale + xOffset, b.right * scale + xOffset}
    ensures {r.top, r.bottom} == {(heightPt - b.top) * scale + yOffset, (heightPt - b.bottom) * scale + yOffset}
  {
    var left := b.left * scale + xOffset;
    var right := b.right * scale + xOffset;
    var top := (heightPt - b.top) * scale + yOffset;
    var bottom := (heightPt - b.bottom) * scale + yOffset;
    var (t, u) := if top <= bottom then (top, bottom) else (bottom, top);
    var (l, s) := if left <= right then (left, right) else (right, left);
    TextSelection.Bounds(l, t, s, u)
  }

  /** Every selection box as a screen rectangle, in order. */
  function ScreenRects(bs: seq<TextSelection.Bounds>, heightPt: real, scale: real, xOffset: real, yOffset: real)
    : (r: seq<TextSelection.Bounds>)
    ensures |r| == |bs|
    ensures forall i :: 0 <= i < |bs| ==> r[i] == ScreenRect(bs[i], heightPt, scale, xOffset, yOffset)
  {
    if bs == [] then []
    else [ScreenRect(bs[0], heightPt, scale, xOffset, yOffset)] + ScreenRects(bs[1..], heightPt, scale, xOffset, yOffset)
  }

  /** The centring offsets of `get_selection_rects_for_page`, which fits
      the cached page size itself, with no guard on the sizes. */
  function SelectionOffsets(widthPt: real, heightPt: real, widthScreen: real, heightScreen: real, scale: real): (real, real)
  {
    var (w, h) :=
      if Greater(Divide(widthPt, heightPt), Divide(widthScreen, heightScreen)) then (widthScreen, heightPt * scale)
      else (widthPt * scale, heightScreen);
    ((widthScreen - w) / 2.0, (heightScreen - h) / 2.0)
  }

  /** `get_selection_rects_for_page`: nothing without an active tab or a
      selection on that cached page; otherwise one screen rectangle per
      selection box, each with its edges in order. */
  function GetSelectionRectsForPage(v: PdfViewer, pageIndex: nat, widthScreen: real, heightScreen: real, scale: real)
    : (r: seq<TextSelection.Bounds>)
    reads v.tabBar, v.tabBar.tabs, Selections(v.tabBar.tabs)
    requires v.tabBar.Valid()
    ensures v.ActiveTab().None? || v.ActiveTab().value.selection.GetSelectionRects(pageIndex).None? ==> r == []
    ensures v.ActiveTab().Some? && v.ActiveTab().value.selection.GetSelectionRects(pageIndex).Some? ==>
      var m := v.ActiveTab().value.selection;
      var cache := m.caches[pageIndex];
      var (xOffset, yOffset) := SelectionOffsets(cache.pageWidth, cache.pageHeight, widthScreen, heightScreen, scale);
      r == ScreenRects(m.GetSelectionRects(pageIndex).value, cache.pageHeight, scale, xOffset, yOffset)
    ensures forall i :: 0 <= i < |r| ==> r[i].left <= r[i].right && r[i].top <= r[i].bottom
  {
    match v.ActiveTab()
    case None => []
    case Some(t) =>
      match t.selection.GetSelectionRects(pageIndex)
      case None => []
      case Some(rects) =>
        var cache := t.selection.GetPageCache(pageIndex).value;
        var (xOffset, yOffset) := SelectionOffsets(cache.pageWidth, cache.pageHeight, widthScreen, heightScreen, scale);
        ScreenRects(rects, cache.pageHeight, scale, xOffset, yOffset)
  }

  // ---------------------------------------------------------------------
  // Text mouse handlers

  /** The caches after `ensure_page_text_loaded`: unchanged when the page
      is cached already or the active tab has no file or the file gave no
      text; otherwise with the loaded page put in. */
  function CachesAfterLoad(caches: map<nat, TextSelection.PageTextCache>, pageIndex: nat, hasPath: bool,
    loaded: Option<TextSelection.PageTextCache>): map<nat, TextSelection.PageTextCache>
  {
    if pageIndex in caches || !hasPath || loaded.None? then caches
    else caches[loaded.value.pageIndex := loaded.value]
  }

  /** `ensure_page_text_loaded`, with `loaded` what reading the page's text
      from the file gives (nothing when it fails or has no text). */
  method EnsurePageTextLoaded(v: PdfViewer, pageIndex: nat, loaded: Option<TextSelection.PageTextCache>)
    requires v.Valid()
    modifies Interactions.ActiveSelectionSet(v)
    ensures v.Valid()
    ensures v.ActiveTab().Some? ==>
      var m := v.ActiveTab().value.selection;
      && m.caches == CachesAfterLoad(old(m.caches), pageIndex, old(v.ActiveTabPath()).Some?, loaded)
      && m.currentSelection == old(m.currentSelection) && m.selectionStart == old(m.selectionStart)
      && m.isSelecting == old(m.isSelecting)
  {
    var tab := v.ActiveTab();
    if tab.None? {
      return;
    }
    var m := tab.value.selection;
    if m.GetPageCache(pageIndex).Some? {
      return;
    }
    if v.ActiveTabPath().Some? && loaded.Some? {
      var c := loaded.value;
      m.LoadCachedText(c.pageIndex, c.pageWidth, c.pageHeight, c.chars);
    }
  }

  /** `handle_text_mouse_down`, with `charHit` the character the mouse
      is on (the f32 hit test): the hovered note is cleared and the page's
      text loaded; without a cache for the page, or off text, the
      selection is cleared; on a character a selection starts there. The
      text hover follows the hit. */
  method HandleTextMouseDown(v: PdfViewer, pageIndex: nat, loaded: Option<TextSelection.PageTextCache>, charHit: Option<nat>)
    requires v.Valid()
    modifies v`hoveredMarkdownNoteId, v`textHoverTarget, Interactions.ActiveSelectionSet(v)
    ensures v.Valid()
    ensures v.hoveredMarkdownNoteId == None
    ensures v.ActiveTab().None? ==> v.textHoverTarget == old(v.textHoverTarget)
    ensures v.ActiveTab().Some? ==>
      var m := v.ActiveTab().value.selection;
      && m.caches == CachesAfterLoad(old(m.caches), pageIndex, old(v.ActiveTabPath()).Some?, loaded)
      && MouseDownOn(v, m, pageIndex, charHit)
  {
    var _ := RecentBookmarkNotes.SetMarkdownNoteHoverId(v, None);
    LoadAndPress(v, pageIndex, loaded, charHit);
  }

  /** The selection and hover after a press on the page. */
  ghost predicate MouseDownOn(v: PdfViewer, m: TextSelection.Manager, pageIndex: nat, charHit: Option<nat>)
    reads v, v.tabBar, m
  {
    var onText := pageIndex in m.caches && charHit.Some?;
    && v.textHoverTarget == Interactions.HoverTarget(v.tabBar.activeTabId, pageIndex, onText)
    && (onText ==>
      m.currentSelection == Some(TextSelection.Selection(pageIndex, charHit.value, charHit.value))
      && m.isSelecting && m.selectionStart == Some((pageIndex, charHit.value)))
    && (!onText ==> m.currentSelection == None && m.selectionStart == None && !m.isSelecting)
  }

  method LoadAndPress(v: PdfViewer, pageIndex: nat, loaded: Option<TextSelection.PageTextCache>, charHit: Option<nat>)
    requires v.Valid()
    modifies v`textHoverTarget, Interactions.ActiveSelectionSet(v)
    ensures v.Valid()
    ensures v.ActiveTab().None? ==> v.textHoverTarget == old(v.textHoverTarget)
    ensures v.ActiveTab().Some? ==>
      var m := v.ActiveTab().value.selection;
      && m.caches == CachesAfterLoad(old(m.caches), pageIndex, old(v.ActiveTabPath()).Some?, loaded)
      && MouseDownOn(v, m, pageIndex, charHit)
  {
    EnsurePageTextLoaded(v, pageIndex, loaded);
    var tab := v.ActiveTab();
    if tab.None? {
      return;
    }
    PressOnPage(v, tab.value.selection, pageIndex, charHit);
  }

  /** The part of `handle_text_mouse_down` after the text is loaded. */
  method PressOnPage(v: PdfViewer, m: TextSelection.Manager, pageIndex: nat, charHit: Option<nat>)
    requires v.Valid() && v.ActiveTab().Some? && m == v.ActiveTab().value.selection
    modifies v`textHoverTarget, m
    ensures v.Valid()
    ensures m.caches == old(m.caches)
    ensures MouseDownOn(v, m, pageIndex, charHit)
  {
    if m.GetPageCache(pageIndex).None? {
      var _ := Interactions.SetTextHoverHit(v, pageIndex, false);
      m.ClearSelection();
      return;
    }
    var _ := Interactions.SetTextHoverHit(v, pageIndex, charHit.Some?);
    if charHit.Some? {
      m.StartSelection(pageIndex, charHit.value);
    } else {
      m.ClearSelection();
    }
  }

  /** `handle_text_mouse_move`, with `overText` whether the mouse is on
      a character and `nearest` the character nearest to it (the f32 hit
      tests): the hovered note becomes the one under the mouse and the
      page's text is loaded; with a cache for the page, the text hover
      follows `overText` and a drag in progress extends the selection to
      the nearest character. Without an active tab or a cache the selection
      is untouched. */
  method HandleTextMouseMove(v: PdfViewer, pageIndex: nat, loaded: Option<TextSelection.PageTextCache>,
    x: real, y: real, widthScreen: real, heightScreen: real, markerRadius: real, overText: bool, nearest: Option<nat>)
    requires v.Valid()
    modifies v`hoveredMarkdownNoteId, v`textHoverTarget, Interactions.ActiveSelectionSet(v)
    ensures v.Valid()
    ensures v.hoveredMarkdownNoteId == old(HitTestMarkdownNoteIdOnPage(v, pageIndex, x, y, widthScreen, heightScreen, markerRadius))
    ensures v.ActiveTab().None? ==> v.textHoverTarget == old(v.textHoverTarget)
    ensures v.ActiveTab().Some? ==>
      var m := v.ActiveTab().value.selection;
      && m.caches == CachesAfterLoad(old(m.caches), pageIndex, old(v.ActiveTabPath()).Some?, loaded)
      && MovedOn(v, m, pageIndex, overText, nearest, old(m.currentSelection), old(m.isSelecting), old(m.selectionStart))
  {
    ghost var tab := v.ActiveTab();
    LoadAndHoverNote(v, pageIndex, loaded, x, y, widthScreen, heightScreen, markerRadius);
    ghost var hovered := v.hoveredMarkdownNoteId;
    assert v.ActiveTab() == tab;
    ghost var caches := if tab.Some? then tab.value.selection.caches else map[];
    MoveAfterLoad(v, pageIndex, overText, nearest);
    assert v.ActiveTab() == tab && v.hoveredMarkdownNoteId == hovered;
    assert tab.Some? ==> tab.value.selection.caches == caches;
  }

  /** The first part of `handle_text_mouse_move`: the page's text is
      loaded and the hovered note becomes the one under the mouse. */
  method LoadAndHoverNote(v: PdfViewer, pageIndex: nat, loaded: Option<TextSelection.PageTextCache>,
    x: real, y: real, widthScreen: real, heightScreen: real, markerRadius: real)
    requires v.Valid()
    modifies v`hoveredMarkdownNoteId, Interactions.ActiveSelectionSet(v)
    ensures v.Valid()
    ensures v.hoveredMarkdownNoteId == old(HitTestMarkdownNoteIdOnPage(v, pageIndex, x, y, widthScreen, heightScreen, markerRadius))
    ensures v.ActiveTab().Some? ==>
      var m := v.ActiveTab().value.selection;
      && m.caches == CachesAfterLoad(old(m.caches), pageIndex, old(v.ActiveTabPath()).Some?, loaded)
      && m.currentSelection == old(m.currentSelection) && m.selectionStart == old(m.selectionStart)
      && m.isSelecting == old(m.isSelecting)
  {
    // The hit test reads the notes and the pages, not the text caches, so
    // taking it before the text is loaded gives the same note.
    var hovered := HitTestMarkdownNoteIdOnPage(v, pageIndex, x, y, widthScreen, heightScreen, markerRadius);
    var _ := RecentBookmarkNotes.SetMarkdownNoteHoverId(v, hovered);
    EnsurePageTextLoaded(v, pageIndex, loaded);
  }

  /** The selection and hover after a move over the page, from the
      selection before it. */
  ghost predicate MovedOn(v: PdfViewer, m: TextSelection.Manager, pageIndex: nat, overText: bool, nearest: Option<nat>,
    selection: Option<TextSelection.Selection>, selecting: bool, start: Option<(nat, nat)>)
    reads v, v.tabBar, m
  {
    var cached := pageIndex in m.caches;
    && v.textHoverTarget == Interactions.HoverTarget(v.tabBar.activeTabId, pageIndex, cached && overText)
    && m.isSelecting == selecting && m.selectionStart == start
    && (cached && selecting && nearest.Some? && start.Some? && start.value.0 == pageIndex ==>
      m.currentSelection == Some(TextSelection.NewSelection(pageIndex, start.value.1, nearest.value)))
    && (!(cached && selecting && nearest.Some? && start.Some? && start.value.0 == pageIndex) ==>
      m.currentSelection == selection)
  }

  /** The part of `handle_text_mouse_move` after the text is loaded and
      the note hover set. */
  method MoveAfterLoad(v: PdfViewer, pageIndex: nat, overText: bool, nearest: Option<nat>)
    requires v.Valid()
    modifies v`textHoverTarget, Interactions.ActiveSelectionSet(v)
    ensures v.Valid()
    ensures v.ActiveTab().None? ==> v.textHoverTarget == old(v.textHoverTarget)
    ensures v.ActiveTab().Some? ==>
      var m := v.ActiveTab().value.selection;
      && m.caches == old(m.caches)
      && MovedOn(v, m, pageIndex, overText, nearest, old(m.currentSelection), old(m.isSelecting), old(m.selectionStart))
  {
    var tab := v.ActiveTab();
    if tab.None? {
      return;
    }
    MoveOnPage(v, tab.value.selection, pageIndex, overText, nearest);
  }

  /** `handle_text_mouse_move` on the active tab's manager. */
  method MoveOnPage(v: PdfViewer, m: TextSelection.Manager, pageIndex: nat, overText: bool, nearest: Option<nat>)
    requires v.Valid() && v.ActiveTab().Some? && m == v.ActiveTab().value.selection
    modifies v`textHoverTarget, m
    ensures v.Valid()
    ensures m.caches == old(m.caches)
    ensures MovedOn(v, m, pageIndex, overText, nearest, old(m.currentSelection), old(m.isSelecting), old(m.selectionStart))
  {
    if m.GetPageCache(pageIndex).None? {
      var _ := Interactions.SetTextHoverHit(v, pageIndex, false);
      return;
    }
    var selecting := m.isSelecting;
    var _ := Interactions.SetTextHoverHit(v, pageIndex, overText);
    if !selecting {
      return;
    }
    if nearest.Some? {
      m.UpdateSelection(pageIndex, nearest.value);
    }
  }

  /** `handle_text_mouse_up`: the active tab's drag ends, its selection
      kept. */
  method HandleTextMouseUp(v: PdfViewer)
    requires v.Valid()
    modifies Interactions.ActiveSelectionSet(v)
    ensures v.Valid()
    ensures v.ActiveTab().Some? ==>
      var m := v.ActiveTab().value.selection;
      && !m.isSelecting && m.currentSelection == old(m.currentSelection)
      && m.selectionStart == old(m.selectionStart) && m.caches == old(m.caches)
  {
    var tab := v.ActiveTab();
    if tab.Some? {
      tab.value.selection.EndSelection();
    }
  }
}
