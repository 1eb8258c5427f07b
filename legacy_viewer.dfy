// The older single-document viewer of src/pdf.rs: one document, page
// navigation, zoom, the reset after a file is picked, and on-demand display
// rendering with its request and completion steps. Its page record holds
// what the newer viewer keeps in a page's display slot, so the request
// selector and the completion of module PageRendering serve it through
// `Lift`; where this copy behaves differently (the zoom range, the selected
// page following the visible range, a stale completion still counting down
// the tasks in flight) the difference is modelled here. The file picker,
// Pdfium and the scroll handles are outside the model: what they deliver
// is a parameter.
module LegacyViewer {
  import opened Wrappers
  import opened Types
  import opened Tab
  import PageRendering
  import Paths

  // src/pdf.rs:13-21
  const ZOOM_MIN: real := 0.6
  const ZOOM_MAX: real := 2.5
  const ZOOM_STEP: real := 0.1
  const SIDEBAR_WIDTH: real := 228.0
  const DISPLAY_MIN_WIDTH: real := 220.0
  const DISPLAY_BATCH_SIZE: nat := 1
  const DISPLAY_MAX_PARALLEL_TASKS: nat := 1
  /** `i32::MAX as f32`: 2^31 - 1 rounds to 2^31 in `f32`. */
  const I32_MAX_AS_F32: real := 2147483648.0
  const DEFAULT_ASPECT_RATIO: real := 1.4

  /** A page of the document: its index and size in points, and its
      display render (image, the width it was rendered at, failure). */
  datatype Page = Page(index: nat, widthPt: real, heightPt: real, display: RenderSlot)

  /** The status line, by the message it shows. */
  datatype Status =
    | OpenPrompt
    | Choosing
    | Loaded(pageCount: nat, fileName: string)
    | LoadFailed(fileName: string, error: string)
    | NoFileChosen
    | Cancelled
    | PickerFailed(error: string)

  /** What the file picker delivered: paths, a cancellation, or an error
      of the picker or of its channel. */
  datatype PickResult =
    | PickedPaths(paths: seq<Path>)
    | PickCancelled
    | PickerError(message: string)
    | ChannelError(message: string)

  /** A started display request, as the spawned task captures it. */
  datatype DisplayRequest = DisplayRequest(epoch: nat, path: Path, pending: seq<nat>, targetWidth: nat)

  // ---------------------------------------------------------------------
  // Pages as the newer viewer's pages

  function LiftPage(p: Page): (r: PageSummary)
    ensures r.index == p.index && r.widthPt == p.widthPt && r.heightPt == p.heightPt
    ensures PageRendering.SlotOf(r, PageRendering.Display) == p.display
  {
    PageSummary(p.index, p.widthPt, p.heightPt, EMPTY_SLOT, p.display)
  }

  /** The pages with an unused thumbnail slot, for the shared scheduler. */
  function Lift(pages: seq<Page>): (r: seq<PageSummary>)
    ensures |r| == |pages| && forall i :: 0 <= i < |pages| ==> r[i] == LiftPage(pages[i])
  {
    seq(|pages|, i requires 0 <= i < |pages| => LiftPage(pages[i]))
  }

  /** Lifting forgets nothing: equal lifts come from equal pages. */
  lemma LiftInjective(a: seq<Page>, b: seq<Page>)
    requires Lift(a) == Lift(b)
    ensures a == b
  {
    assert |a| == |b|;
    forall i | 0 <= i < |a|
      ensures a[i] == b[i]
    {
      assert LiftPage(a[i]) == Lift(a)[i] == Lift(b)[i] == LiftPage(b[i]);
    }
  }

  /** Changing one page's display slot is changing the lifted page's
      display slot. */
  lemma LiftUpdate(pages: seq<Page>, ix: nat, slot: RenderSlot)
    requires ix < |pages|
    ensures Lift(pages[ix := pages[ix].(display := slot)]) ==
      Lift(pages)[ix := PageRendering.WithSlot(Lift(pages)[ix], PageRendering.Display, slot)]
  {
    var l := Lift(pages)[ix := PageRendering.WithSlot(Lift(pages)[ix], PageRendering.Display, slot)];
    assert l[ix] == LiftPage(pages[ix].(display := slot));
  }

  /** A candidate the display scheduler may request: a page that needs a
      (wider) render and has not failed. */
  predicate Renderable(pages: seq<Page>, targetWidth: nat, ix: nat)
  {
    ix < |pages| && PageRendering.NeedsRender(pages[ix].display, targetWidth) && !pages[ix].display.failed
  }

  /** The pages `request_display_load_from_candidates` picks. */
  function PendingDisplay(pages: seq<Page>, targetWidth: nat, cands: seq<nat>): seq<nat>
  {
    PageRendering.PendingPages(Lift(pages), PageRendering.Display, targetWidth, DISPLAY_BATCH_SIZE, cands)
  }

  /** The pending pages are distinct renderable candidates in the order of
      their first occurrence, at most one batch; none are picked only when no
      candidate is renderable. */
  lemma PendingDisplaySpec(pages: seq<Page>, targetWidth: nat, cands: seq<nat>)
    ensures var p := PendingDisplay(pages, targetWidth, cands);
      && (forall i :: 0 <= i < |p| ==> p[i] in cands && Renderable(pages, targetWidth, p[i]))
      && (forall i, j :: 0 <= i < j < |p| ==> p[i] != p[j])
      && PageRendering.InFirstOccurrenceOrder(cands, p)
      && |p| <= DISPLAY_BATCH_SIZE
      && (p == [] <==> forall c :: c in cands ==> !Renderable(pages, targetWidth, c))
  {
    var lifted := Lift(pages);
    var p := PendingDisplay(pages, targetWidth, cands);
    PageRendering.PendingPagesSpec(lifted, PageRendering.Display, targetWidth, DISPLAY_BATCH_SIZE, cands);
    forall ix: nat
      ensures PageRendering.Eligible(lifted, PageRendering.Display, targetWidth, ix) <==> Renderable(pages, targetWidth, ix)
    {
      if ix < |pages| {
        assert lifted[ix] == LiftPage(pages[ix]);
      }
    }
    if p != [] {
      assert p[0] in cands && Renderable(pages, targetWidth, p[0]);
    }
  }

  // ---------------------------------------------------------------------
  // Sorting the loaded pages

  predicate IndexAscending(pages: seq<Page>)
  {
    forall i, j :: 0 <= i < j < |pages| ==> pages[i].index <= pages[j].index
  }

  function InsertByIndex(pages: seq<Page>, p: Page): (r: seq<Page>)
    ensures multiset(r) == multiset(pages) + multiset{p}
  {
    if pages == [] || p.index < pages[0].index then [p] + pages
    else
      assert pages == [pages[0]] + pages[1..];
      [pages[0]] + InsertByIndex(pages[1..], p)
  }

  /** Every page of `pages` has an index of at least `k`. */
  predicate IndicesFrom(pages: seq<Page>, k: nat)
  {
    forall i :: 0 <= i < |pages| ==> pages[i].index >= k
  }

  /** Inserting into ascending pages keeps them ascending and keeps a lower
      bound that `p` respects. */
  lemma {:induction false} InsertKeepsOrder(pages: seq<Page>, p: Page, k: nat)
    requires IndexAscending(pages)
    ensures IndexAscending(InsertByIndex(pages, p))
    ensures IndicesFrom(pages, k) && p.index >= k ==> IndicesFrom(InsertByIndex(pages, p), k)
  {
    if pages == [] || p.index < pages[0].index {
    } else {
      var rest := InsertByIndex(pages[1..], p);
      InsertKeepsOrder(pages[1..], p, pages[0].index);
      InsertKeepsOrder(pages[1..], p, k);
      assert InsertByIndex(pages, p) == [pages[0]] + rest;
    }
  }

  /** `sort_by_key(|p| p.index)`: the same pages in ascending index order. */
  function SortByIndex(pages: seq<Page>): (r: seq<Page>)
    ensures IndexAscending(r) && multiset(r) == multiset(pages)
  {
    if pages == [] then []
    else
      var init := pages[..|pages| - 1];
      assert pages == init + [pages[|pages| - 1]];
      var sorted := SortByIndex(init);
      InsertKeepsOrder(sorted, pages[|pages| - 1], 0);
      InsertByIndex(sorted, pages[|pages| - 1])
  }

  /** Sorting keeps the number of pages. */
  lemma SortByIndexLength(pages: seq<Page>)
    ensures |SortByIndex(pages)| == |pages|
  {
    var r := SortByIndex(pages);
    assert |r| == |multiset(r)| == |multiset(pages)| == |pages|;
  }

  // ---------------------------------------------------------------------
  // Geometry

  /** `display_base_width`: the viewport without the sidebar, at least the
      minimum display width. */
  function DisplayBaseWidth(viewportWidth: real): (r: real)
    ensures r >= DISPLAY_MIN_WIDTH
    ensures viewportWidth - SIDEBAR_WIDTH >= DISPLAY_MIN_WIDTH ==> r == viewportWidth - SIDEBAR_WIDTH
  {
    if viewportWidth - SIDEBAR_WIDTH > DISPLAY_MIN_WIDTH then viewportWidth - SIDEBAR_WIDTH else DISPLAY_MIN_WIDTH
  }

  /** The height-to-width ratio of a page; 1.4 for a page at most one point
      wide. */
  function AspectRatio(p: Page): real
  {
    if p.widthPt > 1.0 then p.heightPt / p.widthPt else DEFAULT_ASPECT_RATIO
  }

  /** `display_card_size`: the zoomed width, at least the minimum, and the
      height that keeps the page's aspect ratio. */
  function DisplayCardSize(p: Page, baseWidth: real, zoom: real): (r: (real, real))
    ensures r.0 >= DISPLAY_MIN_WIDTH
    ensures baseWidth * zoom >= DISPLAY_MIN_WIDTH ==> r.0 == baseWidth * zoom
    ensures r.1 == r.0 * AspectRatio(p)
  {
    var width := if baseWidth * zoom > DISPLAY_MIN_WIDTH then baseWidth * zoom else DISPLAY_MIN_WIDTH;
    (width, width * AspectRatio(p))
  }

  /** A card has its page's proportions. */
  lemma CardKeepsProportions(p: Page, baseWidth: real, zoom: real)
    requires p.widthPt > 1.0
    ensures var (w, h) := DisplayCardSize(p, baseWidth, zoom); h * p.widthPt == w * p.heightPt
  {
    var (w, h) := DisplayCardSize(p, baseWidth, zoom);
    assert h == w * (p.heightPt / p.widthPt);
    assert (p.heightPt / p.widthPt) * p.widthPt == p.heightPt;
  }

  /** `display_target_width`: the rendered width in pixels, the zoomed base
      width times the window's scale factor clamped to [1, i32::MAX] and
      rounded. */
  function DisplayTargetWidth(baseWidth: real, zoom: real, scaleFactor: real): (r: nat)
    ensures 1 <= r <= I32_MAX_AS_F32.Floor
    ensures 1.0 <= baseWidth * zoom * scaleFactor <= I32_MAX_AS_F32 ==>
      (r as real) - 0.5 <= baseWidth * zoom * scaleFactor < (r as real) + 0.5
  {
    RoundHalfUp(Clamp(baseWidth * zoom * scaleFactor, 1.0, I32_MAX_AS_F32))
  }

  // ---------------------------------------------------------------------
  // The viewer

  class PdfViewer {
    var path: Option<Path>
    var pages: seq<Page>
    var selectedPage: nat
    var zoom: real
    var status: Status
    /** `display_loading`, `display_inflight_tasks`, `display_epoch` and
        `last_display_visible_range`. */
    var display: RenderLane
    var displayScrollSyncEpoch: nat
    var lastDisplayScrollOffset: Option<(real, real)>

    /** The selected page is a page (or 0 without pages), the zoom is in
        range, no more tasks are counted than allowed, and the epochs are
        `u64` values. */
    ghost predicate Valid()
      reads this
    {
      && (pages == [] ==> selectedPage == 0)
      && (pages != [] ==> selectedPage < |pages|)
      && ZOOM_MIN <= zoom <= ZOOM_MAX
      && display.inflight <= DISPLAY_MAX_PARALLEL_TASKS
      && display.epoch < U64_MODULUS
    }

    /** `PdfViewer::new`. */
    constructor ()
      ensures Valid()
      ensures path == None && pages == [] && selectedPage == 0 && zoom == 1.0 && status == OpenPrompt
      ensures display == INITIAL_LANE && displayScrollSyncEpoch == 0 && lastDisplayScrollOffset == None
    {
      path := None;
      pages := [];
      selectedPage := 0;
      zoom := 1.0;
      status := OpenPrompt;
      display := INITIAL_LANE;
      displayScrollSyncEpoch := 0;
      lastDisplayScrollOffset := None;
    }

    // Opening a file

    /** `open_pdf_dialog` before the picker answers. */
    method BeginOpen()
      modifies this`status
      ensures status == Choosing
    {
      status := Choosing;
    }

    /** The reset every answer of the picker does: no page loading, no task
        counted, a new epoch that makes running tasks stale, no visible
        range. */
    method ResetDisplay()
      requires Valid()
      modifies this`display
      ensures Valid()
      ensures display == ResetLane(old(display))
    {
      display := ResetLane(display);
    }

    /** The update after `load_document_summary` on the picked path:
        success shows the pages sorted by index from the first, at zoom 1;
        failure leaves no pages and keeps the zoom. */
    method ApplyLoadResult(picked: Path, parsed: Result<seq<Page>>)
      requires Valid()
      modifies this`path, this`pages, this`selectedPage, this`zoom, this`status, this`display
      ensures Valid()
      ensures path == Some(picked) && selectedPage == 0 && display == ResetLane(old(display))
      ensures parsed.Ok? ==>
        && pages == SortByIndex(parsed.value) && zoom == 1.0
        && status == Loaded(|parsed.value|, Paths.DisplayFileName(picked))
      ensures parsed.Err? ==>
        && pages == [] && zoom == old(zoom)
        && status == LoadFailed(Paths.DisplayFileName(picked), parsed.message)
    {
      match parsed
      case Ok(loaded) =>
        path := Some(picked);
        pages := SortByIndex(loaded);
        SortByIndexLength(loaded);
        selectedPage := 0;
        zoom := 1.0;
        ResetDisplay();
        status := Loaded(|pages|, Paths.DisplayFileName(picked));
      case Err(message) =>
        path := Some(picked);
        pages := [];
        selectedPage := 0;
        ResetDisplay();
        status := LoadFailed(Paths.DisplayFileName(picked), message);
    }

    /** The picker's answer. The first picked path is loaded, `parsed`
        being what loading it gave; every other answer only resets the
        display requests and reports. */
    method FinishOpen(pick: PickResult, parsed: Result<seq<Page>>)
      requires Valid()
      modifies this`path, this`pages, this`selectedPage, this`zoom, this`status, this`display
      ensures Valid()
      ensures display == ResetLane(old(display))
      ensures pick.PickedPaths? && pick.paths != [] ==> path == Some(pick.paths[0]) && selectedPage == 0
      ensures pick.PickedPaths? && pick.paths != [] && parsed.Ok? ==>
        && pages == SortByIndex(parsed.value) && zoom == 1.0
        && status == Loaded(|parsed.value|, Paths.DisplayFileName(pick.paths[0]))
      ensures pick.PickedPaths? && pick.paths != [] && parsed.Err? ==>
        && pages == [] && zoom == old(zoom)
        && status == LoadFailed(Paths.DisplayFileName(pick.paths[0]), parsed.message)
      ensures !(pick.PickedPaths? && pick.paths != []) ==>
        && path == old(path) && pages == old(pages) && selectedPage == old(selectedPage) && zoom == old(zoom)
        && status == match pick
                     case PickedPaths(_) => NoFileChosen
                     case PickCancelled => Cancelled
                     case PickerError(m) => PickerFailed(m)
                     case ChannelError(m) => PickerFailed(m)
    {
      match pick
      case PickedPaths(paths) =>
        if paths != [] {
          ApplyLoadResult(paths[0], parsed);
        } else {
          status := NoFileChosen;
          ResetDisplay();
        }
      case PickCancelled =>
        status := Cancelled;
        ResetDisplay();
      case PickerError(m) =>
        status := PickerFailed(m);
        ResetDisplay();
      case ChannelError(m) =>
        status := PickerFailed(m);
        ResetDisplay();
    }

    // Navigation and zoom

    /** `select_page`: an index of a page becomes the selected page; any
        other index changes nothing. */
    method SelectPage(index: nat) returns (selected: bool)
      requires Valid()
      modifies this`selectedPage
      ensures Valid()
      ensures selected <==> index < |pages|
      ensures selectedPage == if selected then index else old(selectedPage)
    {
      if index < |pages| {
        selectedPage := index;
        return true;
      }
      return false;
    }

    /** `prev_page`: one page back unless on the first page. */
    method PrevPage()
      requires Valid()
      modifies this`selectedPage
      ensures Valid()
      ensures selectedPage == if old(selectedPage) > 0 then old(selectedPage) - 1 else old(selectedPage)
    {
      if selectedPage > 0 {
        var _ := SelectPage(selectedPage - 1);
      }
    }

    /** `next_page`: one page forward while a next page exists. */
    method NextPage()
      requires Valid()
      modifies this`selectedPage
      ensures Valid()
      ensures selectedPage == if old(selectedPage) + 1 < |pages| then old(selectedPage) + 1 else old(selectedPage)
    {
      if selectedPage + 1 < |pages| {
        var _ := SelectPage(selectedPage + 1);
      }
    }

    /** `zoom_in` (`delta` is `ZOOM_STEP`) and `zoom_out` (its negation):
        the zoom moved by the step and clamped to [0.6, 2.5]. */
    method ZoomBy(delta: real)
      requires Valid()
      modifies this`zoom
      ensures Valid()
      ensures zoom == PageRendering.Zoomed(old(zoom), delta, ZOOM_MIN, ZOOM_MAX)
    {
      zoom := PageRendering.Zoomed(zoom, delta, ZOOM_MIN, ZOOM_MAX);
    }

    /** `zoom_reset`. */
    method ZoomReset()
      requires Valid()
      modifies this`zoom
      ensures Valid()
      ensures zoom == 1.0
    {
      zoom := 1.0;
    }

    // Display requests

    /** `request_display_load_from_candidates`: nothing without candidates,
        pages or a path, with the task limit reached, or when no candidate
        needs rendering; otherwise the pending pages are marked loading, one
        more task is counted, and the request carries the current epoch. */
    method RequestDisplayLoadFromCandidates(cands: seq<nat>, targetWidth: nat) returns (request: Option<DisplayRequest>)
      requires Valid()
      modifies this`display
      ensures Valid()
      ensures var plan := old(PageRendering.PlanRequest(Lift(pages), path, display, PageRendering.Display, cands, targetWidth));
        && (plan.None? ==> request.None? && display == old(display))
        && (plan.Some? ==>
              && plan.value == PendingDisplay(pages, targetWidth, cands)
              && request == Some(DisplayRequest(old(display.epoch), path.value, plan.value, targetWidth))
              && display == PageRendering.StartedLane(old(display), plan.value))
    {
      if cands == [] || pages == [] || path.None? || display.inflight >= DISPLAY_MAX_PARALLEL_TASKS {
        return None;
      }
      var pending := PageRendering.SelectPending(Lift(pages), PageRendering.Display, targetWidth, DISPLAY_BATCH_SIZE, cands);
      if pending == [] {
        return None;
      }
      request := Some(DisplayRequest(display.epoch, path.value, pending, targetWidth));
      display := PageRendering.StartedLane(display, pending);
    }

    /** `request_display_load_for_visible_range`: nothing for an empty range
        or without pages; otherwise loading markers are dropped when no task
        runs, the first visible page (or the last page) becomes the selected
        page, the range is recorded, and its pages are the candidates. */
    method RequestDisplayLoadForVisibleRange(range: Range, targetWidth: nat) returns (request: Option<DisplayRequest>)
      requires Valid()
      modifies this`display, this`selectedPage
      ensures Valid()
      ensures range.start >= range.end || old(pages) == [] ==>
        request.None? && display == old(display) && selectedPage == old(selectedPage)
      ensures range.start < range.end && old(pages) != [] ==>
        var l := old(display);
        var cleared := (if l.inflight == 0 then l.(loading := {}) else l).(visibleRange := Some(range));
        var plan := PageRendering.PlanRequest(Lift(pages), path, cleared, PageRendering.Display,
                                              PageRendering.RangeIndices(range), targetWidth);
        && selectedPage == MinNat(range.start, |pages| - 1)
        && (plan.None? ==> request.None? && display == cleared)
        && (plan.Some? ==>
              && request == Some(DisplayRequest(l.epoch, path.value, plan.value, targetWidth))
              && display == PageRendering.StartedLane(cleared, plan.value))
    {
      if range.start >= range.end || pages == [] {
        return None;
      }
      if display.inflight == 0 && display.loading != {} {
        display := display.(loading := {});
      }
      var nextSelected := MinNat(range.start, LastIndex(|pages|));
      if selectedPage != nextSelected {
        selectedPage := nextSelected;
      }
      display := display.(visibleRange := Some(range));
      request := RequestDisplayLoadFromCandidates(PageRendering.RangeIndices(range), targetWidth);
    }

    /** The first loop of the completion: each returned image that names a
        page is stored with the request's width. */
    method StoreImages(width: nat, returned: seq<(nat, RenderImage)>) returns (loaded: set<nat>)
      modifies this`pages
      ensures Lift(pages) == PageRendering.WithImages(Lift(old(pages)), PageRendering.Display, width, returned)
      ensures loaded == PageRendering.LoadedIndices(|old(pages)|, returned)
    {
      var n := |pages|;
      loaded := {};
      for i := 0 to |returned|
        invariant Lift(pages) == PageRendering.WithImages(Lift(old(pages)), PageRendering.Display, width, returned[..i])
        invariant loaded == PageRendering.LoadedIndices(n, returned[..i])
      {
        assert returned[..i + 1][..i] == returned[..i];
        var (ix, image) := returned[i];
        if ix < |pages| {
          LiftUpdate(pages, ix, RenderSlot(Some(image), width, false));
          pages := pages[ix := pages[ix].(display := RenderSlot(Some(image), width, false))];
          loaded := loaded + {ix};
        }
      }
      assert returned[..|returned|] == returned;
    }

    /** The second loop: every requested page leaves the loading set, and
        those without an image are marked failed. */
    method MarkRequested(loaded: set<nat>, requested: seq<nat>)
      modifies this`pages, this`display
      ensures Lift(pages) == PageRendering.WithFailures(Lift(old(pages)), PageRendering.Display, loaded, requested)
      ensures display == old(display).(loading := old(display).loading - PageRendering.ToSet(requested))
    {
      for j := 0 to |requested|
        invariant Lift(pages) == PageRendering.WithFailures(Lift(old(pages)), PageRendering.Display, loaded, requested[..j])
        invariant display == old(display).(loading := old(display).loading - PageRendering.ToSet(requested[..j]))
      {
        assert requested[..j + 1][..j] == requested[..j];
        var ix := requested[j];
        display := display.(loading := display.loading - {ix});
        if ix !in loaded && ix < |pages| {
          LiftUpdate(pages, ix, pages[ix].display.(failed := true));
          pages := pages[ix := pages[ix].(display := pages[ix].display.(failed := true))];
        }
      }
      assert requested[..|requested|] == requested;
    }

    /** The completion closure: one task fewer is counted in any case
        (`saturating_sub`); a request of an earlier epoch is then dropped.
        Otherwise the pages become `Completed` and the requested pages stop
        loading. `images` is None when rendering failed. */
    method CompleteDisplayLoad(request: DisplayRequest, images: Option<seq<(nat, RenderImage)>>) returns (applied: bool)
      requires Valid()
      modifies this`pages, this`display
      ensures Valid()
      ensures applied <==> old(display.epoch) == request.epoch
      ensures display.inflight == LastIndex(old(display.inflight))
      ensures display.epoch == old(display.epoch) && display.visibleRange == old(display.visibleRange)
      ensures !applied ==> pages == old(pages) && display.loading == old(display.loading)
      ensures applied ==>
        && Lift(pages) == PageRendering.Completed(Lift(old(pages)), PageRendering.Display, request.pending,
                                                  (if images.Some? then images.value else []), request.targetWidth)
        && display.loading == old(display.loading) - PageRendering.ToSet(request.pending)
    {
      display := display.(inflight := LastIndex(display.inflight));
      if display.epoch != request.epoch {
        return false;
      }
      var loaded := StoreImages(request.targetWidth, if images.Some? then images.value else []);
      MarkRequested(loaded, request.pending);
      applied := true;
    }

    // Scroll synchronisation

    /** `on_display_scroll_offset_changed`: records the offset; when it
        differs from a previously recorded one and there are pages, a
        thumbnail sync is scheduled (`schedule_thumbnail_sync_after_display_scroll`),
        whose timer captures the new sync epoch returned here. */
    method OnDisplayScrollOffsetChanged(offset: (real, real)) returns (scheduled: Option<nat>)
      modifies this`lastDisplayScrollOffset, this`displayScrollSyncEpoch
      ensures lastDisplayScrollOffset == Some(offset)
      ensures var changed := old(lastDisplayScrollOffset).Some? && old(lastDisplayScrollOffset).value != offset;
        && (changed && pages != [] ==>
              displayScrollSyncEpoch == WrappingInc(old(displayScrollSyncEpoch)) && scheduled == Some(displayScrollSyncEpoch))
        && (!(changed && pages != []) ==>
              displayScrollSyncEpoch == old(displayScrollSyncEpoch) && scheduled.None?)
    {
      var changed := lastDisplayScrollOffset.Some? && lastDisplayScrollOffset.value != offset;
      lastDisplayScrollOffset := Some(offset);
      scheduled := None;
      if changed && pages != [] {
        displayScrollSyncEpoch := WrappingInc(displayScrollSyncEpoch);
        scheduled := Some(displayScrollSyncEpoch);
      }
    }

    /** The sync timer firing: only the timer of the latest sync epoch acts,
        and only with pages; it scrolls the thumbnails to the selected page
        clamped to the last page, returned here. */
    method ThumbnailSyncTarget(syncEpoch: nat) returns (target: Option<nat>)
      ensures target.Some? <==> syncEpoch == displayScrollSyncEpoch && pages != []
      ensures target.Some? ==> target.value < |pages| && target.value == MinNat(selectedPage, |pages| - 1)
    {
      if displayScrollSyncEpoch != syncEpoch || pages == [] {
        return None;
      }
      target := Some(MinNat(selectedPage, LastIndex(|pages|)));
    }
  }

  // ---------------------------------------------------------------------
  // Properties

  /** After a completion, a returned image is stored on its page with the
      request's width and no failure; a requested page without one keeps its
      image and is marked failed; every other page is as it was. */
  lemma CompletedPages(before: seq<Page>, after: seq<Page>, requested: seq<nat>, images: seq<(nat, RenderImage)>, width: nat, ix: nat)
    requires Lift(after) == PageRendering.Completed(Lift(before), PageRendering.Display, requested, images, width)
    requires ix < |before|
    ensures |after| == |before|
    ensures after[ix].index == before[ix].index && after[ix].widthPt == before[ix].widthPt && after[ix].heightPt == before[ix].heightPt
    ensures ix in PageRendering.LoadedIndices(|before|, images) ==>
      after[ix].display.image.Some? && after[ix].display.renderWidth == width && !after[ix].display.failed
    ensures ix !in PageRendering.LoadedIndices(|before|, images) && ix in requested ==>
      after[ix].display == before[ix].display.(failed := true)
    ensures ix !in PageRendering.LoadedIndices(|before|, images) && ix !in requested ==> after[ix] == before[ix]
  {
    PageRendering.CompletedSpec(Lift(before), PageRendering.Display, requested, images, width, ix);
    assert Lift(after)[ix] == LiftPage(after[ix]);
    assert Lift(before)[ix] == LiftPage(before[ix]);
  }
}
