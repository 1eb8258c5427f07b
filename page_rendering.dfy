// Page navigation, zoom and the render-request scheduler of the active tab
// (src/pdf_viewer/page_rendering.rs), with the layout-change handling of
// `PdfViewer::render` (src/pdf_viewer/mod.rs). The thumbnail and display
// lanes run the same code on different fields, so one model with a `Lane`
// selector serves both. Timer and task completions are explicit methods
// that receive the tab id and epoch the spawned closure captured.
module PageRendering {
  import opened Wrappers
  import opened Types
  import opened Tab
  import opened Viewer
  import Persistence
  import Bytes

  datatype Lane = Thumbnails | Display

  // The values of src/pdf_viewer.rs:82-93; src/pdf_viewer/constants.rs is
  // not part of this model.
  const ZOOM_MIN: real := 0.6
  const ZOOM_MAX: real := 1.0
  const ZOOM_STEP: real := 0.1
  const THUMB_BATCH_SIZE: nat := 1
  const THUMB_MAX_PARALLEL_TASKS: nat := 1
  const DISPLAY_BATCH_SIZE: nat := 1
  const DISPLAY_MAX_PARALLEL_TASKS: nat := 1

  function BatchSize(lane: Lane): nat
  {
    if lane == Thumbnails then THUMB_BATCH_SIZE else DISPLAY_BATCH_SIZE
  }

  function MaxParallel(lane: Lane): nat
  {
    if lane == Thumbnails then THUMB_MAX_PARALLEL_TASKS else DISPLAY_MAX_PARALLEL_TASKS
  }

  function SlotOf(p: PageSummary, lane: Lane): RenderSlot
  {
    if lane == Thumbnails then p.thumbnail else p.display
  }

  /** The page with one lane's slot replaced; the other lane, the index and
      the size are kept. */
  function WithSlot(p: PageSummary, lane: Lane, s: RenderSlot): (r: PageSummary)
    ensures SlotOf(r, lane) == s
    ensures forall l :: l != lane ==> SlotOf(r, l) == SlotOf(p, l)
    ensures r.index == p.index && r.widthPt == p.widthPt && r.heightPt == p.heightPt
  {
    if lane == Thumbnails then p.(thumbnail := s) else p.(display := s)
  }

  function LaneOf(t: PdfTab, lane: Lane): RenderLane
    reads t
  {
    if lane == Thumbnails then t.thumbnailLane else t.displayLane
  }

  // Choosing the pages to request

  /** A page needs rendering when it has no image or one narrower than the
      target width. */
  predicate NeedsRender(s: RenderSlot, targetWidth: nat)
  {
    s.image.None? || s.renderWidth < targetWidth
  }

  /** A candidate that is a page, needs rendering and has not failed. */
  predicate Eligible(pages: seq<PageSummary>, lane: Lane, targetWidth: nat, ix: nat)
  {
    ix < |pages| && NeedsRender(SlotOf(pages[ix], lane), targetWidth) && !SlotOf(pages[ix], lane).failed
  }

  /** The state of the candidate loop: the indices seen, the pages chosen,
      and whether the batch is full (the loop's `break`). */
  datatype Scan = Scan(seen: set<nat>, pending: seq<nat>, full: bool)

  function ScanStep(pages: seq<PageSummary>, lane: Lane, targetWidth: nat, batch: nat, st: Scan, ix: nat): Scan
  {
    if st.full || ix in st.seen then st
    else if Eligible(pages, lane, targetWidth, ix) then
      Scan(st.seen + {ix}, st.pending + [ix], |st.pending| + 1 >= batch)
    else Scan(st.seen + {ix}, st.pending, false)
  }

  /** The loop of `request_*_load_from_candidates` over a candidate prefix. */
  function ScanOf(pages: seq<PageSummary>, lane: Lane, targetWidth: nat, batch: nat, cands: seq<nat>): Scan
    decreases |cands|
  {
    if cands == [] then Scan({}, [], false)
    else ScanStep(pages, lane, targetWidth, batch, ScanOf(pages, lane, targetWidth, batch, cands[..|cands| - 1]), cands[|cands| - 1])
  }

  function PendingPages(pages: seq<PageSummary>, lane: Lane, targetWidth: nat, batch: nat, cands: seq<nat>): seq<nat>
  {
    ScanOf(pages, lane, targetWidth, batch, cands).pending
  }

  /** Position of the first occurrence of `x` in `s`. */
  function FirstIndex(s: seq<nat>, x: nat): (r: nat)
    requires x in s
    ensures r < |s| && s[r] == x && x !in s[..r]
  {
    if s[0] == x then 0
    else
      var r := FirstIndex(s[1..], x) + 1;
      assert s[..r] == [s[0]] + s[1..][..r - 1];
      r
  }

  lemma FirstIndexPrefix(s: seq<nat>, d: seq<nat>, x: nat)
    requires x in s
    ensures x in s + d && FirstIndex(s + d, x) == FirstIndex(s, x)
  {
    var i := FirstIndex(s, x);
    assert (s + d)[i] == x;
    assert (s + d)[..i] == s[..i];
  }

  function MaxNat(a: nat, b: nat): nat { if a >= b then a else b }

  /** The seen set is the scanned candidates (all of them until the batch
      fills), and the chosen pages are among them. */
  ghost predicate ScanSeen(cands: seq<nat>, st: Scan)
  {
    && (forall x :: x in st.seen ==> x in cands)
    && (!st.full ==> forall c :: c in cands ==> c in st.seen)
    && (forall i :: 0 <= i < |st.pending| ==> st.pending[i] in st.seen)
  }

  lemma {:induction false} ScanKeepsSeen(pages: seq<PageSummary>, lane: Lane, targetWidth: nat, batch: nat, cands: seq<nat>)
    ensures ScanSeen(cands, ScanOf(pages, lane, targetWidth, batch, cands))
    decreases |cands|
  {
    if cands != [] {
      var init := cands[..|cands| - 1];
      ScanKeepsSeen(pages, lane, targetWidth, batch, init);
      assert cands == init + [cands[|cands| - 1]];
    }
  }

  /** Every chosen page is an eligible candidate, chosen once. */
  ghost predicate ScanChosen(pages: seq<PageSummary>, lane: Lane, targetWidth: nat, cands: seq<nat>, p: seq<nat>)
  {
    && (forall i :: 0 <= i < |p| ==> p[i] in cands && Eligible(pages, lane, targetWidth, p[i]))
    && (forall i, j :: 0 <= i < j < |p| ==> p[i] != p[j])
  }

  lemma {:induction false} ScanKeepsChosen(pages: seq<PageSummary>, lane: Lane, targetWidth: nat, batch: nat, cands: seq<nat>)
    ensures ScanChosen(pages, lane, targetWidth, cands, ScanOf(pages, lane, targetWidth, batch, cands).pending)
    decreases |cands|
  {
    if cands != [] {
      var init, ix := cands[..|cands| - 1], cands[|cands| - 1];
      ScanKeepsChosen(pages, lane, targetWidth, batch, init);
      ScanKeepsSeen(pages, lane, targetWidth, batch, init);
      assert cands == init + [ix];
    }
  }

  /** The chosen pages keep the order of their first occurrence among the
      candidates. */
  ghost predicate InFirstOccurrenceOrder(cands: seq<nat>, p: seq<nat>)
    requires forall i :: 0 <= i < |p| ==> p[i] in cands
  {
    forall i, j :: 0 <= i < j < |p| ==> FirstIndex(cands, p[i]) < FirstIndex(cands, p[j])
  }

  lemma {:induction false} ScanKeepsOrder(pages: seq<PageSummary>, lane: Lane, targetWidth: nat, batch: nat, cands: seq<nat>)
    ensures ScanChosen(pages, lane, targetWidth, cands, ScanOf(pages, lane, targetWidth, batch, cands).pending)
    ensures InFirstOccurrenceOrder(cands, ScanOf(pages, lane, targetWidth, batch, cands).pending)
    decreases |cands|
  {
    ScanKeepsChosen(pages, lane, targetWidth, batch, cands);
    if cands != [] {
      var init, ix := cands[..|cands| - 1], cands[|cands| - 1];
      var st := ScanOf(pages, lane, targetWidth, batch, init);
      ScanKeepsOrder(pages, lane, targetWidth, batch, init);
      ScanKeepsSeen(pages, lane, targetWidth, batch, init);
      assert cands == init + [ix];
      var p := ScanOf(pages, lane, targetWidth, batch, cands).pending;
      forall i | 0 <= i < |st.pending| ensures FirstIndex(cands, st.pending[i]) == FirstIndex(init, st.pending[i]) {
        FirstIndexPrefix(init, [ix], st.pending[i]);
      }
      if p != st.pending {
        assert ix !in init;
        assert FirstIndex(cands, ix) == |init|;
        assert p == st.pending + [ix];
      }
    }
  }

  /** Until the batch fills, every eligible candidate is chosen; the batch
      fills at `batch` pages and never holds more than one batch. */
  ghost predicate ScanCounted(pages: seq<PageSummary>, lane: Lane, targetWidth: nat, batch: nat, cands: seq<nat>, st: Scan)
  {
    && (!st.full ==> forall c :: c in cands && Eligible(pages, lane, targetWidth, c) ==> c in st.pending)
    && (st.full ==> |st.pending| >= batch)
    && |st.pending| <= MaxNat(batch, 1)
    && (!st.full ==> |st.pending| < batch || st.pending == [])
  }

  lemma {:induction false} ScanKeepsCounted(pages: seq<PageSummary>, lane: Lane, targetWidth: nat, batch: nat, cands: seq<nat>)
    ensures ScanCounted(pages, lane, targetWidth, batch, cands, ScanOf(pages, lane, targetWidth, batch, cands))
    decreases |cands|
  {
    if cands != [] {
      var init := cands[..|cands| - 1];
      ScanKeepsCounted(pages, lane, targetWidth, batch, init);
      ScanKeepsSeen(pages, lane, targetWidth, batch, init);
      assert cands == init + [cands[|cands| - 1]];
    }
  }

  /** Once the batch is full, later candidates change nothing. */
  lemma {:induction false} ScanFullStays(pages: seq<PageSummary>, lane: Lane, targetWidth: nat, batch: nat, c: seq<nat>, d: seq<nat>)
    requires ScanOf(pages, lane, targetWidth, batch, c).full
    ensures ScanOf(pages, lane, targetWidth, batch, c + d) == ScanOf(pages, lane, targetWidth, batch, c)
    decreases |d|
  {
    if d != [] {
      var init := d[..|d| - 1];
      assert (c + d)[..|c + d| - 1] == c + init;
      ScanFullStays(pages, lane, targetWidth, batch, c, init);
    } else {
      assert c + d == c;
    }
  }

  /** The pages a request asks for: distinct pages that need rendering and
      have not failed, drawn from the candidates in the order of their first
      occurrence, at most a batch of them, and, when fewer than a batch,
      every such candidate. */
  lemma PendingPagesSpec(pages: seq<PageSummary>, lane: Lane, targetWidth: nat, batch: nat, cands: seq<nat>)
    ensures var p := PendingPages(pages, lane, targetWidth, batch, cands);
      && (forall i :: 0 <= i < |p| ==> p[i] in cands && Eligible(pages, lane, targetWidth, p[i]))
      && (forall i, j :: 0 <= i < j < |p| ==> p[i] != p[j])
      && InFirstOccurrenceOrder(cands, p)
      && |p| <= MaxNat(batch, 1)
      && (|p| < batch ==> forall c :: c in cands && Eligible(pages, lane, targetWidth, c) ==> c in p)
  {
    ScanKeepsOrder(pages, lane, targetWidth, batch, cands);
    ScanKeepsCounted(pages, lane, targetWidth, batch, cands);
  }

  /** The candidate loop with its `seen` set and its early `break`. */
  method SelectPending(pages: seq<PageSummary>, lane: Lane, targetWidth: nat, batch: nat, cands: seq<nat>)
    returns (pending: seq<nat>)
    ensures pending == PendingPages(pages, lane, targetWidth, batch, cands)
  {
    pending := [];
    var seen: set<nat> := {};
    var i := 0;
    while i < |cands|
      invariant 0 <= i <= |cands|
      invariant ScanOf(pages, lane, targetWidth, batch, cands[..i]) == Scan(seen, pending, false)
    {
      var ix := cands[i];
      assert cands[..i + 1][..i] == cands[..i];
      if ix in seen {
        i := i + 1;
        continue;
      }
      seen := seen + {ix};
      if ix < |pages| {
        var slot := SlotOf(pages[ix], lane);
        if NeedsRender(slot, targetWidth) && !slot.failed {
          pending := pending + [ix];
          if |pending| >= batch {
            ScanFullStays(pages, lane, targetWidth, batch, cands[..i + 1], cands[i + 1..]);
            assert cands[..i + 1] + cands[i + 1..] == cands;
            return;
          }
        }
      }
      i := i + 1;
    }
    assert cands[..i] == cands;
  }

  /** What `request_*_load_from_candidates` asks the renderer for, if
      anything: nothing without candidates, pages or a path, with the lane's
      tasks at their limit, or when no candidate needs rendering. */
  function PlanRequest(pages: seq<PageSummary>, path: Option<Path>, l: RenderLane, lane: Lane,
                       cands: seq<nat>, targetWidth: nat): (r: Option<seq<nat>>)
    ensures r.Some? ==> && cands != [] && pages != [] && path.Some? && l.inflight < MaxParallel(lane)
                        && r.value == PendingPages(pages, lane, targetWidth, BatchSize(lane), cands) && r.value != []
    ensures r.None? ==> || cands == [] || pages == [] || path.None? || l.inflight >= MaxParallel(lane)
                        || PendingPages(pages, lane, targetWidth, BatchSize(lane), cands) == []
  {
    if cands == [] || pages == [] || path.None? || l.inflight >= MaxParallel(lane) then None
    else
      var p := PendingPages(pages, lane, targetWidth, BatchSize(lane), cands);
      if p == [] then None else Some(p)
  }

  /** A started request, as the spawned task captures it. */
  datatype LoadRequest = LoadRequest(tabId: nat, epoch: nat, path: Path, pending: seq<nat>, targetWidth: nat)

  function ToSet(s: seq<nat>): (r: set<nat>)
    ensures forall x :: x in r <==> x in s
  {
    set x | x in s
  }

  /** The lane while a request is in flight: its pages are loading and one
      more task runs. */
  function StartedLane(l: RenderLane, pending: seq<nat>): (r: RenderLane)
    ensures r.loading == l.loading + ToSet(pending) && r.inflight == l.inflight + 1
    ensures r.epoch == l.epoch && r.visibleRange == l.visibleRange
  {
    l.(loading := l.loading + ToSet(pending), inflight := l.inflight + 1)
  }

  method SetLane(t: PdfTab, lane: Lane, l: RenderLane)
    modifies t`thumbnailLane, t`displayLane
    ensures LaneOf(t, lane) == l
    ensures forall other :: other != lane ==> LaneOf(t, other) == old(LaneOf(t, other))
  {
    if lane == Thumbnails {
      t.thumbnailLane := l;
    } else {
      t.displayLane := l;
    }
  }

  /** `request_thumbnail_load_from_candidates` /
      `request_display_load_from_candidates`: the active tab's lane records
      the request as `PlanRequest` decides it. */
  method RequestLoadFromCandidates(v: PdfViewer, lane: Lane, cands: seq<nat>, targetWidth: nat)
    returns (request: Option<LoadRequest>)
    requires v.Valid()
    modifies v.ActiveTabSet()
    ensures v.ActiveTab().None? ==> request.None?
    ensures v.ActiveTab().Some? ==>
      var t := v.ActiveTab().value;
      var plan := old(PlanRequest(t.pages, t.path, LaneOf(t, lane), lane, cands, targetWidth));
      && (plan.None? ==> request.None? && unchanged(t))
      && (plan.Some? ==>
            && request == Some(LoadRequest(t.id, old(LaneOf(t, lane).epoch), old(t.path).value, plan.value, targetWidth))
            && LaneOf(t, lane) == StartedLane(old(LaneOf(t, lane)), plan.value)
            && (forall other :: other != lane ==> LaneOf(t, other) == old(LaneOf(t, other)))
            && unchanged(t`pages, t`path, t`activePage, t`selectedPage, t`zoom))
  {
    var tab := v.ActiveTab();
    if tab.None? {
      return None;
    }
    var t := tab.value;
    if cands == [] || t.pages == [] || t.path.None? || LaneOf(t, lane).inflight >= MaxParallel(lane) {
      return None;
    }
    var pending := SelectPending(t.pages, lane, targetWidth, BatchSize(lane), cands);
    if pending == [] {
      return None;
    }
    var l := LaneOf(t, lane);
    SetLane(t, lane, StartedLane(l, pending));
    request := Some(LoadRequest(t.id, l.epoch, t.path.value, pending, targetWidth));
  }

  // Applying a finished request

  /** One returned image: stored with the request's width, failure cleared;
      an index past the pages is ignored. */
  function SetImage(pages: seq<PageSummary>, lane: Lane, width: nat, item: (nat, RenderImage)): (r: seq<PageSummary>)
    ensures |r| == |pages|
  {
    if item.0 < |pages| then pages[item.0 := WithSlot(pages[item.0], lane, RenderSlot(Some(item.1), width, false))]
    else pages
  }

  function WithImages(pages: seq<PageSummary>, lane: Lane, width: nat, images: seq<(nat, RenderImage)>): (r: seq<PageSummary>)
    ensures |r| == |pages|
    decreases |images|
  {
    if images == [] then pages
    else SetImage(WithImages(pages, lane, width, images[..|images| - 1]), lane, width, images[|images| - 1])
  }

  /** The indices of the returned images that name a page (`loaded_indices`). */
  function LoadedIndices(n: nat, images: seq<(nat, RenderImage)>): (r: set<nat>)
    ensures forall ix :: ix in r <==> ix < n && exists i :: 0 <= i < |images| && images[i].0 == ix
  {
    set i | 0 <= i < |images| && images[i].0 < n :: images[i].0
  }

  /** A requested page that came back without an image is marked failed. */
  function MarkFailed(pages: seq<PageSummary>, lane: Lane, loaded: set<nat>, ix: nat): (r: seq<PageSummary>)
    ensures |r| == |pages|
  {
    if ix !in loaded && ix < |pages| then
      var slot := SlotOf(pages[ix], lane);
      pages[ix := WithSlot(pages[ix], lane, slot.(failed := true))]
    else pages
  }

  function WithFailures(pages: seq<PageSummary>, lane: Lane, loaded: set<nat>, requested: seq<nat>): (r: seq<PageSummary>)
    ensures |r| == |pages|
    decreases |requested|
  {
    if requested == [] then pages
    else MarkFailed(WithFailures(pages, lane, loaded, requested[..|requested| - 1]), lane, loaded, requested[|requested| - 1])
  }

  /** The pages after a completion is applied. */
  function Completed(pages: seq<PageSummary>, lane: Lane, requested: seq<nat>, images: seq<(nat, RenderImage)>, width: nat): (r: seq<PageSummary>)
    ensures |r| == |pages|
  {
    WithFailures(WithImages(pages, lane, width, images), lane, LoadedIndices(|pages|, images), requested)
  }

  lemma {:induction false} WithImagesSlots(pages: seq<PageSummary>, lane: Lane, width: nat, images: seq<(nat, RenderImage)>, ix: nat)
    requires ix < |pages|
    ensures var r := WithImages(pages, lane, width, images);
      && r[ix].index == pages[ix].index && r[ix].widthPt == pages[ix].widthPt && r[ix].heightPt == pages[ix].heightPt
      && (forall l :: l != lane ==> SlotOf(r[ix], l) == SlotOf(pages[ix], l))
      && (ix in LoadedIndices(|pages|, images) ==>
            SlotOf(r[ix], lane).image.Some? && SlotOf(r[ix], lane).renderWidth == width && !SlotOf(r[ix], lane).failed)
      && (ix !in LoadedIndices(|pages|, images) ==> r[ix] == pages[ix])
    decreases |images|
  {
    if images != [] {
      var init := images[..|images| - 1];
      WithImagesSlots(pages, lane, width, init, ix);
      assert forall i :: 0 <= i < |init| ==> init[i] == images[i];
      if ix in LoadedIndices(|pages|, images) && ix !in LoadedIndices(|pages|, init) {
        var i :| 0 <= i < |images| && images[i].0 == ix;
      }
    }
  }

  lemma {:induction false} WithFailuresSlots(pages: seq<PageSummary>, lane: Lane, loaded: set<nat>, requested: seq<nat>, ix: nat)
    requires ix < |pages|
    ensures var r := WithFailures(pages, lane, loaded, requested);
      && r[ix].index == pages[ix].index && r[ix].widthPt == pages[ix].widthPt && r[ix].heightPt == pages[ix].heightPt
      && (forall l :: l != lane ==> SlotOf(r[ix], l) == SlotOf(pages[ix], l))
      && SlotOf(r[ix], lane).image == SlotOf(pages[ix], lane).image
      && SlotOf(r[ix], lane).renderWidth == SlotOf(pages[ix], lane).renderWidth
      && (ix !in loaded && ix in requested ==> SlotOf(r[ix], lane).failed)
      && (ix in loaded || ix !in requested ==> r[ix] == pages[ix])
    decreases |requested|
  {
    if requested != [] {
      var init := requested[..|requested| - 1];
      WithFailuresSlots(pages, lane, loaded, init, ix);
      assert requested == init + [requested[|requested| - 1]];
    }
  }

  /** What a completion does to each page: a returned image is stored with
      the request's width and clears the failure; a requested page without
      one is marked failed and keeps its image; every other page, and the
      other lane, stay as they were. */
  lemma CompletedSpec(pages: seq<PageSummary>, lane: Lane, requested: seq<nat>, images: seq<(nat, RenderImage)>, width: nat, ix: nat)
    requires ix < |pages|
    ensures var r := Completed(pages, lane, requested, images, width);
      var loaded := LoadedIndices(|pages|, images);
      && r[ix].index == pages[ix].index && r[ix].widthPt == pages[ix].widthPt && r[ix].heightPt == pages[ix].heightPt
      && (forall l :: l != lane ==> SlotOf(r[ix], l) == SlotOf(pages[ix], l))
      && (ix in loaded ==> SlotOf(r[ix], lane).image.Some? && SlotOf(r[ix], lane).renderWidth == width && !SlotOf(r[ix], lane).failed)
      && (ix !in loaded && ix in requested ==> SlotOf(r[ix], lane) == SlotOf(pages[ix], lane).(failed := true))
      && (ix !in loaded && ix !in requested ==> r[ix] == pages[ix])
  {
    var mid := WithImages(pages, lane, width, images);
    WithImagesSlots(pages, lane, width, images, ix);
    WithFailuresSlots(mid, lane, LoadedIndices(|pages|, images), requested, ix);
  }

  /** The lane once the request is back: its pages leave the loading set
      and one task fewer runs (`saturating_sub`). */
  function FinishedLane(l: RenderLane, requested: seq<nat>): (r: RenderLane)
    ensures r.loading == l.loading - ToSet(requested)
    ensures r.inflight == LastIndex(l.inflight)
    ensures r.epoch == l.epoch && r.visibleRange == l.visibleRange
  {
    l.(loading := l.loading - ToSet(requested), inflight := LastIndex(l.inflight))
  }

  /** Whether a completion still applies: the same tab is active and its
      lane has not been reset since the request started. */
  predicate Current(t: Option<(nat, nat)>, request: LoadRequest)
  {
    t.Some? && t.value.0 == request.tabId && t.value.1 == request.epoch
  }

  function ActiveTicket(v: PdfViewer, lane: Lane): Option<(nat, nat)>
    reads v.tabBar, v.tabBar.tabs
    requires v.tabBar.Valid()
  {
    match v.ActiveTab()
    case Some(t) => Some((t.id, LaneOf(t, lane).epoch))
    case None => None
  }

  /** The completion closure of `request_*_load_from_candidates`: discarded
      for another tab or epoch; otherwise the pages become `Completed` and
      the lane `FinishedLane`. `images` is None when rendering failed. */
  method CompleteLoad(v: PdfViewer, lane: Lane, request: LoadRequest, images: Option<seq<(nat, RenderImage)>>)
    returns (applied: bool)
    requires v.Valid()
    modifies v.ActiveTabSet()
    ensures applied <==> old(Current(ActiveTicket(v, lane), request))
    ensures !applied ==> unchanged(v.ActiveTabSet())
    ensures applied ==>
      var t := v.ActiveTab().value;
      && t.pages == Completed(old(t.pages), lane, request.pending, (if images.Some? then images.value else []), request.targetWidth)
      && LaneOf(t, lane) == FinishedLane(old(LaneOf(t, lane)), request.pending)
      && (forall other :: other != lane ==> LaneOf(t, other) == old(LaneOf(t, other)))
      && unchanged(t`path, t`activePage, t`selectedPage, t`zoom)
  {
    if !Current(ActiveTicket(v, lane), request) {
      return false;
    }
    var t := v.ActiveTab().value;
    var l := LaneOf(t, lane);
    SetLane(t, lane, l.(inflight := LastIndex(l.inflight)));
    var loaded := StoreImages(t, lane, request.targetWidth, if images.Some? then images.value else []);
    MarkRequested(t, lane, loaded, request.pending);
    applied := true;
  }

  /** The first loop of the completion: each returned image is stored. */
  method StoreImages(t: PdfTab, lane: Lane, width: nat, returned: seq<(nat, RenderImage)>) returns (loaded: set<nat>)
    modifies t`pages
    ensures t.pages == WithImages(old(t.pages), lane, width, returned)
    ensures loaded == LoadedIndices(|old(t.pages)|, returned)
  {
    var n := |t.pages|;
    loaded := {};
    for i := 0 to |returned|
      invariant t.pages == WithImages(old(t.pages), lane, width, returned[..i])
      invariant loaded == LoadedIndices(n, returned[..i])
    {
      assert returned[..i + 1][..i] == returned[..i];
      var (ix, image) := returned[i];
      if ix < |t.pages| {
        t.pages := t.pages[ix := WithSlot(t.pages[ix], lane, RenderSlot(Some(image), width, false))];
        loaded := loaded + {ix};
      }
    }
    assert returned[..|returned|] == returned;
  }

  /** The second loop: every requested page leaves the loading set, and
      those without an image are marked failed. */
  method MarkRequested(t: PdfTab, lane: Lane, loaded: set<nat>, requested: seq<nat>)
    modifies t`pages, t`thumbnailLane, t`displayLane
    ensures t.pages == WithFailures(old(t.pages), lane, loaded, requested)
    ensures LaneOf(t, lane) == old(LaneOf(t, lane)).(loading := old(LaneOf(t, lane)).loading - ToSet(requested))
    ensures forall other :: other != lane ==> LaneOf(t, other) == old(LaneOf(t, other))
  {
    var l := LaneOf(t, lane);
    for j := 0 to |requested|
      invariant t.pages == WithFailures(old(t.pages), lane, loaded, requested[..j])
      invariant LaneOf(t, lane) == l.(loading := l.loading - ToSet(requested[..j]))
      invariant forall other :: other != lane ==> LaneOf(t, other) == old(LaneOf(t, other))
    {
      assert requested[..j + 1][..j] == requested[..j];
      var ix := requested[j];
      var cur := LaneOf(t, lane);
      SetLane(t, lane, cur.(loading := cur.loading - {ix}));
      if ix !in loaded && ix < |t.pages| {
        var slot := SlotOf(t.pages[ix], lane);
        t.pages := t.pages[ix := WithSlot(t.pages[ix], lane, slot.(failed := true))];
      }
    }
    assert requested[..|requested|] == requested;
  }

  /** `request_*_load_for_visible_range`: ignored without an active tab,
      for an empty range or without pages; otherwise stale loading markers
      are dropped when nothing is in flight, the range is recorded, and the
      range's pages are the candidates. */
  method RequestLoadForVisibleRange(v: PdfViewer, lane: Lane, range: Range, targetWidth: nat)
    returns (request: Option<LoadRequest>)
    requires v.Valid()
    modifies v.ActiveTabSet()
    ensures v.ActiveTab().None? || range.start >= range.end || old(v.ActiveTab().value.pages) == [] ==>
      request.None? && unchanged(v.ActiveTabSet())
    ensures v.ActiveTab().Some? && range.start < range.end && old(v.ActiveTab().value.pages) != [] ==>
      var t := v.ActiveTab().value;
      var l := old(LaneOf(t, lane));
      var cleared := if l.inflight == 0 then l.(loading := {}) else l;
      var plan := PlanRequest(t.pages, t.path, cleared, lane, RangeIndices(range), targetWidth);
      && LaneOf(t, lane).visibleRange == Some(range)
      && (plan.None? ==> LaneOf(t, lane) == cleared.(visibleRange := Some(range)) && request.None?)
      && (plan.Some? ==>
            && LaneOf(t, lane) == StartedLane(cleared.(visibleRange := Some(range)), plan.value)
            && request == Some(LoadRequest(t.id, l.epoch, t.path.value, plan.value, targetWidth)))
      && (forall other :: other != lane ==> LaneOf(t, other) == old(LaneOf(t, other)))
      && unchanged(t`pages, t`path, t`activePage, t`selectedPage, t`zoom)
  {
    var tab := v.ActiveTab();
    if tab.None? || range.start >= range.end || tab.value.pages == [] {
      return None;
    }
    var t := tab.value;
    var l := LaneOf(t, lane);
    if l.inflight == 0 && l.loading != {} {
      l := l.(loading := {});
    }
    SetLane(t, lane, l.(visibleRange := Some(range)));
    request := RequestLoadFromCandidates(v, lane, RangeIndices(range), targetWidth);
  }

  /** `start..end` as a candidate list. */
  function RangeIndices(range: Range): (r: seq<nat>)
    ensures |r| == if range.start < range.end then range.end - range.start else 0
    ensures forall i :: 0 <= i < |r| ==> r[i] == range.start + i
  {
    if range.start < range.end then seq(range.end - range.start, i requires 0 <= i => range.start + i) else []
  }

  // Navigation and zoom

  /** `select_page`: an index inside the document becomes the selected and
      active page, the display scroll skips its next sync, and the position
      is saved; any other index, or no active tab, changes nothing. */
  method SelectPage(v: PdfViewer, index: nat) returns (selected: bool)
    requires v.Valid()
    modifies v.ActiveTabSet(), v.positionStore
    ensures v.Valid()
    ensures selected <==> v.ActiveTab().Some? && index < |v.ActiveTab().value.pages|
    ensures !selected ==> unchanged(v.ActiveTabSet()) && unchanged(v.positionStore)
    ensures selected ==>
      var t := v.ActiveTab().value;
      && t.selectedPage == index && t.activePage == index && t.suppressDisplayScrollSyncOnce
      && unchanged(t`pages, t`path, t`zoom, t`lastSavedPosition, t`thumbnailLane, t`displayLane)
      && (t.path.Some? && t.lastSavedPosition != Some((t.path.value, index)) ==>
            Persistence.LoadSavedFilePosition(v, t.path.value) == Some(index % Bytes.U64_LIMIT))
      && (t.path.None? || t.lastSavedPosition == Some((t.path.value, index)) ==>
            v.positionStore.entries == old(v.positionStore.entries))
  {
    var tab := v.ActiveTab();
    if tab.None? || index >= |tab.value.pages| {
      return false;
    }
    var t := tab.value;
    Focus(t, index);
    assert v.ActiveTab() == Some(t);
    Persistence.PersistCurrentFilePosition(v);
    selected := true;
  }

  /** The tab-side part of `select_page`. */
  method Focus(t: PdfTab, index: nat)
    requires index < |t.pages|
    modifies t`selectedPage, t`activePage, t`suppressDisplayScrollSyncOnce
    ensures t.selectedPage == index && t.activePage == index && t.suppressDisplayScrollSyncOnce
    ensures Persistence.PositionToSave(t) ==
      if t.path.Some? && t.lastSavedPosition != Some((t.path.value, index)) then Some((t.path.value, index)) else None
  {
    t.selectedPage := index;
    t.activePage := index;
    t.suppressDisplayScrollSyncOnce := true;
  }

  /** `prev_page`: one page back while not on the first page. */
  method PrevPage(v: PdfViewer) returns (moved: bool)
    requires v.Valid()
    modifies v.ActiveTabSet(), v.positionStore
    ensures v.Valid()
    ensures moved <==> v.ActiveTab().Some? && 0 < old(v.ActiveTab().value.activePage) <= |v.ActiveTab().value.pages|
    ensures moved ==> v.ActiveTab().value.activePage == old(v.ActiveTab().value.activePage) - 1
    ensures !moved ==> unchanged(v.ActiveTabSet()) && unchanged(v.positionStore)
  {
    var tab := v.ActiveTab();
    if tab.None? || tab.value.activePage == 0 {
      return false;
    }
    moved := SelectPage(v, tab.value.activePage - 1);
  }

  /** `next_page`: one page forward while a next page exists. */
  method NextPage(v: PdfViewer) returns (moved: bool)
    requires v.Valid()
    modifies v.ActiveTabSet(), v.positionStore
    ensures v.Valid()
    ensures moved <==> v.ActiveTab().Some? && old(v.ActiveTab().value.activePage) + 1 < |v.ActiveTab().value.pages|
    ensures moved ==> v.ActiveTab().value.activePage == old(v.ActiveTab().value.activePage) + 1
    ensures !moved ==> unchanged(v.ActiveTabSet()) && unchanged(v.positionStore)
  {
    var tab := v.ActiveTab();
    if tab.None? || tab.value.activePage + 1 >= |tab.value.pages| {
      return false;
    }
    moved := SelectPage(v, tab.value.activePage + 1);
  }

  /** A zoom step clamped into `[lo, hi]` (`f32::clamp`). */
  function Zoomed(zoom: real, delta: real, lo: real, hi: real): (r: real)
    requires lo <= hi
    ensures lo <= r <= hi
    ensures lo <= zoom + delta <= hi ==> r == zoom + delta
    ensures zoom + delta < lo ==> r == lo
    ensures zoom + delta > hi ==> r == hi
  {
    Clamp(zoom + delta, lo, hi)
  }

  /** Inside the range, zooming in and back out returns to the same zoom
      (over reals; `f32` rounding is not modelled). */
  lemma ZoomInOut(zoom: real, step: real, lo: real, hi: real)
    requires lo <= zoom && zoom + step <= hi && 0.0 <= step
    ensures Zoomed(Zoomed(zoom, step, lo, hi), -step, lo, hi) == zoom
  {
  }

  /** Repeated steps stop at the bounds. */
  lemma ZoomSaturates(zoom: real, step: real, lo: real, hi: real)
    requires lo <= hi && 0.0 <= step
    ensures Zoomed(hi, step, lo, hi) == hi && Zoomed(lo, -step, lo, hi) == lo
  {
  }

  /** `zoom_in` / `zoom_out` (delta `ZOOM_STEP` or its negation) and
      `zoom_reset`: the active tab's zoom. */
  method ZoomBy(v: PdfViewer, delta: real)
    requires v.Valid()
    modifies v.ActiveTabSet()
    ensures v.ActiveTab().Some? ==>
      v.ActiveTab().value.zoom == Zoomed(old(v.ActiveTab().value.zoom), delta, ZOOM_MIN, ZOOM_MAX)
  {
    var tab := v.ActiveTab();
    if tab.Some? {
      tab.value.zoom := Zoomed(tab.value.zoom, delta, ZOOM_MIN, ZOOM_MAX);
    }
  }

  method ZoomReset(v: PdfViewer)
    requires v.Valid()
    modifies v.ActiveTabSet()
    ensures v.ActiveTab().Some? ==> v.ActiveTab().value.zoom == 1.0
  {
    var tab := v.ActiveTab();
    if tab.Some? {
      tab.value.zoom := 1.0;
    }
  }

  // Scroll synchronisation

  /** `schedule_thumbnail_sync_after_display_scroll`: invalidates earlier
      sync timers by bumping the tab's sync epoch, and returns what the new
      timer captures (tab id, epoch). */
  method ScheduleThumbnailSync(v: PdfViewer) returns (ticket: Option<(nat, nat)>)
    requires v.Valid()
    modifies v.ActiveTabSet()
    ensures v.ActiveTab().None? <==> ticket.None?
    ensures ticket.Some? ==>
      var t := v.ActiveTab().value;
      && t.displayScrollSyncEpoch == WrappingInc(old(t.displayScrollSyncEpoch))
      && ticket.value == (t.id, t.displayScrollSyncEpoch)
      && unchanged(t`pages, t`path, t`activePage, t`selectedPage, t`displayLane, t`suppressDisplayScrollSyncOnce,
                   t`lastDisplayScrollOffset)
  {
    var tab := v.ActiveTab();
    if tab.None? {
      return None;
    }
    var t := tab.value;
    t.displayScrollSyncEpoch := WrappingInc(t.displayScrollSyncEpoch);
    ticket := Some((t.id, t.displayScrollSyncEpoch));
  }

  /** The page the sync timer makes active: the first visible page, or the
      current one, clamped to the last page. */
  function SyncTarget(visible: Option<Range>, activePage: nat, pageCount: nat): (r: nat)
    ensures pageCount > 0 ==> r < pageCount
    ensures visible.Some? ==> r == MinNat(visible.value.start, LastIndex(pageCount))
    ensures visible.None? ==> r == MinNat(activePage, LastIndex(pageCount))
  {
    match visible
    case Some(range) => MinNat(range.start, LastIndex(pageCount))
    case None => MinNat(activePage, LastIndex(pageCount))
  }

  /** The sync timer firing: only for the same tab and sync epoch, with
      pages. The active page moves to `SyncTarget`, and only when it changed
      is the position recorded and saved. */
  method ThumbnailSyncFired(v: PdfViewer, tabId: nat, syncEpoch: nat) returns (saved: Option<(Path, nat)>)
    requires v.Valid()
    modifies v.ActiveTabSet(), v.positionStore
    ensures v.Valid()
    ensures var fires := old(v.ActiveTab()).Some? && old(v.ActiveTab().value.id) == tabId
                         && old(v.ActiveTab().value.displayScrollSyncEpoch) == syncEpoch
                         && old(v.ActiveTab().value.pages) != [];
      && (!fires ==> saved.None? && unchanged(v.ActiveTabSet()) && unchanged(v.positionStore))
      && (fires ==>
            var t := v.ActiveTab().value;
            var target := old(SyncTarget(t.displayLane.visibleRange, t.activePage, |t.pages|));
            && t.activePage == target
            && (saved.Some? <==> old(t.activePage) != target && t.path.Some?)
            && (saved.Some? ==>
                  && saved.value == (t.path.value, target) && t.lastSavedPosition == saved
                  && Persistence.LoadSavedFilePosition(v, t.path.value) == Some(target % Bytes.U64_LIMIT))
            && (saved.None? ==>
                  && t.lastSavedPosition == old(t.lastSavedPosition)
                  && v.positionStore.entries == old(v.positionStore.entries))
            && unchanged(t`pages, t`path, t`selectedPage, t`displayLane, t`thumbnailLane))
  {
    var tab := v.ActiveTab();
    if tab.None? || tab.value.id != tabId || tab.value.displayScrollSyncEpoch != syncEpoch || tab.value.pages == [] {
      return None;
    }
    var t := tab.value;
    var target := SyncTarget(t.displayLane.visibleRange, t.activePage, |t.pages|);
    if t.activePage == target {
      return None;
    }
    SetActivePage(t, target);
    if t.path.None? {
      return None;
    }
    saved := Some((t.path.value, target));
    SetLastSavedPosition(t, saved);
    Persistence.SaveFilePosition(v, t.path.value, target);
  }

  method SetActivePage(t: PdfTab, page: nat)
    modifies t`activePage
    ensures t.activePage == page
  {
    t.activePage := page;
  }

  method SetLastSavedPosition(t: PdfTab, saved: Option<(Path, nat)>)
    modifies t`lastSavedPosition
    ensures t.lastSavedPosition == saved
  {
    t.lastSavedPosition := saved;
  }

  /** `on_display_scroll_offset_changed`: records the offset; a real change
      on a tab with pages either consumes the one-shot suppression or
      schedules a sync. */
  method DisplayScrollOffsetChanged(v: PdfViewer, offset: (real, real)) returns (ticket: Option<(nat, nat)>)
    requires v.Valid()
    modifies v.ActiveTabSet()
    ensures v.ActiveTab().None? ==> ticket.None?
    ensures v.ActiveTab().Some? ==>
      var t := v.ActiveTab().value;
      var changed := old(t.lastDisplayScrollOffset).Some? && old(t.lastDisplayScrollOffset).value != offset;
      && t.lastDisplayScrollOffset == Some(offset)
      && (!changed || t.pages == [] ==>
            && ticket.None? && t.suppressDisplayScrollSyncOnce == old(t.suppressDisplayScrollSyncOnce)
            && t.displayScrollSyncEpoch == old(t.displayScrollSyncEpoch))
      && (changed && t.pages != [] && old(t.suppressDisplayScrollSyncOnce) ==>
            ticket.None? && !t.suppressDisplayScrollSyncOnce && t.displayScrollSyncEpoch == old(t.displayScrollSyncEpoch))
      && (changed && t.pages != [] && !old(t.suppressDisplayScrollSyncOnce) ==>
            !t.suppressDisplayScrollSyncOnce && t.displayScrollSyncEpoch == WrappingInc(old(t.displayScrollSyncEpoch))
            && ticket == Some((t.id, t.displayScrollSyncEpoch)))
      && unchanged(t`pages, t`path, t`activePage, t`selectedPage, t`displayLane)
  {
    var tab := v.ActiveTab();
    if tab.None? {
      return None;
    }
    var t := tab.value;
    var changed := t.lastDisplayScrollOffset.Some? && t.lastDisplayScrollOffset.value != offset;
    t.lastDisplayScrollOffset := Some(offset);
    if changed && t.pages != [] {
      if t.suppressDisplayScrollSyncOnce {
        t.suppressDisplayScrollSyncOnce := false;
        return None;
      }
      ticket := ScheduleThumbnailSync(v);
    } else {
      ticket := None;
    }
  }

  // Layout changes

  /** The page kept across a layout change: the active page clamped to the
      last page. */
  function KeepPage(page: nat, pageCount: nat): (r: nat)
    ensures pageCount > 0 ==> r < pageCount
    ensures page < pageCount ==> r == page
    ensures pageCount > 0 && page >= pageCount ==> r == pageCount - 1
  {
    MinNat(page, LastIndex(pageCount))
  }

  /** Keeping a kept page again changes nothing, so the delayed restore
      lands on the page the layout change chose. */
  lemma KeepPageIdempotent(page: nat, pageCount: nat)
    ensures KeepPage(KeepPage(page, pageCount), pageCount) == KeepPage(page, pageCount)
  {
  }

  /** The visible range recorded for a kept page: that page alone. */
  function KeepRange(page: nat, pageCount: nat): (r: Range)
    ensures r.start == page
    ensures page < pageCount ==> r.end == page + 1
  {
    Range(page, MinNat(page + 1, pageCount))
  }

  /** The display side of a kept page: active and selected, recorded as the
      visible range, the offset recorded. The scroll-sync suppression flag
      is not touched: the layout change leaves it alone, and only the
      delayed restore sets it. */
  method KeepDisplayPage(t: PdfTab, page: nat, offset: (real, real))
    modifies t`activePage, t`selectedPage, t`displayLane, t`lastDisplayScrollOffset
    ensures t.activePage == page && t.selectedPage == page
    ensures t.displayLane == old(t.displayLane).(visibleRange := Some(KeepRange(page, |t.pages|)))
    ensures t.lastDisplayScrollOffset == Some(offset)
  {
    t.activePage := page;
    t.selectedPage := page;
    t.displayLane := t.displayLane.(visibleRange := Some(KeepRange(page, |t.pages|)));
    t.lastDisplayScrollOffset := Some(offset);
  }

  /** `schedule_restore_current_page_after_layout_change`: without an active
      tab nothing happens; otherwise earlier restore timers are invalidated
      and the new timer captures (tab id, restore epoch). */
  method ScheduleLayoutRestore(v: PdfViewer) returns (ticket: Option<(nat, nat)>)
    requires v.Valid()
    modifies v`resizeRestoreEpoch
    ensures v.Valid()
    ensures ticket.None? <==> v.ActiveTab().None?
    ensures ticket.None? ==> v.resizeRestoreEpoch == old(v.resizeRestoreEpoch)
    ensures ticket.Some? ==>
      && v.resizeRestoreEpoch == WrappingInc(old(v.resizeRestoreEpoch))
      && ticket.value == (v.ActiveTab().value.id, v.resizeRestoreEpoch)
  {
    var tab := v.ActiveTab();
    if tab.None? {
      return None;
    }
    v.resizeRestoreEpoch := WrappingInc(v.resizeRestoreEpoch);
    ticket := Some((tab.value.id, v.resizeRestoreEpoch));
  }

  /** The restore timer firing: only while its epoch is the latest and its
      tab is still active with pages; then the kept page is shown again. */
  method LayoutRestoreFired(v: PdfViewer, tabId: nat, restoreEpoch: nat, keepPage: nat, offset: (real, real))
    returns (restored: bool)
    requires v.Valid()
    modifies v.ActiveTabSet()
    ensures restored <==> v.resizeRestoreEpoch == restoreEpoch && v.ActiveTab().Some?
                          && v.ActiveTab().value.id == tabId && v.ActiveTab().value.pages != []
    ensures !restored ==> unchanged(v.ActiveTabSet())
    ensures restored ==>
      var t := v.ActiveTab().value;
      var page := KeepPage(keepPage, |t.pages|);
      && t.activePage == page && t.selectedPage == page
      && t.displayLane == old(t.displayLane).(visibleRange := Some(KeepRange(page, |t.pages|)))
      && t.suppressDisplayScrollSyncOnce && t.lastDisplayScrollOffset == Some(offset)
      && unchanged(t`pages, t`path, t`thumbnailLane, t`zoom, t`displayScrollSyncEpoch, t`lastSavedPosition)
  {
    var tab := v.ActiveTab();
    if v.resizeRestoreEpoch != restoreEpoch || tab.None? || tab.value.id != tabId || tab.value.pages == [] {
      return false;
    }
    var t := tab.value;
    KeepDisplayPage(t, KeepPage(keepPage, |t.pages|), offset);
    t.suppressDisplayScrollSyncOnce := true;
    restored := true;
  }

  /** The window-size bookkeeping of `render`: a new size is recorded and
      flags a layout change; it is saved only outside maximised and
      full-screen windows. */
  method WindowSizeObserved(v: PdfViewer, size: (real, real), maximized: bool, fullscreen: bool)
    returns (changed: bool, save: bool)
    requires v.Valid()
    modifies v`lastWindowSize
    ensures v.Valid()
    ensures changed <==> old(v.lastWindowSize) != Some(size)
    ensures v.lastWindowSize == Some(size)
    ensures save <==> changed && !maximized && !fullscreen
  {
    changed := v.lastWindowSize != Some(size);
    save := false;
    if changed {
      v.lastWindowSize := Some(size);
      save := !maximized && !fullscreen;
    }
  }

  /** The tab side of a display layout change: with pages, the kept page
      is shown and returned for the delayed restore. */
  method LayoutChangedOnTab(t: PdfTab, offset: (real, real)) returns (keep: Option<nat>)
    modifies t`activePage, t`selectedPage, t`displayLane, t`lastDisplayScrollOffset
    ensures keep.None? <==> t.pages == []
    ensures t.suppressDisplayScrollSyncOnce == old(t.suppressDisplayScrollSyncOnce)
    ensures t.lastDisplayScrollOffset == Some(offset)
    ensures t.pages == [] ==>
      && t.activePage == old(t.activePage) && t.selectedPage == old(t.selectedPage)
      && t.displayLane == old(t.displayLane)
    ensures keep.Some? ==>
      && keep.value == KeepPage(old(t.activePage), |t.pages|)
      && t.activePage == keep.value && t.selectedPage == keep.value
      && t.displayLane == old(t.displayLane).(visibleRange := Some(KeepRange(keep.value, |t.pages|)))
  {
    if t.pages == [] {
      t.lastDisplayScrollOffset := Some(offset);
      return None;
    }
    keep := Some(KeepPage(t.activePage, |t.pages|));
    KeepDisplayPage(t, keep.value, offset);
  }

  /** The display layout part of `render`: a window change or a new target
      width is a layout change; it invalidates pending scroll syncs, and on
      a tab with pages keeps the active page and schedules its restore. */
  method UpdateDisplayLayout(v: PdfViewer, windowChanged: bool, targetWidth: nat, offset: (real, real))
    returns (layoutChanged: bool, ticket: Option<(nat, nat)>)
    requires v.Valid()
    modifies v.ActiveTabSet(), v`resizeRestoreEpoch
    ensures v.Valid()
    ensures v.ActiveTab().None? ==> !layoutChanged && ticket.None? && v.resizeRestoreEpoch == old(v.resizeRestoreEpoch)
    ensures v.ActiveTab().Some? ==>
      var t := v.ActiveTab().value;
      && (layoutChanged <==> windowChanged || old(t.lastDisplayTargetWidth) != targetWidth)
      && t.lastDisplayTargetWidth == targetWidth
      && (!layoutChanged ==> unchanged(t) && ticket.None? && v.resizeRestoreEpoch == old(v.resizeRestoreEpoch))
      && (layoutChanged ==> t.displayScrollSyncEpoch == WrappingInc(old(t.displayScrollSyncEpoch)))
      && t.suppressDisplayScrollSyncOnce == old(t.suppressDisplayScrollSyncOnce)
      && (layoutChanged && t.pages == [] ==>
            ticket.None? && v.resizeRestoreEpoch == old(v.resizeRestoreEpoch) && t.lastDisplayScrollOffset == Some(offset))
      && (layoutChanged && t.pages != [] ==>
            var keep := KeepPage(old(t.activePage), |t.pages|);
            && t.activePage == keep && t.selectedPage == keep
            && t.displayLane == old(t.displayLane).(visibleRange := Some(KeepRange(keep, |t.pages|)))
            && t.lastDisplayScrollOffset == Some(offset)
            && v.resizeRestoreEpoch == WrappingInc(old(v.resizeRestoreEpoch))
            && ticket == Some((t.id, v.resizeRestoreEpoch)))
  {
    var tab := v.ActiveTab();
    if tab.None? {
      return false, None;
    }
    var t := tab.value;
    layoutChanged := windowChanged || t.lastDisplayTargetWidth != targetWidth;
    if !layoutChanged {
      return false, None;
    }
    InvalidateLayout(t, targetWidth);
    var keep := LayoutChangedOnTab(t, offset);
    ticket := None;
    if keep.Some? {
      ticket := ScheduleLayoutRestore(v);
    }
  }

  method InvalidateLayout(t: PdfTab, targetWidth: nat)
    modifies t`displayScrollSyncEpoch, t`lastDisplayTargetWidth
    ensures t.displayScrollSyncEpoch == WrappingInc(old(t.displayScrollSyncEpoch))
    ensures t.lastDisplayTargetWidth == targetWidth
  {
    t.displayScrollSyncEpoch := WrappingInc(t.displayScrollSyncEpoch);
    t.lastDisplayTargetWidth := targetWidth;
  }

  /** `sync_scroll_to_selected`: the scroll lists move to the selected page
      and the display's next scroll sync is skipped. */
  method SyncScrollToSelected(v: PdfViewer)
    requires v.Valid()
    modifies v.ActiveTabSet()
    ensures v.ActiveTab().Some? ==>
      var t := v.ActiveTab().value;
      && t.suppressDisplayScrollSyncOnce
      && unchanged(t`pages, t`activePage, t`selectedPage, t`displayLane, t`thumbnailLane, t`displayScrollSyncEpoch)
  {
    var tab := v.ActiveTab();
    if tab.Some? {
      tab.value.suppressDisplayScrollSyncOnce := true;
    }
  }
}
