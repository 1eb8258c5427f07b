// Tabs (src/tab.rs): a `PdfTab` holds one document's pages and render
// bookkeeping, and `TabBar` keeps the ordered tabs, the active tab id and
// the id counter.
module Tab {
  import opened Wrappers
  import opened Types
  import Paths
  import TextSelection

  /** A rendered bitmap; only its identity matters to the model. */
  datatype RenderImage = RenderImage(handle: nat)

  /** One render lane's state for one page: the image, the width it was
      rendered at, and whether rendering failed. */
  datatype RenderSlot = RenderSlot(image: Option<RenderImage>, renderWidth: nat, failed: bool)

  const EMPTY_SLOT := RenderSlot(None, 0, false)

  /** `PageSummary`: a page's index and size in points, with its thumbnail
      and display renders. */
  datatype PageSummary = PageSummary(index: nat, widthPt: real, heightPt: real, thumbnail: RenderSlot, display: RenderSlot)

  /** A half-open page range `start..end`. */
  datatype Range = Range(start: nat, end: nat)

  /** The request bookkeeping of one render lane (thumbnails or display):
      the pages being loaded, the tasks in flight, the epoch that stale
      completions are checked against, and the last visible range. */
  datatype RenderLane = RenderLane(loading: set<nat>, inflight: nat, epoch: nat, visibleRange: Option<Range>)

  const INITIAL_LANE := RenderLane({}, 0, 0, None)

  /** `reset_thumbnail_render_state` / `reset_display_render_state`. */
  function ResetLane(l: RenderLane): (r: RenderLane)
    ensures r.loading == {} && r.inflight == 0 && r.visibleRange == None
    ensures r.epoch == WrappingInc(l.epoch)
    ensures l.epoch < U64_MODULUS ==> r.epoch != l.epoch
  {
    RenderLane({}, 0, WrappingInc(l.epoch), None)
  }

  const DEFAULT_DISPLAY_TARGET_WIDTH: nat := 220

  class PdfTab {
    const id: nat
    var path: Option<Path>
    var pages: seq<PageSummary>
    var selectedPage: nat
    var activePage: nat
    var zoom: real
    var thumbnailLane: RenderLane
    var displayLane: RenderLane
    var lastDisplayTargetWidth: nat
    var displayScrollSyncEpoch: nat
    var lastDisplayScrollOffset: Option<(real, real)>
    var suppressDisplayScrollSyncOnce: bool
    var lastSavedPosition: Option<(Path, nat)>
    /** Whether the page summary has been loaded, is loading, or failed to
        load; core.rs reads and writes these. */
    var summaryLoaded: bool
    var summaryLoading: bool
    var summaryFailed: bool
    const selection: TextSelection.Manager

    /** `PdfTab::new(id)`. */
    constructor (id: nat)
      ensures this.id == id && path == None && pages == []
      ensures selectedPage == 0 && activePage == 0 && zoom == 1.0
      ensures thumbnailLane == INITIAL_LANE && displayLane == INITIAL_LANE
      ensures lastDisplayTargetWidth == DEFAULT_DISPLAY_TARGET_WIDTH && displayScrollSyncEpoch == 0
      ensures lastDisplayScrollOffset == None && !suppressDisplayScrollSyncOnce && lastSavedPosition == None
      ensures !summaryLoaded && !summaryLoading && !summaryFailed
      ensures fresh(selection) && selection.Valid()
      ensures selection.caches == map[] && selection.currentSelection == None
      ensures !selection.isSelecting && selection.selectionStart == None
    {
      this.id := id;
      path := None;
      pages := [];
      selectedPage := 0;
      activePage := 0;
      zoom := 1.0;
      thumbnailLane := INITIAL_LANE;
      displayLane := INITIAL_LANE;
      lastDisplayTargetWidth := DEFAULT_DISPLAY_TARGET_WIDTH;
      displayScrollSyncEpoch := 0;
      lastDisplayScrollOffset := None;
      suppressDisplayScrollSyncOnce := false;
      lastSavedPosition := None;
      summaryLoaded := false;
      summaryLoading := false;
      summaryFailed := false;
      selection := new TextSelection.Manager();
    }

    method ResetThumbnailRenderState()
      modifies this`thumbnailLane
      ensures thumbnailLane == ResetLane(old(thumbnailLane))
    {
      thumbnailLane := ResetLane(thumbnailLane);
    }

    method ResetDisplayRenderState()
      modifies this`displayLane
      ensures displayLane == ResetLane(old(displayLane))
    {
      displayLane := ResetLane(displayLane);
    }

    /** `reset_page_render_state`: both lanes reset, the text caches and the
        selection cleared. */
    method ResetPageRenderState()
      requires selection.Valid()
      modifies this`thumbnailLane, this`displayLane, selection
      ensures thumbnailLane == ResetLane(old(thumbnailLane))
      ensures displayLane == ResetLane(old(displayLane))
      ensures selection.Valid() && selection.caches == map[]
      ensures selection.currentSelection == None && selection.selectionStart == None && !selection.isSelecting
    {
      ResetThumbnailRenderState();
      ResetDisplayRenderState();
      selection.ClearCache();
      selection.ClearSelection();
    }

    /** `PdfTab::file_name`: "Home" without a path, "Unknown" for a path
        without a file name. */
    function FileName(): (r: string)
      reads this
      ensures path.None? ==> r == "Home"
      ensures path.Some? && Paths.FileName(path.value).Some? ==> r == Paths.FileName(path.value).value
      ensures path.Some? && Paths.FileName(path.value).None? ==> r == "Unknown"
    {
      match path
      case None => "Home"
      case Some(p) =>
        match Paths.FileName(p) case Some(n) => n case None => "Unknown"
    }
  }

  /** The position of the first tab with id `tabId`
      (`get_tab_index_by_id`, `iter().position`). */
  function IndexOf(tabs: seq<PdfTab>, tabId: nat): (r: Option<nat>)
    ensures r.Some? ==> r.value < |tabs| && tabs[r.value].id == tabId
    ensures r.Some? ==> forall j :: 0 <= j < r.value ==> tabs[j].id != tabId
    ensures r.None? <==> forall j :: 0 <= j < |tabs| ==> tabs[j].id != tabId
  {
    if tabs == [] then None
    else if tabs[0].id == tabId then Some(0)
    else match IndexOf(tabs[1..], tabId)
      case None => None
      case Some(i) => Some(i + 1)
  }

  /** The tabs' ids, in tab order. */
  function Ids(tabs: seq<PdfTab>): (ids: seq<nat>)
    ensures |ids| == |tabs|
    ensures forall i :: 0 <= i < |tabs| ==> ids[i] == tabs[i].id
  {
    seq(|tabs|, i requires 0 <= i < |tabs| => tabs[i].id)
  }

  predicate HasId(tabs: seq<PdfTab>, tabId: nat)
  {
    exists i :: 0 <= i < |tabs| && tabs[i].id == tabId
  }

  predicate UniqueIds(tabs: seq<PdfTab>)
  {
    forall i, j :: 0 <= i < j < |tabs| ==> tabs[i].id != tabs[j].id
  }

  /** `Vec::remove(from)` then `Vec::insert(to, _)`. */
  function MoveItem<T>(s: seq<T>, from: nat, to: nat): (r: seq<T>)
    requires from < |s| && to < |s|
    ensures |r| == |s|
  {
    var rest := s[..from] + s[from + 1..];
    rest[..to] + [s[from]] + rest[to..]
  }

  /** A move is a permutation that puts the moved item at `to`. */
  lemma MoveItemPermutes<T>(s: seq<T>, from: nat, to: nat)
    requires from < |s| && to < |s|
    ensures multiset(MoveItem(s, from, to)) == multiset(s)
    ensures MoveItem(s, from, to)[to] == s[from]
  {
    var rest := s[..from] + s[from + 1..];
    assert s == s[..from] + [s[from]] + s[from + 1..];
    assert multiset(s) == multiset(s[..from]) + multiset([s[from]]) + multiset(s[from + 1..]);
    assert multiset(rest) == multiset(s[..from]) + multiset(s[from + 1..]);
    assert rest == rest[..to] + rest[to..];
    assert multiset(rest) == multiset(rest[..to]) + multiset(rest[to..]);
    var r := MoveItem(s, from, to);
    assert r == rest[..to] + [s[from]] + rest[to..];
    assert multiset(r) == multiset(rest[..to]) + multiset([s[from]]) + multiset(rest[to..]);
    calc {
      multiset(r);
      multiset(rest[..to]) + multiset(rest[to..]) + multiset([s[from]]);
      multiset(rest) + multiset([s[from]]);
      multiset(s[..from]) + multiset(s[from + 1..]) + multiset([s[from]]);
      multiset(s);
    }
  }

  /** The items other than the moved one keep their relative order. */
  lemma MoveItemKeepsOthersInOrder<T>(s: seq<T>, from: nat, to: nat)
    requires from < |s| && to < |s|
    ensures var r := MoveItem(s, from, to);
            r[..to] + r[to + 1..] == s[..from] + s[from + 1..]
  {
    var rest := s[..from] + s[from + 1..];
    var r := MoveItem(s, from, to);
    assert r[..to] == rest[..to];
    assert r[to + 1..] == rest[to..];
  }

  /** Where each item of a moved sequence came from. */
  lemma MoveItemSource<T>(s: seq<T>, from: nat, to: nat, k: nat)
    requires from < |s| && to < |s| && k < |s|
    ensures var r := MoveItem(s, from, to);
            var rest := s[..from] + s[from + 1..];
            r[k] == (if k < to then rest[k] else if k == to then s[from] else rest[k - 1])
  {
  }

  lemma MoveItemKeepsUniqueIds(tabs: seq<PdfTab>, from: nat, to: nat)
    requires from < |tabs| && to < |tabs| && UniqueIds(tabs)
    ensures UniqueIds(MoveItem(tabs, from, to))
    ensures forall t :: t in MoveItem(tabs, from, to) <==> t in tabs
  {
    var r := MoveItem(tabs, from, to);
    var rest := tabs[..from] + tabs[from + 1..];
    // origin(k) is the index in `tabs` of r[k]
    var origin := (k: nat) => if k < to then (if k < from then k else k + 1)
                              else if k == to then from
                              else (if k - 1 < from then k - 1 else k);
    forall k | 0 <= k < |r| ensures origin(k) < |tabs| && r[k] == tabs[origin(k)] {
      MoveItemSource(tabs, from, to, k);
    }
    forall i, j | 0 <= i < j < |r| ensures r[i].id != r[j].id {
      assert origin(i) != origin(j);
      assert r[i].id == tabs[origin(i)].id && r[j].id == tabs[origin(j)].id;
    }
    MoveItemPermutes(tabs, from, to);
    forall t ensures t in r <==> t in tabs {
      assert t in r <==> t in multiset(r);
      assert t in tabs <==> t in multiset(tabs);
    }
  }

  /** Removing the tab at `i` keeps ids unique and every other id present. */
  lemma RemoveAtFacts(tabs: seq<PdfTab>, i: nat)
    requires i < |tabs| && UniqueIds(tabs)
    ensures var rest := tabs[..i] + tabs[i + 1..];
      && UniqueIds(rest)
      && (forall k :: 0 <= k < |rest| ==> rest[k] == tabs[if k < i then k else k + 1])
      && !HasId(rest, tabs[i].id)
      && (forall x :: HasId(tabs, x) && x != tabs[i].id ==> HasId(rest, x))
  {
    var rest := tabs[..i] + tabs[i + 1..];
    assert forall k :: 0 <= k < |rest| ==> rest[k] == tabs[if k < i then k else k + 1];
    forall x | HasId(tabs, x) && x != tabs[i].id ensures HasId(rest, x) {
      var k :| 0 <= k < |tabs| && tabs[k].id == x;
      assert rest[if k < i then k else k - 1].id == x;
    }
  }

  class TabBar {
    var tabs: seq<PdfTab>
    var activeTabId: Option<nat>
    var nextTabId: nat
    var dragSourceIndex: Option<nat>
    var dragTargetIndex: Option<nat>
    var isDragging: bool

    /** Ids are unique and below the counter; the active id is None exactly
        when there are no tabs, and otherwise names a tab. */
    ghost predicate Valid()
      reads this
    {
      && UniqueIds(tabs)
      && (forall i :: 0 <= i < |tabs| ==> tabs[i].id < nextTabId)
      && (activeTabId.None? <==> tabs == [])
      && (activeTabId.Some? ==> HasId(tabs, activeTabId.value))
    }

    constructor ()
      ensures Valid()
      ensures tabs == [] && activeTabId == None && nextTabId == 1
      ensures dragSourceIndex == None && dragTargetIndex == None && !isDragging
    {
      tabs := [];
      activeTabId := None;
      nextTabId := 1;
      dragSourceIndex := None;
      dragTargetIndex := None;
      isDragging := false;
    }

    /** `create_tab_with_path` (and `create_tab` when `path` is None): a
        fresh tab with the next id goes at the end and becomes active. */
    method CreateTabWithPath(path: Option<Path>, pages: seq<PageSummary>) returns (tabId: nat)
      requires Valid()
      modifies this
      ensures Valid()
      ensures tabId == old(nextTabId) && nextTabId == old(nextTabId) + 1
      ensures |tabs| == |old(tabs)| + 1 && tabs[..|old(tabs)|] == old(tabs)
      ensures fresh(tabs[|old(tabs)|]) && tabs[|old(tabs)|].id == tabId
      ensures tabs[|old(tabs)|].path == path && tabs[|old(tabs)|].pages == pages
      ensures !tabs[|old(tabs)|].summaryLoaded && !tabs[|old(tabs)|].summaryLoading && !tabs[|old(tabs)|].summaryFailed
      ensures fresh(tabs[|old(tabs)|].selection) && tabs[|old(tabs)|].selection.Valid()
      ensures !HasId(old(tabs), tabId)
      ensures activeTabId == Some(tabId)
      ensures dragSourceIndex == old(dragSourceIndex) && dragTargetIndex == old(dragTargetIndex)
      ensures isDragging == old(isDragging)
    {
      tabId := nextTabId;
      nextTabId := nextTabId + 1;
      var tab := new PdfTab(tabId);
      tab.path := path;
      tab.pages := pages;
      tabs := tabs + [tab];
      activeTabId := Some(tabId);
      assert tabs[|tabs| - 1].id == tabId;
    }

    /** `create_tab`. */
    method CreateTab() returns (tabId: nat)
      requires Valid()
      modifies this
      ensures Valid()
      ensures tabId == old(nextTabId) && nextTabId == old(nextTabId) + 1
      ensures |tabs| == |old(tabs)| + 1 && tabs[..|old(tabs)|] == old(tabs)
      ensures fresh(tabs[|old(tabs)|]) && tabs[|old(tabs)|].id == tabId
      ensures tabs[|old(tabs)|].path == None && tabs[|old(tabs)|].pages == []
      ensures !tabs[|old(tabs)|].summaryLoaded && !tabs[|old(tabs)|].summaryLoading && !tabs[|old(tabs)|].summaryFailed
      ensures fresh(tabs[|old(tabs)|].selection) && tabs[|old(tabs)|].selection.Valid()
      ensures !HasId(old(tabs), tabId)
      ensures activeTabId == Some(tabId)
      ensures dragSourceIndex == old(dragSourceIndex) && dragTargetIndex == old(dragTargetIndex)
      ensures isDragging == old(isDragging)
    {
      tabId := CreateTabWithPath(None, []);
    }

    /** `close_tab`: removes the tab. If it was active, the tab that takes
        its place becomes active, else the new last tab, else none. */
    method CloseTab(tabId: nat) returns (closed: bool)
      requires Valid()
      modifies this
      ensures Valid()
      ensures closed <==> HasId(old(tabs), tabId)
      ensures !closed ==> tabs == old(tabs) && activeTabId == old(activeTabId)
      ensures closed ==> var i := IndexOf(old(tabs), tabId).value;
        && tabs == old(tabs)[..i] + old(tabs)[i + 1..]
        && (old(activeTabId) != Some(tabId) ==> activeTabId == old(activeTabId))
        && (old(activeTabId) == Some(tabId) && tabs == [] ==> activeTabId == None)
        && (old(activeTabId) == Some(tabId) && i < |tabs| ==> activeTabId == Some(tabs[i].id))
        && (old(activeTabId) == Some(tabId) && 0 < |tabs| <= i ==> activeTabId == Some(tabs[|tabs| - 1].id))
      ensures !HasId(tabs, tabId)
      ensures nextTabId == old(nextTabId)
      ensures dragSourceIndex == old(dragSourceIndex) && dragTargetIndex == old(dragTargetIndex)
      ensures isDragging == old(isDragging)
    {
      var index := IndexOf(tabs, tabId);
      if index.None? {
        return false;
      }
      var i := index.value;
      RemoveAtFacts(tabs, i);
      tabs := tabs[..i] + tabs[i + 1..];
      if activeTabId == Some(tabId) {
        if tabs == [] {
          activeTabId := None;
        } else if i < |tabs| {
          activeTabId := Some(tabs[i].id);
        } else {
          activeTabId := Some(tabs[|tabs| - 1].id);
        }
      }
      closed := true;
    }

    /** `get_active_tab`. */
    function ActiveTab(): (r: Option<PdfTab>)
      reads this
      requires Valid()
      ensures r.Some? <==> activeTabId.Some?
      ensures r.Some? ==> r.value in tabs && r.value.id == activeTabId.value
    {
      if activeTabId.None? then None
      else Some(tabs[IndexOf(tabs, activeTabId.value).value])
    }

    /** `switch_to_tab`: activates a present id, otherwise changes nothing. */
    method SwitchToTab(tabId: nat) returns (switched: bool)
      requires Valid()
      modifies this`activeTabId
      ensures Valid()
      ensures switched <==> HasId(tabs, tabId)
      ensures switched ==> activeTabId == Some(tabId)
      ensures !switched ==> activeTabId == old(activeTabId)
    {
      if IndexOf(tabs, tabId).Some? {
        activeTabId := Some(tabId);
        switched := true;
      } else {
        switched := false;
      }
    }

    /** `move_tab`: false for an index out of range; otherwise the tab moves
        and the active tab stays the same. */
    method MoveTab(fromIndex: nat, toIndex: nat) returns (ok: bool)
      requires Valid()
      modifies this`tabs
      ensures Valid()
      ensures ok <==> fromIndex < |old(tabs)| && toIndex < |old(tabs)|
      ensures !ok || fromIndex == toIndex ==> tabs == old(tabs)
      ensures ok ==> tabs == MoveItem(old(tabs), fromIndex, toIndex)
      ensures ok ==> multiset(tabs) == multiset(old(tabs)) && tabs[toIndex] == old(tabs)[fromIndex]
    {
      if fromIndex >= |tabs| || toIndex >= |tabs| {
        return false;
      }
      MoveItemPermutes(tabs, fromIndex, toIndex);
      if fromIndex == toIndex {
        assert tabs[..fromIndex] + tabs[fromIndex + 1..] == tabs[..fromIndex] + tabs[fromIndex + 1..];
        assert MoveItem(tabs, fromIndex, toIndex) == tabs;
        return true;
      }
      MoveMembers(fromIndex, toIndex);
      tabs := MoveItem(tabs, fromIndex, toIndex);
      ok := true;
    }

    lemma MoveMembers(fromIndex: nat, toIndex: nat)
      requires Valid() && fromIndex < |tabs| && toIndex < |tabs|
      ensures UniqueIds(MoveItem(tabs, fromIndex, toIndex))
      ensures forall i :: 0 <= i < |tabs| ==> MoveItem(tabs, fromIndex, toIndex)[i].id < nextTabId
      ensures activeTabId.Some? ==> HasId(MoveItem(tabs, fromIndex, toIndex), activeTabId.value)
    {
      var r := MoveItem(tabs, fromIndex, toIndex);
      MoveItemKeepsUniqueIds(tabs, fromIndex, toIndex);
      forall i | 0 <= i < |r| ensures r[i].id < nextTabId {
        assert r[i] in tabs;
      }
      if activeTabId.Some? {
        var k :| 0 <= k < |tabs| && tabs[k].id == activeTabId.value;
        assert tabs[k] in r;
      }
    }

    /** `start_drag`. */
    method StartDrag(index: nat)
      modifies this`dragSourceIndex, this`isDragging
      ensures dragSourceIndex == Some(index) && isDragging
    {
      dragSourceIndex := Some(index);
      isDragging := true;
    }

    /** `update_drag`: records the target only while dragging. */
    method UpdateDrag(index: nat)
      modifies this`dragTargetIndex
      ensures isDragging ==> dragTargetIndex == Some(index)
      ensures !isDragging ==> dragTargetIndex == old(dragTargetIndex)
    {
      if isDragging {
        dragTargetIndex := Some(index);
      }
    }

    /** `end_drag`: always clears the drag; reorders and reports the move
        only when source and target are both set and differ. `Vec::remove`
        and `Vec::insert` panic for indices past the end, hence the
        precondition. */
    method EndDrag() returns (moved: Option<(nat, nat)>)
      requires Valid()
      requires dragSourceIndex.Some? && dragTargetIndex.Some? && dragSourceIndex != dragTargetIndex
               ==> dragSourceIndex.value < |tabs| && dragTargetIndex.value < |tabs|
      modifies this`tabs, this`dragSourceIndex, this`dragTargetIndex, this`isDragging
      ensures Valid()
      ensures dragSourceIndex == None && dragTargetIndex == None && !isDragging
      ensures moved.Some? <==> (old(dragSourceIndex).Some? && old(dragTargetIndex).Some?
                                && old(dragSourceIndex) != old(dragTargetIndex))
      ensures moved.Some? ==> moved.value == (old(dragSourceIndex).value, old(dragTargetIndex).value)
                              && tabs == MoveItem(old(tabs), moved.value.0, moved.value.1)
      ensures moved.None? ==> tabs == old(tabs)
    {
      var result: Option<(nat, nat)> := None;
      if dragSourceIndex.Some? && dragTargetIndex.Some? && dragSourceIndex.value != dragTargetIndex.value {
        result := Some((dragSourceIndex.value, dragTargetIndex.value));
      }
      dragSourceIndex := None;
      dragTargetIndex := None;
      isDragging := false;
      if result.Some? {
        var (source, target) := result.value;
        MoveMembers(source, target);
        tabs := MoveItem(tabs, source, target);
      }
      moved := result;
    }

    /** `get_tab_index_by_id`. */
    function TabIndexById(tabId: nat): (r: Option<nat>)
      reads this
      ensures r.Some? <==> HasId(tabs, tabId)
      ensures r.Some? ==> r.value < |tabs| && tabs[r.value].id == tabId
    {
      IndexOf(tabs, tabId)
    }
  }
}
