// Start-up and document loading (src/pdf_viewer/mod.rs `PdfViewer::new`
// and src/pdf_viewer/core.rs): the saved tabs are restored, the active one
// starts loading, and a finished load fills the tab in. The background
// parse is split in two: `BeginLoad` is what happens before the task is
// spawned, `FinishLoad` is the update that runs when it returns, with the
// parse result passed in.
module Core {
  import opened Wrappers
  import opened Types
  import opened Tab
  import opened Viewer
  import Sled
  import Store
  import I18n
  import Persistence

  // ---------------------------------------------------------------------
  // Restoring the saved tabs (`PdfViewer::new`)

  /** The saved paths that still exist, in their saved order. */
  function Existing(paths: seq<Path>, pathExists: Path -> bool): (r: seq<Path>)
    ensures |r| <= |paths|
    ensures forall p :: p in r <==> p in paths && pathExists(p)
  {
    if paths == [] then []
    else
      var init := Existing(paths[..|paths| - 1], pathExists);
      var last := paths[|paths| - 1];
      assert forall p :: p in paths <==> p in paths[..|paths| - 1] || p == last;
      if pathExists(last) then init + [last] else init
  }

  function RestoredPaths(toRestore: seq<(nat, Path)>): (r: seq<Path>)
    ensures |r| == |toRestore|
    ensures forall i :: 0 <= i < |r| ==> r[i] == toRestore[i].1
  {
    if toRestore == [] then []
    else RestoredPaths(toRestore[..|toRestore| - 1]) + [toRestore[|toRestore| - 1].1]
  }

  /** The position of the tab to activate among `n` restored tabs: the saved
      index, or the last tab when none was saved, clamped to the last tab. */
  function TargetActiveIndex(savedActive: Option<nat>, n: nat): (r: nat)
    ensures n > 0 ==> r < n
    ensures savedActive.None? ==> r == LastIndex(n)
    ensures savedActive.Some? && savedActive.value < n ==> r == savedActive.value
    ensures savedActive.Some? && savedActive.value >= n ==> r == LastIndex(n)
  {
    var wanted := match savedActive case Some(i) => i case None => LastIndex(n);
    MinNat(wanted, LastIndex(n))
  }

  /** A tab nobody has started to load yet, with a valid selection. */
  ghost predicate Unloaded(t: PdfTab)
    reads t, t.selection
  {
    && t.pages == [] && !t.summaryLoaded && !t.summaryLoading && !t.summaryFailed
    && t.selection.Valid()
  }

  /** The tabs the start-up loop has created so far: the i-th has id i + 1
      and the i-th restored path. */
  ghost predicate RestoredTabs(tabs: seq<PdfTab>, toRestore: seq<(nat, Path)>)
    reads tabs, Selections(tabs)
  {
    && |tabs| == |toRestore|
    && (forall k :: 0 <= k < |tabs| ==> Unloaded(tabs[k]))
    && (forall k :: 0 <= k < |toRestore| ==>
          toRestore[k].0 == k + 1 && tabs[k].id == toRestore[k].0 && tabs[k].path == Some(toRestore[k].1))
  }

  /** One step of the start-up loop: a tab for the next restored path. */
  method AddRestoredTab(bar: TabBar, ghost toRestore: seq<(nat, Path)>, path: Path) returns (tabId: nat)
    requires bar.Valid() && bar.nextTabId == |toRestore| + 1 && RestoredTabs(bar.tabs, toRestore)
    modifies bar
    ensures bar.Valid() && bar.nextTabId == |toRestore| + 2 && tabId == |toRestore| + 1
    ensures |bar.tabs| == |old(bar.tabs)| + 1 && bar.tabs[..|old(bar.tabs)|] == old(bar.tabs)
    ensures fresh(bar.tabs[|old(bar.tabs)|]) && fresh(bar.tabs[|old(bar.tabs)|].selection)
    ensures RestoredTabs(bar.tabs, toRestore + [(tabId, path)])
    ensures bar.isDragging == old(bar.isDragging)
    ensures bar.dragSourceIndex == old(bar.dragSourceIndex) && bar.dragTargetIndex == old(bar.dragTargetIndex)
  {
    ghost var before := bar.tabs;
    tabId := bar.CreateTabWithPath(Some(path), []);
    ghost var added := toRestore + [(tabId, path)];
    forall k | 0 <= k < |bar.tabs| ensures Unloaded(bar.tabs[k]) {
      if k < |before| {
        assert bar.tabs[k] == before[k];
        assert old(Unloaded(before[k]));
      }
    }
    forall k | 0 <= k < |added|
      ensures added[k].0 == k + 1 && bar.tabs[k].id == added[k].0 && bar.tabs[k].path == Some(added[k].1)
    {
      if k < |toRestore| {
        assert bar.tabs[k] == before[k] && added[k] == toRestore[k];
      }
    }
  }

  /** The loop of `PdfViewer::new` over the saved paths: a tab for each one
      that exists, in order. */
  method CreateRestoredTabs(saved: seq<Path>, pathExists: Path -> bool)
    returns (bar: TabBar, toRestore: seq<(nat, Path)>)
    ensures fresh(bar) && bar.Valid() && bar.nextTabId == |toRestore| + 1
    ensures RestoredPaths(toRestore) == Existing(saved, pathExists)
    ensures forall k :: 0 <= k < |bar.tabs| ==> fresh(bar.tabs[k]) && fresh(bar.tabs[k].selection)
    ensures RestoredTabs(bar.tabs, toRestore)
    ensures !bar.isDragging && bar.dragSourceIndex == None && bar.dragTargetIndex == None
  {
    bar := new TabBar();
    toRestore := [];
    for i := 0 to |saved|
      invariant fresh(bar) && bar.Valid() && bar.nextTabId == |toRestore| + 1
      invariant RestoredPaths(toRestore) == Existing(saved[..i], pathExists)
      invariant forall t | t in bar.tabs :: fresh(t) && fresh(t.selection)
      invariant RestoredTabs(bar.tabs, toRestore)
      invariant !bar.isDragging && bar.dragSourceIndex == None && bar.dragTargetIndex == None
    {
      assert saved[..i + 1][..i] == saved[..i];
      var path := saved[i];
      if pathExists(path) {
        var tabId := AddRestoredTab(bar, toRestore, path);
        toRestore := toRestore + [(tabId, path)];
      }
    }
    assert saved[..|saved|] == saved;
  }

  /** The tab bar of `PdfViewer::new`: one tab per saved path that exists,
      with ids 1, 2, ... in order, and the saved active position activated;
      a single empty tab when nothing could be restored. */
  method RestoreTabBar(saved: seq<Path>, savedActive: Option<nat>, pathExists: Path -> bool)
    returns (bar: TabBar, toRestore: seq<(nat, Path)>)
    ensures fresh(bar) && bar.Valid() && AllSelectionsValid(bar.tabs)
    ensures RestoredPaths(toRestore) == Existing(saved, pathExists)
    ensures forall k :: 0 <= k < |bar.tabs| ==> fresh(bar.tabs[k]) && fresh(bar.tabs[k].selection)
    ensures toRestore == [] ==> |bar.tabs| == 1 && bar.tabs[0].path == None
                                && bar.activeTabId == Some(bar.tabs[0].id) && Unloaded(bar.tabs[0])
    ensures toRestore != [] ==> RestoredTabs(bar.tabs, toRestore)
    ensures toRestore != [] ==>
      bar.activeTabId == Some(toRestore[TargetActiveIndex(savedActive, |toRestore|)].0)
    ensures !bar.isDragging && bar.dragSourceIndex == None && bar.dragTargetIndex == None
  {
    bar, toRestore := CreateRestoredTabs(saved, pathExists);
    if toRestore == [] {
      var _ := bar.CreateTab();
    } else {
      var target := TargetActiveIndex(savedActive, |toRestore|);
      var _ := bar.SwitchToTab(toRestore[target].0);
    }
  }

  // ---------------------------------------------------------------------
  // Loading a document into a tab

  /** The path a tab still has to load: it is not loading and has either
      failed or not loaded yet. */
  function PendingPath(t: PdfTab): Option<Path>
    reads t
  {
    if t.summaryLoading then None
    else if t.summaryFailed || !t.summaryLoaded then t.path
    else None
  }

  /** `pending_load_path_for_tab`: the pending path of the tab with the
      given id; None for an unknown id. */
  function PendingLoadPath(tabs: seq<PdfTab>, tabId: nat): Option<Path>
    reads tabs
  {
    match IndexOf(tabs, tabId)
    case None => None
    case Some(i) => PendingPath(tabs[i])
  }

  /** The state `load_pdf_path_into_tab` puts a tab in before the parse
      starts: the new path, no pages, loading, on the first page at 100%,
      with no saved position recorded. */
  ghost predicate Loading(t: PdfTab, path: Path)
    reads t
  {
    && t.path == Some(path) && t.pages == []
    && !t.summaryLoaded && t.summaryLoading && !t.summaryFailed
    && t.selectedPage == 0 && t.activePage == 0 && t.zoom == 1.0 && t.lastSavedPosition == None
  }

  /** The tab-level part of starting a load. */
  method MarkLoading(t: PdfTab, path: Path)
    requires t.selection.Valid()
    modifies t`path, t`pages, t`summaryLoaded, t`summaryLoading, t`summaryFailed
    modifies t`selectedPage, t`activePage, t`zoom, t`lastSavedPosition
    modifies t`thumbnailLane, t`displayLane, t.selection
    ensures Loading(t, path)
    ensures t.thumbnailLane == ResetLane(old(t.thumbnailLane)) && t.displayLane == ResetLane(old(t.displayLane))
    ensures t.selection.Valid() && t.selection.caches == map[] && t.selection.currentSelection == None
  {
    t.path := Some(path);
    t.pages := [];
    t.summaryLoaded := false;
    t.summaryLoading := true;
    t.summaryFailed := false;
    t.selectedPage := 0;
    t.activePage := 0;
    t.zoom := 1.0;
    t.lastSavedPosition := None;
    t.ResetPageRenderState();
  }

  /** What loading into the tab with that id may change: the tab and its
      selection manager. */
  function LoadFrame(tabs: seq<PdfTab>, tabId: nat): (r: set<object>)
    ensures IndexOf(tabs, tabId).Some? ==>
      r == {tabs[IndexOf(tabs, tabId).value], tabs[IndexOf(tabs, tabId).value].selection}
    ensures IndexOf(tabs, tabId).None? ==> r == {}
  {
    match IndexOf(tabs, tabId)
    case None => {}
    case Some(i) => {tabs[i], tabs[i].selection}
  }

  /** The load frame of the active tab. */
  function ActiveLoadFrame(v: PdfViewer): set<object>
    reads v.tabBar
  {
    match v.tabBar.activeTabId
    case None => {}
    case Some(id) => LoadFrame(v.tabBar.tabs, id)
  }

  /** `load_pdf_path_into_tab` up to the spawn: an unknown id changes
      nothing; otherwise the tab is marked loading and the open tabs are
      written out. A loading tab has no pending load. */
  method BeginLoad(v: PdfViewer, tabId: nat, path: Path) returns (started: bool)
    requires v.Valid()
    modifies LoadFrame(v.tabBar.tabs, tabId), v.openTabsStore
    ensures v.Valid()
    ensures started <==> HasId(v.tabBar.tabs, tabId)
    ensures !started ==> unchanged(v.tabBar.tabs) && unchanged(v.openTabsStore)
    ensures started ==>
      && Loading(v.tabBar.tabs[IndexOf(v.tabBar.tabs, tabId).value], path)
      && PendingLoadPath(v.tabBar.tabs, tabId) == None
      && Persistence.OpenTabsPersisted(v)
    ensures v.tabBar.tabs == old(v.tabBar.tabs) && unchanged(v.tabBar)
  {
    var index := v.tabBar.TabIndexById(tabId);
    if index.None? {
      return false;
    }
    var t := v.tabBar.tabs[index.value];
    MarkLoading(t, path);
    ghost var loading := Loading(t, path);
    Persistence.PersistOpenTabs(v);
    assert loading == Loading(t, path);
    started := true;
  }

  /** One step of `pages.sort_by_key(|p| p.index)`: the page goes after
      every page whose index is not larger, which keeps equal keys in their
      original order. */
  function InsertByIndex(sorted: seq<PageSummary>, p: PageSummary): (r: seq<PageSummary>)
    ensures |r| == |sorted| + 1 && multiset(r) == multiset(sorted) + multiset{p}
  {
    if sorted == [] || sorted[|sorted| - 1].index <= p.index then sorted + [p]
    else
      var last := sorted[|sorted| - 1];
      assert sorted == sorted[..|sorted| - 1] + [last];
      InsertByIndex(sorted[..|sorted| - 1], p) + [last]
  }

  predicate PagesSorted(pages: seq<PageSummary>)
  {
    forall i, j :: 0 <= i < j < |pages| ==> pages[i].index <= pages[j].index
  }

  /** The pages in ascending index order, as an insertion sort. */
  function SortPagesByIndex(pages: seq<PageSummary>): (r: seq<PageSummary>)
    ensures |r| == |pages| && multiset(r) == multiset(pages)
  {
    if pages == [] then []
    else
      assert pages == pages[..|pages| - 1] + [pages[|pages| - 1]];
      InsertByIndex(SortPagesByIndex(pages[..|pages| - 1]), pages[|pages| - 1])
  }

  lemma {:induction false} InsertByIndexSorted(sorted: seq<PageSummary>, p: PageSummary)
    requires PagesSorted(sorted)
    ensures PagesSorted(InsertByIndex(sorted, p))
  {
    if sorted != [] && sorted[|sorted| - 1].index > p.index {
      var init := sorted[..|sorted| - 1];
      var last := sorted[|sorted| - 1];
      InsertByIndexSorted(init, p);
      var r0 := InsertByIndex(init, p);
      forall k | 0 <= k < |r0| ensures r0[k].index <= last.index {
        assert r0[k] in multiset(r0);
        if r0[k] != p {
          assert r0[k] in multiset(init);
          var j :| 0 <= j < |init| && init[j] == r0[k];
          assert sorted[j] == r0[k];
        }
      }
    }
  }

  /** Sorting puts the pages in ascending index order. */
  lemma {:induction false} SortPagesSorted(pages: seq<PageSummary>)
    ensures PagesSorted(SortPagesByIndex(pages))
  {
    if pages != [] {
      SortPagesSorted(pages[..|pages| - 1]);
      InsertByIndexSorted(SortPagesByIndex(pages[..|pages| - 1]), pages[|pages| - 1]);
    }
  }

  /** Sorting pages that are already in order changes nothing. */
  lemma {:induction false} SortSortedPages(pages: seq<PageSummary>)
    requires PagesSorted(pages)
    ensures SortPagesByIndex(pages) == pages
  {
    if pages != [] {
      var init := pages[..|pages| - 1];
      SortSortedPages(init);
      assert pages == init + [pages[|pages| - 1]];
    }
  }

  /** The page a finished load opens at: the saved page, or the first, never
      past the last page. */
  function InitialPage(restored: Option<nat>, pageCount: nat): (r: nat)
    ensures pageCount > 0 ==> r < pageCount
    ensures pageCount == 0 ==> r == 0
    ensures restored.None? ==> r == 0
    ensures restored.Some? && restored.value < pageCount ==> r == restored.value
    ensures restored.Some? && restored.value >= pageCount ==> r == LastIndex(pageCount)
  {
    MinNat(match restored case Some(p) => p case None => 0, LastIndex(pageCount))
  }

  /** A successful parse: the pages sorted by index, the tab loaded, and
      the initial page selected and active. */
  method ApplyParsed(t: PdfTab, pages: seq<PageSummary>, restored: Option<nat>)
    requires t.selection.Valid()
    modifies t`pages, t`summaryLoaded, t`summaryLoading, t`summaryFailed, t`selectedPage, t`activePage
    modifies t`zoom, t`suppressDisplayScrollSyncOnce, t`thumbnailLane, t`displayLane, t.selection
    ensures !t.summaryLoading && t.zoom == 1.0
    ensures t.thumbnailLane == ResetLane(old(t.thumbnailLane)) && t.displayLane == ResetLane(old(t.displayLane))
    ensures t.selection.Valid() && t.selection.caches == map[] && t.selection.currentSelection == None
    ensures t.pages == SortPagesByIndex(pages) && t.summaryLoaded && !t.summaryFailed
    ensures t.selectedPage == InitialPage(restored, |pages|) && t.activePage == t.selectedPage
    ensures t.suppressDisplayScrollSyncOnce == (pages != [] || old(t.suppressDisplayScrollSyncOnce))
  {
    t.pages := SortPagesByIndex(pages);
    t.summaryLoaded := true;
    t.summaryLoading := false;
    t.summaryFailed := false;
    var initial := InitialPage(restored, |t.pages|);
    t.selectedPage := initial;
    t.activePage := initial;
    t.zoom := 1.0;
    t.ResetPageRenderState();
    if t.pages != [] {
      t.suppressDisplayScrollSyncOnce := true;
    }
  }

  /** A failed parse: no pages, the tab marked failed. */
  method ApplyFailed(t: PdfTab)
    requires t.selection.Valid()
    modifies t`pages, t`summaryLoaded, t`summaryLoading, t`summaryFailed, t`selectedPage, t`activePage
    modifies t`zoom, t`thumbnailLane, t`displayLane, t.selection
    ensures !t.summaryLoading && t.zoom == 1.0
    ensures t.thumbnailLane == ResetLane(old(t.thumbnailLane)) && t.displayLane == ResetLane(old(t.displayLane))
    ensures t.selection.Valid() && t.selection.caches == map[] && t.selection.currentSelection == None
    ensures t.pages == [] && !t.summaryLoaded && t.summaryFailed && t.selectedPage == 0 && t.activePage == 0
  {
    t.pages := [];
    t.summaryLoaded := false;
    t.summaryLoading := false;
    t.summaryFailed := true;
    t.selectedPage := 0;
    t.activePage := 0;
    t.zoom := 1.0;
    t.ResetPageRenderState();
  }

  /** The tab-level part of a finished load: the sorted pages and the
      initial page on success, an empty failed tab otherwise. */
  method ApplySummary(t: PdfTab, parsed: Option<seq<PageSummary>>, restored: Option<nat>)
    requires t.selection.Valid()
    modifies t`pages, t`summaryLoaded, t`summaryLoading, t`summaryFailed, t`selectedPage, t`activePage
    modifies t`zoom, t`suppressDisplayScrollSyncOnce, t`thumbnailLane, t`displayLane, t.selection
    ensures !t.summaryLoading && t.zoom == 1.0
    ensures t.thumbnailLane == ResetLane(old(t.thumbnailLane)) && t.displayLane == ResetLane(old(t.displayLane))
    ensures t.selection.Valid() && t.selection.caches == map[] && t.selection.currentSelection == None
    ensures parsed.Some? ==>
      && t.pages == SortPagesByIndex(parsed.value) && t.summaryLoaded && !t.summaryFailed
      && t.selectedPage == InitialPage(restored, |parsed.value|) && t.activePage == t.selectedPage
      && t.suppressDisplayScrollSyncOnce == (parsed.value != [] || old(t.suppressDisplayScrollSyncOnce))
    ensures parsed.None? ==>
      && t.pages == [] && !t.summaryLoaded && t.summaryFailed && t.selectedPage == 0 && t.activePage == 0
      && t.suppressDisplayScrollSyncOnce == old(t.suppressDisplayScrollSyncOnce)
  {
    match parsed
    case Some(pages) => ApplyParsed(t, pages, restored);
    case None => ApplyFailed(t);
  }

  /** Whether a finished load is for a tab that has since been given another
      path; such a result is dropped without any other effect. */
  ghost predicate Stale(tabs: seq<PdfTab>, tabId: nat, path: Path)
    reads tabs
  {
    IndexOf(tabs, tabId).Some? && tabs[IndexOf(tabs, tabId).value].path != Some(path)
  }

  /** The state a finished load leaves its tab in: the sorted pages and the
      initial page on success, an empty failed tab otherwise. */
  ghost predicate Finished(t: PdfTab, path: Path, parsed: Option<seq<PageSummary>>, restored: Option<nat>)
    reads t
  {
    && t.path == Some(path) && !t.summaryLoading
    && (parsed.Some? ==>
          && t.pages == SortPagesByIndex(parsed.value) && t.summaryLoaded && !t.summaryFailed
          && t.activePage == InitialPage(restored, |parsed.value|) && t.selectedPage == t.activePage)
    && (parsed.None? ==> t.pages == [] && !t.summaryLoaded && t.summaryFailed && t.activePage == 0 && t.selectedPage == 0)
  }

  /** What became of a finished load at the tab bar. */
  datatype LoadOutcome = TabClosed | StaleResult | Applied(index: nat)

  /** An applied result sits in the tab with the given id, which holds the
      finished state; a failed load leaves the path pending, so switching
      to the tab retries it, and a successful one does not. */
  ghost predicate LoadApplied(tabs: seq<PdfTab>, outcome: LoadOutcome, tabId: nat, path: Path,
                              parsed: Option<seq<PageSummary>>, restored: Option<nat>)
    reads tabs
  {
    outcome.Applied? ==>
      && outcome.index < |tabs| && tabs[outcome.index].id == tabId
      && Finished(tabs[outcome.index], path, parsed, restored)
      && PendingLoadPath(tabs, tabId) == (if parsed.Some? then None else Some(path))
  }

  /** The tab-bar part of the update closure: a closed tab and a stale
      result leave the tabs alone, otherwise the tab takes the result. */
  method ApplyLoadResult(v: PdfViewer, tabId: nat, path: Path, parsed: Option<seq<PageSummary>>, restored: Option<nat>)
    returns (outcome: LoadOutcome)
    requires v.Valid()
    modifies v.tabBar.tabs, Selections(v.tabBar.tabs)
    ensures v.Valid() && v.tabBar.tabs == old(v.tabBar.tabs)
    ensures outcome == TabClosed <==> !HasId(v.tabBar.tabs, tabId)
    ensures outcome == StaleResult <==> old(Stale(v.tabBar.tabs, tabId, path))
    ensures !outcome.Applied? ==> unchanged(v.tabBar.tabs)
    ensures LoadApplied(v.tabBar.tabs, outcome, tabId, path, parsed, restored)
    ensures forall k :: 0 <= k < |v.tabBar.tabs| && v.tabBar.tabs[k].id != tabId ==> unchanged(v.tabBar.tabs[k])
  {
    var index := v.tabBar.TabIndexById(tabId);
    if index.None? {
      return TabClosed;
    }
    var t := v.tabBar.tabs[index.value];
    if t.path != Some(path) {
      return StaleResult;
    }
    ApplySummary(t, parsed, restored);
    outcome := Applied(index.value);
  }

  /** The store writes of the update closure: the recent files when asked,
      then the open tabs; the tabs themselves are left alone. */
  method PersistAfterLoad(v: PdfViewer, path: Path, rememberRecentFile: bool)
    requires v.Valid()
    modifies v.openTabsStore, v`recentFiles, v.recentStore
    ensures v.Valid()
    ensures Persistence.OpenTabsPersisted(v)
    ensures v.recentFiles == if rememberRecentFile then Persistence.Remembered(old(v.recentFiles), path) else old(v.recentFiles)
    ensures v.tabBar.tabs == old(v.tabBar.tabs) && unchanged(v.tabBar.tabs)
  {
    if rememberRecentFile {
      Persistence.RememberRecentFile(v, path);
    }
    Persistence.PersistOpenTabs(v);
  }

  /** The update closure of `load_pdf_path_into_tab`. A stale result
      changes nothing. Otherwise the tab (if still open) takes the result,
      a successful load is remembered as a recent file when asked, and the
      open tabs are written out. A failed load leaves the path pending, so
      switching to the tab retries it; a successful one does not. */
  method FinishLoad(v: PdfViewer, tabId: nat, path: Path, parsed: Option<seq<PageSummary>>, rememberRecentFile: bool)
    returns (outcome: LoadOutcome)
    requires v.Valid()
    modifies v.tabBar.tabs, Selections(v.tabBar.tabs), v.openTabsStore, v`recentFiles, v.recentStore
    ensures v.Valid()
    ensures outcome == TabClosed <==> !HasId(v.tabBar.tabs, tabId)
    ensures outcome == StaleResult <==> old(Stale(v.tabBar.tabs, tabId, path))
    ensures outcome == StaleResult ==> unchanged(v.tabBar.tabs) && unchanged(v.openTabsStore) && unchanged(v.recentStore)
    ensures outcome != StaleResult ==> Persistence.OpenTabsPersisted(v)
    ensures LoadApplied(v.tabBar.tabs, outcome, tabId, path, parsed, old(Persistence.LoadSavedFilePosition(v, path)))
    ensures v.recentFiles ==
      if outcome.Applied? && parsed.Some? && rememberRecentFile
      then Persistence.Remembered(old(v.recentFiles), path) else old(v.recentFiles)
  {
    var restored := Persistence.LoadSavedFilePosition(v, path);
    outcome := ApplyLoadResult(v, tabId, path, parsed, restored);
    if outcome != StaleResult {
      ghost var t: PdfTab? := if outcome.Applied? then v.tabBar.tabs[outcome.index] else null;
      ghost var finished := t != null && Finished(t, path, parsed, restored);
      PersistAfterLoad(v, path, outcome.Applied? && parsed.Some? && rememberRecentFile);
      assert t != null ==> finished == Finished(t, path, parsed, restored);
    }
  }

  /** `load_tab_if_needed`: starts a load exactly when the tab has a pending
      path, and reports whether it did. */
  method LoadTabIfNeeded(v: PdfViewer, tabId: nat) returns (loading: bool)
    requires v.Valid()
    modifies LoadFrame(v.tabBar.tabs, tabId), v.openTabsStore
    ensures v.Valid()
    ensures loading <==> old(PendingLoadPath(v.tabBar.tabs, tabId)).Some?
    ensures !loading ==> unchanged(v.tabBar.tabs) && unchanged(v.openTabsStore)
    ensures loading ==> Loading(v.tabBar.tabs[IndexOf(v.tabBar.tabs, tabId).value], old(PendingLoadPath(v.tabBar.tabs, tabId)).value)
    ensures loading ==> Persistence.OpenTabsPersisted(v)
    ensures unchanged(v.tabBar)
  {
    var path := PendingLoadPath(v.tabBar.tabs, tabId);
    if path.None? {
      return false;
    }
    var _ := BeginLoad(v, tabId, path.value);
    loading := true;
  }

  /** The first restored entry for the given tab id, if any. */
  function RestoreEntry(toRestore: seq<(nat, Path)>, tabId: Option<nat>): (r: Option<Path>)
    ensures r.Some? ==> exists i :: 0 <= i < |toRestore| && Some(toRestore[i].0) == tabId && toRestore[i].1 == r.value
    ensures r.None? ==> forall i :: 0 <= i < |toRestore| ==> Some(toRestore[i].0) != tabId
  {
    if toRestore == [] then None
    else if Some(toRestore[0].0) == tabId then Some(toRestore[0].1)
    else
      var r := RestoreEntry(toRestore[1..], tabId);
      assert forall i :: 1 <= i < |toRestore| ==> toRestore[i] == toRestore[1..][i - 1];
      r
  }

  /** With ids 1, 2, ... in order, the entry for id `k + 1` is the k-th. */
  lemma {:induction false} RestoreEntryOfId(toRestore: seq<(nat, Path)>, k: nat)
    requires forall j :: 0 <= j < |toRestore| ==> toRestore[j].0 == j + 1
    requires k < |toRestore|
    ensures RestoreEntry(toRestore, Some(k + 1)) == Some(toRestore[k].1)
  {
    var r := RestoreEntry(toRestore, Some(k + 1));
    assert Some(toRestore[k].0) == Some(k + 1);
    if r.Some? {
      var i :| 0 <= i < |toRestore| && Some(toRestore[i].0) == Some(k + 1) && toRestore[i].1 == r.value;
      assert i == k;
    }
  }

  /** `restore_open_tabs`: only the active tab starts loading; the others
      load when they are switched to. */
  method RestoreOpenTabs(v: PdfViewer, toRestore: seq<(nat, Path)>)
    requires v.Valid()
    modifies ActiveLoadFrame(v), v.openTabsStore
    ensures v.Valid()
    ensures unchanged(v.tabBar)
    ensures toRestore == [] ==> unchanged(v.tabBar.tabs)
    ensures RestoreEntry(toRestore, v.tabBar.activeTabId).None? ==>
      unchanged(v.tabBar.tabs) && unchanged(v.openTabsStore)
    ensures RestoreEntry(toRestore, v.tabBar.activeTabId).Some? ==>
      && Loading(v.ActiveTab().value, RestoreEntry(toRestore, v.tabBar.activeTabId).value)
      && Persistence.OpenTabsPersisted(v)
    ensures old(Persistence.OpenTabsPersisted(v)) ==> Persistence.OpenTabsPersisted(v)
  {
    var activeTabId := v.tabBar.activeTabId;
    var found: Option<Path> := None;
    var i := 0;
    while i < |toRestore| && found.None?
      invariant 0 <= i <= |toRestore|
      invariant found.None? ==> RestoreEntry(toRestore, activeTabId) == RestoreEntry(toRestore[i..], activeTabId)
      invariant found.Some? ==> RestoreEntry(toRestore, activeTabId) == found
    {
      assert toRestore[i..][1..] == toRestore[i + 1..];
      if Some(toRestore[i].0) == activeTabId {
        found := Some(toRestore[i].1);
      }
      i := i + 1;
    }
    if found.Some? {
      var _ := BeginLoad(v, activeTabId.value, found.value);
    }
  }

  /** The viewer over the restored tab bar and the values read from the
      trees, in its initial interface state. */
  method Construct(
    language: I18n.Language, bar: TabBar,
    recentStore: Sled.Tree, positionStore: Sled.Tree, openTabsStore: Sled.Tree,
    titlebarPreferencesStore: Sled.Tree, themePreferencesStore: Sled.Tree,
    bookmarksStore: Sled.Tree, notesStore: Sled.Tree, textMarkupsStore: Sled.Tree,
    serializeNote: MarkdownNoteEntry -> Option<Sled.Value>,
    serializeMarkup: TextMarkupEntry -> Option<Sled.Value>,
    canonicalize: Path -> Option<Path>,
    themeMode: ThemeMode, lightName: Option<string>, darkName: Option<string>,
    titlebarPreferences: TitleBarVisibilityPreferences, recentFiles: seq<Path>,
    bookmarks: seq<BookmarkEntry>, markdownNotes: seq<MarkdownNoteEntry>, textMarkups: seq<TextMarkupEntry>)
    returns (v: PdfViewer)
    requires bar.Valid() && AllSelectionsValid(bar.tabs)
    requires recentStore.Valid() && positionStore.Valid() && openTabsStore.Valid()
    requires titlebarPreferencesStore.Valid() && themePreferencesStore.Valid()
    requires bookmarksStore.Valid() && notesStore.Valid() && textMarkupsStore.Valid()
    ensures fresh(v) && v.Valid() && v.tabBar == bar
    ensures unchanged(bar, bar.tabs, Selections(bar.tabs))
    ensures v.recentStore == recentStore && v.positionStore == positionStore && v.openTabsStore == openTabsStore
    ensures v.recentFiles == recentFiles && v.titlebarPreferences == titlebarPreferences
    ensures (v.themeMode, v.preferredLightThemeName, v.preferredDarkThemeName) == (themeMode, lightName, darkName)
    ensures v.bookmarks == bookmarks && v.markdownNotes == markdownNotes && v.textMarkups == textMarkups
  {
    v := new PdfViewer(language, bar, recentStore, positionStore, openTabsStore,
      titlebarPreferencesStore, themePreferencesStore, bookmarksStore, notesStore, textMarkupsStore,
      serializeNote, serializeMarkup, canonicalize, themeMode, lightName, darkName,
      titlebarPreferences, recentFiles, bookmarks, markdownNotes, textMarkups);
  }

  /** The first part of `PdfViewer::new`: every tree is read and the tab
      bar is rebuilt from the saved open tabs. */
  method Build(
    language: I18n.Language, appearance: ThemeMode, pathExists: Path -> bool,
    recentStore: Sled.Tree, positionStore: Sled.Tree, openTabsStore: Sled.Tree,
    titlebarPreferencesStore: Sled.Tree, themePreferencesStore: Sled.Tree,
    bookmarksStore: Sled.Tree, notesStore: Sled.Tree, textMarkupsStore: Sled.Tree,
    serializeNote: MarkdownNoteEntry -> Option<Sled.Value>,
    serializeMarkup: TextMarkupEntry -> Option<Sled.Value>,
    deserializeNote: Sled.Value -> Option<StoredMarkdownNote>,
    deserializeMarkup: Sled.Value -> Option<StoredTextMarkup>,
    canonicalize: Path -> Option<Path>)
    returns (v: PdfViewer, toRestore: seq<(nat, Path)>)
    requires recentStore.Valid() && positionStore.Valid() && openTabsStore.Valid()
    requires titlebarPreferencesStore.Valid() && themePreferencesStore.Valid()
    requires bookmarksStore.Valid() && notesStore.Valid() && textMarkupsStore.Valid()
    ensures fresh(v) && fresh(v.tabBar) && v.Valid()
    ensures forall k :: 0 <= k < |v.tabBar.tabs| ==> fresh(v.tabBar.tabs[k]) && fresh(v.tabBar.tabs[k].selection)
    ensures v.openTabsStore == openTabsStore && v.positionStore == positionStore && v.recentStore == recentStore
    ensures v.recentFiles == Store.Take(Store.RecentValues(recentStore.entries), Store.MAX_RECENT_FILES)
    ensures v.titlebarPreferences == Store.LoadTitlebarPreferences(titlebarPreferencesStore)
    ensures (v.themeMode, v.preferredLightThemeName, v.preferredDarkThemeName)
         == Store.LoadThemePreferences(themePreferencesStore, appearance)
    ensures v.bookmarks == Store.Values(Store.Indexed(bookmarksStore.entries, Store.DecodeBookmark))
    ensures v.markdownNotes == Store.Values(Store.Indexed(notesStore.entries, Store.NoteDecoder(deserializeNote)))
    ensures v.textMarkups == Store.Values(Store.Indexed(textMarkupsStore.entries, Store.MarkupDecoder(deserializeMarkup)))
    ensures var saved := Store.OpenTabsLoaded(openTabsStore.entries);
      && RestoredPaths(toRestore) == Existing(saved.0, pathExists)
      && (toRestore == [] ==> |v.tabBar.tabs| == 1 && v.tabBar.tabs[0].path == None)
      && (toRestore != [] ==> RestoredTabs(v.tabBar.tabs, toRestore))
      && (toRestore != [] ==>
            v.tabBar.activeTabId == Some(toRestore[TargetActiveIndex(saved.1, |toRestore|)].0))
  {
    var recentFiles := Store.LoadRecentFiles(recentStore);
    var savedPaths, savedActive := Store.LoadOpenTabs(openTabsStore);
    var titlebarPreferences := Store.LoadTitlebarPreferences(titlebarPreferencesStore);
    var (themeMode, lightName, darkName) := Store.LoadThemePreferences(themePreferencesStore, appearance);
    var bookmarks := Store.LoadBookmarks(bookmarksStore);
    var markdownNotes := Store.LoadMarkdownNotes(notesStore, deserializeNote);
    var textMarkups := Store.LoadTextMarkups(textMarkupsStore, deserializeMarkup);
    var bar;
    bar, toRestore := RestoreTabBar(savedPaths, savedActive, pathExists);
    v := Construct(language, bar, recentStore, positionStore, openTabsStore,
      titlebarPreferencesStore, themePreferencesStore, bookmarksStore, notesStore, textMarkupsStore,
      serializeNote, serializeMarkup, canonicalize, themeMode, lightName, darkName,
      titlebarPreferences, recentFiles, bookmarks, markdownNotes, textMarkups);
  }

  /** The last part of `PdfViewer::new`: the open tabs are written back
      and the active restored tab starts loading. */
  method Start(v: PdfViewer, toRestore: seq<(nat, Path)>)
    requires v.Valid()
    modifies v.tabBar.tabs, Selections(v.tabBar.tabs), v.openTabsStore
    ensures v.Valid() && unchanged(v.tabBar) && Persistence.OpenTabsPersisted(v)
    ensures toRestore == [] ==> TabPathsOf(v.tabBar.tabs) == old(TabPathsOf(v.tabBar.tabs))
    ensures RestoreEntry(toRestore, v.tabBar.activeTabId).Some? ==>
      Loading(v.ActiveTab().value, RestoreEntry(toRestore, v.tabBar.activeTabId).value)
  {
    ghost var paths := TabPathsOf(v.tabBar.tabs);
    Persistence.PersistOpenTabs(v);
    assert paths == TabPathsOf(v.tabBar.tabs);
    RestoreOpenTabs(v, toRestore);
  }

  /** `PdfViewer::new`: every tree is read, the tabs are restored, the open
      tabs are written back and the active restored tab starts loading.
      `pathExists` is `Path::exists`, `appearance` the window's colour scheme. */
  method New(
    language: I18n.Language, appearance: ThemeMode, pathExists: Path -> bool,
    recentStore: Sled.Tree, positionStore: Sled.Tree, openTabsStore: Sled.Tree,
    titlebarPreferencesStore: Sled.Tree, themePreferencesStore: Sled.Tree,
    bookmarksStore: Sled.Tree, notesStore: Sled.Tree, textMarkupsStore: Sled.Tree,
    serializeNote: MarkdownNoteEntry -> Option<Sled.Value>,
    serializeMarkup: TextMarkupEntry -> Option<Sled.Value>,
    deserializeNote: Sled.Value -> Option<StoredMarkdownNote>,
    deserializeMarkup: Sled.Value -> Option<StoredTextMarkup>,
    canonicalize: Path -> Option<Path>)
    returns (v: PdfViewer)
    requires recentStore.Valid() && positionStore.Valid() && openTabsStore.Valid()
    requires titlebarPreferencesStore.Valid() && themePreferencesStore.Valid()
    requires bookmarksStore.Valid() && notesStore.Valid() && textMarkupsStore.Valid()
    modifies openTabsStore
    ensures fresh(v) && fresh(v.tabBar) && v.Valid()
    ensures v.openTabsStore == openTabsStore && v.positionStore == positionStore
    ensures Persistence.OpenTabsPersisted(v)
    ensures var saved := Store.OpenTabsLoaded(old(openTabsStore.entries));
      var restored := Existing(saved.0, pathExists);
      && (restored == [] ==> |v.tabBar.tabs| == 1 && v.tabBar.tabs[0].path == None)
      && (restored != [] ==>
            && |v.tabBar.tabs| == |restored|
            && v.tabBar.activeTabId == Some(TargetActiveIndex(saved.1, |restored|) + 1)
            && Loading(v.ActiveTab().value, restored[TargetActiveIndex(saved.1, |restored|)]))
  {
    var toRestore;
    v, toRestore := Build(language, appearance, pathExists, recentStore, positionStore, openTabsStore,
      titlebarPreferencesStore, themePreferencesStore, bookmarksStore, notesStore, textMarkupsStore,
      serializeNote, serializeMarkup, deserializeNote, deserializeMarkup, canonicalize);
    ghost var saved := Store.OpenTabsLoaded(openTabsStore.entries);
    assert saved == Store.OpenTabsLoaded(old(openTabsStore.entries));
    ghost var activeTabId := v.tabBar.activeTabId;
    ghost var entry: Option<Path> := None;
    if toRestore != [] {
      var target := TargetActiveIndex(saved.1, |toRestore|);
      RestoreEntryOfId(toRestore, target);
      entry := Some(Existing(saved.0, pathExists)[target]);
      assert activeTabId == Some(target + 1);
      assert RestoreEntry(toRestore, activeTabId) == entry;
    }
    ghost var paths := TabPathsOf(v.tabBar.tabs);
    Start(v, toRestore);
    assert v.tabBar.activeTabId == activeTabId;
    assert toRestore == [] ==> TabPathsOf(v.tabBar.tabs) == paths;
  }
}
