// Opening documents (src/pdf_viewer/file_actions.rs): into the current
// tab, into a new tab, from the recent-files list, and the placement of the
// files picked in the open dialog.
module FileActions {
  import opened Wrappers
  import opened Types
  import opened Tab
  import opened Viewer
  import Persistence
  import Store
  import Core
  import TabActions

  /** The tab at `k` is the one its id finds. */
  lemma IndexOfAt(tabs: seq<PdfTab>, k: nat)
    requires UniqueIds(tabs) && k < |tabs|
    ensures IndexOf(tabs, tabs[k].id) == Some(k)
  {
  }

  /** `open_pdf_path_in_new_tab`: one new tab is appended, made active and
      set loading the path; the tabs before it are kept and untouched. */
  method OpenPdfPathInNewTab(v: PdfViewer, path: Path) returns (tabId: nat)
    requires v.Valid()
    modifies v.tabBar, v.openTabsStore
    ensures v.Valid() && Persistence.OpenTabsPersisted(v)
    ensures |v.tabBar.tabs| == |old(v.tabBar.tabs)| + 1 && v.tabBar.tabs[..|old(v.tabBar.tabs)|] == old(v.tabBar.tabs)
    ensures var t := v.tabBar.tabs[|old(v.tabBar.tabs)|];
      && fresh(t) && t.id == tabId && !HasId(old(v.tabBar.tabs), tabId)
      && v.tabBar.activeTabId == Some(tabId) && Core.Loading(t, path)
  {
    ghost var before := v.tabBar.tabs;
    var t := CreateActiveTab(v);
    tabId := t.id;
    LoadNewTab(v, t, path, before);
  }

  /** `create_tab` followed by `switch_to_tab` on the new id. */
  method CreateActiveTab(v: PdfViewer) returns (t: PdfTab)
    requires v.Valid()
    modifies v.tabBar
    ensures v.Valid() && v.ActiveTab() == Some(t)
    ensures v.tabBar.tabs == old(v.tabBar.tabs) + [t] && fresh(t) && fresh(t.selection)
    ensures !HasId(old(v.tabBar.tabs), t.id)
    ensures forall i :: 0 <= i < |old(v.tabBar.tabs)| ==> old(v.tabBar.tabs)[i] != t && old(v.tabBar.tabs)[i].selection != t.selection
  {
    ghost var before := v.tabBar.tabs;
    var n := |v.tabBar.tabs|;
    TabActions.CreateHomeTab(v);
    t := v.tabBar.tabs[n];
    assert v.tabBar.tabs == before + [t];
    assert forall i :: 0 <= i < |before| ==> before[i] != t && before[i].selection != t.selection;
    var _ := v.tabBar.SwitchToTab(t.id);
    IndexOfAt(v.tabBar.tabs, n);
  }

  /** The new tab `t` set loading the path; the other tabs are untouched. */
  method LoadNewTab(v: PdfViewer, t: PdfTab, path: Path, ghost before: seq<PdfTab>)
    requires v.Valid() && v.ActiveTab() == Some(t)
    requires forall i :: 0 <= i < |before| ==> before[i] != t && before[i].selection != t.selection
    modifies t, t.selection, v.openTabsStore
    ensures v.Valid() && Persistence.OpenTabsPersisted(v)
    ensures Core.Loading(t, path) && unchanged(before)
  {
    ReloadActiveTab(v, t, path);
  }

  /** Setting the active tab `t` loading the path. */
  method ReloadActiveTab(v: PdfViewer, t: PdfTab, path: Path)
    requires v.Valid() && v.ActiveTab() == Some(t)
    modifies t, t.selection, v.openTabsStore
    ensures v.Valid() && Persistence.OpenTabsPersisted(v)
    ensures Core.Loading(t, path)
  {
    TabActions.ActiveIndex(v, t);
    var started := Core.BeginLoad(v, t.id, path);
  }

  /** `open_pdf_path_in_current_tab`: the active tab is reused; only
      without one is a tab created. Either way the tab is active and
      loading the path. */
  method OpenPdfPathInCurrentTab(v: PdfViewer, path: Path) returns (tabId: nat)
    requires v.Valid()
    modifies v.tabBar, v.tabBar.tabs, Selections(v.tabBar.tabs), v.openTabsStore
    ensures v.Valid() && Persistence.OpenTabsPersisted(v)
    ensures v.tabBar.activeTabId == Some(tabId) && ActiveLoading(v, path)
    ensures old(v.tabBar.activeTabId).Some? ==> tabId == old(v.tabBar.activeTabId).value
    ensures old(v.tabBar.activeTabId) == Some(tabId) ==>
      && v.tabBar.tabs == old(v.tabBar.tabs)
      && Core.Loading(v.tabBar.tabs[IndexOf(v.tabBar.tabs, tabId).value], path)
    ensures old(v.tabBar.activeTabId).None? ==>
      |v.tabBar.tabs| == 1 && v.tabBar.tabs[0].id == tabId && fresh(v.tabBar.tabs[0])
      && Core.Loading(v.tabBar.tabs[0], path)
  {
    var active := v.ActiveTab();
    if active.None? {
      tabId := OpenPdfPathInNewTab(v, path);
      IndexOfAt(v.tabBar.tabs, 0);
    } else {
      var t := active.value;
      tabId := t.id;
      ReloadActiveTab(v, t, path);
      TabActions.ActiveIndex(v, t);
    }
  }

  /** The id of the first tab showing `path`, as the loop in
      `open_recent_pdf` finds it. */
  function TabWithPath(tabs: seq<PdfTab>, path: Path): (r: Option<nat>)
    reads tabs
    ensures r.Some? ==> exists i :: 0 <= i < |tabs| && tabs[i].id == r.value && tabs[i].path == Some(path)
    ensures r.None? <==> forall i :: 0 <= i < |tabs| ==> tabs[i].path != Some(path)
  {
    if tabs == [] then None
    else if tabs[0].path == Some(path) then Some(tabs[0].id)
    else
      assert forall i :: 0 < i < |tabs| ==> tabs[i] == tabs[1..][i - 1];
      TabWithPath(tabs[1..], path)
  }

  /** The tab found for a path is an open tab. */
  lemma TabWithPathHasId(tabs: seq<PdfTab>, path: Path)
    requires TabWithPath(tabs, path).Some?
    ensures HasId(tabs, TabWithPath(tabs, path).value)
  {
  }

  /** The switching branch of `open_recent_pdf`: `switch_to_tab` for an
      id that is open. */
  method SwitchToOpenTab(v: PdfViewer, tabId: nat, ghost path: Path) returns (outcome: RecentOpen)
    requires v.Valid() && HasId(v.tabBar.tabs, tabId)
    modifies v`hoveredMarkdownNoteId, v.tabBar`activeTabId, v.tabBar.tabs, Selections(v.tabBar.tabs), v.openTabsStore
    ensures v.Valid() && Reopened(v, old(v.tabBar.tabs), Some(tabId), path, outcome)
  {
    var _ := TabActions.SwitchToTab(v, tabId);
    outcome := Switched(tabId);
  }

  /** The loop of `open_recent_pdf` over the tabs. */
  method FindTabWithPath(v: PdfViewer, path: Path) returns (r: Option<nat>)
    requires v.Valid()
    ensures r == TabWithPath(v.tabBar.tabs, path)
  {
    var tabs := v.tabBar.tabs;
    var i := 0;
    while i < |tabs|
      invariant 0 <= i <= |tabs|
      invariant TabWithPath(tabs[i..], path) == TabWithPath(tabs, path)
    {
      if tabs[i].path == Some(path) {
        return Some(tabs[i].id);
      }
      assert tabs[i..][1..] == tabs[i + 1..];
      i := i + 1;
    }
    return None;
  }

  /** What became of an `open_recent_pdf` request. */
  datatype RecentOpen = Forgotten | Switched(tabId: nat) | Opened(tabId: nat)

  /** What `open_recent_pdf` leaves for an existing file, given the tabs
      before and the tab `found` among them showing it: a switch to that
      tab, or one new active tab loading the file. */
  ghost predicate Reopened(v: PdfViewer, before: seq<PdfTab>, found: Option<nat>, path: Path, outcome: RecentOpen)
    reads v.tabBar, v.tabBar.tabs, v.openTabsStore
  {
    match found
    case Some(id) =>
      outcome == Switched(id) && v.tabBar.tabs == before && TabActions.SwitchedTo(v, id)
    case None =>
      && outcome.Opened?
      && |v.tabBar.tabs| == |before| + 1 && v.tabBar.tabs[..|before|] == before
      && v.tabBar.tabs[|before|].id == outcome.tabId && v.tabBar.activeTabId == Some(outcome.tabId)
      && Core.Loading(v.tabBar.tabs[|before|], path)
  }

  /** `open_recent_pdf` with the file's existence passed in: a missing file
      leaves the recent list and the list is written out, with no tab
      opened; a file already open in a tab switches to that tab; any other
      is opened in one new tab. */
  method OpenRecentPdf(v: PdfViewer, path: Path, pathExists: bool) returns (outcome: RecentOpen)
    requires v.Valid()
    modifies v`recentFiles, v.recentStore
    modifies v`hoveredMarkdownNoteId, v.tabBar, v.tabBar.tabs, Selections(v.tabBar.tabs), v.openTabsStore
    ensures v.Valid()
    ensures !pathExists ==>
      && outcome == Forgotten && v.recentFiles == Persistence.Without(old(v.recentFiles), path)
      && v.recentStore.entries == Store.Written(Store.Take(v.recentFiles, Store.MAX_RECENT_FILES), Store.PathValue)
      && unchanged(v.tabBar) && v.tabBar.tabs == old(v.tabBar.tabs)
    ensures pathExists ==>
      && Reopened(v, old(v.tabBar.tabs), old(TabWithPath(v.tabBar.tabs, path)), path, outcome)
      && v.recentFiles == old(v.recentFiles)
  {
    if !pathExists {
      ForgetRecentFile(v, path);
      return Forgotten;
    }
    outcome := SwitchOrOpen(v, path);
  }

  /** `open_recent_pdf` for a file that exists. */
  method SwitchOrOpen(v: PdfViewer, path: Path) returns (outcome: RecentOpen)
    requires v.Valid()
    modifies v`hoveredMarkdownNoteId, v.tabBar, v.tabBar.tabs, Selections(v.tabBar.tabs), v.openTabsStore
    ensures v.Valid()
    ensures Reopened(v, old(v.tabBar.tabs), old(TabWithPath(v.tabBar.tabs, path)), path, outcome)
  {
    ghost var found := TabWithPath(v.tabBar.tabs, path);
    ghost var before := v.tabBar.tabs;
    var existing := FindTabWithPath(v, path);
    assert existing == found;
    if existing.Some? {
      TabWithPathHasId(v.tabBar.tabs, path);
      outcome := SwitchToOpenTab(v, existing.value, path);
      assert Reopened(v, before, found, path, outcome);
    } else {
      outcome := OpenInNewTab(v, path);
      assert Reopened(v, before, found, path, outcome);
    }
  }

  /** The new-tab branch of `open_recent_pdf`. */
  method OpenInNewTab(v: PdfViewer, path: Path) returns (outcome: RecentOpen)
    requires v.Valid()
    modifies v.tabBar, v.openTabsStore
    ensures v.Valid()
    ensures Reopened(v, old(v.tabBar.tabs), None, path, outcome)
  {
    var tabId := OpenPdfPathInNewTab(v, path);
    outcome := Opened(tabId);
  }

  /** `recent_files.retain(|p| p != path)` followed by `persist_recent_files`. */
  method ForgetRecentFile(v: PdfViewer, path: Path)
    requires v.Valid()
    modifies v`recentFiles, v.recentStore
    ensures v.Valid()
    ensures v.recentFiles == Persistence.Without(old(v.recentFiles), path) && path !in v.recentFiles
    ensures v.recentStore.entries == Store.Written(Store.Take(v.recentFiles, Store.MAX_RECENT_FILES), Store.PathValue)
  {
    v.recentFiles := Persistence.Without(v.recentFiles, path);
    Persistence.PersistRecentFiles(v);
  }

  /** The placement rule of `open_pdf_dialog`: the first picked file goes
      into the active tab when that is an empty Home tab; this is its id. */
  function HomeTabToReuse(v: PdfViewer): (r: Option<nat>)
    reads v.tabBar, v.tabBar.tabs
    requires v.tabBar.Valid()
    ensures r.Some? <==> v.ActiveTab().Some? && v.ActiveTab().value.path.None?
    ensures r.Some? ==> r == v.tabBar.activeTabId
  {
    match v.ActiveTab()
    case Some(t) => if t.path.None? then Some(t.id) else None
    case None => None
  }

  /** Where the picked files went, `targets[j]` being the tab of the
      `j`-th: the reused Home tab `home` for the first one, if any, and a
      new tab for each other, appended in pick order after the tabs
      `before`, which stay in place (the ids of the appended tabs are the
      targets, less the first when it went to the Home tab). */
  predicate Placed(tabs: seq<PdfTab>, before: seq<PdfTab>, targets: seq<nat>, home: Option<nat>)
  {
    && |before| <= |tabs| && tabs[..|before|] == before
    && if home.Some? && targets != [] then targets[0] == home.value && Ids(tabs[|before|..]) == targets[1..]
       else Ids(tabs[|before|..]) == targets
  }

  /** The active tab is loading the given file. */
  ghost predicate ActiveLoading(v: PdfViewer, path: Path)
    reads v.tabBar, v.tabBar.tabs
    requires v.tabBar.Valid()
  {
    v.ActiveTab().Some? && Core.Loading(v.ActiveTab().value, path)
  }

  /** The file last opened by the `open_pdf_dialog` loop went to the tab
      `tabId`, which is active and loading it, and the tabs are written
      out. */
  ghost predicate LastOpened(v: PdfViewer, path: Path, tabId: nat)
    reads v.tabBar, v.tabBar.tabs, v.openTabsStore
    requires v.tabBar.Valid()
  {
    v.tabBar.activeTabId == Some(tabId) && ActiveLoading(v, path) && Persistence.OpenTabsPersisted(v)
  }

  /** The loop of `open_pdf_dialog` over the picked files, returning the
      tab each file went to: the first into the current tab when that is
      an empty Home tab, every other into a new tab; the last one opened
      ends up active. */
  method OpenPickedPaths(v: PdfViewer, paths: seq<Path>) returns (targets: seq<nat>)
    requires v.Valid()
    modifies v.tabBar, v.tabBar.tabs, Selections(v.tabBar.tabs), v.openTabsStore
    ensures v.Valid() && |targets| == |paths|
    ensures Placed(v.tabBar.tabs, old(v.tabBar.tabs), targets, old(HomeTabToReuse(v)))
    ensures paths == [] ==> v.tabBar.tabs == old(v.tabBar.tabs)
    ensures paths != [] ==> LastOpened(v, paths[|paths| - 1], targets[|paths| - 1])
  {
    if paths == [] {
      return [];
    }
    var home := HomeTabToReuse(v);
    if home.Some? {
      targets := OpenFromHome(v, paths, home);
    } else {
      targets := OpenInNewTabs(v, paths, v.tabBar.tabs, [], None);
    }
  }

  /** The `open_pdf_dialog` loop when the active tab is an empty Home tab:
      the first file goes there. */
  method OpenFromHome(v: PdfViewer, paths: seq<Path>, ghost home: Option<nat>) returns (targets: seq<nat>)
    requires v.Valid() && paths != [] && home.Some? && home == HomeTabToReuse(v)
    modifies v.tabBar, v.tabBar.tabs, Selections(v.tabBar.tabs), v.openTabsStore
    ensures v.Valid() && |targets| == |paths|
    ensures Placed(v.tabBar.tabs, old(v.tabBar.tabs), targets, home)
    ensures LastOpened(v, paths[|paths| - 1], targets[|paths| - 1])
  {
    ghost var before := v.tabBar.tabs;
    var tabId := OpenPdfPathInCurrentTab(v, paths[0]);
    assert v.tabBar.tabs == before;
    PlacedInHome(before, tabId, home);
    assert LastOpened(v, paths[0], tabId);
    targets := OpenInNewTabs(v, paths, before, [tabId], home);
  }

  /** The rest of the `open_pdf_dialog` loop, after the files `placed`
      went to their tabs, the last of them active and loading: every other
      file opens in a new tab, and the last one ends up active. */
  method OpenInNewTabs(v: PdfViewer, paths: seq<Path>, ghost before: seq<PdfTab>, placed: seq<nat>, ghost home: Option<nat>)
    returns (targets: seq<nat>)
    requires v.Valid() && paths != [] && |placed| <= |paths| && Placed(v.tabBar.tabs, before, placed, home)
    requires home.Some? ==> placed != []
    requires placed != [] ==> LastOpened(v, paths[|placed| - 1], placed[|placed| - 1])
    modifies v.tabBar, v.openTabsStore
    ensures v.Valid() && |targets| == |paths| && Placed(v.tabBar.tabs, before, targets, home)
    ensures LastOpened(v, paths[|paths| - 1], targets[|paths| - 1])
  {
    targets := placed;
    var i := |placed|;
    while i < |paths|
      invariant |placed| <= i <= |paths| && |targets| == i && v.Valid()
      invariant Placed(v.tabBar.tabs, before, targets, home)
      invariant home.Some? ==> targets != []
      invariant i > 0 ==> LastOpened(v, paths[i - 1], targets[i - 1])
    {
      targets := OpenNextInNewTab(v, paths[i], before, targets, home);
      i := i + 1;
    }
    assert i == |paths|;
  }

  /** The first file in the reused Home tab, the tabs unchanged, is
      placed. */
  lemma PlacedInHome(tabs: seq<PdfTab>, tabId: nat, home: Option<nat>)
    requires home == Some(tabId)
    ensures Placed(tabs, tabs, [tabId], home)
  {
    assert tabs[..|tabs|] == tabs;
    assert tabs[|tabs|..] == [];
  }

  /** A file of the `open_pdf_dialog` loop opened in a new tab: `next` is
      `targets` with the new tab's id appended. */
  method OpenNextInNewTab(v: PdfViewer, path: Path, ghost before: seq<PdfTab>, targets: seq<nat>, ghost home: Option<nat>)
      returns (next: seq<nat>)
    requires v.Valid() && Placed(v.tabBar.tabs, before, targets, home)
    requires home.Some? ==> targets != []
    modifies v.tabBar, v.openTabsStore
    ensures v.Valid() && |next| == |targets| + 1 && next[..|targets|] == targets
    ensures Placed(v.tabBar.tabs, before, next, home)
    ensures LastOpened(v, path, next[|targets|])
  {
    ghost var tabs := v.tabBar.tabs;
    var tabId := OpenPdfPathInNewTab(v, path);
    assert v.tabBar.tabs[..|v.tabBar.tabs| - 1] == tabs;
    IndexOfAt(v.tabBar.tabs, |tabs|);
    next := targets + [tabId];
    PlacedExtend(v.tabBar.tabs, before, targets, next, home);
    assert next[|targets|] == tabId;
  }

  /** Appending a new tab for the next file extends the placement. */
  lemma PlacedExtend(tabs: seq<PdfTab>, before: seq<PdfTab>, targets: seq<nat>, next: seq<nat>, home: Option<nat>)
    requires tabs != [] && Placed(tabs[..|tabs| - 1], before, targets, home)
    requires home.Some? ==> targets != []
    requires next == targets + [tabs[|tabs| - 1].id]
    ensures Placed(tabs, before, next, home)
  {
    var prefix := tabs[..|tabs| - 1];
    assert tabs[..|before|] == prefix[..|before|];
    var added := tabs[|before|..];
    assert added[..|added| - 1] == prefix[|before|..];
    IdsSnoc(added);
    if home.Some? {
      assert next[1..] == targets[1..] + [tabs[|tabs| - 1].id];
    }
  }

  /** The ids of tabs with one more at the end. */
  lemma IdsSnoc(tabs: seq<PdfTab>)
    requires tabs != []
    ensures Ids(tabs) == Ids(tabs[..|tabs| - 1]) + [tabs[|tabs| - 1].id]
  {
    var init := tabs[..|tabs| - 1];
    var r := Ids(init) + [tabs[|tabs| - 1].id];
    assert |Ids(tabs)| == |tabs| == |r|;
    forall i | 0 <= i < |tabs|
      ensures Ids(tabs)[i] == r[i]
    {
      if i < |init| {
        assert init[i] == tabs[i];
      }
    }
  }
}
