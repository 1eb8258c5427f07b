// The command panel (src/command_panel.rs): a searchable list of the open
// tabs, the recent files and a few menu commands. The query is trimmed and
// ASCII lower-cased; an item is listed when one of its labels contains it.
// The localised labels and whether file logging is on are passed in.
module CommandPanel {
  import opened Wrappers
  import opened Types
  import opened Tab
  import opened Viewer
  import Text
  import Paths
  import RecentBookmarkNotes
  import Bytes

  datatype MenuAction = ShowAbout | CheckForUpdates | ShowSettings | OpenLogs | EnableLogging | DisableLogging

  datatype Item =
    | OpenFile
    | MenuCommand(action: MenuAction, title: string, subtitle: string)
    | OpenTab(tabId: nat, path: Path, isActive: bool)
    | RecentFile(path: Path, lastSeenPage: Option<nat>)

  /** The localised strings the panel shows and searches: the open-file
      item's button label and prompt, and each menu command's title and
      hint. */
  datatype Labels = Labels(chooseFile: string, openPdfPrompt: string, menu: MenuAction -> (string, string))

  /** The query as the panel searches with it. */
  function NormalizeQuery(raw: string): (q: string)
    ensures |q| <= |raw|
    ensures q == [] <==> Text.AllWhitespace(raw)
  {
    Text.ToAsciiLowercase(Text.Trim(raw))
  }

  /** `query_matches_text`. */
  predicate MatchesText(query: string, text: string)
  {
    query == [] || Text.Contains(Text.ToAsciiLowercase(text), query)
  }

  /** `query_matches`: the file name or the whole path contains the query. */
  predicate MatchesPath(query: string, path: Path)
  {
    query == []
    || Text.Contains(Text.ToAsciiLowercase(Paths.DisplayFileName(path)), query)
    || Text.Contains(Text.ToAsciiLowercase(path), query)
  }

  function PathMatcher(query: string): Path -> bool
  {
    p => MatchesPath(query, p)
  }

  function TextMatcher(query: string): string -> bool
  {
    t => MatchesText(query, t)
  }

  /** The open-file item, offered only for a non-empty query. */
  function OpenFilePart(query: string, labels: Labels): (r: seq<Item>)
    ensures r == [] || r == [OpenFile]
    ensures r == [OpenFile] <==> query != [] && (MatchesText(query, labels.chooseFile) || MatchesText(query, labels.openPdfPrompt))
  {
    if query != [] && (MatchesText(query, labels.chooseFile) || MatchesText(query, labels.openPdfPrompt)) then [OpenFile]
    else []
  }

  /** `opened_file_tabs`: the (id, path) of every tab that has a file, in
      tab order. */
  function OpenedFileTabs(tabs: seq<(nat, Option<Path>)>): (r: seq<(nat, Path)>)
    ensures |r| <= |tabs|
    ensures forall e :: e in r <==> (e.0, Some(e.1)) in tabs
  {
    if tabs == [] then []
    else
      var rest := OpenedFileTabs(tabs[..|tabs| - 1]);
      var last := tabs[|tabs| - 1];
      assert forall x :: x in tabs <==> x in tabs[..|tabs| - 1] || x == last;
      match last.1
      case Some(p) => rest + [(last.0, p)]
      case None => rest
  }

  /** The tab items: the open files whose path `matches` accepts, in tab
      order, each marked active when it is the active tab. */
  function TabItems(matches: Path -> bool, openFiles: seq<(nat, Path)>, activeTabId: Option<nat>): (r: seq<Item>)
    ensures |r| <= |openFiles|
    ensures forall i :: 0 <= i < |r| ==> Rank(r[i]) == 1
    ensures forall it :: it in r ==>
      it.OpenTab? && matches(it.path) && (it.tabId, it.path) in openFiles && it.isActive == (activeTabId == Some(it.tabId))
    ensures forall e :: e in openFiles && matches(e.1) ==> OpenTab(e.0, e.1, activeTabId == Some(e.0)) in r
  {
    if openFiles == [] then []
    else
      var rest := TabItems(matches, openFiles[..|openFiles| - 1], activeTabId);
      var e := openFiles[|openFiles| - 1];
      assert forall x :: x in openFiles <==> x in openFiles[..|openFiles| - 1] || x == e;
      if matches(e.1) then rest + [OpenTab(e.0, e.1, activeTabId == Some(e.0))] else rest
  }

  /** The recent-file items: the recent files `matches` accepts and that
      no tab has open, in recent-list order. */
  function RecentItems(matches: Path -> bool, openPaths: set<Path>, recent: seq<(Path, Option<nat>)>): (r: seq<Item>)
    ensures |r| <= |recent|
    ensures forall i :: 0 <= i < |r| ==> Rank(r[i]) == 2
    ensures forall it :: it in r ==>
      it.RecentFile? && it.path !in openPaths && matches(it.path) && (it.path, it.lastSeenPage) in recent
    ensures forall e :: e in recent && e.0 !in openPaths && matches(e.0) ==> RecentFile(e.0, e.1) in r
  {
    if recent == [] then []
    else
      var rest := RecentItems(matches, openPaths, recent[..|recent| - 1]);
      var e := recent[|recent| - 1];
      assert forall x :: x in recent <==> x in recent[..|recent| - 1] || x == e;
      if e.0 !in openPaths && matches(e.0) then rest + [RecentFile(e.0, e.1)] else rest
  }

  /** The menu commands on offer: about, updates and settings, then
      open-logs and disable-logging when file logging is on, or
      enable-logging when it is off. */
  function MenuCandidates(loggingEnabled: bool): (r: seq<MenuAction>)
    ensures OpenLogs in r <==> loggingEnabled
    ensures DisableLogging in r <==> loggingEnabled
    ensures EnableLogging in r <==> !loggingEnabled
    ensures ShowAbout in r && CheckForUpdates in r && ShowSettings in r
  {
    [ShowAbout, CheckForUpdates, ShowSettings]
    + if loggingEnabled then [OpenLogs, DisableLogging] else [EnableLogging]
  }

  /** The menu items whose title or hint `matches` accepts, in order. */
  function MenuItems(matches: string -> bool, labels: Labels, actions: seq<MenuAction>): (r: seq<Item>)
    ensures |r| <= |actions|
    ensures forall i :: 0 <= i < |r| ==> Rank(r[i]) == 3
    ensures forall it :: it in r ==>
      it.MenuCommand? && it.action in actions && (it.title, it.subtitle) == labels.menu(it.action)
      && (matches(it.title) || matches(it.subtitle))
    ensures forall a :: a in actions && (matches(labels.menu(a).0) || matches(labels.menu(a).1)) ==>
      MenuCommand(a, labels.menu(a).0, labels.menu(a).1) in r
  {
    if actions == [] then []
    else
      var rest := MenuItems(matches, labels, actions[..|actions| - 1]);
      var a := actions[|actions| - 1];
      var (title, subtitle) := labels.menu(a);
      assert forall x :: x in actions <==> x in actions[..|actions| - 1] || x == a;
      if matches(title) || matches(subtitle) then rest + [MenuCommand(a, title, subtitle)]
      else rest
  }

  /** The paths of the open files. */
  function OpenPaths(openFiles: seq<(nat, Path)>): (r: set<Path>)
    ensures forall p :: p in r <==> exists e :: e in openFiles && e.1 == p
  {
    set e | e in openFiles :: e.1
  }

  /** `command_panel_items`, given the raw query, the tabs' (id, path), the
      active tab id and the recent files with their saved pages. */
  function Items(rawQuery: string, labels: Labels, tabs: seq<(nat, Option<Path>)>, activeTabId: Option<nat>,
                 recent: seq<(Path, Option<nat>)>, loggingEnabled: bool): seq<Item>
  {
    var query := NormalizeQuery(rawQuery);
    var openFiles := OpenedFileTabs(tabs);
    OpenFilePart(query, labels)
    + TabItems(PathMatcher(query), openFiles, activeTabId)
    + RecentItems(PathMatcher(query), OpenPaths(openFiles), recent)
    + MenuItems(TextMatcher(query), labels, MenuCandidates(loggingEnabled))
  }

  /** The position of an item's kind in the list. */
  function Rank(it: Item): nat
  {
    match it
    case OpenFile => 0
    case OpenTab(_, _, _) => 1
    case RecentFile(_, _) => 2
    case MenuCommand(_, _, _) => 3
  }

  /** Four runs of ranks 0, 1, 2 and 3 concatenate into a list sorted by
      rank. */
  lemma RanksConcat(a: seq<Item>, b: seq<Item>, c: seq<Item>, d: seq<Item>)
    requires forall i :: 0 <= i < |a| ==> Rank(a[i]) == 0
    requires forall i :: 0 <= i < |b| ==> Rank(b[i]) == 1
    requires forall i :: 0 <= i < |c| ==> Rank(c[i]) == 2
    requires forall i :: 0 <= i < |d| ==> Rank(d[i]) == 3
    ensures var items := a + b + c + d;
      forall i, j :: 0 <= i < j < |items| ==> Rank(items[i]) <= Rank(items[j])
  {
    var items := a + b + c + d;
    forall k | 0 <= k < |items|
      ensures Rank(items[k]) == if k < |a| then 0 else if k < |a| + |b| then 1 else if k < |a| + |b| + |c| then 2 else 3
    {
      if k < |a| { assert items[k] == a[k]; }
      else if k < |a| + |b| { assert items[k] == b[k - |a|]; }
      else if k < |a| + |b| + |c| { assert items[k] == c[k - |a| - |b|]; }
      else { assert items[k] == d[k - |a| - |b| - |c|]; }
    }
  }

  /** The list comes in four blocks: the open-file item, then open tabs,
      then recent files, then menu commands. */
  lemma ItemsInBlocks(rawQuery: string, labels: Labels, tabs: seq<(nat, Option<Path>)>, activeTabId: Option<nat>,
                      recent: seq<(Path, Option<nat>)>, loggingEnabled: bool)
    ensures var items := Items(rawQuery, labels, tabs, activeTabId, recent, loggingEnabled);
      forall i, j :: 0 <= i < j < |items| ==> Rank(items[i]) <= Rank(items[j])
  {
    var query := NormalizeQuery(rawQuery);
    var openFiles := OpenedFileTabs(tabs);
    RanksConcat(OpenFilePart(query, labels), TabItems(PathMatcher(query), openFiles, activeTabId),
      RecentItems(PathMatcher(query), OpenPaths(openFiles), recent),
      MenuItems(TextMatcher(query), labels, MenuCandidates(loggingEnabled)));
  }

  /** The open-file item is listed, and then first, exactly when the query
      is not blank and one of its two labels contains it. */
  lemma OpenFileItem(rawQuery: string, labels: Labels, tabs: seq<(nat, Option<Path>)>, activeTabId: Option<nat>,
                     recent: seq<(Path, Option<nat>)>, loggingEnabled: bool)
    ensures var items := Items(rawQuery, labels, tabs, activeTabId, recent, loggingEnabled);
      var query := NormalizeQuery(rawQuery);
      && (OpenFile in items <==> query != [] && (MatchesText(query, labels.chooseFile) || MatchesText(query, labels.openPdfPrompt)))
      && (OpenFile in items ==> items[0] == OpenFile)
  {
    var query := NormalizeQuery(rawQuery);
    var openFiles := OpenedFileTabs(tabs);
    var a := OpenFilePart(query, labels);
    var b := TabItems(PathMatcher(query), openFiles, activeTabId);
    var c := RecentItems(PathMatcher(query), OpenPaths(openFiles), recent);
    var d := MenuItems(TextMatcher(query), labels, MenuCandidates(loggingEnabled));
    assert OpenFile !in b && OpenFile !in c && OpenFile !in d;
  }

  /** With a blank query every open file, every recent file not open in a
      tab and every menu command on offer is listed. */
  lemma BlankQueryListsEverything(rawQuery: string, labels: Labels, tabs: seq<(nat, Option<Path>)>, activeTabId: Option<nat>,
                                  recent: seq<(Path, Option<nat>)>, loggingEnabled: bool)
    requires Text.AllWhitespace(rawQuery)
    ensures var items := Items(rawQuery, labels, tabs, activeTabId, recent, loggingEnabled);
      && OpenFile !in items
      && (forall id, p :: (id, Some(p)) in tabs ==> OpenTab(id, p, activeTabId == Some(id)) in items)
      && (forall e :: e in recent && (forall id :: (id, Some(e.0)) !in tabs) ==> RecentFile(e.0, e.1) in items)
      && (forall a :: a in MenuCandidates(loggingEnabled) ==> MenuCommand(a, labels.menu(a).0, labels.menu(a).1) in items)
  {
    var query := NormalizeQuery(rawQuery);
    assert query == [];
    var openFiles := OpenedFileTabs(tabs);
    var a := OpenFilePart(query, labels);
    var b := TabItems(PathMatcher(query), openFiles, activeTabId);
    var c := RecentItems(PathMatcher(query), OpenPaths(openFiles), recent);
    var d := MenuItems(TextMatcher(query), labels, MenuCandidates(loggingEnabled));
    var items := a + b + c + d;
    assert items == Items(rawQuery, labels, tabs, activeTabId, recent, loggingEnabled);
    assert a == [];
    assert OpenFile !in b && OpenFile !in c && OpenFile !in d;
    forall id, p | (id, Some(p)) in tabs ensures OpenTab(id, p, activeTabId == Some(id)) in items {
      assert (id, p) in openFiles;
      assert OpenTab(id, p, activeTabId == Some(id)) in b;
    }
    forall e | e in recent && (forall id :: (id, Some(e.0)) !in tabs) ensures RecentFile(e.0, e.1) in items {
      forall f | f in openFiles ensures f.1 != e.0 {
        assert (f.0, Some(f.1)) in tabs;
      }
      assert RecentFile(e.0, e.1) in c;
    }
    forall x | x in MenuCandidates(loggingEnabled) ensures MenuCommand(x, labels.menu(x).0, labels.menu(x).1) in items {
      assert MenuCommand(x, labels.menu(x).0, labels.menu(x).1) in d;
    }
  }

  /** A recent file that some tab has open is never listed as a recent
      file, and the logging commands follow the logging switch. */
  lemma ItemsExcludeOpenRecentFiles(rawQuery: string, labels: Labels, tabs: seq<(nat, Option<Path>)>, activeTabId: Option<nat>,
                                    recent: seq<(Path, Option<nat>)>, loggingEnabled: bool)
    ensures var items := Items(rawQuery, labels, tabs, activeTabId, recent, loggingEnabled);
      && (forall it :: it in items && it.RecentFile? ==> forall id :: (id, Some(it.path)) !in tabs)
      && (forall it :: it in items && it.MenuCommand? && (it.action == OpenLogs || it.action == DisableLogging) ==> loggingEnabled)
      && (forall it :: it in items && it.MenuCommand? && it.action == EnableLogging ==> !loggingEnabled)
  {
    var query := NormalizeQuery(rawQuery);
    var openFiles := OpenedFileTabs(tabs);
    var a := OpenFilePart(query, labels);
    var b := TabItems(PathMatcher(query), openFiles, activeTabId);
    var c := RecentItems(PathMatcher(query), OpenPaths(openFiles), recent);
    var d := MenuItems(TextMatcher(query), labels, MenuCandidates(loggingEnabled));
    var items := a + b + c + d;
    assert items == Items(rawQuery, labels, tabs, activeTabId, recent, loggingEnabled);
    forall it, id | it in items && it.RecentFile? ensures (id, Some(it.path)) !in tabs {
      assert it in c;
      assert it.path !in OpenPaths(openFiles);
      assert (id, it.path) !in openFiles;
    }
    forall it | it in items && it.MenuCommand? ensures it in d && it.action in MenuCandidates(loggingEnabled) {
      assert it !in a && it !in b && it !in c;
    }
  }

  /** The items of the viewer's panel. */
  function CommandPanelItems(v: PdfViewer, labels: Labels, loggingEnabled: bool): seq<Item>
    reads v`commandPanelQuery, v`recentFiles, v.tabBar, v.tabBar.tabs, v.positionStore
  {
    Items(v.commandPanelQuery, labels, TabPathsOf(v.tabBar.tabs), v.tabBar.activeTabId,
          RecentBookmarkNotes.RecentFilesWithPositions(v, v.recentFiles), loggingEnabled)
  }

  /** The selected index after moving by `delta` in a list of `len` items:
      the current index clamped to the list, plus `delta`, wrapped around
      (`rem_euclid`). */
  function NextSelection(current: nat, delta: int, len: nat): (r: nat)
    requires len > 0
    ensures r < len
    ensures (MinNat(current, len - 1) + delta - r) % len == 0
    ensures 0 <= MinNat(current, len - 1) + delta < len ==> r == MinNat(current, len - 1) + delta
  {
    var x := MinNat(current, len - 1) + delta;
    Bytes.DivModUnique(x / len, 0, len);
    assert x - x % len == (x / len) * len + 0;
    Bytes.DivModUnique(0, if 0 <= x < len then x else 0, len);
    x % len
  }

  /** Down from the last item wraps to the first, up from the first wraps
      to the last, and down then up returns to the (clamped) start. */
  lemma {:induction false} SelectionWraps(current: nat, len: nat)
    requires len > 0
    ensures NextSelection(len - 1, 1, len) == 0
    ensures NextSelection(0, -1, len) == len - 1
    ensures NextSelection(NextSelection(current, 1, len), -1, len) == MinNat(current, len - 1)
  {
    Bytes.DivModUnique(1, 0, len);
    Bytes.DivModUnique(-1, len - 1, len);
    var n := NextSelection(current, 1, len);
    if MinNat(current, len - 1) + 1 == len {
      assert n == 0;
    }
  }

  /** `open_command_panel`: a closed panel opens with the first item
      selected and asks for focus; an open one keeps its selection. Either
      way the recent-files and bookmark popups are shut, and the input is
      cleared, which reaches the query through the input's change
      subscription: a non-empty query becomes empty and the selection goes
      back to the first item. */
  method OpenCommandPanel(v: PdfViewer)
    requires v.Valid()
    modifies v`commandPanelOpen, v`commandPanelNeedsFocus, v`needsRootRefocus, v`commandPanelSelectedIndex, v`commandPanelQuery
    modifies v`recentPopupTriggerHovered, v`recentPopupTabTriggerHovered, v`recentPopupPanelHovered
    modifies v`recentPopupHoverEpoch, v`recentPopupAnchor, v`recentPopupOpen
    modifies v`bookmarkPopupTriggerHovered, v`bookmarkPopupPanelHovered, v`bookmarkPopupHoverEpoch, v`bookmarkPopupOpen
    ensures v.Valid()
    ensures v.commandPanelOpen && !v.recentPopupOpen && !v.bookmarkPopupOpen
    ensures v.commandPanelQuery == []
    ensures !old(v.commandPanelOpen) || old(v.commandPanelQuery) != [] ==> v.commandPanelSelectedIndex == 0
    ensures !old(v.commandPanelOpen) ==> v.commandPanelNeedsFocus && !v.needsRootRefocus
    ensures old(v.commandPanelOpen) ==>
      v.commandPanelNeedsFocus == old(v.commandPanelNeedsFocus) && v.needsRootRefocus == old(v.needsRootRefocus)
    ensures old(v.commandPanelOpen) && old(v.commandPanelQuery) == [] ==>
      v.commandPanelSelectedIndex == old(v.commandPanelSelectedIndex)
  {
    ShowCommandPanel(v);
    // Clearing the input; the popups closed after it touch neither the
    // query nor the selection.
    OnCommandPanelQueryChanged(v, []);
    ClosePopups(v);
  }

  /** The first step of `open_command_panel`: a closed panel opens with the
      first item selected and asks for focus; an open one is left alone. */
  method ShowCommandPanel(v: PdfViewer)
    modifies v`commandPanelOpen, v`commandPanelNeedsFocus, v`needsRootRefocus, v`commandPanelSelectedIndex
    ensures v.commandPanelOpen
    ensures !old(v.commandPanelOpen) ==> v.commandPanelSelectedIndex == 0 && v.commandPanelNeedsFocus && !v.needsRootRefocus
    ensures old(v.commandPanelOpen) ==> unchanged(v`commandPanelNeedsFocus, v`needsRootRefocus, v`commandPanelSelectedIndex)
  {
    if !v.commandPanelOpen {
      v.commandPanelOpen := true;
      v.commandPanelNeedsFocus := true;
      v.needsRootRefocus := false;
      v.commandPanelSelectedIndex := 0;
    }
  }

  /** The recent-files and bookmark popups shut, each only when open. */
  method ClosePopups(v: PdfViewer)
    requires v.Valid()
    modifies v`recentPopupTriggerHovered, v`recentPopupTabTriggerHovered, v`recentPopupPanelHovered
    modifies v`recentPopupHoverEpoch, v`recentPopupAnchor, v`recentPopupOpen
    modifies v`bookmarkPopupTriggerHovered, v`bookmarkPopupPanelHovered, v`bookmarkPopupHoverEpoch, v`bookmarkPopupOpen
    ensures v.Valid()
    ensures !v.recentPopupOpen && !v.bookmarkPopupOpen
  {
    if v.recentPopupOpen {
      var _ := RecentBookmarkNotes.CloseRecentPopup(v);
    }
    if v.bookmarkPopupOpen {
      var _ := RecentBookmarkNotes.CloseBookmarkPopup(v);
    }
  }

  /** `close_command_panel`: shuts an open panel and hands focus back to
      the root view; a closed panel is left alone. */
  method CloseCommandPanel(v: PdfViewer) returns (changed: bool)
    modifies v`commandPanelOpen, v`commandPanelNeedsFocus, v`needsRootRefocus
    ensures changed == old(v.commandPanelOpen)
    ensures !v.commandPanelOpen
    ensures changed ==> !v.commandPanelNeedsFocus && v.needsRootRefocus
    ensures !changed ==> v.commandPanelNeedsFocus == old(v.commandPanelNeedsFocus) && v.needsRootRefocus == old(v.needsRootRefocus)
  {
    changed := v.commandPanelOpen;
    if v.commandPanelOpen {
      v.commandPanelOpen := false;
      v.commandPanelNeedsFocus := false;
      v.needsRootRefocus := true;
    }
  }

  /** `toggle_command_panel`: an open panel is shut, a closed one opened
      (with its query cleared). */
  method ToggleCommandPanel(v: PdfViewer)
    requires v.Valid()
    modifies v`commandPanelOpen, v`commandPanelNeedsFocus, v`needsRootRefocus, v`commandPanelSelectedIndex, v`commandPanelQuery
    modifies v`recentPopupTriggerHovered, v`recentPopupTabTriggerHovered, v`recentPopupPanelHovered
    modifies v`recentPopupHoverEpoch, v`recentPopupAnchor, v`recentPopupOpen
    modifies v`bookmarkPopupTriggerHovered, v`bookmarkPopupPanelHovered, v`bookmarkPopupHoverEpoch, v`bookmarkPopupOpen
    ensures v.Valid()
    ensures v.commandPanelOpen == !old(v.commandPanelOpen)
    ensures old(v.commandPanelOpen) ==> !v.commandPanelNeedsFocus && v.needsRootRefocus
    ensures !old(v.commandPanelOpen) ==>
      && v.commandPanelQuery == [] && v.commandPanelSelectedIndex == 0
      && v.commandPanelNeedsFocus && !v.needsRootRefocus && !v.recentPopupOpen && !v.bookmarkPopupOpen
  {
    if v.commandPanelOpen {
      var _ := CloseCommandPanel(v);
    } else {
      OpenCommandPanel(v);
    }
  }

  /** The input's change subscription (src/pdf_viewer/mod.rs): a new query
      is stored and the selection goes back to the first item. */
  method OnCommandPanelQueryChanged(v: PdfViewer, next: string)
    modifies v`commandPanelQuery, v`commandPanelSelectedIndex
    ensures v.commandPanelQuery == next
    ensures next != old(v.commandPanelQuery) ==> v.commandPanelSelectedIndex == 0
    ensures next == old(v.commandPanelQuery) ==> v.commandPanelSelectedIndex == old(v.commandPanelSelectedIndex)
  {
    if v.commandPanelQuery != next {
      v.commandPanelQuery := next;
      v.commandPanelSelectedIndex := 0;
    }
  }

  /** `move_command_panel_selection`: nothing happens on an empty list;
      otherwise the selection moves by `delta` with wrap-around. */
  method MoveCommandPanelSelection(v: PdfViewer, delta: int, labels: Labels, loggingEnabled: bool)
    modifies v`commandPanelSelectedIndex
    ensures var len := old(|CommandPanelItems(v, labels, loggingEnabled)|);
      && (len == 0 ==> v.commandPanelSelectedIndex == old(v.commandPanelSelectedIndex))
      && (len > 0 ==> v.commandPanelSelectedIndex == NextSelection(old(v.commandPanelSelectedIndex), delta, len))
  {
    var len := |CommandPanelItems(v, labels, loggingEnabled)|;
    if len == 0 {
      return;
    }
    var next := NextSelection(v.commandPanelSelectedIndex, delta, len);
    if next != v.commandPanelSelectedIndex {
      v.commandPanelSelectedIndex := next;
    }
  }

  /** The item `execute_command_panel_selected` runs: none for an empty
      list, else the selected one, or the last when the selection is past
      the end. */
  function SelectedItem(items: seq<Item>, selected: nat): (r: Option<Item>)
    ensures r.None? <==> items == []
    ensures r.Some? ==> r.value in items
    ensures selected < |items| ==> r == Some(items[selected])
    ensures 0 < |items| <= selected ==> r == Some(items[|items| - 1])
  {
    if items == [] then None else Some(items[MinNat(selected, |items| - 1)])
  }

  /** What an executed item goes on to do once the panel is shut. */
  datatype FollowUp =
    | OpenPdfDialog
    | OpenAboutDialog
    | OpenAboutDialogAndCheckForUpdates
    | OpenSettingsDialog
    | OpenLogsDirectory
    | EnableFileLogging
    | DisableFileLogging
    | SwitchToTab(tabId: nat)
    | OpenRecentPdf(path: Path)

  /** `execute_command_panel_item`'s dispatch. */
  function FollowUpOf(it: Item): (r: FollowUp)
    ensures it.OpenTab? <==> r.SwitchToTab?
    ensures it.OpenTab? ==> r.tabId == it.tabId
    ensures it.RecentFile? <==> r.OpenRecentPdf?
    ensures it.RecentFile? ==> r.path == it.path
    ensures it == OpenFile <==> r == OpenPdfDialog
  {
    match it
    case OpenFile => OpenPdfDialog
    case OpenTab(id, _, _) => SwitchToTab(id)
    case RecentFile(p, _) => OpenRecentPdf(p)
    case MenuCommand(a, _, _) =>
      match a
      case ShowAbout => OpenAboutDialog
      case CheckForUpdates => OpenAboutDialogAndCheckForUpdates
      case ShowSettings => OpenSettingsDialog
      case OpenLogs => OpenLogsDirectory
      case EnableLogging => EnableFileLogging
      case DisableLogging => DisableFileLogging
  }

  /** `execute_command_panel_selected`: with no items nothing happens;
      otherwise the panel is shut and the selected item's follow-up is
      returned for the caller to run. */
  method ExecuteCommandPanelSelected(v: PdfViewer, labels: Labels, loggingEnabled: bool) returns (followUp: Option<FollowUp>)
    modifies v`commandPanelOpen, v`commandPanelNeedsFocus, v`needsRootRefocus
    ensures var items := old(CommandPanelItems(v, labels, loggingEnabled));
      && (items == [] ==> followUp == None && v.commandPanelOpen == old(v.commandPanelOpen))
      && (items != [] ==>
            !v.commandPanelOpen && followUp == Some(FollowUpOf(SelectedItem(items, old(v.commandPanelSelectedIndex)).value)))
  {
    var items := CommandPanelItems(v, labels, loggingEnabled);
    var selected := SelectedItem(items, v.commandPanelSelectedIndex);
    if selected.None? {
      followUp := None;
      return;
    }
    var _ := CloseCommandPanel(v);
    followUp := Some(FollowUpOf(selected.value));
  }
}
