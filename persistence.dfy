// The viewer's `persist_*` methods (src/pdf_viewer/core.rs), which write
// its collections into their trees, and the recent-file and saved-page
// helpers of src/pdf_viewer/tab_actions.rs, which the document loader in
// module Core calls.
module Persistence {
  import opened Wrappers
  import opened Types
  import opened Tab
  import opened Viewer
  import Sled
  import Store
  import Bytes

  /** The open-tabs tree holds the current tabs' paths and active position. */
  ghost predicate OpenTabsPersisted(v: PdfViewer)
    reads v.tabBar, v.tabBar.tabs, v.openTabsStore
  {
    var snapshot := Store.OpenTabsSnapshot(TabPathsOf(v.tabBar.tabs), v.tabBar.activeTabId);
    v.openTabsStore.entries == Store.OpenTabsWritten(snapshot.0, snapshot.1)
  }

  /** `persist_open_tabs`. */
  method PersistOpenTabs(v: PdfViewer)
    requires v.Valid()
    modifies v.openTabsStore
    ensures v.Valid()
    ensures OpenTabsPersisted(v) && unchanged(v.tabBar)
  {
    var tabs := TabPathsOf(v.tabBar.tabs);
    Store.PersistOpenTabs(v.openTabsStore, tabs, v.tabBar.activeTabId);
    assert tabs == TabPathsOf(v.tabBar.tabs);
  }

  /** `persist_bookmarks`. */
  method PersistBookmarks(v: PdfViewer)
    requires v.Valid()
    modifies v.bookmarksStore
    ensures v.Valid()
    ensures v.bookmarksStore.entries == Store.Written(v.bookmarks, Store.BookmarkValue)
  {
    Store.PersistBookmarks(v.bookmarksStore, v.bookmarks);
  }

  /** `persist_markdown_notes`. */
  method PersistMarkdownNotes(v: PdfViewer)
    requires v.Valid()
    modifies v.notesStore
    ensures v.Valid()
    ensures v.notesStore.entries == Store.Written(v.markdownNotes, v.serializeNote)
  {
    Store.PersistMarkdownNotes(v.notesStore, v.markdownNotes, v.serializeNote);
  }

  /** `persist_text_markups`. */
  method PersistTextMarkups(v: PdfViewer)
    requires v.Valid()
    modifies v.textMarkupsStore
    ensures v.Valid()
    ensures v.textMarkupsStore.entries == Store.Written(v.textMarkups, v.serializeMarkup)
  {
    Store.PersistTextMarkups(v.textMarkupsStore, v.textMarkups, v.serializeMarkup);
  }

  /** `persist_titlebar_preferences`: the preferences load back. */
  method PersistTitlebarPreferences(v: PdfViewer)
    requires v.Valid()
    modifies v.titlebarPreferencesStore
    ensures v.Valid()
    ensures Store.LoadTitlebarPreferences(v.titlebarPreferencesStore) == v.titlebarPreferences
  {
    Store.PersistTitlebarPreferences(v.titlebarPreferencesStore, v.titlebarPreferences);
  }

  /** `persist_theme_preferences`: mode and names load back. */
  method PersistThemePreferences(v: PdfViewer)
    requires v.Valid()
    modifies v.themePreferencesStore
    ensures v.Valid()
    ensures forall d :: Store.LoadThemePreferences(v.themePreferencesStore, d)
                     == (v.themeMode, Store.NonEmptyName(v.preferredLightThemeName), Store.NonEmptyName(v.preferredDarkThemeName))
  {
    Store.PersistThemePreferences(v.themePreferencesStore, v.themeMode, v.preferredLightThemeName, v.preferredDarkThemeName);
  }

  // Recent files

  /** The list without any occurrence of `x`, order kept (`Vec::retain`). */
  function Without(s: seq<Path>, x: Path): (r: seq<Path>)
    ensures x !in r && |r| <= |s|
    ensures forall y :: y in r <==> y in s && y != x
  {
    if s == [] then []
    else if s[|s| - 1] == x then Without(s[..|s| - 1], x)
    else
      assert forall y :: y in s <==> y in s[..|s| - 1] || y == s[|s| - 1];
      Without(s[..|s| - 1], x) + [s[|s| - 1]]
  }

  predicate NoDuplicates<T(==)>(s: seq<T>)
  {
    forall i, j :: 0 <= i < j < |s| ==> s[i] != s[j]
  }

  lemma {:induction false} WithoutNoDuplicates(s: seq<Path>, x: Path)
    requires NoDuplicates(s)
    ensures NoDuplicates(Without(s, x))
  {
    if s != [] {
      var init := s[..|s| - 1];
      WithoutNoDuplicates(init, x);
      if s[|s| - 1] != x {
        assert s[|s| - 1] !in init;
        assert s[|s| - 1] !in Without(init, x);
      }
    }
  }

  lemma {:induction false} WithoutAbsent(s: seq<Path>, x: Path)
    requires x !in s
    ensures Without(s, x) == s
  {
    if s != [] {
      WithoutAbsent(s[..|s| - 1], x);
    }
  }

  /** `recent_files` after `remember_recent_file(path)`. */
  function Remembered(recent: seq<Path>, path: Path): (r: seq<Path>)
    ensures r != [] && r[0] == path && |r| <= Store.MAX_RECENT_FILES
  {
    Store.Take([path] + Without(recent, path), Store.MAX_RECENT_FILES)
  }

  /** The remembered path appears once, and nothing new joins the list. */
  lemma RememberedContents(recent: seq<Path>, path: Path)
    ensures var r := Remembered(recent, path);
      && (forall i :: 1 <= i < |r| ==> r[i] != path)
      && (forall p :: p in r ==> p == path || p in recent)
  {
    var r := Remembered(recent, path);
    assert forall i :: 1 <= i < |r| ==> r[i] == Without(recent, path)[i - 1];
  }

  /** Remembering keeps a duplicate-free list duplicate-free. */
  lemma RememberedNoDuplicates(recent: seq<Path>, path: Path)
    requires NoDuplicates(recent)
    ensures NoDuplicates(Remembered(recent, path))
  {
    var w := Without(recent, path);
    WithoutNoDuplicates(recent, path);
    var r := Remembered(recent, path);
    forall i, j | 0 <= i < j < |r| ensures r[i] != r[j] {
      if i > 0 {
        assert r[i] == w[i - 1] && r[j] == w[j - 1];
      }
    }
  }

  /** The other paths keep their relative order behind the new first one. */
  lemma RememberedKeepsOrder(recent: seq<Path>, path: Path)
    ensures Remembered(recent, path)[1..] == Store.Take(Without(recent, path), Store.MAX_RECENT_FILES - 1)
  {
  }

  /** Remembering the same file twice is the same as remembering it once. */
  lemma RememberedIdempotent(recent: seq<Path>, path: Path)
    ensures Remembered(Remembered(recent, path), path) == Remembered(recent, path)
  {
    var r := Remembered(recent, path);
    var tail := r[1..];
    assert path !in tail;
    WithoutAbsent(tail, path);
    assert r == [path] + tail;
    assert Without(r, path) == Without(tail, path) by {
      WithoutPrefix(path, tail);
    }
  }

  lemma {:induction false} WithoutPrefix(x: Path, s: seq<Path>)
    ensures Without([x] + s, x) == Without(s, x)
    decreases |s|
  {
    var t := [x] + s;
    if s == [] {
      assert t[..|t| - 1] == [];
    } else {
      assert t[..|t| - 1] == [x] + s[..|s| - 1];
      assert t[|t| - 1] == s[|s| - 1];
      WithoutPrefix(x, s[..|s| - 1]);
    }
  }

  /** `persist_recent_files`. */
  method PersistRecentFiles(v: PdfViewer)
    requires v.Valid()
    modifies v.recentStore
    ensures v.Valid()
    ensures v.recentStore.entries == Store.Written(Store.Take(v.recentFiles, Store.MAX_RECENT_FILES), Store.PathValue)
  {
    Store.PersistRecentFiles(v.recentStore, v.recentFiles);
  }

  /** `remember_recent_file`: the path moves to the front, its other
      occurrences go, the list is cut to 12 and written out. */
  method RememberRecentFile(v: PdfViewer, path: Path)
    requires v.Valid()
    modifies v`recentFiles, v.recentStore
    ensures v.Valid()
    ensures v.recentFiles == Remembered(old(v.recentFiles), path)
    ensures v.recentStore.entries == Store.Written(v.recentFiles, Store.PathValue)
    ensures unchanged(v.tabBar.tabs) && unchanged(Selections(v.tabBar.tabs))
  {
    v.recentFiles := [path] + Without(v.recentFiles, path);
    v.recentFiles := Store.Take(v.recentFiles, Store.MAX_RECENT_FILES);
    PersistRecentFiles(v);
  }

  // Saved page positions

  /** `load_saved_file_position`. A `u64` always fits a 64-bit `usize`. */
  function LoadSavedFilePosition(v: PdfViewer, path: Path): (r: Option<nat>)
    reads v.positionStore
    ensures r.Some? ==> r.value < Bytes.U64_LIMIT
  {
    Store.LoadSavedFilePosition(v.positionStore, v.FilePositionKey(path))
  }

  /** `save_file_position`: the page loads back for the same path, and for
      every path with the same canonical form; other keys keep their values. */
  method SaveFilePosition(v: PdfViewer, path: Path, page: nat)
    requires v.Valid()
    modifies v.positionStore
    ensures v.Valid()
    ensures LoadSavedFilePosition(v, path) == Some(page % Bytes.U64_LIMIT)
    ensures forall q :: PositionPath(v.canonicalize, q) == PositionPath(v.canonicalize, path) ==>
      LoadSavedFilePosition(v, q) == Some(page % Bytes.U64_LIMIT)
    ensures forall k :: k != v.FilePositionKey(path) ==> v.positionStore.Get(k) == old(v.positionStore.Get(k))
  {
    Store.SaveFilePosition(v.positionStore, v.FilePositionKey(path), page);
  }

  /** What `persist_current_file_position` writes for a tab: nothing
      without pages or a path, or when the page was already recorded as
      saved; otherwise the active page clamped to the last page. */
  function PositionToSave(tab: PdfTab): (r: Option<(Path, nat)>)
    reads tab
    ensures r.Some? <==> tab.pages != [] && tab.path.Some?
                         && tab.lastSavedPosition != Some((tab.path.value, MinNat(tab.activePage, |tab.pages| - 1)))
    ensures r.Some? ==> r.value.0 == tab.path.value && r.value.1 < |tab.pages|
    ensures r.Some? && tab.activePage < |tab.pages| ==> r.value.1 == tab.activePage
    ensures r.Some? && tab.activePage >= |tab.pages| ==> r.value.1 == |tab.pages| - 1
  {
    if tab.pages == [] || tab.path.None? then None
    else
      var page := MinNat(tab.activePage, LastIndex(|tab.pages|));
      if tab.lastSavedPosition == Some((tab.path.value, page)) then None
      else Some((tab.path.value, page))
  }

  /** `persist_current_file_position`: saves the active tab's page as
      `PositionToSave` says and otherwise leaves the tree alone. */
  method PersistCurrentFilePosition(v: PdfViewer)
    requires v.Valid()
    modifies v.positionStore
    ensures v.Valid()
    ensures v.ActiveTab().Some? && PositionToSave(v.ActiveTab().value).Some? ==>
      var (path, page) := PositionToSave(v.ActiveTab().value).value;
      LoadSavedFilePosition(v, path) == Some(page % Bytes.U64_LIMIT)
    ensures v.ActiveTab().None? || PositionToSave(v.ActiveTab().value).None? ==>
      v.positionStore.entries == old(v.positionStore.entries)
  {
    var tab := v.ActiveTab();
    if tab.Some? {
      var save := PositionToSave(tab.value);
      if save.Some? {
        SaveFilePosition(v, save.value.0, save.value.1);
      }
    }
  }
}
