// The viewer-wide state of `PdfViewer` (src/pdf_viewer/mod.rs): the tab
// bar, the persistent sled trees, the loaded collections and the popup,
// dialog, menu and drag flags that the `include!`d impl blocks update.
// Scroll handles, focus handles, input entities and subscriptions are UI
// objects and are not modelled; window handles are opaque numbers.
module Viewer {
  import opened Wrappers
  import opened Types
  import opened Tab
  import TextSelection
  import I18n
  import Sled
  import Store
  import Utf8

  /** What `file_position_key` does with a path it cannot canonicalise:
      use the path itself. */
  function PositionPath(canonicalize: Path -> Option<Path>, path: Path): (p: Path)
    ensures canonicalize(path).Some? ==> p == canonicalize(path).value
    ensures canonicalize(path).None? ==> p == path
  {
    match canonicalize(path) case Some(c) => c case None => path
  }

  /** The (id, path) pairs of the tabs, in tab order, as `persist_open_tabs`
      walks them. */
  function TabPathsOf(tabs: seq<PdfTab>): (r: seq<(nat, Option<Path>)>)
    reads tabs
    ensures |r| == |tabs|
    ensures forall i :: 0 <= i < |tabs| ==> r[i] == (tabs[i].id, tabs[i].path)
  {
    if tabs == [] then []
    else TabPathsOf(tabs[..|tabs| - 1]) + [(tabs[|tabs| - 1].id, tabs[|tabs| - 1].path)]
  }

  /** The text-selection managers of the tabs. */
  function Selections(tabs: seq<PdfTab>): (r: set<TextSelection.Manager>)
    ensures forall i :: 0 <= i < |tabs| ==> tabs[i].selection in r
  {
    set i | 0 <= i < |tabs| :: tabs[i].selection
  }

  /** Every tab's selection manager keeps its invariant. */
  ghost predicate AllSelectionsValid(tabs: seq<PdfTab>)
    reads Selections(tabs)
  {
    forall i :: 0 <= i < |tabs| ==> tabs[i].selection.Valid()
  }

  predicate DistinctTrees(trees: seq<Sled.Tree>)
  {
    forall i, j :: 0 <= i < j < |trees| ==> trees[i] != trees[j]
  }

  class PdfViewer {
    const tabBar: TabBar
    const recentStore: Sled.Tree
    const positionStore: Sled.Tree
    const openTabsStore: Sled.Tree
    const titlebarPreferencesStore: Sled.Tree
    const themePreferencesStore: Sled.Tree
    const bookmarksStore: Sled.Tree
    const notesStore: Sled.Tree
    const textMarkupsStore: Sled.Tree
    /** `serde_json::to_vec` for a note and a markup; None is a failed
        serialisation, which `persist_*` skips. */
    const serializeNote: MarkdownNoteEntry -> Option<Sled.Value>
    const serializeMarkup: TextMarkupEntry -> Option<Sled.Value>
    /** `Path::canonicalize`, None when it fails. */
    const canonicalize: Path -> Option<Path>

    var language: I18n.Language
    var languagePreference: LanguagePreference
    var lastWindowSize: Option<(real, real)>
    var themeMode: ThemeMode
    var preferredLightThemeName: Option<string>
    var preferredDarkThemeName: Option<string>
    var titlebarPreferences: TitleBarVisibilityPreferences
    var tabLayoutMode: TabLayoutMode
    var recentFiles: seq<Path>
    var recentPopupOpen: bool
    var recentPopupTriggerHovered: bool
    var recentPopupTabTriggerHovered: bool
    var recentPopupPanelHovered: bool
    var recentPopupHoverEpoch: nat
    var recentPopupAnchor: Option<RecentPopupAnchor>
    var bookmarks: seq<BookmarkEntry>
    var markdownNotes: seq<MarkdownNoteEntry>
    var textMarkups: seq<TextMarkupEntry>
    var bookmarkPopupOpen: bool
    var bookmarkScope: BookmarkScope
    var bookmarkPopupTriggerHovered: bool
    var bookmarkPopupPanelHovered: bool
    var bookmarkPopupHoverEpoch: nat
    var bookmarkPopupExpandedNotes: Option<(Path, nat)>
    var noteEditorOpen: bool
    var noteEditorAnchor: Option<MarkdownNoteAnchor>
    var noteEditorEditNoteId: Option<nat>
    var noteEditorWindow: Option<nat>
    var noteEditorSession: nat
    var noteEditorNeedsFocus: bool
    var aboutDialogOpen: bool
    var settingsDialogOpen: bool
    var settingsDialogWindow: Option<nat>
    var settingsDialogSession: nat
    var updaterState: UpdaterUiState
    var dbUsageRefreshing: bool
    var dbUsageBytes: Option<nat>
    var commandPanelOpen: bool
    var commandPanelQuery: string
    var commandPanelSelectedIndex: nat
    var contextMenuOpen: bool
    var contextMenuPosition: Option<(real, real)>
    var contextMenuTabId: Option<nat>
    var contextMenuNoteAnchor: Option<MarkdownNoteAnchor>
    var contextMenuNoteId: Option<nat>
    var contextMenuTextMarkupId: Option<nat>
    var hoveredMarkdownNoteId: Option<nat>
    var hoveredTextMarkupId: Option<nat>
    var hoveredTabId: Option<nat>
    var dragState: DragState
    var dragMousePosition: Option<(real, real)>
    var pendingDragStart: Option<(nat, (real, real))>
    var textHoverTarget: Option<(nat, nat)>
    var textSelectionMarkupColor: TextMarkupColor
    var textSelectionHoverMenuOpen: bool
    var textSelectionHoverMenuPosition: Option<(real, real)>
    var textSelectionHoverMenuAnchor: Option<MarkdownNoteAnchor>
    var needsInitialFocus: bool
    var commandPanelNeedsFocus: bool
    var needsRootRefocus: bool
    var resizeRestoreEpoch: nat

    /** The tab bar keeps its invariant, every tab's selection manager
        keeps its own, and every tree is in key order. */
    ghost predicate Valid()
      reads tabBar, Selections(tabBar.tabs), Trees()
    {
      tabBar.Valid() && SelectionsValid() && TreesValid()
    }

    ghost predicate SelectionsValid()
      reads tabBar, Selections(tabBar.tabs)
    {
      AllSelectionsValid(tabBar.tabs)
    }

    /** The trees are eight different sled trees (one name each). */
    predicate TreesDistinct()
    {
      DistinctTrees([recentStore, positionStore, openTabsStore, titlebarPreferencesStore,
                     themePreferencesStore, bookmarksStore, notesStore, textMarkupsStore])
    }

    /** The persistent trees. */
    function Trees(): set<Sled.Tree>
    {
      {recentStore, positionStore, openTabsStore, titlebarPreferencesStore,
       themePreferencesStore, bookmarksStore, notesStore, textMarkupsStore}
    }

    ghost predicate TreesValid()
      reads Trees()
    {
      && recentStore.Valid() && positionStore.Valid() && openTabsStore.Valid()
      && titlebarPreferencesStore.Valid() && themePreferencesStore.Valid()
      && bookmarksStore.Valid() && notesStore.Valid() && textMarkupsStore.Valid()
    }

    /** The struct literal of `PdfViewer::new`, given the values already
        loaded from the trees and the restored tab bar. */
    constructor (
      language: I18n.Language, tabBar: TabBar,
      recentStore: Sled.Tree, positionStore: Sled.Tree, openTabsStore: Sled.Tree,
      titlebarPreferencesStore: Sled.Tree, themePreferencesStore: Sled.Tree,
      bookmarksStore: Sled.Tree, notesStore: Sled.Tree, textMarkupsStore: Sled.Tree,
      serializeNote: MarkdownNoteEntry -> Option<Sled.Value>,
      serializeMarkup: TextMarkupEntry -> Option<Sled.Value>,
      canonicalize: Path -> Option<Path>,
      themeMode: ThemeMode, preferredLightThemeName: Option<string>, preferredDarkThemeName: Option<string>,
      titlebarPreferences: TitleBarVisibilityPreferences, recentFiles: seq<Path>,
      bookmarks: seq<BookmarkEntry>, markdownNotes: seq<MarkdownNoteEntry>, textMarkups: seq<TextMarkupEntry>)
      ensures this.language == language && this.tabBar == tabBar
      ensures this.recentStore == recentStore && this.positionStore == positionStore
      ensures this.openTabsStore == openTabsStore && this.titlebarPreferencesStore == titlebarPreferencesStore
      ensures this.themePreferencesStore == themePreferencesStore && this.bookmarksStore == bookmarksStore
      ensures this.notesStore == notesStore && this.textMarkupsStore == textMarkupsStore
      ensures this.serializeNote == serializeNote && this.serializeMarkup == serializeMarkup
      ensures this.canonicalize == canonicalize
      ensures this.themeMode == themeMode && this.preferredLightThemeName == preferredLightThemeName
      ensures this.preferredDarkThemeName == preferredDarkThemeName
      ensures this.titlebarPreferences == titlebarPreferences && this.recentFiles == recentFiles
      ensures this.bookmarks == bookmarks && this.markdownNotes == markdownNotes && this.textMarkups == textMarkups
      ensures languagePreference == DEFAULT_LANGUAGE_PREFERENCE && tabLayoutMode == DEFAULT_TAB_LAYOUT_MODE
      ensures lastWindowSize == None
      ensures !recentPopupOpen && !recentPopupTriggerHovered && !recentPopupTabTriggerHovered
      ensures !recentPopupPanelHovered && recentPopupHoverEpoch == 0 && recentPopupAnchor == None
      ensures !bookmarkPopupOpen && bookmarkScope == CurrentPdf && !bookmarkPopupTriggerHovered
      ensures !bookmarkPopupPanelHovered && bookmarkPopupHoverEpoch == 0 && bookmarkPopupExpandedNotes == None
      ensures !noteEditorOpen && noteEditorAnchor == None && noteEditorEditNoteId == None
      ensures noteEditorWindow == None && noteEditorSession == 0 && !noteEditorNeedsFocus
      ensures !aboutDialogOpen && !settingsDialogOpen && settingsDialogWindow == None && settingsDialogSession == 0
      ensures updaterState == Idle && !dbUsageRefreshing && dbUsageBytes == None
      ensures !commandPanelOpen && commandPanelQuery == [] && commandPanelSelectedIndex == 0
      ensures !contextMenuOpen && contextMenuPosition == None && contextMenuTabId == None
      ensures contextMenuNoteAnchor == None && contextMenuNoteId == None && contextMenuTextMarkupId == None
      ensures hoveredMarkdownNoteId == None && hoveredTextMarkupId == None && hoveredTabId == None
      ensures dragState == NoDrag && dragMousePosition == None && pendingDragStart == None && textHoverTarget == None
      ensures textSelectionMarkupColor == DEFAULT_TEXT_MARKUP_COLOR && !textSelectionHoverMenuOpen
      ensures textSelectionHoverMenuPosition == None && textSelectionHoverMenuAnchor == None
      ensures needsInitialFocus && !commandPanelNeedsFocus && !needsRootRefocus && resizeRestoreEpoch == 0
    {
      this.language := language;
      this.tabBar := tabBar;
      this.recentStore := recentStore;
      this.positionStore := positionStore;
      this.openTabsStore := openTabsStore;
      this.titlebarPreferencesStore := titlebarPreferencesStore;
      this.themePreferencesStore := themePreferencesStore;
      this.bookmarksStore := bookmarksStore;
      this.notesStore := notesStore;
      this.textMarkupsStore := textMarkupsStore;
      this.serializeNote := serializeNote;
      this.serializeMarkup := serializeMarkup;
      this.canonicalize := canonicalize;
      this.themeMode := themeMode;
      this.preferredLightThemeName := preferredLightThemeName;
      this.preferredDarkThemeName := preferredDarkThemeName;
      this.titlebarPreferences := titlebarPreferences;
      this.recentFiles := recentFiles;
      this.bookmarks := bookmarks;
      this.markdownNotes := markdownNotes;
      this.textMarkups := textMarkups;
      languagePreference := DEFAULT_LANGUAGE_PREFERENCE;
      tabLayoutMode := DEFAULT_TAB_LAYOUT_MODE;
      lastWindowSize := None;
      recentPopupOpen := false;
      recentPopupTriggerHovered := false;
      recentPopupTabTriggerHovered := false;
      recentPopupPanelHovered := false;
      recentPopupHoverEpoch := 0;
      recentPopupAnchor := None;
      bookmarkPopupOpen := false;
      bookmarkScope := CurrentPdf;
      bookmarkPopupTriggerHovered := false;
      bookmarkPopupPanelHovered := false;
      bookmarkPopupHoverEpoch := 0;
      bookmarkPopupExpandedNotes := None;
      noteEditorOpen := false;
      noteEditorAnchor := None;
      noteEditorEditNoteId := None;
      noteEditorWindow := None;
      noteEditorSession := 0;
      noteEditorNeedsFocus := false;
      aboutDialogOpen := false;
      settingsDialogOpen := false;
      settingsDialogWindow := None;
      settingsDialogSession := 0;
      updaterState := Idle;
      dbUsageRefreshing := false;
      dbUsageBytes := None;
      commandPanelOpen := false;
      commandPanelQuery := [];
      commandPanelSelectedIndex := 0;
      contextMenuOpen := false;
      contextMenuPosition := None;
      contextMenuTabId := None;
      contextMenuNoteAnchor := None;
      contextMenuNoteId := None;
      contextMenuTextMarkupId := None;
      hoveredMarkdownNoteId := None;
      hoveredTextMarkupId := None;
      hoveredTabId := None;
      dragState := NoDrag;
      dragMousePosition := None;
      pendingDragStart := None;
      textHoverTarget := None;
      textSelectionMarkupColor := DEFAULT_TEXT_MARKUP_COLOR;
      textSelectionHoverMenuOpen := false;
      textSelectionHoverMenuPosition := None;
      textSelectionHoverMenuAnchor := None;
      needsInitialFocus := true;
      commandPanelNeedsFocus := false;
      needsRootRefocus := false;
      resizeRestoreEpoch := 0;
    }

    /** `active_tab`. */
    function ActiveTab(): (r: Option<PdfTab>)
      reads tabBar
      requires tabBar.Valid()
      ensures r.Some? <==> tabBar.activeTabId.Some?
      ensures r.Some? ==> r.value in tabBar.tabs && r.value.id == tabBar.activeTabId.value
    {
      tabBar.ActiveTab()
    }

    /** `active_tab_path`: the active tab's file, if it has one. */
    function ActiveTabPath(): (r: Option<Path>)
      reads tabBar, tabBar.tabs
      requires tabBar.Valid()
      ensures r.Some? <==> ActiveTab().Some? && ActiveTab().value.path.Some?
      ensures r.Some? ==> r == ActiveTab().value.path
    {
      match ActiveTab() case Some(t) => t.path case None => None
    }

    /** The active tab as a frame, for the methods that change only it. */
    function ActiveTabSet(): set<PdfTab>
      reads tabBar
      requires tabBar.Valid()
    {
      match ActiveTab() case Some(t) => {t} case None => {}
    }

    /** The sled key of a file's saved page: the canonical path (or the path
        itself) as UTF-8 bytes. */
    function FilePositionKey(path: Path): (k: Sled.Key)
      ensures k == Utf8.Encode(PositionPath(canonicalize, path))
    {
      Utf8.Encode(PositionPath(canonicalize, path))
    }
  }
}
