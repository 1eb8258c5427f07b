// The recent-files popup, bookmark and Markdown-note actions of
// src/pdf_viewer/recent_bookmark_notes.rs. The popups' delayed closes are
// timers: an update that schedules one returns the epoch it captured, and
// the timer's body is a method of its own that is given that epoch back.
module RecentBookmarkNotes {
  import opened Wrappers
  import opened Types
  import opened Tab
  import opened Viewer
  import opened SeqFilter
  import Text
  import Store
  import Persistence
  import TabActions
  import FileActions
  import PageRendering
  import Bytes
  import Recency

  // ---------------------------------------------------------------------
  // The recent-files popup

  /** Whether a trigger or the panel itself is under the mouse. */
  predicate RecentPopupHovered(v: PdfViewer)
    reads v
  {
    v.recentPopupTriggerHovered || v.recentPopupTabTriggerHovered || v.recentPopupPanelHovered
  }

  /** `recent_popup_open_for`. */
  predicate RecentPopupOpenFor(v: PdfViewer, anchor: RecentPopupAnchor)
    reads v
  {
    v.recentPopupOpen && v.recentPopupAnchor == Some(anchor)
  }

  /** The hover flag of one trigger. */
  predicate RecentTriggerHovered(v: PdfViewer, anchor: RecentPopupAnchor)
    reads v
  {
    match anchor
    case OpenButton => v.recentPopupTriggerHovered
    case TabAddButton => v.recentPopupTabTriggerHovered
  }

  /** The anchor a hovered popup takes: the tab bar's add button wins over
      the open button, and with neither hovered the popup keeps its anchor
      (the open button when it has none). */
  function DesiredAnchor(tabTriggerHovered: bool, triggerHovered: bool, current: Option<RecentPopupAnchor>): (a: RecentPopupAnchor)
    ensures tabTriggerHovered ==> a == TabAddButton
    ensures !tabTriggerHovered && triggerHovered ==> a == OpenButton
    ensures !tabTriggerHovered && !triggerHovered && current.Some? ==> a == current.value
  {
    if tabTriggerHovered then TabAddButton
    else if triggerHovered then OpenButton
    else match current case Some(c) => c case None => OpenButton
  }

  /** `update_recent_popup_visibility`: the epoch always advances. While
      anything is hovered the popup opens at the desired anchor; otherwise
      a delayed close is scheduled for the new epoch. */
  method UpdateRecentPopupVisibility(v: PdfViewer) returns (closeEpoch: Option<nat>)
    modifies v`recentPopupHoverEpoch, v`recentPopupAnchor, v`recentPopupOpen
    ensures v.recentPopupHoverEpoch == WrappingInc(old(v.recentPopupHoverEpoch))
    ensures RecentPopupHovered(v) ==>
      && closeEpoch == None && v.recentPopupOpen
      && v.recentPopupAnchor == Some(DesiredAnchor(v.recentPopupTabTriggerHovered, v.recentPopupTriggerHovered, old(v.recentPopupAnchor)))
    ensures !RecentPopupHovered(v) ==>
      && closeEpoch == Some(v.recentPopupHoverEpoch)
      && v.recentPopupOpen == old(v.recentPopupOpen) && v.recentPopupAnchor == old(v.recentPopupAnchor)
  {
    v.recentPopupHoverEpoch := WrappingInc(v.recentPopupHoverEpoch);
    if RecentPopupHovered(v) {
      var desired := DesiredAnchor(v.recentPopupTabTriggerHovered, v.recentPopupTriggerHovered, v.recentPopupAnchor);
      if v.recentPopupAnchor != Some(desired) {
        v.recentPopupAnchor := Some(desired);
      }
      if !v.recentPopupOpen {
        v.recentPopupOpen := true;
      }
      return None;
    }
    closeEpoch := Some(v.recentPopupHoverEpoch);
  }

  /** The body of the delayed close: it closes the popup only if no update
      happened since it was scheduled (the epoch is the captured one) and
      nothing is hovered. */
  method RecentPopupDelayedClose(v: PdfViewer, closeEpoch: nat) returns (closed: bool)
    modifies v`recentPopupOpen, v`recentPopupAnchor
    ensures closed <==> v.recentPopupHoverEpoch == closeEpoch && !RecentPopupHovered(v) && old(v.recentPopupOpen)
    ensures closed ==> !v.recentPopupOpen && v.recentPopupAnchor == None
    ensures !closed ==> v.recentPopupOpen == old(v.recentPopupOpen) && v.recentPopupAnchor == old(v.recentPopupAnchor)
  {
    if v.recentPopupHoverEpoch != closeEpoch || RecentPopupHovered(v) {
      return false;
    }
    closed := v.recentPopupOpen;
    if closed {
      v.recentPopupOpen := false;
      v.recentPopupAnchor := None;
    }
  }

  /** `set_recent_popup_trigger_hovered`: the trigger's flag takes the new
      value, a hovered trigger becomes the anchor, and only a change in
      either runs the visibility update. */
  method SetRecentPopupTriggerHovered(v: PdfViewer, anchor: RecentPopupAnchor, hovered: bool) returns (closeEpoch: Option<nat>)
    modifies v`recentPopupTriggerHovered, v`recentPopupTabTriggerHovered
    modifies v`recentPopupHoverEpoch, v`recentPopupAnchor, v`recentPopupOpen
    ensures RecentTriggerHovered(v, anchor) == hovered
    ensures anchor == OpenButton ==> v.recentPopupTabTriggerHovered == old(v.recentPopupTabTriggerHovered)
    ensures anchor == TabAddButton ==> v.recentPopupTriggerHovered == old(v.recentPopupTriggerHovered)
    ensures var changed := old(RecentTriggerHovered(v, anchor)) != hovered || (hovered && old(v.recentPopupAnchor) != Some(anchor));
      && (!changed ==>
            && closeEpoch == None && v.recentPopupHoverEpoch == old(v.recentPopupHoverEpoch)
            && v.recentPopupOpen == old(v.recentPopupOpen) && v.recentPopupAnchor == old(v.recentPopupAnchor))
      && (changed ==> v.recentPopupHoverEpoch == WrappingInc(old(v.recentPopupHoverEpoch)))
      && (changed && RecentPopupHovered(v) ==>
            && closeEpoch == None && v.recentPopupOpen
            && v.recentPopupAnchor == Some(DesiredAnchor(v.recentPopupTabTriggerHovered, v.recentPopupTriggerHovered,
                                                          if hovered then Some(anchor) else old(v.recentPopupAnchor))))
      && (changed && !RecentPopupHovered(v) ==>
            && closeEpoch == Some(v.recentPopupHoverEpoch)
            && v.recentPopupOpen == old(v.recentPopupOpen) && v.recentPopupAnchor == old(v.recentPopupAnchor))
  {
    var changed := false;
    match anchor {
      case OpenButton =>
        if v.recentPopupTriggerHovered != hovered {
          v.recentPopupTriggerHovered := hovered;
          changed := true;
        }
      case TabAddButton =>
        if v.recentPopupTabTriggerHovered != hovered {
          v.recentPopupTabTriggerHovered := hovered;
          changed := true;
        }
    }
    if hovered && v.recentPopupAnchor != Some(anchor) {
      v.recentPopupAnchor := Some(anchor);
      changed := true;
    }
    closeEpoch := None;
    if changed {
      closeEpoch := UpdateRecentPopupVisibility(v);
    }
  }

  /** `set_recent_popup_panel_hovered`: only a change runs the update. */
  method SetRecentPopupPanelHovered(v: PdfViewer, hovered: bool) returns (closeEpoch: Option<nat>)
    modifies v`recentPopupPanelHovered, v`recentPopupHoverEpoch, v`recentPopupAnchor, v`recentPopupOpen
    ensures v.recentPopupPanelHovered == hovered
    ensures old(v.recentPopupPanelHovered) == hovered ==>
      && closeEpoch == None && v.recentPopupHoverEpoch == old(v.recentPopupHoverEpoch)
      && v.recentPopupOpen == old(v.recentPopupOpen) && v.recentPopupAnchor == old(v.recentPopupAnchor)
    ensures old(v.recentPopupPanelHovered) != hovered ==>
      && v.recentPopupHoverEpoch == WrappingInc(old(v.recentPopupHoverEpoch))
      && (RecentPopupHovered(v) ==>
            && closeEpoch == None && v.recentPopupOpen
            && v.recentPopupAnchor == Some(DesiredAnchor(v.recentPopupTabTriggerHovered, v.recentPopupTriggerHovered, old(v.recentPopupAnchor))))
      && (!RecentPopupHovered(v) ==>
            && closeEpoch == Some(v.recentPopupHoverEpoch)
            && v.recentPopupOpen == old(v.recentPopupOpen) && v.recentPopupAnchor == old(v.recentPopupAnchor))
  {
    closeEpoch := None;
    if v.recentPopupPanelHovered != hovered {
      v.recentPopupPanelHovered := hovered;
      closeEpoch := UpdateRecentPopupVisibility(v);
    }
  }

  /** `close_recent_popup`: every hover flag is cleared, the popup is shut
      without an anchor, and the epoch advances so that a pending delayed
      close does nothing. */
  method CloseRecentPopup(v: PdfViewer) returns (changed: bool)
    requires v.Valid()
    modifies v`recentPopupTriggerHovered, v`recentPopupTabTriggerHovered, v`recentPopupPanelHovered
    modifies v`recentPopupHoverEpoch, v`recentPopupAnchor, v`recentPopupOpen
    ensures v.Valid()
    ensures RecentPopupClosed(v)
    ensures v.recentPopupHoverEpoch == WrappingInc(old(v.recentPopupHoverEpoch))
    ensures changed <==> old(RecentPopupHovered(v) || v.recentPopupOpen || v.recentPopupAnchor.Some?)
  {
    v.recentPopupHoverEpoch := WrappingInc(v.recentPopupHoverEpoch);
    changed := RecentPopupHovered(v) || v.recentPopupOpen || v.recentPopupAnchor.Some?;
    v.recentPopupTriggerHovered := false;
    v.recentPopupTabTriggerHovered := false;
    v.recentPopupPanelHovered := false;
    v.recentPopupOpen := false;
    v.recentPopupAnchor := None;
  }

  /** Nothing hovered, shut, no anchor. */
  predicate RecentPopupClosed(v: PdfViewer)
    reads v
  {
    !RecentPopupHovered(v) && !v.recentPopupOpen && v.recentPopupAnchor == None
  }

  /** A delayed close captured before a later epoch step is stale. */
  lemma StaleCloseEpoch(captured: nat)
    requires captured < U64_MODULUS
    ensures WrappingInc(captured) != captured
  {
  }

  /** `recent_files_with_positions`: each recent file with the page saved
      for it. */
  function RecentFilesWithPositions(v: PdfViewer, recentFiles: seq<Path>): (r: seq<(Path, Option<nat>)>)
    reads v.positionStore
    ensures |r| == |recentFiles|
    ensures forall i :: 0 <= i < |r| ==> r[i].0 == recentFiles[i]
    ensures forall i :: 0 <= i < |r| ==> r[i].1 == Persistence.LoadSavedFilePosition(v, recentFiles[i])
  {
    seq(|recentFiles|, i requires 0 <= i < |recentFiles| reads v.positionStore =>
      (recentFiles[i], Persistence.LoadSavedFilePosition(v, recentFiles[i])))
  }

  // ---------------------------------------------------------------------
  // Bookmarks

  /** A bookmark's identity: its file and page. */
  function Place(b: BookmarkEntry): (Path, nat)
  {
    (b.path, b.pageIndex)
  }

  /** The filter of bookmarks not at (path, page). */
  function NotAt(path: Path, page: nat): BookmarkEntry -> bool
  {
    (b: BookmarkEntry) => Place(b) != (path, page)
  }

  /** The filter of bookmarks into other files. */
  function NotOnPath(path: Path): BookmarkEntry -> bool
  {
    (b: BookmarkEntry) => b.path != path
  }

  /** The list `insert_bookmark` leaves: the entry first, then every older
      bookmark at another place, in order. */
  function Inserted(bookmarks: seq<BookmarkEntry>, entry: BookmarkEntry): (r: seq<BookmarkEntry>)
    ensures |r| >= 1 && r[0] == entry
    ensures forall i :: 0 < i < |r| ==> Place(r[i]) != Place(entry)
    ensures forall b :: b in bookmarks && Place(b) != Place(entry) ==> b in r
    ensures forall b :: b in r ==> b == entry || b in bookmarks
  {
    [entry] + Retain(bookmarks, NotAt(entry.path, entry.pageIndex))
  }

  /** Inserting keeps bookmarks unique by place, and keeps the relative
      order of the ones it retains. */
  lemma InsertKeepsPlacesUnique(bookmarks: seq<BookmarkEntry>, entry: BookmarkEntry)
    requires UniqueBy(bookmarks, Place)
    ensures UniqueBy(Inserted(bookmarks, entry), Place)
  {
    var rest := Retain(bookmarks, NotAt(entry.path, entry.pageIndex));
    RetainUniqueBy(bookmarks, NotAt(entry.path, entry.pageIndex), Place);
    var r := Inserted(bookmarks, entry);
    assert r == [entry] + rest;
    forall i, j | 0 <= i < j < |r|
      ensures Place(r[i]) != Place(r[j])
    {
      if i > 0 {
        assert r[i] == rest[i - 1] && r[j] == rest[j - 1];
      }
    }
  }

  /** Inserting at a place already bookmarked replaces that bookmark and
      changes nothing else; a new place makes the list one longer. */
  lemma InsertLength(bookmarks: seq<BookmarkEntry>, entry: BookmarkEntry)
    requires UniqueBy(bookmarks, Place)
    ensures (exists i :: 0 <= i < |bookmarks| && Place(bookmarks[i]) == Place(entry))
      ==> |Inserted(bookmarks, entry)| == |bookmarks|
    ensures (forall i :: 0 <= i < |bookmarks| ==> Place(bookmarks[i]) != Place(entry))
      ==> Inserted(bookmarks, entry) == [entry] + bookmarks
  {
    var keep := NotAt(entry.path, entry.pageIndex);
    RetainLength(bookmarks, keep);
    if i :| 0 <= i < |bookmarks| && Place(bookmarks[i]) == Place(entry) {
      forall k | 0 <= k < |bookmarks| && k != i
        ensures keep(bookmarks[k])
      {
        if k < i {
          assert Place(bookmarks[k]) != Place(bookmarks[i]);
        } else {
          assert Place(bookmarks[i]) != Place(bookmarks[k]);
        }
      }
      RetainDropsOne(bookmarks, keep, i);
    }
  }

  /** `insert_bookmark`: the entry goes first, replaces a bookmark at the
      same place, and the list is written out. */
  method InsertBookmark(v: PdfViewer, entry: BookmarkEntry)
    requires v.Valid()
    modifies v`bookmarks, v.bookmarksStore
    ensures v.Valid()
    ensures v.bookmarks == Inserted(old(v.bookmarks), entry)
    ensures v.bookmarksStore.entries == Store.Written(v.bookmarks, Store.BookmarkValue)
  {
    v.bookmarks := Retain(v.bookmarks, NotAt(entry.path, entry.pageIndex));
    v.bookmarks := [entry] + v.bookmarks;
    Persistence.PersistBookmarks(v);
  }

  /** `current_bookmark_entry`: nothing without an active tab, a path or
      pages; otherwise the active page (kept on the last page) of the
      active file, stamped with `now`. */
  function CurrentBookmarkEntry(v: PdfViewer, now: nat): (r: Option<BookmarkEntry>)
    reads v.tabBar, v.tabBar.tabs
    requires v.tabBar.Valid()
    ensures r.None? <==> v.ActiveTabPath().None? || v.ActiveTab().value.pages == []
    ensures r.Some? ==>
      var t := v.ActiveTab().value;
      && Some(r.value.path) == v.ActiveTabPath() && r.value.createdAtUnixSecs == now
      && r.value.pageIndex < |t.pages| && r.value.pageIndex <= t.activePage
      && (t.activePage < |t.pages| ==> r.value.pageIndex == t.activePage)
  {
    match v.ActiveTab()
    case None => None
    case Some(t) =>
      match t.path
      case None => None
      case Some(path) =>
        if t.pages == [] then None
        else Some(BookmarkEntry(path, MinNat(t.activePage, LastIndex(|t.pages|)), now))
  }

  /** The scope the bookmark popup opens in: the current file when there
      is one. */
  function DefaultScope(activePath: Option<Path>): (s: BookmarkScope)
    ensures s == CurrentPdf <==> activePath.Some?
  {
    if activePath.Some? then CurrentPdf else All
  }

  /** `add_current_page_bookmark_and_open`: the current page, if any, is
      bookmarked; an open recent-files popup is closed; the bookmark popup
      opens in the default scope. */
  method AddCurrentPageBookmarkAndOpen(v: PdfViewer, now: nat)
    requires v.Valid()
    modifies v`bookmarks, v.bookmarksStore
    modifies v`recentPopupTriggerHovered, v`recentPopupTabTriggerHovered, v`recentPopupPanelHovered
    modifies v`recentPopupHoverEpoch, v`recentPopupAnchor, v`recentPopupOpen
    modifies v`bookmarkScope, v`bookmarkPopupHoverEpoch, v`bookmarkPopupOpen
    ensures v.Valid()
    ensures CurrentBookmarkEntry(v, now).Some? ==>
      && v.bookmarks == Inserted(old(v.bookmarks), CurrentBookmarkEntry(v, now).value)
      && v.bookmarksStore.entries == Store.Written(v.bookmarks, Store.BookmarkValue)
    ensures CurrentBookmarkEntry(v, now).None? ==>
      v.bookmarks == old(v.bookmarks) && v.bookmarksStore.entries == old(v.bookmarksStore.entries)
    ensures old(v.recentPopupOpen) ==> RecentPopupClosed(v)
    ensures !old(v.recentPopupOpen) ==>
      && v.recentPopupOpen == old(v.recentPopupOpen) && v.recentPopupAnchor == old(v.recentPopupAnchor)
      && v.recentPopupHoverEpoch == old(v.recentPopupHoverEpoch)
    ensures v.bookmarkScope == DefaultScope(v.ActiveTabPath()) && v.bookmarkPopupOpen
    ensures v.bookmarkPopupHoverEpoch == WrappingInc(old(v.bookmarkPopupHoverEpoch))
  {
    BookmarkCurrentPage(v, now);
    if v.recentPopupOpen {
      var _ := CloseRecentPopup(v);
    }
    OpenBookmarkPopup(v);
  }

  /** The start of `add_current_page_bookmark_and_open`: the current page,
      if there is one, is bookmarked. */
  method BookmarkCurrentPage(v: PdfViewer, now: nat)
    requires v.Valid()
    modifies v`bookmarks, v.bookmarksStore
    ensures v.Valid()
    ensures CurrentBookmarkEntry(v, now).Some? ==>
      && v.bookmarks == Inserted(old(v.bookmarks), CurrentBookmarkEntry(v, now).value)
      && v.bookmarksStore.entries == Store.Written(v.bookmarks, Store.BookmarkValue)
    ensures CurrentBookmarkEntry(v, now).None? ==>
      v.bookmarks == old(v.bookmarks) && v.bookmarksStore.entries == old(v.bookmarksStore.entries)
  {
    var entry := CurrentBookmarkEntry(v, now);
    if entry.Some? {
      InsertBookmark(v, entry.value);
    }
  }

  /** The end of `add_current_page_bookmark_and_open`: the bookmark popup
      opens in the default scope with a new epoch. */
  method OpenBookmarkPopup(v: PdfViewer)
    requires v.Valid()
    modifies v`bookmarkScope, v`bookmarkPopupHoverEpoch, v`bookmarkPopupOpen
    ensures v.Valid()
    ensures v.bookmarkScope == DefaultScope(v.ActiveTabPath()) && v.bookmarkPopupOpen
    ensures v.bookmarkPopupHoverEpoch == WrappingInc(old(v.bookmarkPopupHoverEpoch))
  {
    v.bookmarkScope := DefaultScope(v.ActiveTabPath());
    v.bookmarkPopupHoverEpoch := WrappingInc(v.bookmarkPopupHoverEpoch);
    v.bookmarkPopupOpen := true;
  }

  /** `close_bookmark_popup`. */
  method CloseBookmarkPopup(v: PdfViewer) returns (changed: bool)
    requires v.Valid()
    modifies v`bookmarkPopupTriggerHovered, v`bookmarkPopupPanelHovered, v`bookmarkPopupHoverEpoch, v`bookmarkPopupOpen
    ensures v.Valid()
    ensures BookmarkPopupClosed(v)
    ensures v.bookmarkPopupHoverEpoch == WrappingInc(old(v.bookmarkPopupHoverEpoch))
    ensures changed <==> old(BookmarkPopupHovered(v) || v.bookmarkPopupOpen)
  {
    v.bookmarkPopupHoverEpoch := WrappingInc(v.bookmarkPopupHoverEpoch);
    changed := BookmarkPopupHovered(v) || v.bookmarkPopupOpen;
    v.bookmarkPopupTriggerHovered := false;
    v.bookmarkPopupPanelHovered := false;
    v.bookmarkPopupOpen := false;
  }

  predicate BookmarkPopupHovered(v: PdfViewer)
    reads v`bookmarkPopupTriggerHovered, v`bookmarkPopupPanelHovered
  {
    v.bookmarkPopupTriggerHovered || v.bookmarkPopupPanelHovered
  }

  predicate BookmarkPopupClosed(v: PdfViewer)
    reads v`bookmarkPopupTriggerHovered, v`bookmarkPopupPanelHovered, v`bookmarkPopupOpen
  {
    !BookmarkPopupHovered(v) && !v.bookmarkPopupOpen
  }

  /** `update_bookmark_popup_visibility`: the epoch always advances. While
      anything is hovered a shut popup opens in the default scope (an open
      one keeps its scope); otherwise a delayed close is scheduled. */
  method UpdateBookmarkPopupVisibility(v: PdfViewer) returns (closeEpoch: Option<nat>)
    requires v.Valid()
    modifies v`bookmarkPopupHoverEpoch, v`bookmarkScope, v`bookmarkPopupOpen
    ensures v.bookmarkPopupHoverEpoch == WrappingInc(old(v.bookmarkPopupHoverEpoch))
    ensures BookmarkPopupHovered(v) ==>
      && closeEpoch == None && v.bookmarkPopupOpen
      && v.bookmarkScope == if old(v.bookmarkPopupOpen) then old(v.bookmarkScope) else DefaultScope(v.ActiveTabPath())
    ensures !BookmarkPopupHovered(v) ==>
      && closeEpoch == Some(v.bookmarkPopupHoverEpoch)
      && v.bookmarkPopupOpen == old(v.bookmarkPopupOpen) && v.bookmarkScope == old(v.bookmarkScope)
  {
    v.bookmarkPopupHoverEpoch := WrappingInc(v.bookmarkPopupHoverEpoch);
    if BookmarkPopupHovered(v) {
      if !v.bookmarkPopupOpen {
        v.bookmarkScope := DefaultScope(v.ActiveTabPath());
        v.bookmarkPopupOpen := true;
      }
      return None;
    }
    closeEpoch := Some(v.bookmarkPopupHoverEpoch);
  }

  /** The body of the bookmark popup's delayed close. */
  method BookmarkPopupDelayedClose(v: PdfViewer, closeEpoch: nat) returns (closed: bool)
    modifies v`bookmarkPopupOpen
    ensures closed <==> v.bookmarkPopupHoverEpoch == closeEpoch && !BookmarkPopupHovered(v) && old(v.bookmarkPopupOpen)
    ensures v.bookmarkPopupOpen == (old(v.bookmarkPopupOpen) && !closed)
  {
    if v.bookmarkPopupHoverEpoch != closeEpoch || BookmarkPopupHovered(v) {
      return false;
    }
    closed := v.bookmarkPopupOpen;
    v.bookmarkPopupOpen := false;
  }

  /** `set_bookmark_popup_trigger_hovered`: only a change runs the update. */
  method SetBookmarkPopupTriggerHovered(v: PdfViewer, hovered: bool) returns (closeEpoch: Option<nat>)
    requires v.Valid()
    modifies v`bookmarkPopupTriggerHovered, v`bookmarkPopupHoverEpoch, v`bookmarkScope, v`bookmarkPopupOpen
    ensures v.bookmarkPopupTriggerHovered == hovered
    ensures old(v.bookmarkPopupTriggerHovered) == hovered ==>
      && closeEpoch == None && v.bookmarkPopupHoverEpoch == old(v.bookmarkPopupHoverEpoch)
      && v.bookmarkPopupOpen == old(v.bookmarkPopupOpen) && v.bookmarkScope == old(v.bookmarkScope)
    ensures old(v.bookmarkPopupTriggerHovered) != hovered ==>
      && v.bookmarkPopupHoverEpoch == WrappingInc(old(v.bookmarkPopupHoverEpoch))
      && (hovered ==> closeEpoch == None && v.bookmarkPopupOpen)
      && (!BookmarkPopupHovered(v) ==> closeEpoch == Some(v.bookmarkPopupHoverEpoch) && v.bookmarkPopupOpen == old(v.bookmarkPopupOpen))
  {
    closeEpoch := None;
    if v.bookmarkPopupTriggerHovered != hovered {
      v.bookmarkPopupTriggerHovered := hovered;
      closeEpoch := UpdateBookmarkPopupVisibility(v);
    }
  }

  /** `set_bookmark_popup_panel_hovered`: only a change runs the update. */
  method SetBookmarkPopupPanelHovered(v: PdfViewer, hovered: bool) returns (closeEpoch: Option<nat>)
    requires v.Valid()
    modifies v`bookmarkPopupPanelHovered, v`bookmarkPopupHoverEpoch, v`bookmarkScope, v`bookmarkPopupOpen
    ensures v.bookmarkPopupPanelHovered == hovered
    ensures old(v.bookmarkPopupPanelHovered) == hovered ==>
      && closeEpoch == None && v.bookmarkPopupHoverEpoch == old(v.bookmarkPopupHoverEpoch)
      && v.bookmarkPopupOpen == old(v.bookmarkPopupOpen) && v.bookmarkScope == old(v.bookmarkScope)
    ensures old(v.bookmarkPopupPanelHovered) != hovered ==>
      && v.bookmarkPopupHoverEpoch == WrappingInc(old(v.bookmarkPopupHoverEpoch))
      && (hovered ==> closeEpoch == None && v.bookmarkPopupOpen)
      && (!BookmarkPopupHovered(v) ==> closeEpoch == Some(v.bookmarkPopupHoverEpoch) && v.bookmarkPopupOpen == old(v.bookmarkPopupOpen))
  {
    closeEpoch := None;
    if v.bookmarkPopupPanelHovered != hovered {
      v.bookmarkPopupPanelHovered := hovered;
      closeEpoch := UpdateBookmarkPopupVisibility(v);
    }
  }

  /** `set_bookmark_scope`: reports whether the scope changed. */
  method SetBookmarkScope(v: PdfViewer, scope: BookmarkScope) returns (changed: bool)
    modifies v`bookmarkScope
    ensures v.bookmarkScope == scope
    ensures changed <==> old(v.bookmarkScope) != scope
  {
    changed := v.bookmarkScope != scope;
    v.bookmarkScope := scope;
  }

  /** The filter of a scope: every bookmark, or those of the current file. */
  function InScope(scope: BookmarkScope, current: Option<Path>): BookmarkEntry -> bool
  {
    (b: BookmarkEntry) => scope == All || current == Some(b.path)
  }

  /** `bookmarks_for_scope`: in the `All` scope every bookmark, in order;
      in the `CurrentPdf` scope the bookmarks of the active file, in their
      order (none without one). */
  function BookmarksForScope(v: PdfViewer, scope: BookmarkScope): (r: seq<BookmarkEntry>)
    reads v, v.tabBar, v.tabBar.tabs
    requires v.tabBar.Valid()
    ensures scope == All ==> r == v.bookmarks
    ensures scope == CurrentPdf ==> forall b :: b in r <==> b in v.bookmarks && Some(b.path) == v.ActiveTabPath()
    ensures scope == CurrentPdf && v.ActiveTabPath().None? ==> r == []
  {
    RetainLength(v.bookmarks, InScope(scope, v.ActiveTabPath()));
    var r := Retain(v.bookmarks, InScope(scope, v.ActiveTabPath()));
    assert |r| > 0 ==> InScope(scope, v.ActiveTabPath())(r[0]);
    r
  }

  /** Whether `bookmarks` holds a bookmark of `page` in the file `path`. */
  predicate PageBookmarked(bookmarks: seq<BookmarkEntry>, path: Option<Path>, page: nat)
  {
    path.Some? && exists i :: 0 <= i < |bookmarks| && Place(bookmarks[i]) == (path.value, page)
  }

  /** `active_tab_page_bookmarked`. */
  predicate ActiveTabPageBookmarked(v: PdfViewer, page: nat)
    reads v, v.tabBar, v.tabBar.tabs
    requires v.tabBar.Valid()
  {
    PageBookmarked(v.bookmarks, v.ActiveTabPath(), page)
  }

  /** A page of the active file is bookmarked exactly when the current
      file's scope lists a bookmark of that page. */
  lemma BookmarkedIffListed(v: PdfViewer, page: nat)
    requires v.tabBar.Valid()
    ensures ActiveTabPageBookmarked(v, page) <==>
      exists b :: b in BookmarksForScope(v, CurrentPdf) && b.pageIndex == page
  {
    var listed := BookmarksForScope(v, CurrentPdf);
    if ActiveTabPageBookmarked(v, page) {
      var i :| 0 <= i < |v.bookmarks| && Place(v.bookmarks[i]) == (v.ActiveTabPath().value, page);
      assert v.bookmarks[i] in listed;
    }
    if b :| b in listed && b.pageIndex == page {
      var i :| 0 <= i < |v.bookmarks| && v.bookmarks[i] == b;
      assert Place(v.bookmarks[i]) == (v.ActiveTabPath().value, page);
    }
  }

  /** After bookmarking the current page, that page reads as bookmarked. */
  lemma AddedPageIsBookmarked(bookmarks: seq<BookmarkEntry>, entry: BookmarkEntry)
    ensures PageBookmarked(Inserted(bookmarks, entry), Some(entry.path), entry.pageIndex)
  {
    assert Place(Inserted(bookmarks, entry)[0]) == (entry.path, entry.pageIndex);
  }

  /** `delete_bookmark`: every bookmark at that place goes, the rest stay in
      order, and the list is written out only if one was removed. */
  method DeleteBookmark(v: PdfViewer, bookmark: BookmarkEntry) returns (persisted: bool)
    requires v.Valid()
    modifies v`bookmarks, v.bookmarksStore
    ensures v.Valid()
    ensures v.bookmarks == Retain(old(v.bookmarks), NotAt(bookmark.path, bookmark.pageIndex))
    ensures persisted <==> PageBookmarked(old(v.bookmarks), Some(bookmark.path), bookmark.pageIndex)
    ensures persisted ==> v.bookmarksStore.entries == Store.Written(v.bookmarks, Store.BookmarkValue)
    ensures !persisted ==> v.bookmarks == old(v.bookmarks) && v.bookmarksStore.entries == old(v.bookmarksStore.entries)
  {
    var originalLen := |v.bookmarks|;
    RetainLength(v.bookmarks, NotAt(bookmark.path, bookmark.pageIndex));
    v.bookmarks := Retain(v.bookmarks, NotAt(bookmark.path, bookmark.pageIndex));
    persisted := |v.bookmarks| != originalLen;
    if persisted {
      Persistence.PersistBookmarks(v);
    }
  }

  /** The missing-file branch of `open_bookmark`: every bookmark into that
      file goes, and the list is written out only if one was removed. */
  method ForgetBookmarkedFile(v: PdfViewer, path: Path) returns (persisted: bool)
    requires v.Valid()
    modifies v`bookmarks, v.bookmarksStore
    ensures v.Valid()
    ensures v.bookmarks == Retain(old(v.bookmarks), NotOnPath(path))
    ensures persisted <==> exists i :: 0 <= i < |old(v.bookmarks)| && old(v.bookmarks)[i].path == path
    ensures persisted ==> v.bookmarksStore.entries == Store.Written(v.bookmarks, Store.BookmarkValue)
    ensures !persisted ==> v.bookmarks == old(v.bookmarks) && v.bookmarksStore.entries == old(v.bookmarksStore.entries)
  {
    var originalLen := |v.bookmarks|;
    RetainLength(v.bookmarks, NotOnPath(path));
    v.bookmarks := Retain(v.bookmarks, NotOnPath(path));
    persisted := |v.bookmarks| != originalLen;
    if persisted {
      Persistence.PersistBookmarks(v);
    }
  }

  /** `open_bookmark`, with the file's existence passed in. A missing file
      loses every bookmark into it. Otherwise the bookmarked page is saved
      as the file's position; a tab already showing the file is switched
      to and, once it has pages, shows the bookmarked page (kept on the
      last page); any other file opens as a recent file does. Either way
      the bookmark popup closes. */
  method OpenBookmark(v: PdfViewer, bookmark: BookmarkEntry, pathExists: bool) returns (outcome: FileActions.RecentOpen)
    requires v.Valid()
    modifies v`bookmarks, v.bookmarksStore, v.positionStore, v`recentFiles, v.recentStore
    modifies v`hoveredMarkdownNoteId, v.tabBar, v.tabBar.tabs, Selections(v.tabBar.tabs), v.openTabsStore
    modifies v`bookmarkPopupTriggerHovered, v`bookmarkPopupPanelHovered, v`bookmarkPopupHoverEpoch, v`bookmarkPopupOpen
    ensures v.Valid()
    ensures !pathExists ==>
      && outcome == FileActions.Forgotten && v.bookmarks == Retain(old(v.bookmarks), NotOnPath(bookmark.path))
      && (v.bookmarks != old(v.bookmarks) ==> v.bookmarksStore.entries == Store.Written(v.bookmarks, Store.BookmarkValue))
      && v.tabBar.tabs == old(v.tabBar.tabs) && v.tabBar.activeTabId == old(v.tabBar.activeTabId)
    ensures pathExists ==> v.bookmarks == old(v.bookmarks) && BookmarkPopupClosed(v)
    ensures pathExists ==>
      BookmarkOpened(v, old(v.tabBar.tabs), old(FileActions.TabWithPath(v.tabBar.tabs, bookmark.path)), bookmark, outcome)
  {
    if !pathExists {
      var _ := ForgetBookmarkedFile(v, bookmark.path);
      return FileActions.Forgotten;
    }
    outcome := OpenBookmarkedFile(v, bookmark);
  }

  /** The tab `tabId`, unchanged in the tab list, is active and, if it
      shows the bookmarked file with pages, is on the bookmarked page kept
      on the last page. */
  ghost predicate Jumped(v: PdfViewer, before: seq<PdfTab>, tabId: nat, bookmark: BookmarkEntry, outcome: FileActions.RecentOpen)
    reads v.tabBar, v.tabBar.tabs
  {
    && outcome == FileActions.Switched(tabId) && v.tabBar.tabs == before
    && v.tabBar.activeTabId == Some(tabId)
    && OnBookmarkedPage(v, bookmark)
  }

  /** If the active tab shows the bookmark's file and has pages, it is on
      the bookmarked page, kept on the last page. */
  ghost predicate OnBookmarkedPage(v: PdfViewer, bookmark: BookmarkEntry)
    reads v.tabBar, v.tabBar.tabs
  {
    v.tabBar.Valid() ==>
      var t := v.ActiveTab();
      t.Some? && t.value.path == Some(bookmark.path) && t.value.pages != [] ==>
        t.value.activePage == MinNat(bookmark.pageIndex, LastIndex(|t.value.pages|))
  }

  /** What `open_bookmark` leaves for an existing file: with `found` the
      tab that showed it, that tab is jumped to; with none, the file is
      open in a new tab as a recent file is. */
  ghost predicate BookmarkOpened(v: PdfViewer, before: seq<PdfTab>, found: Option<nat>, bookmark: BookmarkEntry, outcome: FileActions.RecentOpen)
    reads v.tabBar, v.tabBar.tabs, v.openTabsStore
  {
    match found
    case Some(id) => Jumped(v, before, id, bookmark, outcome)
    case None => FileActions.Reopened(v, before, None, bookmark.path, outcome)
  }

  /** `open_bookmark` for a file that exists. */
  method OpenBookmarkedFile(v: PdfViewer, bookmark: BookmarkEntry) returns (outcome: FileActions.RecentOpen)
    requires v.Valid()
    modifies v.positionStore
    modifies v`hoveredMarkdownNoteId, v.tabBar, v.tabBar.tabs, Selections(v.tabBar.tabs), v.openTabsStore
    modifies v`bookmarkPopupTriggerHovered, v`bookmarkPopupPanelHovered, v`bookmarkPopupHoverEpoch, v`bookmarkPopupOpen
    ensures v.Valid() && BookmarkPopupClosed(v)
    ensures BookmarkOpened(v, old(v.tabBar.tabs), old(FileActions.TabWithPath(v.tabBar.tabs, bookmark.path)), bookmark, outcome)
  {
    ghost var found := FileActions.TabWithPath(v.tabBar.tabs, bookmark.path);
    SaveBookmarkedPosition(v, bookmark);
    outcome := JumpOrOpen(v, bookmark, found);
  }

  /** The bookmarked page becomes the saved position of its file; the tabs
      are untouched. */
  method SaveBookmarkedPosition(v: PdfViewer, bookmark: BookmarkEntry)
    requires v.Valid()
    modifies v.positionStore
    ensures v.Valid() && v.tabBar.tabs == old(v.tabBar.tabs)
    ensures FileActions.TabWithPath(v.tabBar.tabs, bookmark.path) == old(FileActions.TabWithPath(v.tabBar.tabs, bookmark.path))
    ensures Persistence.LoadSavedFilePosition(v, bookmark.path) == Some(bookmark.pageIndex % Bytes.U64_LIMIT)
  {
    Persistence.SaveFilePosition(v, bookmark.path, bookmark.pageIndex);
  }

  /** The tab search of `open_bookmark`: switch to the tab showing the
      file, or open the file with `open_recent_pdf`; either way the
      bookmark popup closes. */
  method JumpOrOpen(v: PdfViewer, bookmark: BookmarkEntry, ghost found: Option<nat>) returns (outcome: FileActions.RecentOpen)
    requires v.Valid() && found == FileActions.TabWithPath(v.tabBar.tabs, bookmark.path)
    modifies v.positionStore
    modifies v`hoveredMarkdownNoteId, v.tabBar, v.tabBar.tabs, Selections(v.tabBar.tabs), v.openTabsStore
    modifies v`bookmarkPopupTriggerHovered, v`bookmarkPopupPanelHovered, v`bookmarkPopupHoverEpoch, v`bookmarkPopupOpen
    ensures v.Valid() && BookmarkPopupClosed(v)
    ensures BookmarkOpened(v, old(v.tabBar.tabs), found, bookmark, outcome)
  {
    ghost var before := v.tabBar.tabs;
    var existing := FileActions.FindTabWithPath(v, bookmark.path);
    assert existing == found;
    if existing.Some? {
      FileActions.TabWithPathHasId(v.tabBar.tabs, bookmark.path);
      outcome := JumpToBookmark(v, existing.value, bookmark);
      assert Jumped(v, before, existing.value, bookmark, outcome);
    } else {
      outcome := OpenBookmarkedAsRecent(v, bookmark);
      assert FileActions.Reopened(v, before, None, bookmark.path, outcome);
    }
  }

  /** The switching branch of `open_bookmark`. */
  method JumpToBookmark(v: PdfViewer, tabId: nat, bookmark: BookmarkEntry) returns (outcome: FileActions.RecentOpen)
    requires v.Valid() && HasId(v.tabBar.tabs, tabId)
    modifies v`hoveredMarkdownNoteId, v.tabBar`activeTabId, v.tabBar.tabs, Selections(v.tabBar.tabs)
    modifies v.openTabsStore, v.positionStore
    modifies v`bookmarkPopupTriggerHovered, v`bookmarkPopupPanelHovered, v`bookmarkPopupHoverEpoch, v`bookmarkPopupOpen
    ensures v.Valid() && BookmarkPopupClosed(v)
    ensures Jumped(v, old(v.tabBar.tabs), tabId, bookmark, outcome)
  {
    outcome := SwitchToBookmarkedTab(v, tabId, bookmark);
    var _ := CloseBookmarkPopup(v);
  }

  /** `switch_to_tab`, then the bookmarked page. */
  method SwitchToBookmarkedTab(v: PdfViewer, tabId: nat, bookmark: BookmarkEntry) returns (outcome: FileActions.RecentOpen)
    requires v.Valid() && HasId(v.tabBar.tabs, tabId)
    modifies v`hoveredMarkdownNoteId, v.tabBar`activeTabId, v.tabBar.tabs, Selections(v.tabBar.tabs)
    modifies v.openTabsStore, v.positionStore
    ensures v.Valid()
    ensures Jumped(v, old(v.tabBar.tabs), tabId, bookmark, outcome)
  {
    outcome := FileActions.SwitchToOpenTab(v, tabId, bookmark.path);
    ShowBookmarkedPage(v, bookmark);
  }

  /** The branch of `open_bookmark` that calls `open_recent_pdf`: no tab
      shows the file, so it opens in a new one. */
  method OpenBookmarkedAsRecent(v: PdfViewer, bookmark: BookmarkEntry) returns (outcome: FileActions.RecentOpen)
    requires v.Valid() && FileActions.TabWithPath(v.tabBar.tabs, bookmark.path).None?
    modifies v`hoveredMarkdownNoteId, v.tabBar, v.tabBar.tabs, Selections(v.tabBar.tabs), v.openTabsStore
    modifies v`bookmarkPopupTriggerHovered, v`bookmarkPopupPanelHovered, v`bookmarkPopupHoverEpoch, v`bookmarkPopupOpen
    ensures v.Valid() && BookmarkPopupClosed(v)
    ensures FileActions.Reopened(v, old(v.tabBar.tabs), None, bookmark.path, outcome)
  {
    outcome := FileActions.SwitchOrOpen(v, bookmark.path);
    var _ := CloseBookmarkPopup(v);
  }

  /** `select_page` on the bookmarked page when the active tab shows the
      bookmark's file and has pages. */
  method ShowBookmarkedPage(v: PdfViewer, bookmark: BookmarkEntry)
    requires v.Valid()
    modifies v.tabBar.tabs, v.positionStore
    ensures v.Valid() && OnBookmarkedPage(v, bookmark)
    ensures v.tabBar.tabs == old(v.tabBar.tabs) && v.tabBar.activeTabId == old(v.tabBar.activeTabId)
  {
    var t := v.ActiveTab();
    if t.Some? && t.value.path == Some(bookmark.path) && t.value.pages != [] {
      var _ := PageRendering.SelectPage(v, MinNat(bookmark.pageIndex, LastIndex(|t.value.pages|)));
    }
  }

  // ---------------------------------------------------------------------
  // Markdown notes

  /** Whether a note in `notes` has the id. */
  predicate NoteIdUsed(notes: seq<MarkdownNoteEntry>, id: nat)
  {
    exists i :: 0 <= i < |notes| && notes[i].id == id
  }

  const U64_MAX: nat := U64_MODULUS - 1

  /** `u64::saturating_mul`. */
  function SaturatingMul(a: nat, b: nat): (r: nat)
    ensures r <= U64_MAX
    ensures a * b <= U64_MAX ==> r == a * b
  {
    if a * b <= U64_MAX then a * b else U64_MAX
  }

  /** Where the search for a fresh note id starts: the clock in
      milliseconds times a thousand. */
  function IdSearchStart(nowMillis: nat): nat
  {
    SaturatingMul(nowMillis, 1000)
  }

  /** `next_markdown_note_id`: the least id from the start the clock gives
      that no note uses. The search steps by `saturating_add(1)`, so it
      ends only when such an id exists below `u64::MAX` or is `u64::MAX`. */
  method NextMarkdownNoteId(v: PdfViewer, nowMillis: nat) returns (id: nat)
    requires exists c :: IdSearchStart(nowMillis) <= c <= U64_MAX && !NoteIdUsed(v.markdownNotes, c)
    ensures IdSearchStart(nowMillis) <= id <= U64_MAX
    ensures !NoteIdUsed(v.markdownNotes, id)
    ensures forall c :: IdSearchStart(nowMillis) <= c < id ==> NoteIdUsed(v.markdownNotes, c)
  {
    ghost var free :| IdSearchStart(nowMillis) <= free <= U64_MAX && !NoteIdUsed(v.markdownNotes, free);
    var candidate := IdSearchStart(nowMillis);
    while NoteIdUsed(v.markdownNotes, candidate)
      invariant IdSearchStart(nowMillis) <= candidate <= free
      invariant forall c :: IdSearchStart(nowMillis) <= c < candidate ==> NoteIdUsed(v.markdownNotes, c)
      decreases free - candidate
    {
      candidate := candidate + 1;
    }
    id := candidate;
  }

  /** The filter of notes with another id. */
  function OtherId(id: nat): MarkdownNoteEntry -> bool
  {
    (n: MarkdownNoteEntry) => n.id != id
  }

  /** A note's sort key: updated time, then id. */
  function NoteKey(n: MarkdownNoteEntry): (nat, nat)
  {
    (n.updatedAtUnixSecs, n.id)
  }

  /** Sorted newest first, ties by id descending. */
  predicate NotesOrdered(notes: seq<MarkdownNoteEntry>)
  {
    Recency.Ordered(NoteKey, notes)
  }

  /** The list `upsert_markdown_note` leaves. */
  function Upserted(notes: seq<MarkdownNoteEntry>, note: MarkdownNoteEntry): seq<MarkdownNoteEntry>
  {
    Recency.Sort(NoteKey, [note] + Retain(notes, OtherId(note.id)))
  }

  /** After an upsert the list is sorted, holds the note exactly once and
      no other note with its id, and keeps every note with another id as
      many times as before. */
  lemma UpsertedContents(notes: seq<MarkdownNoteEntry>, note: MarkdownNoteEntry)
    ensures NotesOrdered(Upserted(notes, note))
    ensures multiset(Upserted(notes, note))[note] == 1
    ensures forall i :: 0 <= i < |Upserted(notes, note)| && Upserted(notes, note)[i].id == note.id ==>
      Upserted(notes, note)[i] == note
    ensures forall n: MarkdownNoteEntry :: n.id != note.id ==> multiset(Upserted(notes, note))[n] == multiset(notes)[n]
  {
    var rest := Retain(notes, OtherId(note.id));
    var r := Upserted(notes, note);
    assert multiset(r) == multiset([note] + rest);
    RetainMultiset(notes, OtherId(note.id), note);
    forall n: MarkdownNoteEntry | n.id != note.id
      ensures multiset(r)[n] == multiset(notes)[n]
    {
      RetainMultiset(notes, OtherId(note.id), n);
    }
    forall i | 0 <= i < |r| && r[i].id == note.id
      ensures r[i] == note
    {
      assert r[i] in multiset(r);
      assert r[i] !in rest;
    }
  }

  /** `upsert_markdown_note`: the note replaces any with its id, the list
      is re-sorted and written out. */
  method UpsertMarkdownNote(v: PdfViewer, note: MarkdownNoteEntry)
    requires v.Valid()
    modifies v`markdownNotes, v.notesStore
    ensures v.Valid()
    ensures v.markdownNotes == Upserted(old(v.markdownNotes), note)
    ensures v.notesStore.entries == Store.Written(v.markdownNotes, v.serializeNote)
  {
    v.markdownNotes := Retain(v.markdownNotes, OtherId(note.id));
    v.markdownNotes := [note] + v.markdownNotes;
    v.markdownNotes := Recency.Sort(NoteKey, v.markdownNotes);
    Persistence.PersistMarkdownNotes(v);
  }

  /** `markdown_note_by_id`: the first note with the id. */
  function MarkdownNoteById(notes: seq<MarkdownNoteEntry>, id: nat): (r: Option<MarkdownNoteEntry>)
    ensures r.None? <==> !NoteIdUsed(notes, id)
    ensures r.Some? ==> r.value in notes && r.value.id == id
  {
    Find(notes, (n: MarkdownNoteEntry) => n.id == id)
  }

  /** `delete_markdown_note_by_id`: every note with the id goes; if one did,
      the hover is cleared and the list written out. */
  method DeleteMarkdownNoteById(v: PdfViewer, noteId: nat) returns (deleted: bool)
    requires v.Valid()
    modifies v`markdownNotes, v`hoveredMarkdownNoteId, v.notesStore
    ensures v.Valid()
    ensures v.markdownNotes == Retain(old(v.markdownNotes), OtherId(noteId))
    ensures !NoteIdUsed(v.markdownNotes, noteId)
    ensures deleted <==> NoteIdUsed(old(v.markdownNotes), noteId)
    ensures deleted ==> v.hoveredMarkdownNoteId == None && v.notesStore.entries == Store.Written(v.markdownNotes, v.serializeNote)
    ensures !deleted ==>
      && v.markdownNotes == old(v.markdownNotes)
      && v.hoveredMarkdownNoteId == old(v.hoveredMarkdownNoteId) && v.notesStore.entries == old(v.notesStore.entries)
  {
    var originalLen := |v.markdownNotes|;
    RetainLength(v.markdownNotes, OtherId(noteId));
    v.markdownNotes := Retain(v.markdownNotes, OtherId(noteId));
    deleted := |v.markdownNotes| != originalLen;
    if deleted {
      var _ := SetMarkdownNoteHoverId(v, None);
      Persistence.PersistMarkdownNotes(v);
    }
  }

  /** `active_tab_markdown_notes_for_page`: the notes on a page of the
      active file, in list order; none without a file. */
  function ActiveTabMarkdownNotesForPage(v: PdfViewer, page: nat): (r: seq<MarkdownNoteEntry>)
    reads v, v.tabBar, v.tabBar.tabs
    requires v.tabBar.Valid()
    ensures v.ActiveTabPath().None? ==> r == []
    ensures forall n :: n in r <==> n in v.markdownNotes && Some(n.path) == v.ActiveTabPath() && n.pageIndex == page
  {
    match v.ActiveTabPath()
    case None => []
    case Some(path) => Retain(v.markdownNotes, (n: MarkdownNoteEntry) => n.path == path && n.pageIndex == page)
  }

  /** `set_markdown_note_hover_id`: reports whether the hovered note changed. */
  method SetMarkdownNoteHoverId(v: PdfViewer, noteId: Option<nat>) returns (changed: bool)
    modifies v`hoveredMarkdownNoteId
    ensures v.hoveredMarkdownNoteId == noteId
    ensures changed <==> old(v.hoveredMarkdownNoteId) != noteId
  {
    changed := v.hoveredMarkdownNoteId != noteId;
    if changed {
      v.hoveredMarkdownNoteId := noteId;
    }
  }

  // ---------------------------------------------------------------------
  // The in-window note editor

  /** The editor is shut with no anchor and no note being edited. */
  predicate EditorClosed(v: PdfViewer)
    reads v
  {
    !v.noteEditorOpen && v.noteEditorAnchor == None && v.noteEditorEditNoteId == None
  }

  /** `open_markdown_note_editor_for_new`: the editor opens empty at the
      anchor, for a new note; `initialText` is what the input is set to. */
  method OpenMarkdownNoteEditorForNew(v: PdfViewer, anchor: MarkdownNoteAnchor) returns (initialText: string)
    modifies v`noteEditorAnchor, v`noteEditorEditNoteId, v`noteEditorOpen, v`noteEditorNeedsFocus, v`needsRootRefocus
    ensures v.noteEditorAnchor == Some(anchor) && v.noteEditorEditNoteId == None
    ensures v.noteEditorOpen && v.noteEditorNeedsFocus && !v.needsRootRefocus
    ensures initialText == ""
  {
    v.noteEditorAnchor := Some(anchor);
    v.noteEditorEditNoteId := None;
    v.noteEditorOpen := true;
    v.noteEditorNeedsFocus := true;
    v.needsRootRefocus := false;
    initialText := "";
  }

  /** `open_markdown_note_editor_for_edit`: an unknown id changes nothing;
      otherwise the editor opens on that note's text, without an anchor. */
  method OpenMarkdownNoteEditorForEdit(v: PdfViewer, noteId: nat) returns (editing: bool, initialText: string)
    modifies v`noteEditorAnchor, v`noteEditorEditNoteId, v`noteEditorOpen, v`noteEditorNeedsFocus, v`needsRootRefocus
    ensures editing <==> NoteIdUsed(v.markdownNotes, noteId)
    ensures !editing ==> unchanged(v`noteEditorAnchor, v`noteEditorEditNoteId, v`noteEditorOpen, v`noteEditorNeedsFocus, v`needsRootRefocus)
    ensures editing ==>
      && v.noteEditorAnchor == None && v.noteEditorEditNoteId == Some(noteId)
      && v.noteEditorOpen && v.noteEditorNeedsFocus && !v.needsRootRefocus
      && initialText == MarkdownNoteById(v.markdownNotes, noteId).value.markdown
  {
    var note := MarkdownNoteById(v.markdownNotes, noteId);
    if note.None? {
      return false, "";
    }
    v.noteEditorAnchor := None;
    v.noteEditorEditNoteId := Some(noteId);
    v.noteEditorOpen := true;
    v.noteEditorNeedsFocus := true;
    v.needsRootRefocus := false;
    editing, initialText := true, note.value.markdown;
  }

  /** `close_markdown_note_editor`: a shut editor is left alone; an open
      one is shut and the root view asks for focus back. */
  method CloseMarkdownNoteEditor(v: PdfViewer)
    modifies v`noteEditorAnchor, v`noteEditorEditNoteId, v`noteEditorOpen, v`noteEditorNeedsFocus, v`needsRootRefocus
    ensures !old(v.noteEditorOpen) ==> unchanged(v`noteEditorAnchor, v`noteEditorEditNoteId, v`noteEditorOpen, v`noteEditorNeedsFocus, v`needsRootRefocus)
    ensures old(v.noteEditorOpen) ==> EditorClosed(v) && !v.noteEditorNeedsFocus && v.needsRootRefocus
  {
    if !v.noteEditorOpen {
      return;
    }
    v.noteEditorOpen := false;
    v.noteEditorAnchor := None;
    v.noteEditorEditNoteId := None;
    v.noteEditorNeedsFocus := false;
    v.needsRootRefocus := true;
  }

  /** What saving the editor did. */
  datatype NoteSave = NotOpen | Blank | Edited(note: MarkdownNoteEntry) | Created(note: MarkdownNoteEntry) | NoTarget

  /** An existing note with new text: only `markdown` and `updated_at`
      change. */
  function EditedNote(note: MarkdownNoteEntry, markdown: string, now: nat): (r: MarkdownNoteEntry)
    ensures r.id == note.id && r.path == note.path && r.pageIndex == note.pageIndex
    ensures r.xRatio == note.xRatio && r.yRatio == note.yRatio && r.createdAtUnixSecs == note.createdAtUnixSecs
    ensures r.selectedText == note.selectedText && r.selectionRects == note.selectionRects
    ensures r.markdown == markdown && r.updatedAtUnixSecs == now
  {
    note.(markdown := markdown, updatedAtUnixSecs := now)
  }

  /** A new note at an anchor: ratios clamped into [0, 1], both timestamps
      `now`, and no selection (the serde defaults of the fields the
      literal leaves out). */
  function NewNote(id: nat, path: Path, anchor: MarkdownNoteAnchor, markdown: string, now: nat): (r: MarkdownNoteEntry)
    ensures r.id == id && r.path == path && r.pageIndex == anchor.pageIndex && r.markdown == markdown
    ensures 0.0 <= r.xRatio <= 1.0 && 0.0 <= r.yRatio <= 1.0
    ensures 0.0 <= anchor.xRatio <= 1.0 ==> r.xRatio == anchor.xRatio
    ensures 0.0 <= anchor.yRatio <= 1.0 ==> r.yRatio == anchor.yRatio
    ensures r.createdAtUnixSecs == now && r.updatedAtUnixSecs == now
    ensures r.selectedText == "" && r.selectionRects == []
  {
    MarkdownNoteEntry(id, path, anchor.pageIndex, Clamp01(anchor.xRatio), Clamp01(anchor.yRatio),
      markdown, now, now, "", [])
  }

  /** The note being edited, if the editor has one that still exists. */
  function EditTarget(v: PdfViewer): Option<MarkdownNoteEntry>
    reads v
  {
    match v.noteEditorEditNoteId
    case None => None
    case Some(id) => MarkdownNoteById(v.markdownNotes, id)
  }

  /** Saving put `note` into the list, wrote the list out and shut the
      editor. */
  ghost predicate Stored(v: PdfViewer, before: seq<MarkdownNoteEntry>, note: MarkdownNoteEntry)
    reads v, v.notesStore
  {
    && v.markdownNotes == Upserted(before, note)
    && v.notesStore.entries == Store.Written(v.markdownNotes, v.serializeNote)
    && EditorClosed(v) && v.needsRootRefocus
  }

  /** `save_markdown_note_from_editor`, given the editor's text and the
      clock. A shut editor or blank text changes nothing. An edited note
      that still exists gets the trimmed text; otherwise a new note is
      made at the anchor in the active file with a fresh id, and without a
      file or an anchor nothing changes. A saved note is upserted and the
      editor closed. */
  method SaveMarkdownNoteFromEditor(v: PdfViewer, editorText: string, now: nat, nowMillis: nat) returns (outcome: NoteSave)
    requires v.Valid()
    requires exists c :: IdSearchStart(nowMillis) <= c <= U64_MAX && !NoteIdUsed(v.markdownNotes, c)
    modifies v`markdownNotes, v.notesStore
    modifies v`noteEditorAnchor, v`noteEditorEditNoteId, v`noteEditorOpen, v`noteEditorNeedsFocus, v`needsRootRefocus
    ensures v.Valid()
    ensures outcome == NotOpen <==> !old(v.noteEditorOpen)
    ensures outcome == Blank <==> old(v.noteEditorOpen) && Text.Trim(editorText) == []
    ensures outcome.NotOpen? || outcome.Blank? || outcome.NoTarget? ==>
      && v.markdownNotes == old(v.markdownNotes) && v.notesStore.entries == old(v.notesStore.entries)
      && unchanged(v`noteEditorAnchor, v`noteEditorEditNoteId, v`noteEditorOpen, v`noteEditorNeedsFocus, v`needsRootRefocus)
    ensures outcome.Edited? ==>
      && old(EditTarget(v)).Some?
      && outcome.note == EditedNote(old(EditTarget(v)).value, Text.Trim(editorText), now)
      && Stored(v, old(v.markdownNotes), outcome.note)
    ensures outcome.Created? || outcome.NoTarget? ==>
      old(v.noteEditorOpen) && Text.Trim(editorText) != [] && old(EditTarget(v)).None?
    ensures outcome.NoTarget? <==>
      && old(v.noteEditorOpen) && Text.Trim(editorText) != [] && old(EditTarget(v)).None?
      && (v.ActiveTabPath().None? || old(v.noteEditorAnchor).None?)
    ensures outcome.Created? ==>
      && old(v.noteEditorAnchor).Some? && v.ActiveTabPath().Some?
      && outcome.note == NewNote(outcome.note.id, v.ActiveTabPath().value, old(v.noteEditorAnchor).value, Text.Trim(editorText), now)
      && !NoteIdUsed(old(v.markdownNotes), outcome.note.id)
      && IdSearchStart(nowMillis) <= outcome.note.id <= U64_MAX
      && Stored(v, old(v.markdownNotes), outcome.note)
  {
    if !v.noteEditorOpen {
      return NotOpen;
    }
    var markdown := Text.Trim(editorText);
    if markdown == [] {
      return Blank;
    }
    var target := EditTarget(v);
    if target.Some? {
      var note := EditedNote(target.value, markdown, now);
      StoreNoteAndClose(v, note);
      return Edited(note);
    }
    outcome := SaveNewNote(v, markdown, now, nowMillis);
  }

  /** The last branch of `save_markdown_note_from_editor`: a new note at
      the editor's anchor in the active file, or nothing without either. */
  method SaveNewNote(v: PdfViewer, markdown: string, now: nat, nowMillis: nat) returns (outcome: NoteSave)
    requires v.Valid() && v.noteEditorOpen
    requires exists c :: IdSearchStart(nowMillis) <= c <= U64_MAX && !NoteIdUsed(v.markdownNotes, c)
    modifies v`markdownNotes, v.notesStore
    modifies v`noteEditorAnchor, v`noteEditorEditNoteId, v`noteEditorOpen, v`noteEditorNeedsFocus, v`needsRootRefocus
    ensures v.Valid()
    ensures outcome.Created? || outcome.NoTarget?
    ensures outcome.NoTarget? <==> v.ActiveTabPath().None? || old(v.noteEditorAnchor).None?
    ensures outcome.NoTarget? ==>
      && v.markdownNotes == old(v.markdownNotes) && v.notesStore.entries == old(v.notesStore.entries)
      && unchanged(v`noteEditorAnchor, v`noteEditorEditNoteId, v`noteEditorOpen, v`noteEditorNeedsFocus, v`needsRootRefocus)
    ensures outcome.Created? ==>
      && outcome.note == NewNote(outcome.note.id, v.ActiveTabPath().value, old(v.noteEditorAnchor).value, markdown, now)
      && !NoteIdUsed(old(v.markdownNotes), outcome.note.id)
      && IdSearchStart(nowMillis) <= outcome.note.id <= U64_MAX
      && Stored(v, old(v.markdownNotes), outcome.note)
  {
    var path := v.ActiveTabPath();
    if path.None? || v.noteEditorAnchor.None? {
      return NoTarget;
    }
    var id := NextMarkdownNoteId(v, nowMillis);
    var note := NewNote(id, path.value, v.noteEditorAnchor.value, markdown, now);
    StoreNoteAndClose(v, note);
    outcome := Created(note);
  }

  /** Upsert the note, then close the open editor. */
  method StoreNoteAndClose(v: PdfViewer, note: MarkdownNoteEntry)
    requires v.Valid() && v.noteEditorOpen
    modifies v`markdownNotes, v.notesStore
    modifies v`noteEditorAnchor, v`noteEditorEditNoteId, v`noteEditorOpen, v`noteEditorNeedsFocus, v`needsRootRefocus
    ensures v.Valid() && Stored(v, old(v.markdownNotes), note)
  {
    UpsertMarkdownNote(v, note);
    CloseMarkdownNoteEditor(v);
  }

  /** `open_page_context_menu`: the menu opens at the position for the
      page (no tab), carrying the note anchor and note under the mouse,
      which also becomes the hovered note. */
  method OpenPageContextMenu(v: PdfViewer, position: (real, real), noteAnchor: Option<MarkdownNoteAnchor>, noteId: Option<nat>)
    modifies v`hoveredMarkdownNoteId, v`contextMenuOpen, v`contextMenuPosition, v`contextMenuTabId
    modifies v`contextMenuNoteAnchor, v`contextMenuNoteId
    ensures v.hoveredMarkdownNoteId == noteId && v.contextMenuOpen && v.contextMenuPosition == Some(position)
    ensures v.contextMenuTabId == None && v.contextMenuNoteAnchor == noteAnchor && v.contextMenuNoteId == noteId
  {
    var _ := SetMarkdownNoteHoverId(v, noteId);
    v.contextMenuOpen := true;
    v.contextMenuPosition := Some(position);
    v.contextMenuTabId := None;
    v.contextMenuNoteAnchor := noteAnchor;
    v.contextMenuNoteId := noteId;
  }
}
