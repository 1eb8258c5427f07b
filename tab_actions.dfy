// The tab actions of src/pdf_viewer/tab_actions.rs: closing tabs (saving
// their pages first), switching among the visible tabs, and the keyboard
// dispatch with its modal precedence.
module TabActions {
  import opened Wrappers
  import opened Types
  import opened Tab
  import opened Viewer
  import Persistence
  import Core
  import Store
  import Sled
  import Bytes

  // Saving the pages of closing tabs

  /** What `save_tab_position_if_needed` writes for a tab id: nothing for an
      unknown id, a tab without a path or without pages; otherwise the path
      and the active page clamped to the last page. */
  function TabPositionToSave(tabs: seq<PdfTab>, tabId: nat): (r: Option<(Path, nat)>)
    reads tabs
    ensures IndexOf(tabs, tabId).None? ==> r.None?
    ensures IndexOf(tabs, tabId).Some? ==>
      var t := tabs[IndexOf(tabs, tabId).value];
      && (r.Some? <==> t.path.Some? && t.pages != [])
      && (r.Some? ==> r.value.0 == t.path.value && r.value.1 < |t.pages|
                      && r.value.1 == MinNat(t.activePage, |t.pages| - 1))
  {
    match IndexOf(tabs, tabId)
    case None => None
    case Some(i) =>
      var t := tabs[i];
      if t.path.Some? && t.pages != [] then Some((t.path.value, MinNat(t.activePage, LastIndex(|t.pages|))))
      else None
  }

  /** The (key, page) writes that saving the given ids performs, in order. */
  function PlannedSaves(v: PdfViewer, tabs: seq<PdfTab>, ids: seq<nat>): (r: seq<(Sled.Key, nat)>)
    reads tabs
    ensures |r| <= |ids|
  {
    if ids == [] then []
    else
      var earlier := PlannedSaves(v, tabs, ids[..|ids| - 1]);
      match TabPositionToSave(tabs, ids[|ids| - 1])
      case None => earlier
      case Some((path, page)) => earlier + [(v.FilePositionKey(path), page)]
  }

  /** The page last written under `key` by a sequence of writes. */
  function LastSave(saves: seq<(Sled.Key, nat)>, key: Sled.Key): Option<nat>
  {
    if saves == [] then None
    else if saves[|saves| - 1].0 == key then Some(saves[|saves| - 1].1)
    else LastSave(saves[..|saves| - 1], key)
  }

  /** Every key written by `saves` loads back the page last written for
      it (what `load_saved_file_position` reads from the tree's entries). */
  ghost predicate Saved(entries: seq<Sled.Entry>, saves: seq<(Sled.Key, nat)>)
  {
    forall k :: LastSave(saves, k).Some? ==>
      Store.DecodeU64(Sled.Lookup(entries, k)) == Some(LastSave(saves, k).value % Bytes.U64_LIMIT)
  }

  /** Keys `saves` does not write hold what they held before. */
  ghost predicate Untouched(entries: seq<Sled.Entry>, before: seq<Sled.Entry>, saves: seq<(Sled.Key, nat)>)
  {
    forall k :: LastSave(saves, k).None? ==> Sled.Lookup(entries, k) == Sled.Lookup(before, k)
  }

  /** A later write for the same key wins over an earlier one. */
  lemma LastSaveWins(saves: seq<(Sled.Key, nat)>, key: Sled.Key, page: nat)
    ensures LastSave(saves + [(key, page)], key) == Some(page)
  {
  }

  /** A write for another key leaves the last write for `key` alone. */
  lemma LastSaveOther(saves: seq<(Sled.Key, nat)>, other: Sled.Key, page: nat, key: Sled.Key)
    requires other != key
    ensures LastSave(saves + [(other, page)], key) == LastSave(saves, key)
  {
    assert (saves + [(other, page)])[..|saves|] == saves;
  }

  /** `save_tab_position_if_needed`: the tab's page is written under its
      file's key and no other key changes; without a page to save nothing
      changes. */
  method SaveTabPositionIfNeeded(v: PdfViewer, tabId: nat)
    requires v.Valid()
    modifies v.positionStore
    ensures v.Valid()
    ensures TabPositionToSave(v.tabBar.tabs, tabId).None? ==> v.positionStore.entries == old(v.positionStore.entries)
    ensures TabPositionToSave(v.tabBar.tabs, tabId).Some? ==>
      var (path, page) := TabPositionToSave(v.tabBar.tabs, tabId).value;
      && Store.DecodeU64(Sled.Lookup(v.positionStore.entries, v.FilePositionKey(path))) == Some(page % Bytes.U64_LIMIT)
      && forall k :: k != v.FilePositionKey(path) ==>
           Sled.Lookup(v.positionStore.entries, k) == Sled.Lookup(old(v.positionStore.entries), k)
  {
    var save := TabPositionToSave(v.tabBar.tabs, tabId);
    if save.Some? {
      ghost var before := v.positionStore.entries;
      var key := v.FilePositionKey(save.value.0);
      Persistence.SaveFilePosition(v, save.value.0, save.value.1);
      assert Store.DecodeU64(Sled.Lookup(v.positionStore.entries, key)) == Some(save.value.1 % Bytes.U64_LIMIT) by {
        assert Persistence.LoadSavedFilePosition(v, save.value.0) == Store.DecodeU64(v.positionStore.Get(key));
      }
      forall k | k != key
        ensures Sled.Lookup(v.positionStore.entries, k) == Sled.Lookup(before, k)
      {
        assert v.positionStore.Get(k) == old(v.positionStore.Get(k));
      }
    }
  }

  /** No writes leave every key as it was. */
  lemma NoSaves(entries: seq<Sled.Entry>)
    ensures Saved(entries, []) && Untouched(entries, entries, [])
  {
  }

  /** One more write keeps `Saved` and `Untouched`. */
  lemma SavedStep(orig: seq<Sled.Entry>, before: seq<Sled.Entry>, after: seq<Sled.Entry>,
                  saves: seq<(Sled.Key, nat)>, key: Sled.Key, page: nat)
    requires Saved(before, saves) && Untouched(before, orig, saves)
    requires Store.DecodeU64(Sled.Lookup(after, key)) == Some(page % Bytes.U64_LIMIT)
    requires forall k :: k != key ==> Sled.Lookup(after, k) == Sled.Lookup(before, k)
    ensures Saved(after, saves + [(key, page)]) && Untouched(after, orig, saves + [(key, page)])
  {
    LastSaveWins(saves, key, page);
    forall k | k != key
      ensures LastSave(saves + [(key, page)], k) == LastSave(saves, k)
    {
      LastSaveOther(saves, key, page, k);
    }
  }

  /** The first loop of `close_tabs_by_ids`: every key ends with the page
      last written for it, and keys nobody wrote keep their values. */
  method SaveTabPositions(v: PdfViewer, ids: seq<nat>)
    requires v.Valid()
    modifies v.positionStore
    ensures v.Valid()
    ensures Saved(v.positionStore.entries, PlannedSaves(v, v.tabBar.tabs, ids))
    ensures Untouched(v.positionStore.entries, old(v.positionStore.entries), PlannedSaves(v, v.tabBar.tabs, ids))
  {
    for i := 0 to |ids|
      invariant v.Valid()
      invariant Saved(v.positionStore.entries, PlannedSaves(v, v.tabBar.tabs, ids[..i]))
      invariant Untouched(v.positionStore.entries, old(v.positionStore.entries), PlannedSaves(v, v.tabBar.tabs, ids[..i]))
    {
      ghost var saves := PlannedSaves(v, v.tabBar.tabs, ids[..i]);
      ghost var entries := v.positionStore.entries;
      assert ids[..i + 1][..i] == ids[..i];
      SaveTabPositionIfNeeded(v, ids[i]);
      var save := TabPositionToSave(v.tabBar.tabs, ids[i]);
      if save.Some? {
        var key := v.FilePositionKey(save.value.0);
        assert PlannedSaves(v, v.tabBar.tabs, ids[..i + 1]) == saves + [(key, save.value.1)];
        SavedStep(old(v.positionStore.entries), entries, v.positionStore.entries, saves, key, save.value.1);
      } else {
        assert PlannedSaves(v, v.tabBar.tabs, ids[..i + 1]) == saves;
      }
    }
    assert ids[..|ids|] == ids;
  }

  // Closing tabs

  /** The set of ids in a list. */
  function IdSet(ids: seq<nat>): (r: set<nat>)
    ensures forall x :: x in r <==> x in ids
  {
    set x | x in ids
  }

  /** One more id of the list joins the set. */
  lemma IdSetStep(ids: seq<nat>, i: nat)
    requires i < |ids|
    ensures IdSet(ids[..i + 1]) == IdSet(ids[..i]) + {ids[i]}
  {
    assert ids[..i + 1] == ids[..i] + [ids[i]];
  }

  /** The tabs whose id is not in `ids`, in their order. */
  function Kept(tabs: seq<PdfTab>, ids: set<nat>): (r: seq<PdfTab>)
    ensures |r| <= |tabs|
  {
    if tabs == [] then []
    else (if tabs[0].id in ids then [] else [tabs[0]]) + Kept(tabs[1..], ids)
  }

  /** Nothing to remove keeps the list. */
  lemma {:induction false} KeptNone(tabs: seq<PdfTab>, ids: set<nat>)
    requires forall i :: 0 <= i < |tabs| ==> tabs[i].id !in ids
    ensures Kept(tabs, ids) == tabs
  {
    if tabs != [] {
      KeptNone(tabs[1..], ids);
    }
  }

  /** Removing the tab at `i` is keeping all but its id, when ids are unique. */
  lemma {:induction false} KeptRemoveAt(tabs: seq<PdfTab>, i: nat)
    requires UniqueIds(tabs) && i < |tabs|
    ensures tabs[..i] + tabs[i + 1..] == Kept(tabs, {tabs[i].id})
  {
    var rest := tabs[1..];
    if i == 0 {
      assert forall j :: 0 <= j < |rest| ==> rest[j] == tabs[j + 1];
      KeptNone(rest, {tabs[0].id});
      assert Kept(tabs, {tabs[0].id}) == Kept(rest, {tabs[0].id});
    } else {
      assert UniqueIds(rest) by {
        assert forall j :: 0 <= j < |rest| ==> rest[j] == tabs[j + 1];
      }
      assert rest[i - 1] == tabs[i];
      KeptRemoveAt(rest, i - 1);
      assert tabs[0].id != tabs[i].id;
      assert tabs[0].id !in {tabs[i].id};
      assert Kept(tabs, {tabs[i].id}) == [tabs[0]] + Kept(rest, {tabs[i].id});
      assert tabs[..i] == [tabs[0]] + rest[..i - 1];
      assert tabs[i + 1..] == rest[i..];
    }
  }

  /** Keeping twice is keeping against both sets. */
  lemma {:induction false} KeptKept(tabs: seq<PdfTab>, a: set<nat>, b: set<nat>)
    ensures Kept(Kept(tabs, a), b) == Kept(tabs, a + b)
  {
    if tabs != [] {
      var rest := tabs[1..];
      KeptKept(rest, a, b);
      if tabs[0].id in a {
        assert Kept(tabs, a) == Kept(rest, a);
        assert Kept(tabs, a + b) == Kept(rest, a + b);
      } else {
        var k := Kept(tabs, a);
        assert k == [tabs[0]] + Kept(rest, a);
        assert k[0] == tabs[0] && k[1..] == Kept(rest, a);
        assert Kept(k, b) == (if tabs[0].id in b then [] else [tabs[0]]) + Kept(k[1..], b);
      }
    }
  }

  /** One `close_tab` of the second loop, seen as a `Kept` step. */
  lemma CloseStep(before: seq<PdfTab>, after: seq<PdfTab>, tabId: nat, closed: bool)
    requires UniqueIds(before)
    requires closed <==> HasId(before, tabId)
    requires !closed ==> after == before
    requires closed ==> after == before[..IndexOf(before, tabId).value] + before[IndexOf(before, tabId).value + 1..]
    ensures after == Kept(before, {tabId})
  {
    if closed {
      KeptRemoveAt(before, IndexOf(before, tabId).value);
    } else {
      KeptNone(before, {tabId});
    }
  }

  /** `CloseStep` against the tabs the loop started from. */
  lemma CloseStepKept(orig: seq<PdfTab>, before: seq<PdfTab>, after: seq<PdfTab>,
                      closing: set<nat>, tabId: nat, closed: bool)
    requires UniqueIds(before) && before == Kept(orig, closing)
    requires forall t | t in before :: t in orig
    requires closed <==> HasId(before, tabId)
    requires !closed ==> after == before
    requires closed ==> after == before[..IndexOf(before, tabId).value] + before[IndexOf(before, tabId).value + 1..]
    ensures after == Kept(orig, closing + {tabId})
    ensures forall t | t in after :: t in orig
  {
    CloseStep(before, after, tabId, closed);
    KeptKept(orig, closing, {tabId});
    assert forall t | t in after :: t in before;
  }

  /** The second loop of `close_tabs_by_ids`: the tabs with those ids go,
      the rest keep their order. */
  method CloseIds(v: PdfViewer, ids: seq<nat>)
    requires v.Valid()
    modifies v.tabBar
    ensures v.Valid()
    ensures v.tabBar.tabs == Kept(old(v.tabBar.tabs), IdSet(ids))
  {
    CloseIdsOnBar(v.tabBar, ids);
    assert forall t | t in v.tabBar.tabs :: t in old(v.tabBar.tabs);
    assert forall i :: 0 <= i < |v.tabBar.tabs| ==> v.tabBar.tabs[i] in old(v.tabBar.tabs);
  }

  method CloseIdsOnBar(bar: TabBar, ids: seq<nat>)
    requires bar.Valid()
    modifies bar
    ensures bar.Valid()
    ensures bar.tabs == Kept(old(bar.tabs), IdSet(ids))
    ensures forall t | t in bar.tabs :: t in old(bar.tabs)
  {
    ghost var closing: set<nat> := {};
    KeptNone(bar.tabs, {});
    for i := 0 to |ids|
      invariant bar.Valid()
      invariant closing == IdSet(ids[..i])
      invariant bar.tabs == Kept(old(bar.tabs), closing)
      invariant forall t | t in bar.tabs :: t in old(bar.tabs)
    {
      ghost var before := bar.tabs;
      var closed := bar.CloseTab(ids[i]);
      CloseStepKept(old(bar.tabs), before, bar.tabs, closing, ids[i], closed);
      IdSetStep(ids, i);
      closing := closing + {ids[i]};
    }
    assert ids[..|ids|] == ids;
  }

  /** The empty Home tab `close_tabs_by_ids` creates when no tab is left. */
  method CreateHomeTab(v: PdfViewer)
    requires v.Valid()
    modifies v.tabBar
    ensures v.Valid()
    ensures |v.tabBar.tabs| == |old(v.tabBar.tabs)| + 1 && v.tabBar.tabs[..|old(v.tabBar.tabs)|] == old(v.tabBar.tabs)
    ensures var t := v.tabBar.tabs[|old(v.tabBar.tabs)|];
      fresh(t) && fresh(t.selection) && t.path == None && t.pages == [] && v.tabBar.activeTabId == Some(t.id)
      && !HasId(old(v.tabBar.tabs), t.id)
  {
    var _ := v.tabBar.CreateTab();
    assert fresh(v.tabBar.tabs[|old(v.tabBar.tabs)|].selection);
    assert forall i :: 0 <= i < |old(v.tabBar.tabs)| ==> v.tabBar.tabs[i] == old(v.tabBar.tabs)[i];
  }

  /** What `close_tabs_by_ids` leaves behind: the kept tabs in their order,
      or a single tab without a path when none is kept; every planned page
      write done and no other key touched; the open tabs written out; and
      nothing left to load in the active tab. */
  ghost predicate Closed(v: PdfViewer, kept: seq<PdfTab>, saves: seq<(Sled.Key, nat)>, before: seq<Sled.Entry>)
    reads v.tabBar, v.tabBar.tabs, v.positionStore, v.openTabsStore
  {
    && (kept != [] ==> v.tabBar.tabs == kept)
    && (kept == [] ==> |v.tabBar.tabs| == 1 && v.tabBar.tabs[0].path == None)
    && Saved(v.positionStore.entries, saves)
    && Untouched(v.positionStore.entries, before, saves)
    && Persistence.OpenTabsPersisted(v)
    && v.tabBar.activeTabId.Some?
    && Core.PendingLoadPath(v.tabBar.tabs, v.tabBar.activeTabId.value) == None
  }

  /** `close_tabs_by_ids`: an empty list changes nothing. Otherwise the
      hovered note is cleared, every closing tab's page is saved, the tabs
      go, an empty Home tab replaces them if none is left, the open tabs are
      written out, and the tab that ends up active gets loaded if needed. */
  method CloseTabsByIds(v: PdfViewer, ids: seq<nat>) returns (loading: bool)
    requires v.Valid() && v.TreesDistinct()
    modifies v`hoveredMarkdownNoteId, v.tabBar, v.tabBar.tabs, Selections(v.tabBar.tabs)
    modifies v.positionStore, v.openTabsStore
    ensures v.Valid()
    ensures ids == [] ==>
      !loading && unchanged(v`hoveredMarkdownNoteId, v.tabBar, v.positionStore, v.openTabsStore)
    ensures ids != [] ==>
      && v.hoveredMarkdownNoteId == None
      && Closed(v, Kept(old(v.tabBar.tabs), IdSet(ids)), old(PlannedSaves(v, v.tabBar.tabs, ids)), old(v.positionStore.entries))
      && (Kept(old(v.tabBar.tabs), IdSet(ids)) == [] ==> fresh(v.tabBar.tabs[0]))
  {
    if ids == [] {
      return false;
    }
    ghost var tabs := v.tabBar.tabs;
    ghost var entries := v.positionStore.entries;
    ghost var saves := PlannedSaves(v, tabs, ids);
    // `set_markdown_note_hover_id(None)`
    v.hoveredMarkdownNoteId := None;
    assert tabs == v.tabBar.tabs && entries == v.positionStore.entries;
    assert saves == PlannedSaves(v, v.tabBar.tabs, ids);
    loading := CloseAndLoad(v, ids);
  }

  /** `close_tabs_by_ids` after the hovered note is cleared. */
  method CloseAndLoad(v: PdfViewer, ids: seq<nat>) returns (loading: bool)
    requires v.Valid() && v.TreesDistinct() && ids != []
    modifies v.tabBar, v.tabBar.tabs, Selections(v.tabBar.tabs), v.positionStore, v.openTabsStore
    ensures v.Valid()
    ensures Closed(v, Kept(old(v.tabBar.tabs), IdSet(ids)), old(PlannedSaves(v, v.tabBar.tabs, ids)), old(v.positionStore.entries))
    ensures Kept(old(v.tabBar.tabs), IdSet(ids)) == [] ==> fresh(v.tabBar.tabs[0])
  {
    ghost var kept := Kept(v.tabBar.tabs, IdSet(ids));
    SaveAndClose(v, ids);
    ghost var entries := v.positionStore.entries;
    ghost var tabs := v.tabBar.tabs;
    var t := v.ActiveTab().value;
    assert kept == [] ==> t == tabs[0] && t.path == None && Core.PendingPath(t) == None;
    TreesDistinctFacts(v);
    loading := PersistAndLoad(v, t);
    assert v.positionStore.entries == entries && v.tabBar.tabs == tabs;
    assert kept == [] ==> !loading && t.path == None;
    ActiveIndex(v, t);
  }

  /** The part of `close_tabs_by_ids` before the open tabs are written. */
  method SaveAndClose(v: PdfViewer, ids: seq<nat>)
    requires v.Valid() && ids != []
    modifies v.tabBar, v.positionStore
    ensures v.Valid()
    ensures var kept := Kept(old(v.tabBar.tabs), IdSet(ids));
      var saves := old(PlannedSaves(v, v.tabBar.tabs, ids));
      && (kept != [] ==> v.tabBar.tabs == kept)
      && (kept == [] ==> |v.tabBar.tabs| == 1 && fresh(v.tabBar.tabs[0]) && v.tabBar.tabs[0].path == None)
      && Saved(v.positionStore.entries, saves)
      && Untouched(v.positionStore.entries, old(v.positionStore.entries), saves)
    ensures forall t | t in v.tabBar.tabs :: (t in old(v.tabBar.tabs) && t.selection in old(Selections(v.tabBar.tabs)))
                                           || (fresh(t) && fresh(t.selection))
  {
    SaveTabPositions(v, ids);
    ghost var entries := v.positionStore.entries;
    CloseAndRefill(v, ids);
    assert v.positionStore.entries == entries;
  }

  /** Closing the tabs and, when none is left, adding the Home tab. */
  method CloseAndRefill(v: PdfViewer, ids: seq<nat>)
    requires v.Valid()
    modifies v.tabBar
    ensures v.Valid()
    ensures var kept := Kept(old(v.tabBar.tabs), IdSet(ids));
      && (kept != [] ==> v.tabBar.tabs == kept)
      && (kept == [] ==> |v.tabBar.tabs| == 1 && fresh(v.tabBar.tabs[0]) && v.tabBar.tabs[0].path == None)
    ensures forall t | t in v.tabBar.tabs :: (t in old(v.tabBar.tabs) && t.selection in old(Selections(v.tabBar.tabs)))
                                           || (fresh(t) && fresh(t.selection))
  {
    ghost var selections := Selections(v.tabBar.tabs);
    CloseIds(v, ids);
    KeptSubset(old(v.tabBar.tabs), IdSet(ids));
    if v.tabBar.tabs == [] {
      CreateHomeTab(v);
    }
    forall t | t in v.tabBar.tabs && t in old(v.tabBar.tabs)
      ensures t.selection in selections
    {
      var i :| 0 <= i < |old(v.tabBar.tabs)| && old(v.tabBar.tabs)[i] == t;
    }
  }

  /** A kept tab is one of the original tabs. */
  lemma {:induction false} KeptSubset(tabs: seq<PdfTab>, ids: set<nat>)
    ensures forall t | t in Kept(tabs, ids) :: t in tabs
  {
    if tabs != [] {
      KeptSubset(tabs[1..], ids);
    }
  }

  /** The position tree is not the open-tabs tree. */
  lemma TreesDistinctFacts(v: PdfViewer)
    requires v.TreesDistinct()
    ensures v.positionStore != v.openTabsStore
  {
    var trees := [v.recentStore, v.positionStore, v.openTabsStore, v.titlebarPreferencesStore,
                  v.themePreferencesStore, v.bookmarksStore, v.notesStore, v.textMarkupsStore];
    assert trees[1] != trees[2];
  }

  /** The active tab found by id is the active tab itself. */
  lemma ActiveIndex(v: PdfViewer, t: PdfTab)
    requires v.tabBar.Valid() && v.ActiveTab() == Some(t)
    ensures IndexOf(v.tabBar.tabs, t.id).Some? && v.tabBar.tabs[IndexOf(v.tabBar.tabs, t.id).value] == t
    ensures Core.PendingLoadPath(v.tabBar.tabs, t.id) == Core.PendingPath(t)
    ensures Core.LoadFrame(v.tabBar.tabs, t.id) == {t, t.selection}
  {
    var i := IndexOf(v.tabBar.tabs, t.id);
    var k :| 0 <= k < |v.tabBar.tabs| && v.tabBar.tabs[k] == t;
    assert i.Some?;
    assert v.tabBar.tabs[i.value].id == v.tabBar.tabs[k].id;
  }

  /** The part of `close_tabs_by_ids` after the tabs are gone: the open
      tabs are written out and the active tab `t` is loaded if needed. */
  method PersistAndLoad(v: PdfViewer, t: PdfTab) returns (loading: bool)
    requires v.Valid() && v.ActiveTab() == Some(t)
    modifies t, t.selection, v.openTabsStore
    ensures v.Valid() && Persistence.OpenTabsPersisted(v)
    ensures Core.PendingPath(t) == None
    ensures loading <==> old(Core.PendingPath(t)).Some?
    ensures !loading ==> unchanged(t)
  {
    Persistence.PersistOpenTabs(v);
    loading := LoadActiveTab(v, t);
  }

  /** `load_tab_if_needed` for the active tab `t`: afterwards it has no
      pending load, and the open tabs stay written out. */
  method LoadActiveTab(v: PdfViewer, t: PdfTab) returns (loading: bool)
    requires v.Valid() && v.ActiveTab() == Some(t)
    requires Persistence.OpenTabsPersisted(v)
    modifies t, t.selection, v.openTabsStore
    ensures v.Valid() && Persistence.OpenTabsPersisted(v)
    ensures Core.PendingPath(t) == None
    ensures loading <==> old(Core.PendingPath(t)).Some?
    ensures !loading ==> unchanged(t)
  {
    ActiveIndex(v, t);
    loading := Core.LoadTabIfNeeded(v, t.id);
  }

  // Creating, closing and switching

  /** `create_new_tab`: an empty tab joins at the end, becomes active, and
      the open tabs are written out. */
  method CreateNewTab(v: PdfViewer)
    requires v.Valid()
    modifies v.tabBar, v.openTabsStore
    ensures v.Valid() && Persistence.OpenTabsPersisted(v)
    ensures |v.tabBar.tabs| == |old(v.tabBar.tabs)| + 1 && v.tabBar.tabs[..|old(v.tabBar.tabs)|] == old(v.tabBar.tabs)
    ensures var t := v.tabBar.tabs[|old(v.tabBar.tabs)|];
      fresh(t) && t.path == None && t.pages == [] && v.tabBar.activeTabId == Some(t.id)
  {
    CreateHomeTab(v);
    Persistence.PersistOpenTabs(v);
  }

  /** Closing every tab keeps none. */
  lemma {:induction false} KeptAll(tabs: seq<PdfTab>, ids: set<nat>)
    requires forall i :: 0 <= i < |tabs| ==> tabs[i].id in ids
    ensures Kept(tabs, ids) == []
  {
    if tabs != [] {
      KeptAll(tabs[1..], ids);
    }
  }

  /** `close_all_tabs`: with tabs open, every page is saved and only an
      empty Home tab is left; without tabs nothing changes. */
  method CloseAllTabs(v: PdfViewer) returns (loading: bool)
    requires v.Valid() && v.TreesDistinct()
    modifies v`hoveredMarkdownNoteId, v.tabBar, v.tabBar.tabs, Selections(v.tabBar.tabs)
    modifies v.positionStore, v.openTabsStore
    ensures v.Valid()
    ensures old(v.tabBar.tabs) == [] ==> !loading && unchanged(v.tabBar) && unchanged(v.positionStore) && unchanged(v.openTabsStore)
    ensures old(v.tabBar.tabs) != [] ==>
      && v.hoveredMarkdownNoteId == None
      && Closed(v, [], old(PlannedSaves(v, v.tabBar.tabs, Ids(v.tabBar.tabs))), old(v.positionStore.entries))
      && fresh(v.tabBar.tabs[0])
  {
    var ids := Ids(v.tabBar.tabs);
    KeptAll(v.tabBar.tabs, IdSet(ids));
    loading := CloseTabsByIds(v, ids);
  }

  /** `close_tab`. */
  method CloseTab(v: PdfViewer, tabId: nat) returns (loading: bool)
    requires v.Valid() && v.TreesDistinct()
    modifies v`hoveredMarkdownNoteId, v.tabBar, v.tabBar.tabs, Selections(v.tabBar.tabs)
    modifies v.positionStore, v.openTabsStore
    ensures v.Valid()
    ensures v.hoveredMarkdownNoteId == None
    ensures Closed(v, Kept(old(v.tabBar.tabs), {tabId}), old(PlannedSaves(v, v.tabBar.tabs, [tabId])), old(v.positionStore.entries))
    ensures Kept(old(v.tabBar.tabs), {tabId}) == [] ==> fresh(v.tabBar.tabs[0])
  {
    assert IdSet([tabId]) == {tabId};
    loading := CloseTabsByIds(v, [tabId]);
  }

  /** The ids of the tabs other than `keep`, in order. */
  function OtherIds(tabs: seq<PdfTab>, keep: nat): (r: seq<nat>)
    ensures forall x :: x in r <==> x != keep && HasId(tabs, x)
  {
    if tabs == [] then []
    else
      var rest := OtherIds(tabs[1..], keep);
      assert forall x :: HasId(tabs, x) <==> x == tabs[0].id || HasId(tabs[1..], x) by {
        forall x | HasId(tabs, x) && x != tabs[0].id ensures HasId(tabs[1..], x) {
          var i :| 0 <= i < |tabs| && tabs[i].id == x;
          assert tabs[1..][i - 1].id == x;
        }
      }
      if tabs[0].id == keep then rest else [tabs[0].id] + rest
  }

  /** Closing all other ids of unique tabs keeps exactly the tab `keep`. */
  lemma {:induction false} KeptOthers(tabs: seq<PdfTab>, i: nat, ids: set<nat>)
    requires UniqueIds(tabs) && i < |tabs|
    requires forall x :: x in ids <==> x != tabs[i].id && HasId(tabs, x)
    ensures Kept(tabs, ids) == [tabs[i]]
    decreases |tabs|, 1
  {
    var rest := tabs[1..];
    assert forall j :: 0 <= j < |rest| ==> rest[j] == tabs[j + 1];
    if i == 0 {
      KeptAll(rest, ids) by {
        forall j | 0 <= j < |rest| ensures rest[j].id in ids {
          assert tabs[j + 1].id != tabs[0].id;
          assert HasId(tabs, rest[j].id);
        }
      }
    } else {
      assert tabs[0].id in ids by {
        assert tabs[0].id != tabs[i].id;
      }
      KeptSameOnRest(tabs, i, ids);
    }
  }

  /** The step of `KeptOthers` past a closed first tab. */
  lemma {:induction false} KeptSameOnRest(tabs: seq<PdfTab>, i: nat, ids: set<nat>)
    requires UniqueIds(tabs) && 0 < i < |tabs|
    requires forall x :: x in ids <==> x != tabs[i].id && HasId(tabs, x)
    ensures Kept(tabs, ids) == [tabs[i]]
    decreases |tabs|, 0
  {
    var rest := tabs[1..];
    assert forall j :: 0 <= j < |rest| ==> rest[j] == tabs[j + 1];
    assert UniqueIds(rest);
    assert rest[i - 1] == tabs[i];
    var restIds := set x | x in ids && HasId(rest, x);
    forall x ensures x in restIds <==> x != rest[i - 1].id && HasId(rest, x) {
      if x != rest[i - 1].id && HasId(rest, x) {
        var j :| 0 <= j < |rest| && rest[j].id == x;
        assert tabs[j + 1].id == x;
      }
    }
    KeptOthers(rest, i - 1, restIds);
    KeptOnSubset(rest, ids, restIds);
    assert tabs[0].id in ids by {
      assert tabs[0].id != tabs[i].id;
    }
  }

  /** Ids of no tab of the list do not change what is kept. */
  lemma {:induction false} KeptOnSubset(tabs: seq<PdfTab>, ids: set<nat>, sub: set<nat>)
    requires forall x :: x in sub <==> x in ids && HasId(tabs, x)
    ensures Kept(tabs, ids) == Kept(tabs, sub)
  {
    if tabs != [] {
      var rest := tabs[1..];
      var subRest := set x | x in ids && HasId(rest, x);
      forall x | x in ids && HasId(rest, x) ensures HasId(tabs, x) {
        var j :| 0 <= j < |rest| && rest[j].id == x;
        assert tabs[j + 1].id == x;
      }
      KeptOnSubset(rest, ids, subRest);
      KeptOnSubset(rest, sub, subRest);
      assert HasId(tabs, tabs[0].id);
    }
  }

  /** `close_other_tabs`: an unknown id changes nothing. Otherwise the tab
      becomes active and every other tab closes the way `close_tabs_by_ids`
      closes it; when it was already alone only the open tabs are written
      out. Either way it is the one tab left, and so the active one. */
  method CloseOtherTabs(v: PdfViewer, keep: nat) returns (loading: bool)
    requires v.Valid() && v.TreesDistinct()
    modifies v`hoveredMarkdownNoteId, v.tabBar, v.tabBar.tabs, Selections(v.tabBar.tabs)
    modifies v.positionStore, v.openTabsStore
    ensures v.Valid()
    ensures !HasId(old(v.tabBar.tabs), keep) ==>
      !loading && unchanged(v`hoveredMarkdownNoteId, v.tabBar, v.positionStore, v.openTabsStore)
    ensures HasId(old(v.tabBar.tabs), keep) && OtherIds(old(v.tabBar.tabs), keep) == [] ==>
      && !loading && v.tabBar.tabs == old(v.tabBar.tabs) && |v.tabBar.tabs| == 1 && v.tabBar.activeTabId == Some(keep)
      && unchanged(v.positionStore) && Persistence.OpenTabsPersisted(v)
    ensures HasId(old(v.tabBar.tabs), keep) && OtherIds(old(v.tabBar.tabs), keep) != [] ==>
      && v.hoveredMarkdownNoteId == None
      && Closed(v, [old(v.tabBar.tabs[IndexOf(v.tabBar.tabs, keep).value])],
                old(PlannedSaves(v, v.tabBar.tabs, OtherIds(v.tabBar.tabs, keep))), old(v.positionStore.entries))
      && v.tabBar.activeTabId == Some(keep)
  {
    var index := v.tabBar.TabIndexById(keep);
    if index.None? {
      return false;
    }
    if OtherIds(v.tabBar.tabs, keep) == [] {
      KeepAlone(v, keep);
      return false;
    }
    loading := CloseSiblings(v, keep, index.value);
  }

  /** `close_other_tabs` when the tab is already alone: it becomes active
      and the open tabs are written out. */
  method KeepAlone(v: PdfViewer, keep: nat)
    requires v.Valid() && v.TreesDistinct()
    requires HasId(v.tabBar.tabs, keep) && OtherIds(v.tabBar.tabs, keep) == []
    modifies v.tabBar`activeTabId, v.openTabsStore
    ensures v.Valid()
    ensures v.tabBar.tabs == old(v.tabBar.tabs) && |v.tabBar.tabs| == 1 && v.tabBar.activeTabId == Some(keep)
    ensures unchanged(v.positionStore) && Persistence.OpenTabsPersisted(v)
  {
    KeptOthers(v.tabBar.tabs, IndexOf(v.tabBar.tabs, keep).value, {});
    KeptNone(v.tabBar.tabs, {});
    TreesDistinctFacts(v);
    Activate(v, keep);
    Persistence.PersistOpenTabs(v);
  }

  /** `close_other_tabs` when other tabs are open: it becomes active, and
      they close the way `close_tabs_by_ids` closes them. */
  method CloseSiblings(v: PdfViewer, keep: nat, index: nat) returns (loading: bool)
    requires v.Valid() && v.TreesDistinct()
    requires index < |v.tabBar.tabs| && v.tabBar.tabs[index].id == keep && OtherIds(v.tabBar.tabs, keep) != []
    modifies v`hoveredMarkdownNoteId, v.tabBar, v.tabBar.tabs, Selections(v.tabBar.tabs)
    modifies v.positionStore, v.openTabsStore
    ensures v.Valid()
    ensures v.hoveredMarkdownNoteId == None
    ensures Closed(v, [old(v.tabBar.tabs[IndexOf(v.tabBar.tabs, keep).value])],
                   old(PlannedSaves(v, v.tabBar.tabs, OtherIds(v.tabBar.tabs, keep))), old(v.positionStore.entries))
    ensures v.tabBar.activeTabId == Some(keep)
  {
    var ids := OtherIds(v.tabBar.tabs, keep);
    KeptOthers(v.tabBar.tabs, index, IdSet(ids));
    assert IndexOf(v.tabBar.tabs, keep) == Some(index);
    ghost var t := v.tabBar.tabs[index];
    ghost var saves := PlannedSaves(v, v.tabBar.tabs, ids);
    Activate(v, keep);
    assert saves == PlannedSaves(v, v.tabBar.tabs, ids);
    loading := CloseTabsByIds(v, ids);
    assert v.tabBar.tabs == [t];
    SingleActive(v.tabBar);
  }

  /** A lone tab is the active one. */
  lemma SingleActive(bar: TabBar)
    requires bar.Valid() && |bar.tabs| == 1
    ensures bar.activeTabId == Some(bar.tabs[0].id)
  {
  }

  /** `TabBar::switch_to_tab` for a present id. */
  method Activate(v: PdfViewer, tabId: nat)
    requires v.Valid() && HasId(v.tabBar.tabs, tabId)
    modifies v.tabBar`activeTabId
    ensures v.Valid() && v.tabBar.activeTabId == Some(tabId)
  {
    var _ := v.tabBar.SwitchToTab(tabId);
  }

  /** The active tab is `tabId`, the open tabs are written out, and the tab
      has nothing left to load. */
  ghost predicate SwitchedTo(v: PdfViewer, tabId: nat)
    reads v.tabBar, v.tabBar.tabs, v.openTabsStore
  {
    && v.tabBar.activeTabId == Some(tabId)
    && Persistence.OpenTabsPersisted(v)
    && Core.PendingLoadPath(v.tabBar.tabs, tabId) == None
  }

  /** `switch_to_tab`: an unknown id changes nothing; otherwise the tab
      becomes active, the hovered note is cleared, the open tabs are
      written out and the tab is loaded if it needs to be. */
  method SwitchToTab(v: PdfViewer, tabId: nat) returns (loading: bool)
    requires v.Valid()
    modifies v`hoveredMarkdownNoteId, v.tabBar`activeTabId, v.tabBar.tabs, Selections(v.tabBar.tabs), v.openTabsStore
    ensures v.Valid()
    ensures !HasId(old(v.tabBar.tabs), tabId) ==>
      && !loading && unchanged(v.tabBar) && unchanged(v.tabBar.tabs) && unchanged(v.openTabsStore)
      && v.hoveredMarkdownNoteId == old(v.hoveredMarkdownNoteId)
    ensures HasId(old(v.tabBar.tabs), tabId) ==>
      && v.hoveredMarkdownNoteId == None && SwitchedTo(v, tabId)
      && (loading <==> old(Core.PendingLoadPath(v.tabBar.tabs, tabId)).Some?)
  {
    if v.tabBar.TabIndexById(tabId).None? {
      return false;
    }
    ghost var pending := Core.PendingLoadPath(v.tabBar.tabs, tabId);
    // `set_markdown_note_hover_id(None)`, which the source does right after
    // the switch; nothing in between reads it.
    v.hoveredMarkdownNoteId := None;
    assert pending == Core.PendingLoadPath(v.tabBar.tabs, tabId);
    loading := SwitchAndLoad(v, tabId);
  }

  /** `switch_to_tab` for a present id, apart from the hovered note. */
  method SwitchAndLoad(v: PdfViewer, tabId: nat) returns (loading: bool)
    requires v.Valid() && HasId(v.tabBar.tabs, tabId)
    modifies v.tabBar`activeTabId, v.tabBar.tabs, Selections(v.tabBar.tabs), v.openTabsStore
    ensures v.Valid() && SwitchedTo(v, tabId)
    ensures loading <==> old(Core.PendingLoadPath(v.tabBar.tabs, tabId)).Some?
  {
    Activate(v, tabId);
    var t := v.ActiveTab().value;
    ActiveIndex(v, t);
    loading := PersistAndLoad(v, t);
    ActiveIndex(v, t);
  }

  // The visible tabs

  /** Some tab has a file. */
  predicate HasFileOpen(tabs: seq<PdfTab>)
    reads tabs
  {
    exists i :: 0 <= i < |tabs| && tabs[i].path.Some?
  }

  /** The ids of the tabs with a file, in order. */
  function PathIds(tabs: seq<PdfTab>): (r: seq<nat>)
    reads tabs
    ensures |r| <= |tabs|
    ensures forall x :: x in r <==> exists i :: 0 <= i < |tabs| && tabs[i].id == x && tabs[i].path.Some?
  {
    if tabs == [] then []
    else
      var rest := PathIds(tabs[1..]);
      assert forall i :: 0 < i < |tabs| ==> tabs[i] == tabs[1..][i - 1];
      (if tabs[0].path.Some? then [tabs[0].id] else []) + rest
  }

  /** `visible_tab_ids`: once some tab has a file, the tabs without one
      (empty Home tabs) are hidden; otherwise every tab shows. */
  function VisibleTabIds(tabs: seq<PdfTab>): (r: seq<nat>)
    reads tabs
    ensures |r| <= |tabs|
  {
    if HasFileOpen(tabs) then PathIds(tabs) else Ids(tabs)
  }

  /** A tab shows exactly when it has a file or no tab has one. */
  lemma VisibleTabIdsMembers(tabs: seq<PdfTab>, x: nat)
    ensures x in VisibleTabIds(tabs) <==>
      exists i :: 0 <= i < |tabs| && tabs[i].id == x && (tabs[i].path.Some? || !HasFileOpen(tabs))
  {
    if !HasFileOpen(tabs) {
      if x in Ids(tabs) {
        var i :| 0 <= i < |tabs| && Ids(tabs)[i] == x;
        assert tabs[i].id == x;
      }
    }
  }

  /** Some tab always shows while any tab is open. */
  lemma VisibleTabIdsEmpty(tabs: seq<PdfTab>)
    ensures VisibleTabIds(tabs) == [] <==> tabs == []
  {
    if HasFileOpen(tabs) {
      var i :| 0 <= i < |tabs| && tabs[i].path.Some?;
      assert tabs[i].id in PathIds(tabs);
    } else if tabs != [] {
      assert Ids(tabs)[0] == tabs[0].id;
    }
  }

  /** The visible ids are the ids of a subsequence of the tabs. */
  lemma {:induction false} PathIdsNoDuplicates(tabs: seq<PdfTab>)
    requires UniqueIds(tabs)
    ensures Persistence.NoDuplicates(PathIds(tabs))
  {
    if tabs != [] {
      var rest := tabs[1..];
      assert forall j :: 0 <= j < |rest| ==> rest[j] == tabs[j + 1];
      assert UniqueIds(rest);
      PathIdsNoDuplicates(rest);
      var r := PathIds(tabs);
      if tabs[0].path.Some? {
        assert tabs[0].id !in PathIds(rest);
        assert r == [tabs[0].id] + PathIds(rest);
        forall i, j | 0 <= i < j < |r| ensures r[i] != r[j] {
          if i > 0 {
            assert r[i] == PathIds(rest)[i - 1] && r[j] == PathIds(rest)[j - 1];
          } else {
            assert r[j] == PathIds(rest)[j - 1];
          }
        }
      } else {
        assert r == PathIds(rest);
      }
    }
  }

  /** With unique tab ids, every visible id shows once. */
  lemma VisibleTabIdsNoDuplicates(tabs: seq<PdfTab>)
    requires UniqueIds(tabs)
    ensures Persistence.NoDuplicates(VisibleTabIds(tabs))
  {
    if HasFileOpen(tabs) {
      PathIdsNoDuplicates(tabs);
    }
  }

  /** The position of the first `x` in a list. */
  function Position(s: seq<nat>, x: nat): (r: Option<nat>)
    ensures r.Some? ==> r.value < |s| && s[r.value] == x && forall j :: 0 <= j < r.value ==> s[j] != x
    ensures r.None? <==> x !in s
  {
    if s == [] then None
    else if s[0] == x then Some(0)
    else match Position(s[1..], x)
      case None => None
      case Some(i) => Some(i + 1)
  }

  /** `visible_tab_index_by_id`: where the tab sits among the visible ones. */
  function VisibleTabIndexById(tabs: seq<PdfTab>, tabId: nat): (r: Option<nat>)
    reads tabs
    ensures r.None? <==> tabId !in VisibleTabIds(tabs)
    ensures r.Some? ==> r.value < |VisibleTabIds(tabs)| && VisibleTabIds(tabs)[r.value] == tabId
  {
    Position(VisibleTabIds(tabs), tabId)
  }

  /** The id `switch_to_visible_tab_by_index` switches to: the visible tab
      at the index, or the last one when the index is past the end. */
  function TabAtVisibleIndex(visible: seq<nat>, index: nat): (r: Option<nat>)
    ensures r.None? <==> visible == []
    ensures r.Some? && index < |visible| ==> r.value == visible[index]
    ensures r.Some? && index >= |visible| ==> r.value == visible[|visible| - 1]
  {
    if visible == [] then None
    else Some(visible[MinNat(index, LastIndex(|visible|))])
  }

  /** The largest `usize`, which Cmd+9 passes to select the last tab. */
  const USIZE_MAX: nat := 0xFFFF_FFFF_FFFF_FFFF

  /** An index past every tab selects the last visible one. */
  lemma LastVisibleTab(visible: seq<nat>)
    requires 0 < |visible| <= USIZE_MAX
    ensures TabAtVisibleIndex(visible, USIZE_MAX) == Some(visible[|visible| - 1])
  {
  }

  /** The id `switch_visible_tab_by_offset` switches to: nothing with fewer
      than two visible tabs; otherwise the tab `offset` places after the
      active one (the first one when the active is not visible), wrapping
      around. Dafny's `%` with a positive divisor is `rem_euclid`. */
  function TabAtVisibleOffset(visible: seq<nat>, active: Option<nat>, offset: int): (r: Option<nat>)
    ensures r.None? <==> |visible| < 2
    ensures r.Some? ==> r.value in visible
  {
    if |visible| < 2 then None
    else
      var current := match active
        case None => 0
        case Some(id) => (match Position(visible, id) case None => 0 case Some(i) => i);
      Some(visible[(current + offset) % |visible|])
  }

  /** One step forward, with `rem_euclid` wrap-around. */
  lemma ModNext(i: int, n: int)
    requires 0 <= i < n
    ensures (i + 1) % n == if i + 1 < n then i + 1 else 0
  {
    if i + 1 == n {
      assert (i + 1) % n == n % n;
    }
  }

  /** One step back, with `rem_euclid` wrap-around. */
  lemma ModPrev(i: int, n: int)
    requires 0 <= i < n
    ensures (i + -1) % n == if 0 < i then i - 1 else n - 1
  {
    if i == 0 {
      assert -1 == n * -1 + (n - 1);
    }
  }

  /** Moving one forward and one back returns to a visible active tab. */
  lemma OffsetRoundTrip(visible: seq<nat>, active: nat)
    requires Persistence.NoDuplicates(visible) && active in visible && 2 <= |visible|
    ensures TabAtVisibleOffset(visible, TabAtVisibleOffset(visible, Some(active), 1), -1) == Some(active)
  {
    var n := |visible|;
    var i := Position(visible, active).value;
    ModNext(i, n);
    var next := if i + 1 < n then i + 1 else 0;
    assert TabAtVisibleOffset(visible, Some(active), 1) == Some(visible[next]);
    PositionOfUnique(visible, next);
    ModPrev(next, n);
  }

  /** In a list without duplicates an element sits at its position. */
  lemma PositionOfUnique(s: seq<nat>, k: nat)
    requires Persistence.NoDuplicates(s) && k < |s|
    ensures Position(s, s[k]) == Some(k)
  {
    var p := Position(s, s[k]).value;
    assert s[p] == s[k];
  }

  /** The last visible tab is followed by the first, and the first is
      preceded by the last. */
  lemma OffsetWraps(visible: seq<nat>)
    requires Persistence.NoDuplicates(visible) && 2 <= |visible|
    ensures TabAtVisibleOffset(visible, Some(visible[|visible| - 1]), 1) == Some(visible[0])
    ensures TabAtVisibleOffset(visible, Some(visible[0]), -1) == Some(visible[|visible| - 1])
  {
    var n := |visible|;
    PositionOfUnique(visible, n - 1);
    PositionOfUnique(visible, 0);
    ModNext(n - 1, n);
    ModPrev(0, n);
  }

  /** A visible id names an open tab. */
  lemma VisibleHasId(tabs: seq<PdfTab>, x: nat)
    requires x in VisibleTabIds(tabs)
    ensures HasId(tabs, x)
  {
    VisibleTabIdsMembers(tabs, x);
  }

  /** `switch_to_visible_tab_by_index`: with no visible tab nothing
      changes; otherwise it switches to the visible tab at the index, or
      the last one when the index is past the end. */
  method SwitchToVisibleTabByIndex(v: PdfViewer, index: nat) returns (loading: bool)
    requires v.Valid()
    modifies v`hoveredMarkdownNoteId, v.tabBar`activeTabId, v.tabBar.tabs, Selections(v.tabBar.tabs), v.openTabsStore
    ensures v.Valid()
    ensures old(VisibleTabIds(v.tabBar.tabs)) == [] ==> !loading && unchanged(v.tabBar) && unchanged(v.openTabsStore)
    ensures old(VisibleTabIds(v.tabBar.tabs)) != [] ==>
      var target := old(TabAtVisibleIndex(VisibleTabIds(v.tabBar.tabs), index)).value;
      && v.hoveredMarkdownNoteId == None && SwitchedTo(v, target)
      && (loading <==> old(Core.PendingLoadPath(v.tabBar.tabs, target)).Some?)
  {
    var visible := VisibleTabIds(v.tabBar.tabs);
    var target := TabAtVisibleIndex(visible, index);
    if target.None? {
      return false;
    }
    VisibleHasId(v.tabBar.tabs, target.value);
    loading := SwitchToTab(v, target.value);
  }

  /** `switch_visible_tab_by_offset`: with fewer than two visible tabs
      nothing changes; otherwise it switches to the tab `offset` places
      from the active one among the visible tabs, wrapping around. */
  method SwitchVisibleTabByOffset(v: PdfViewer, offset: int) returns (loading: bool)
    requires v.Valid()
    modifies v`hoveredMarkdownNoteId, v.tabBar`activeTabId, v.tabBar.tabs, Selections(v.tabBar.tabs), v.openTabsStore
    ensures v.Valid()
    ensures |old(VisibleTabIds(v.tabBar.tabs))| < 2 ==> !loading && unchanged(v.tabBar) && unchanged(v.openTabsStore)
    ensures 2 <= |old(VisibleTabIds(v.tabBar.tabs))| ==>
      var target := old(TabAtVisibleOffset(VisibleTabIds(v.tabBar.tabs), v.tabBar.activeTabId, offset)).value;
      && v.hoveredMarkdownNoteId == None && SwitchedTo(v, target)
      && (loading <==> old(Core.PendingLoadPath(v.tabBar.tabs, target)).Some?)
  {
    var visible := VisibleTabIds(v.tabBar.tabs);
    var target := TabAtVisibleOffset(visible, v.tabBar.activeTabId, offset);
    if target.None? {
      return false;
    }
    VisibleHasId(v.tabBar.tabs, target.value);
    loading := SwitchToTab(v, target.value);
  }

  // Keyboard shortcuts

  /** The fields of `KeyDownEvent` that `handle_key_down` looks at:
      the key name, the platform's primary modifier (Cmd or Ctrl) and Shift. */
  datatype Keystroke = Keystroke(key: string, primary: bool, shift: bool)

  /** Which dialogs and panels are open. */
  datatype Modals = Modals(settingsDialogOpen: bool, aboutDialogOpen: bool, noteEditorOpen: bool, commandPanelOpen: bool)

  function ModalsOf(v: PdfViewer): (m: Modals)
    reads v
    ensures m.settingsDialogOpen == v.settingsDialogOpen && m.aboutDialogOpen == v.aboutDialogOpen
    ensures m.noteEditorOpen == v.noteEditorOpen && m.commandPanelOpen == v.commandPanelOpen
  {
    Modals(v.settingsDialogOpen, v.aboutDialogOpen, v.noteEditorOpen, v.commandPanelOpen)
  }

  /** The handler `handle_key_down` runs for a key. */
  datatype KeyAction =
    | CloseSettingsDialog
    | CloseAboutDialog
    | CloseNoteEditor
    | SaveNoteFromEditor
    | CloseCommandPanel
    | MoveCommandPanelSelection(delta: int)
    | ExecuteCommandPanelSelected
    | ToggleCommandPanel
    | CopySelectedText
    | SelectAllText
    | ClearTextSelection
    | CloseCurrentTab
    | OpenPdfDialog
    | SwitchByOffset(offset: int)
    | SwitchByIndex(index: nat)

  /** The shortcuts of the document window, which a dialog or panel hides. */
  predicate IsGlobal(a: KeyAction)
  {
    a.CopySelectedText? || a.SelectAllText? || a.ClearTextSelection? || a.CloseCurrentTab?
    || a.OpenPdfDialog? || a.SwitchByOffset? || a.SwitchByIndex?
  }

  /** The actions the command panel handles while it is open. */
  predicate IsPanelAction(a: KeyAction)
  {
    a.CloseCommandPanel? || a.MoveCommandPanelSelection? || a.ExecuteCommandPanelSelected? || a.ToggleCommandPanel?
  }

  predicate AnyModal(m: Modals)
  {
    m.settingsDialogOpen || m.aboutDialogOpen || m.noteEditorOpen || m.commandPanelOpen
  }

  /** The tab index a primary-modified digit selects: 1 to 8 pick the
      first eight visible tabs, 9 the last. */
  function DigitIndex(key: string): (r: Option<nat>)
    ensures r.Some? ==> |key| == 1 && '1' <= key[0] <= '9'
    ensures r.Some? && key != "9" ==> r.value == (key[0] as int) - ('1' as int) < 8
    ensures key == "9" ==> r == Some(USIZE_MAX)
  {
    if |key| == 1 && '1' <= key[0] <= '8' then Some((key[0] as int) - ('1' as int))
    else if key == "9" then Some(USIZE_MAX)
    else None
  }

  /** `handle_key_down`: the action run for a key, or `None` when the key
      is left to other handlers (`Some` is where the source calls
      `stop_propagation`). The settings dialog, then the about dialog,
      then the note editor, then the command panel take the keys first. */
  function KeyDownAction(m: Modals, k: Keystroke): (r: Option<KeyAction>)
    ensures k.key == "escape" ==> r.Some?
    ensures AnyModal(m) && r.Some? ==> !IsGlobal(r.value)
    ensures (m.settingsDialogOpen || m.aboutDialogOpen) && r.Some? ==> k.key == "escape"
    ensures m.noteEditorOpen && r.Some? ==> k.key == "escape" || (k.key == "enter" && k.primary)
    ensures m.commandPanelOpen && r.Some? && !m.noteEditorOpen ==> k.key == "escape" || IsPanelAction(r.value)
    ensures !AnyModal(m) && r.Some? ==> IsGlobal(r.value) || r.value == ToggleCommandPanel
  {
    if m.settingsDialogOpen then
      if k.key == "escape" then Some(CloseSettingsDialog) else None
    else if m.aboutDialogOpen then
      if k.key == "escape" then Some(CloseAboutDialog) else None
    else if m.noteEditorOpen then
      if k.key == "escape" then Some(CloseNoteEditor)
      else if k.key == "enter" && k.primary then Some(SaveNoteFromEditor)
      else None
    else if m.commandPanelOpen then
      if k.key == "escape" then Some(CloseCommandPanel)
      else if k.key == "down" then Some(MoveCommandPanelSelection(1))
      else if k.key == "up" then Some(MoveCommandPanelSelection(-1))
      else if k.key == "enter" then Some(ExecuteCommandPanelSelected)
      else if k.key == "t" && k.primary && !k.shift then Some(ToggleCommandPanel)
      else None
    else if k.key == "c" && k.primary then Some(CopySelectedText)
    else if k.key == "a" && k.primary then Some(SelectAllText)
    else if k.key == "escape" then Some(ClearTextSelection)
    else if k.key == "w" && k.primary then Some(CloseCurrentTab)
    else if k.key == "t" && k.primary && !k.shift then Some(ToggleCommandPanel)
    else if k.key == "o" && k.primary then Some(OpenPdfDialog)
    else if k.key == "[" && k.primary && k.shift then Some(SwitchByOffset(-1))
    else if k.key == "]" && k.primary && k.shift then Some(SwitchByOffset(1))
    else if k.primary then
      match DigitIndex(k.key)
      case Some(i) => Some(SwitchByIndex(i))
      case None => None
    else None
  }

  /** Escape closes the innermost open dialog or panel, and clears the
      text selection when none is open. */
  lemma EscapeCloses(m: Modals, primary: bool, shift: bool)
    ensures var r := KeyDownAction(m, Keystroke("escape", primary, shift));
      && (m.settingsDialogOpen ==> r == Some(CloseSettingsDialog))
      && (!m.settingsDialogOpen && m.aboutDialogOpen ==> r == Some(CloseAboutDialog))
      && (!m.settingsDialogOpen && !m.aboutDialogOpen && m.noteEditorOpen ==> r == Some(CloseNoteEditor))
      && (m == Modals(false, false, false, true) ==> r == Some(CloseCommandPanel))
      && (!AnyModal(m) ==> r == Some(ClearTextSelection))
  {
  }

  /** With nothing open, Cmd/Ctrl+1 to 8 select the first eight visible
      tabs and Cmd/Ctrl+9 the last one. */
  lemma DigitShortcuts(n: nat, shift: bool, visible: seq<nat>)
    requires 1 <= n <= 9 && 0 < |visible| <= USIZE_MAX
    ensures var key := [('0' as int + n) as char];
      var r := KeyDownAction(Modals(false, false, false, false), Keystroke(key, true, shift));
      && r.Some? && r.value.SwitchByIndex?
      && (n < 9 ==> r.value.index == n - 1)
      && (n < 9 && n <= |visible| ==> TabAtVisibleIndex(visible, r.value.index) == Some(visible[n - 1]))
      && (n == 9 ==> TabAtVisibleIndex(visible, r.value.index) == Some(visible[|visible| - 1]))
  {
    var key := [('0' as int + n) as char];
    assert key != "c" && key != "a" && key != "w" && key != "t" && key != "o" && key != "[" && key != "]" && key != "escape";
    if n == 9 {
      assert key == "9";
      LastVisibleTab(visible);
    }
  }

  /** With nothing open, Cmd/Ctrl+Shift+[ and ] step to the previous and
      next visible tab. */
  lemma BracketShortcuts()
    ensures KeyDownAction(Modals(false, false, false, false), Keystroke("[", true, true)) == Some(SwitchByOffset(-1))
    ensures KeyDownAction(Modals(false, false, false, false), Keystroke("]", true, true)) == Some(SwitchByOffset(1))
    ensures KeyDownAction(Modals(false, false, false, false), Keystroke("[", true, false)).None?
  {
  }
}
