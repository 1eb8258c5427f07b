# kpdf in Dafny

A model of the core of kpdf, a desktop PDF viewer written in Rust on the gpui toolkit. kpdf has tabs, recent files, bookmarks, Markdown notes, text selection with highlight and underline markups, a command panel, an update check, and a small icon generator tool. The model keeps the viewer's state as Dafny classes:
- `Viewer.PdfViewer` holds the viewer-wide fields.
- `Tab.PdfTab` and `Tab.TabBar` hold the tabs.
- `TextSelection.TextSelectionManager` holds the text selection.
- `Sled.Tree` is the key-value store.

Each `impl` block of the source becomes a module of methods with field-level `modifies` frames. Pure computations are functions. Each function is tied to the lemmas that state what the source promises.

| module | source |
|---|---|
| Tab | src/tab.rs |
| TextSelection | src/text_selection.rs |
| Types | src/pdf_viewer/types.rs |
| Viewer, Core | src/pdf_viewer/mod.rs, src/pdf_viewer/core.rs |
| Store, Persistence, Sled | the sled layout, loaders and `persist_*` writers of src/pdf_viewer/core.rs |
| FileActions | src/pdf_viewer/file_actions.rs |
| TabActions | src/pdf_viewer/tab_actions.rs |
| PageRendering | src/pdf_viewer/page_rendering.rs and the layout part of `render` in src/pdf_viewer/mod.rs |
| DisplayList | src/pdf_viewer/display_list.rs |
| Interactions | src/pdf_viewer/interactions.rs |
| RecentBookmarkNotes, Recency | src/pdf_viewer/recent_bookmark_notes.rs |
| MarkdownNoteDialog | src/pdf_viewer/markdown_note_dialog.rs |
| SettingsDialogs | src/pdf_viewer/settings_dialogs.rs |
| CommandPanel | src/command_panel.rs |
| I18n | src/i18n.rs |
| Updater | src/updater.rs |
| RenderUtils, PageSize, PreviewUtils, Paths | src/utils.rs and src/pdf/utils.rs |
| LegacyViewer | src/pdf.rs |
| IconGenerator | scripts/icon_generator/src/main.rs |
| Bytes, Decimal, Utf8, Text, Sorting, SeqFilter, Wrappers | the standard-library behaviour the above rely on |

src/pdf_viewer.rs is an older single-file copy of the viewer. Where its code is the same as the split files, the row cites the split file and names the older copy too.

The split files take their constants from src/pdf_viewer/constants.rs, which is not part of this model. The values come from the older copy instead (src/pdf_viewer.rs:82-107):
- a zoom range of [0.6, 1.0] in steps of 0.1;
- one render request at a time per lane;
- twelve recent files;
- the sled tree and key names.

Where a comment in the source and its code disagree, the model follows the code.

Integer widths are modelled where they matter:
- `u64` ids saturate (`saturating_add`, `saturating_mul`).
- epochs wrap (`wrapping_add`).
- sled keys are 4-byte big-endian `u32`.
- `u32` parsing rejects values of 2^32 and above.

`f32` and `f64` values are modelled as exact reals.

## Model

| member | source | states |
|---|---|---|
| CommandPanel.NormalizeQuery | src/command_panel.rs:98 | The query as the panel searches with it: trimmed and lower-cased, empty exactly when the raw text is blank. |
| CommandPanel.OpenFilePart | src/command_panel.rs:115-120 | The open-file item, offered only for a non-empty query. |
| CommandPanel.OpenedFileTabs | src/command_panel.rs:88-94 | `opened_file_tabs`: the (id, path) of every tab that has a file, in tab order. |
| CommandPanel.TabItems | src/command_panel.rs:122-137 | The tab items: the open files whose path `matches` accepts, in tab order, each marked active when it is the active tab. |
| CommandPanel.RecentItems | src/command_panel.rs:139-151 | The recent-file items: the recent files `matches` accepts and that no tab has open, in recent-list order. |
| CommandPanel.MenuCandidates | src/command_panel.rs:164-196 | The menu commands on offer: about, updates and settings, then open-logs and disable-logging when file logging is on, or enable-logging when it is off. |
| CommandPanel.MenuItems | src/command_panel.rs:153-198 | The menu items whose title or hint `matches` accepts, in order. |
| CommandPanel.OpenPaths | src/command_panel.rs:122-125 | The paths of the open files. |
| CommandPanel.RanksConcat | src/command_panel.rs:96-199 | Four runs of ranks 0, 1, 2 and 3 concatenate into a list sorted by rank. |
| CommandPanel.ItemsInBlocks | src/command_panel.rs:96-199 | The list comes in four blocks: the open-file item, then open tabs, then recent files, then menu commands. |
| CommandPanel.OpenFileItem | src/command_panel.rs:115-120 | The open-file item is listed, and then first, exactly when the query is not blank and one of its two labels contains it. |
| CommandPanel.BlankQueryListsEverything | src/command_panel.rs:96-199 | With a blank query every open file, every recent file not open in a tab and every menu command on offer is listed. |
| CommandPanel.ItemsExcludeOpenRecentFiles | src/command_panel.rs:139-196 | A recent file that some tab has open is never listed as a recent file, and the logging commands follow the logging switch. |
| CommandPanel.NextSelection | src/command_panel.rs:206-209 | The selected index after moving by `delta` in a list of `len` items: the current index clamped to the list, plus `delta`, wrapped around (`rem_euclid`). |
| CommandPanel.SelectionWraps | src/command_panel.rs:206-209 | Down from the last item wraps to the first, up from the first wraps to the last, and down then up returns to the (clamped) start. |
| CommandPanel.OpenCommandPanel | src/command_panel.rs:45-69 | `open_command_panel`: the panel ends open with both popups shut and an empty query. A closed panel opens with the first item selected and asks for focus. An open one keeps its focus flags, and keeps its selection unless its query was non-empty. Clearing the input reaches the query through the input's change subscription (src/pdf_viewer/mod.rs:182-197), which empties a non-empty query and selects the first item. |
| CommandPanel.ClosePopups | src/command_panel.rs:45-69 | The recent-files and bookmark popups shut, each only when open. |
| CommandPanel.CloseCommandPanel | src/command_panel.rs:71-78 | `close_command_panel`: shuts an open panel and hands focus back to the root view; a closed panel is left alone. |
| CommandPanel.ToggleCommandPanel | src/command_panel.rs:80-86 | An open panel is shut and hands focus back to the root view. A closed one opens as OpenCommandPanel opens it: empty query, first item selected, focus requested, both popups shut. |
| CommandPanel.OnCommandPanelQueryChanged | src/pdf_viewer/mod.rs:183-197 | The input's change subscription: a new query is stored and the selection goes back to the first item; the same query changes nothing. |
| CommandPanel.MoveCommandPanelSelection | src/command_panel.rs:201-215 | `move_command_panel_selection`: nothing happens on an empty list; otherwise the selection moves by `delta` with wrap-around. |
| CommandPanel.SelectedItem | src/command_panel.rs:217-230 | The item `execute_command_panel_selected` runs: none for an empty list, else the selected one, or the last when the selection is past the end. |
| CommandPanel.FollowUpOf | src/command_panel.rs:232-279 | `execute_command_panel_item`'s dispatch: an open-tab item switches to that tab, a recent-file item opens that path, and exactly the open-file item opens the file dialog. |
| CommandPanel.ExecuteCommandPanelSelected | src/command_panel.rs:217-279 | `execute_command_panel_selected`: with no items nothing happens; otherwise the panel is shut and the selected item's follow-up is returned for the caller to run. |
| Persistence.PersistOpenTabs | src/pdf_viewer/core.rs:462-505 | the open-tabs tree afterwards encodes the current tabs' paths and active position, and the tab bar is unchanged. The same code is at src/pdf_viewer.rs:668-711. |
| Persistence.PersistBookmarks | src/pdf_viewer/core.rs:507-533 | the bookmarks tree holds exactly the viewer's bookmarks under their indices |
| Persistence.PersistMarkdownNotes | src/pdf_viewer/core.rs:535-555 | the notes tree holds exactly the viewer's serialisable notes under their indices |
| Persistence.PersistTextMarkups | src/pdf_viewer/core.rs:557-577 | the markups tree holds exactly the viewer's serialisable markups under their indices |
| Persistence.PersistTitlebarPreferences | src/pdf_viewer/core.rs:396-421 | the viewer's title-bar preferences load back from the tree |
| Persistence.PersistThemePreferences | src/pdf_viewer/core.rs:423-460 | the viewer's theme mode and non-empty theme names load back, whatever the default |
| Persistence.Without | src/pdf_viewer/tab_actions.rs:304 | the list without the path: every other element kept, the path gone |
| Persistence.WithoutNoDuplicates | src/pdf_viewer/tab_actions.rs:304 | removing a path keeps a duplicate-free list duplicate-free |
| Persistence.WithoutAbsent | src/pdf_viewer/tab_actions.rs:304 | removing an absent path changes nothing |
| Persistence.Remembered | src/pdf_viewer/tab_actions.rs:303-308 | the remembered list starts with the path and holds at most 12 entries. The same code is at src/pdf_viewer.rs:1900-1905. |
| Persistence.RememberedContents | src/pdf_viewer/tab_actions.rs:303-308 | the remembered path appears only at the front, and no other new path joins the list |
| Persistence.RememberedNoDuplicates | src/pdf_viewer/tab_actions.rs:303-308 | remembering keeps a duplicate-free list duplicate-free |
| Persistence.RememberedKeepsOrder | src/pdf_viewer/tab_actions.rs:303-308 | the other paths keep their relative order behind the new first one, cut to 11 |
| Persistence.RememberedIdempotent | src/pdf_viewer/tab_actions.rs:303-308 | remembering the same file twice is the same as remembering it once |
| Persistence.PersistRecentFiles | src/pdf_viewer/tab_actions.rs:310-328 | the recent-files tree holds exactly the first 12 recent paths under their indices |
| Persistence.RememberRecentFile | src/pdf_viewer/tab_actions.rs:303-308 | the list becomes the remembered list and is written out, and the tabs are untouched. The same code is at src/pdf_viewer.rs:1900-1905. |
| Persistence.LoadSavedFilePosition | src/pdf_viewer/tab_actions.rs:338-348 | a saved page, read through the file's position key, always fits in 64 bits |
| Persistence.SaveFilePosition | src/pdf_viewer/tab_actions.rs:350-358 | the page loads back for the path and for every path with the same canonical form, and no other key changes |
| Persistence.PositionToSave | src/pdf_viewer/tab_actions.rs:360-382 | A position is written exactly when the tab has pages and a path and its clamped active page is not already recorded as saved. It is for that path, and its page is the active page when that is a page of the document, else the last page. |
| Persistence.PersistCurrentFilePosition | src/pdf_viewer/tab_actions.rs:360-382 | when there is something to save it loads back afterwards; otherwise the position tree is unchanged |
| Core.Existing | src/pdf_viewer/mod.rs:227-234 | the restored paths are exactly the saved paths that still exist |
| Core.RestoredPaths | src/pdf_viewer/mod.rs:227-234 | the paths of the restore list, in order |
| Core.TargetActiveIndex | src/pdf_viewer/mod.rs:235-245 | the saved active index if it is in range, else the last restored tab; always a valid position when tabs were restored |
| Core.AddRestoredTab | src/pdf_viewer/mod.rs:227-234 | one loop step appends a fresh tab with the next id for the next path, leaving the earlier tabs and the drag state alone |
| Core.CreateRestoredTabs | src/pdf_viewer/mod.rs:225-234 | a fresh tab bar with one fresh tab per saved path that exists, in order, with ids 1, 2, ... |
| Core.RestoreTabBar | src/pdf_viewer/mod.rs:225-245 | one tab per existing saved path with the saved active position activated (clamped), or a single empty tab when nothing was restored. The same code is at src/pdf_viewer.rs:286-306. |
| Core.MarkLoading | src/pdf_viewer/core.rs:625-638 | the tab is marked loading the path: no pages, page 0, zoom 1.0, no saved position, both lanes reset and the selection cleared |
| Core.LoadFrame | src/pdf_viewer/core.rs:625-638 | loading may change only the tab with the id and its selection manager, and nothing for an unknown id |
| Core.BeginLoad | src/pdf_viewer/core.rs:617-645 | an unknown id changes nothing; otherwise the tab is loading the path, has no pending load, and the open tabs are written out |
| Core.InsertByIndex | src/pdf_viewer/core.rs:667 | one step of the stable page sort adds exactly the new page |
| Core.SortPagesByIndex | src/pdf_viewer/core.rs:667 | `sort_by_key(index)` returns a permutation of the pages |
| Core.InsertByIndexSorted | src/pdf_viewer/core.rs:667 | inserting into pages sorted by index keeps them sorted |
| Core.SortPagesSorted | src/pdf_viewer/core.rs:667 | the sorted pages are in ascending index order |
| Core.SortSortedPages | src/pdf_viewer/core.rs:667 | pages already in order are left as they are |
| Core.InitialPage | src/pdf_viewer/core.rs:673-675 | the saved page, or page 0 when none was saved, clamped to the last page; 0 for an empty document |
| Core.ApplyParsed | src/pdf_viewer/core.rs:666-689 | a successful parse loads the sorted pages and selects and activates the initial page at zoom 1.0 with both lanes reset |
| Core.ApplyFailed | src/pdf_viewer/core.rs:691-700 | a failed parse leaves an empty tab marked failed, page 0, zoom 1.0, lanes reset |
| Core.ApplySummary | src/pdf_viewer/core.rs:664-701 | the tab takes the sorted pages and the initial page on success, and becomes an empty failed tab otherwise |
| Core.ApplyLoadResult | src/pdf_viewer/core.rs:658-703 | a closed tab or a result for a path the tab no longer shows leaves every tab alone; otherwise only that tab takes the result |
| Core.PersistAfterLoad | src/pdf_viewer/core.rs:705-712 | the recent files are remembered when asked, then the open tabs are written out; the tabs are untouched |
| Core.FinishLoad | src/pdf_viewer/core.rs:656-715 | a stale result changes nothing; otherwise the tab (if open) takes the result, a successful asked-for load is remembered as recent, and the open tabs are written out |
| Core.LoadTabIfNeeded | src/pdf_viewer/core.rs:609-615 | a load starts exactly when the tab has a pending path (a path, not loading, not yet loaded or failed), and then the tab is loading that path |
| Core.RestoreEntry | src/pdf_viewer/core.rs:579-591 | the path paired with the tab id in the restore list, or none when the id is not there |
| Core.RestoreEntryOfId | src/pdf_viewer/core.rs:579-591 | with ids 1, 2, ... in order, the entry for id k + 1 is the k-th |
| Core.RestoreOpenTabs | src/pdf_viewer/core.rs:579-591 | only the active tab starts loading its restored path; with no matching entry nothing changes |
| Core.Construct | src/pdf_viewer/mod.rs:249-318 | the viewer is built over the restored tab bar and the loaded values in its initial interface state |
| Core.Build | src/pdf_viewer/mod.rs:136-245 | every preference and list is what its tree loads to, and the tab bar is rebuilt from the saved open tabs |
| Core.Start | src/pdf_viewer/mod.rs:319-326 | the open tabs are written back and the active restored tab starts loading |
| Core.New | src/pdf_viewer/mod.rs:136-337 | a fresh valid viewer: one empty tab when no saved path exists, otherwise one tab per existing path with the clamped saved active tab loading its path, and the open tabs written back |
| Viewer.PositionPath | src/pdf_viewer/tab_actions.rs:330-336 | the canonical path when it can be computed, otherwise the path itself |
| Viewer.TabPathsOf | src/pdf_viewer/core.rs:462-505 | the tabs' ids and paths, in tab order |
| Viewer.Selections | src/pdf_viewer/mod.rs:136-337 | every tab's selection manager is in the set |
| Viewer.PdfViewer.constructor | src/pdf_viewer/mod.rs:249-318 | the viewer holds the given tab bar, trees and loaded values, with popups and dialogs closed |
| Viewer.PdfViewer.ActiveTab | src/pdf_viewer/core.rs:8-10 | a tab exactly when one is active, and it is the tab with the active id |
| Viewer.PdfViewer.ActiveTabPath | src/pdf_viewer.rs:3539-3541 | the active tab's path exactly when there is an active tab with a path |
| Viewer.PdfViewer.FilePositionKey | src/pdf_viewer/tab_actions.rs:330-336 | the key is the UTF-8 bytes of the canonical path, or of the path itself |
| DisplayList.PageContentTransform | src/pdf_viewer/display_list.rs:460-486 | `page_content_transform`: no box unless every size and the scale are positive. A page wider than the box (by aspect) fills the box's width, otherwise its height; the other side is the page's scaled size, and the image is centred. |
| DisplayList.PageBoxFacts | src/pdf_viewer/display_list.rs:460-486 | At the page list's scale the image fills the box's width, and its height never exceeds the page's own scaled height. |
| DisplayList.RatiosRoundTrip | src/pdf_viewer/display_list.rs:488-551 | Ratios in [0, 1] go to a point horizontally within the scaled page and come back unchanged. |
| DisplayList.BoxPointRoundTrip | src/pdf_viewer/display_list.rs:488-551 | A point within the scaled page goes to ratios and comes back unchanged. |
| DisplayList.RatiosToBoxPointInRange | src/pdf_viewer/display_list.rs:527-551 | Ratios in [0, 1] need no clamping: the point is the box offset plus the scaled ratios, y measured down from the top. |
| DisplayList.ScreenToAnchor | src/pdf_viewer/display_list.rs:488-525 | `page_local_screen_to_note_anchor` for a given page: no anchor for a page without a positive size or outside the content box; otherwise the point's position as ratios of the page, upwards from the bottom, clamped into [0, 1]. |
| DisplayList.AnchorToScreen | src/pdf_viewer/display_list.rs:527-551 | `note_anchor_to_page_local_screen` for a given page: the anchor's (clamped) ratios as a point of the content box. |
| DisplayList.Unscale | src/pdf_viewer/display_list.rs:488-551 | A length within a scaled side is a ratio in [0, 1] of it, and scaling that ratio back gives the length. |
| DisplayList.Rescale | src/pdf_viewer/display_list.rs:488-551 | A ratio of a side, scaled, is back the same ratio once unscaled. |
| DisplayList.ScaledRatio | src/pdf_viewer/display_list.rs:488-551 | A ratio in [0, 1] of a side, scaled, lies within the scaled side. |
| DisplayList.AnchorRoundTrip | src/pdf_viewer/display_list.rs:488-551 | An anchor is mapped to a point of the box horizontally always, and back to itself whenever the point lies in the box. |
| DisplayList.ScreenRoundTrip | src/pdf_viewer/display_list.rs:488-551 | A point of the box is mapped to an anchor and back to itself. |
| DisplayList.PageLocalScreenToNoteAnchor | src/pdf_viewer/display_list.rs:488-525 | `page_local_screen_to_note_anchor`: no anchor without an active tab or for a page it does not have. |
| DisplayList.NoteAnchorToPageLocalScreen | src/pdf_viewer/display_list.rs:527-551 | `note_anchor_to_page_local_screen`: no point without an active tab or for a page it does not have. |
| DisplayList.NoteBubblePosition | src/pdf_viewer/display_list.rs:594-609 | `note_bubble_position`: the bubble starts a fixed offset right of the marker at the marker's height, kept a padding away from the box's edges (or at the padding when the box is too small). |
| DisplayList.MarkersOnPage | src/pdf_viewer/display_list.rs:553-588 | The markers of the notes on a page: one per note, in order, unless the page has no content box, when there are none. |
| DisplayList.MarkdownNoteMarkersForPage | src/pdf_viewer/display_list.rs:553-588 | `markdown_note_markers_for_page`: the markers of the active file's notes on the page. |
| DisplayList.FirstNearMarker | src/pdf_viewer/display_list.rs:620-626 | The index of the first marker near the mouse. |
| DisplayList.HitTestMarkdownNoteIdOnPage | src/pdf_viewer/display_list.rs:611-627 | `hit_test_markdown_note_id_on_page`: the id of the first marker, in list order, within the marker radius plus 6 of the mouse. The marker radius is a constant of src/pdf_viewer/constants.rs, which is not part of this model, so it is a parameter. |
| DisplayList.Divide | src/pdf_viewer/display_list.rs:629-709 | `a / b` in f32: by a (positive) zero it is infinite with the sign of `a`, or NaN for 0 / 0. |
| DisplayList.ScreenRect | src/pdf_viewer/display_list.rs:629-709 | A selection box (page points, y upwards) as a screen rectangle: flip, scale, shift, and order each pair of edges. |
| DisplayList.ScreenRects | src/pdf_viewer/display_list.rs:629-709 | Every selection box as a screen rectangle, in order. |
| DisplayList.GetSelectionRectsForPage | src/pdf_viewer/display_list.rs:629-709 | `get_selection_rects_for_page`: nothing without an active tab or a selection on that cached page; otherwise one screen rectangle per selection box, each with its edges in order. |
| DisplayList.EnsurePageTextLoaded | src/pdf_viewer/display_list.rs:920-947 | `ensure_page_text_loaded`, with `loaded` what reading the page's text from the file gives (nothing when it fails or has no text). |
| DisplayList.HandleTextMouseDown | src/pdf_viewer/display_list.rs:764-823 | `handle_text_mouse_down`, with `charHit` the character the mouse is on (the f32 hit test): the hovered note is cleared and the page's text loaded; without a cache for the page, or off text, the selection is cleared; on a character a selection starts there. The text hover follows the hit. |
| DisplayList.LoadAndPress | src/pdf_viewer/display_list.rs:764-823 | The page's text is loaded, then the press lands on the active tab's selection manager. |
| DisplayList.PressOnPage | src/pdf_viewer/display_list.rs:764-823 | The part of `handle_text_mouse_down` after the text is loaded. |
| DisplayList.HandleTextMouseMove | src/pdf_viewer/display_list.rs:825-911 | `handle_text_mouse_move`, with `overText` whether the mouse is on a character and `nearest` the character nearest to it (the f32 hit tests): the hovered note becomes the one under the mouse and the page's text is loaded; with a cache for the page, the text hover follows `overText` and a drag in progress extends the selection to the nearest character. Without an active tab or a cache the selection is untouched. |
| DisplayList.LoadAndHoverNote | src/pdf_viewer/display_list.rs:825-911 | The first part of `handle_text_mouse_move`: the page's text is loaded and the hovered note becomes the one under the mouse. |
| DisplayList.MoveAfterLoad | src/pdf_viewer/display_list.rs:825-911 | The part of `handle_text_mouse_move` after the text is loaded and the note hover set. |
| DisplayList.MoveOnPage | src/pdf_viewer/display_list.rs:825-911 | `handle_text_mouse_move` on the active tab's manager. |
| DisplayList.HandleTextMouseUp | src/pdf_viewer/display_list.rs:913-918 | `handle_text_mouse_up`: the active tab's drag ends, its selection kept. |
| FileActions.IndexOfAt | src/pdf_viewer/file_actions.rs:48-53 | with unique ids, looking up the id of the tab at k finds position k |
| FileActions.OpenPdfPathInNewTab | src/pdf_viewer/file_actions.rs:70-74 | one fresh tab with a new id is appended, made active and set loading the path; the earlier tabs are kept and the open tabs are written out. The same code is at src/pdf_viewer.rs:950-954. |
| FileActions.CreateActiveTab | src/pdf_viewer/file_actions.rs:70-74 | a fresh tab with its own selection manager and an unused id is appended and becomes the active tab |
| FileActions.LoadNewTab | src/pdf_viewer/file_actions.rs:70-74 | the new tab is loading the path and the earlier tabs are untouched |
| FileActions.ReloadActiveTab | src/pdf_viewer/file_actions.rs:61-68 | the active tab is loading the path and the open tabs are written out |
| FileActions.OpenPdfPathInCurrentTab | src/pdf_viewer/file_actions.rs:61-68 | the active tab is reused (a tab is created only when none is active); either way the tab is active and loading the path, and the open tabs are written out |
| FileActions.TabWithPath | src/pdf_viewer/file_actions.rs:48-54 | the id of a tab showing the path, and none exactly when no tab shows it |
| FileActions.TabWithPathHasId | src/pdf_viewer/file_actions.rs:48-54 | the tab found for a path is an open tab |
| FileActions.SwitchToOpenTab | src/pdf_viewer/file_actions.rs:48-54 | switching to the open tab leaves the tabs in place and makes it active |
| FileActions.FindTabWithPath | src/pdf_viewer/file_actions.rs:48-54 | the loop over the tabs finds the first tab showing the path |
| FileActions.OpenRecentPdf | src/pdf_viewer/file_actions.rs:40-59 | a missing file is removed from the recent list, the list is written out and no tab changes; an existing file switches to the tab already showing it, or opens in a new active tab that is loading it |
| FileActions.SwitchOrOpen | src/pdf_viewer/file_actions.rs:48-58 | an existing file switches to the tab showing it, or opens in a new active tab loading it |
| FileActions.OpenInNewTab | src/pdf_viewer/file_actions.rs:58 | the file opens in a new active tab loading it, after the unchanged earlier tabs |
| FileActions.ForgetRecentFile | src/pdf_viewer/file_actions.rs:41-45 | the path leaves the recent list, every other entry stays in order, and the list is written out |
| FileActions.HomeTabToReuse | src/pdf_viewer/file_actions.rs:2-38 | the active tab's id exactly when the active tab has no file |
| FileActions.OpenPickedPaths | src/pdf_viewer/file_actions.rs:2-38 | each picked file gets a tab: the first goes into the active tab when that is an empty Home tab, every other into a new tab appended in order; the earlier tabs are kept; the last file's tab is active and loading it. The same code is at src/pdf_viewer.rs:883-918. |
| FileActions.OpenFromHome | src/pdf_viewer/file_actions.rs:2-38 | when the active tab is an empty Home tab the first file goes there and the rest into new tabs |
| FileActions.OpenInNewTabs | src/pdf_viewer/file_actions.rs:2-38 | the remaining files each open in a new tab, extending the placement, the last of them active and loading |
| FileActions.PlacedInHome | src/pdf_viewer/file_actions.rs:2-38 | the first file in the reused Home tab, with no tab added, is a valid placement |
| FileActions.OpenNextInNewTab | src/pdf_viewer/file_actions.rs:2-38 | one more file opens in a new tab appended after the earlier ones, whose id extends the placement; it is active and loading |
| FileActions.PlacedExtend | src/pdf_viewer/file_actions.rs:2-38 | appending a new tab for the next file extends the placement |
| I18n.NormalizeTag | src/i18n.rs:22 | A tag as `from_locale_tag` compares it: trimmed and ASCII-lowercased. |
| I18n.FromLocaleTag | src/i18n.rs:21-38 | `Language::from_locale_tag`: Chinese exactly for the normalised tags IsChineseTag lists, English for everything else, a blank tag included. |
| I18n.FromLocaleTagIgnoresCase | src/i18n.rs:21-38 | The classification does not depend on letter case. |
| I18n.ZhTagsAreChinese | src/i18n.rs:21-38 | Every tag whose first two letters are `zh`, in any letter case, classifies as Chinese, whatever follows them. |
| I18n.SurroundingWhitespaceIgnored | src/i18n.rs:21-38 | White space before and after a tag does not change its classification. |
| I18n.TrimPadded | src/i18n.rs:22 | `trim` ignores white space around the text. |
| I18n.TrimStartAppend | src/i18n.rs:22 | `trim_start` of a concatenation: the first part's leading white space goes, and when that part is all white space the second part is trimmed as well. |
| I18n.TrimEndAppendWhitespace | src/i18n.rs:22 | `trim_end` ignores white space appended to the text. |
| I18n.FileName | src/i18n.rs:40-45 | zh_CN.json for Chinese and en_US.json for English. |
| I18n.Token | src/i18n.rs:543-550 | `{key}`: the placeholder a template variable fills. |
| I18n.FormatTemplate | src/i18n.rs:543-550 | `format_template`: every `{key}` of the variables replaced by its value, variable by variable in order. |
| I18n.FormattedWithoutPlaceholders | src/i18n.rs:543-550 | A template without any of the placeholders is returned unchanged. |
| I18n.FormattedPlaceholder | src/i18n.rs:543-550 | A template that is just one placeholder becomes that variable's value. |
| I18n.AgeBucket | src/i18n.rs:240-260 | The unit `bookmark_added_relative` picks for an age in seconds and the whole number of those units: under a minute, minutes under an hour, hours under a day, days beyond. |
| I18n.BookmarkAddedRelative | src/i18n.rs:240-260 | `bookmark_added_relative`: "just now" under a minute, else the minutes, hours or days template filled with the whole count. |
| I18n.AgeBucketMonotone | src/i18n.rs:240-260 | An older bookmark never shows a smaller age: its unit is the same or a larger one, and in the same unit its count is not smaller. |
| I18n.LoadMessages | src/i18n.rs:359-396 | `load_messages`, with `try_load_messages` passed in: None stands for the panic when neither the wanted nor the English file loads. |
| IconGenerator.ParseU32 | scripts/icon_generator/src/main.rs:53-55 | `str::parse::<u32>`: a decimal number below 2^32, nothing otherwise. |
| IconGenerator.PieceStep | scripts/icon_generator/src/main.rs:48-57 | One piece of the list: skipped when blank, else its size pushed, or the error for a token that is not a `u32`. |
| IconGenerator.PieceSizes | scripts/icon_generator/src/main.rs:46-57 | The sizes of the comma-separated pieces in order, blank pieces skipped, or the error for the first piece that is not a `u32`. |
| IconGenerator.PieceSizesErrorStays | scripts/icon_generator/src/main.rs:53-55 | Once a piece is rejected, later pieces do not change the error. |
| IconGenerator.SizesFromCsv | scripts/icon_generator/src/main.rs:46-66 | What `parse_sizes` returns for a comma-separated list: the sizes ascending without duplicates, an error for a bad token, or an error when no size is given. |
| IconGenerator.SortedSizes | scripts/icon_generator/src/main.rs:63-65 | Sorting and de-duplicating sizes below the `u32` limit gives sizes below it, ascending and without duplicates. |
| IconGenerator.ParseSizes | scripts/icon_generator/src/main.rs:46-66 | `parse_sizes`: pushes each size, then sorts and de-duplicates. |
| IconGenerator.Rendered | scripts/icon_generator/src/main.rs:68-74 | The decimal renderings of the sizes. |
| IconGenerator.JoinSizes | scripts/icon_generator/src/main.rs:68-74 | `join_sizes`: the sizes in decimal, separated by commas. |
| IconGenerator.RenderedToken | scripts/icon_generator/src/main.rs:68-74 | A rendered size is one token that reads back as the size. |
| IconGenerator.PieceSizesOfRendered | scripts/icon_generator/src/main.rs:46-74 | The decimal renderings of sizes below 2^32, read piece by piece, give the sizes back. |
| IconGenerator.ParseJoinedSizes | scripts/icon_generator/src/main.rs:46-74 | A list `join_sizes` printed is read back by `parse_sizes` as the same list, when it is ascending without duplicates. |
| IconGenerator.ParseOutputByExtension | scripts/icon_generator/src/main.rs:76-90 | `parse_output_by_extension`: `.ico` or `.icns` in any letter case. |
| IconGenerator.DefaultOutputsRecognised | scripts/icon_generator/src/main.rs:76-228 | The outputs made next to `dir/name` when none is given are accepted as an ICO and an ICNS output. |
| IconGenerator.NextValue | scripts/icon_generator/src/main.rs:126-135 | The value following an option that takes the next argument. |
| IconGenerator.Classify | scripts/icon_generator/src/main.rs:115-208 | How the loop of `parse_args` reads one argument: help, an output or size option (with `=` or taking the next argument), an unknown `--` option, or a positional output. |
| IconGenerator.ScanSizes | scripts/icon_generator/src/main.rs:166-198 | A size-list option with its value. |
| IconGenerator.ScanStep | scripts/icon_generator/src/main.rs:115-209 | One round of the loop in `parse_args` at `pending[index]`. |
| IconGenerator.ScanFrom | scripts/icon_generator/src/main.rs:113-209 | The loop of `parse_args` from `index` to the end: an error stops it; otherwise the size lists stay non-empty and ascending. |
| IconGenerator.FirstRejected | scripts/icon_generator/src/main.rs:230-242 | The first element of `sizes` that `ok` rejects. |
| IconGenerator.Finish | scripts/icon_generator/src/main.rs:211-250 | The checks and defaults after the loop of `parse_args`. |
| IconGenerator.ParseArgs | scripts/icon_generator/src/main.rs:92-251 | The loop of `parse_args` computes ParseArgsOf, the reading of the arguments whose outcomes the lemmas below pin down (FinishValid, NoOutputGivesBoth and the rejections). |
| IconGenerator.RunConfigValid | scripts/icon_generator/src/main.rs:92-251 | A configuration has an output, and its size lists are non-empty, ascending without duplicates and of sizes the formats support. |
| IconGenerator.DefaultsWellFormed | scripts/icon_generator/src/main.rs:110-111 | The default ICO and ICNS size lists are non-empty, ascending and without duplicates. |
| IconGenerator.FinishValid | scripts/icon_generator/src/main.rs:211-250 | A configuration the final checks accept keeps non-empty ascending size lists. |
| IconGenerator.DefaultSizesAccepted | scripts/icon_generator/src/main.rs:110-242 | The default size lists pass the ICO range check and the supported ICNS sizes check. |
| IconGenerator.PlainArgumentIsNoOption | scripts/icon_generator/src/main.rs:126-200 | An argument not starting with "--" is no option. |
| IconGenerator.NoOutputGivesBoth | scripts/icon_generator/src/main.rs:224-228 | With no output given, both files are made next to the input, in the default sizes. |
| IconGenerator.UnknownOptionRejected | scripts/icon_generator/src/main.rs:200-202 | An argument starting with "--" that is no known option is an error. |
| IconGenerator.SecondPositionalRejected | scripts/icon_generator/src/main.rs:204-206 | A second positional argument is an error. |
| IconGenerator.PositionalWithOptionRejected | scripts/icon_generator/src/main.rs:211-213 | A positional output together with --ico or --icns is an error. |
| IconGenerator.ResizedSide | scripts/icon_generator/src/main.rs:258-259 | One side of the resized image: the scaled side rounded, clamped to [1, size]. |
| IconGenerator.IconFrameLayout | scripts/icon_generator/src/main.rs:253-269 | The integer parts of `build_icon_frame`: the image scaled to fit the canvas keeping its aspect ratio, each side clamped to [1, size], and centred (`size` comes from the checked size lists, so it is at least 1). |
| IconGenerator.FrameCentred | scripts/icon_generator/src/main.rs:263-265 | The frame lies inside the canvas with equal margins, give or take one pixel. |
| IconGenerator.LongerSideFills | scripts/icon_generator/src/main.rs:254-259 | The longer side of the image fills the canvas. |
| Interactions.RectsOverlapIffCommonPoint | src/pdf_viewer/interactions.rs:23-29 | Two rectangles overlap exactly when some point lies strictly inside both: overlap is of the open boxes (left, right) x (bottom, top). |
| Interactions.OverlapWithin | src/pdf_viewer/interactions.rs:23-29 | A rectangle inside another only overlaps what the outer one does. |
| Interactions.SubtractTextMarkupRect | src/pdf_viewer/interactions.rs:31-87 | `subtract_text_markup_rect`: `base` itself when the two do not overlap, otherwise the strips wider and taller than epsilon. |
| Interactions.StripsFacts | src/pdf_viewer/interactions.rs:31-87 | The strips of overlapping rectangles lie within the base and clear of the cutter, and no two of them overlap. |
| Interactions.SubtractTextMarkupRectFacts | src/pdf_viewer/interactions.rs:31-87 | What `subtract_text_markup_rect` returns for overlapping rectangles: at most four pieces, each within the base, clear of the cutter, wider and taller than epsilon, and no two overlapping. |
| Interactions.CutAllFacts | src/pdf_viewer/interactions.rs:89-105 | Cutting every rectangle by one cutter keeps each result within a rectangle it came from and clear of the cutter, and keeps the rectangles the cutter does not touch. |
| Interactions.RemainderFacts | src/pdf_viewer/interactions.rs:89-105 | What is left of the bases: each piece lies within a base and clear of every cutter, and a base that no cutter touches is kept whole. |
| Interactions.RemainderStaysEmpty | src/pdf_viewer/interactions.rs:89-105 | Once nothing is left, later cutters leave nothing. |
| Interactions.SubtractTextMarkupRects | src/pdf_viewer/interactions.rs:89-105 | `subtract_text_markup_rects`: every base cut by each cutter in turn, stopping early once nothing is left. |
| Interactions.NormalizeRect | src/pdf_viewer/interactions.rs:107-144 | One rectangle of `normalize_text_markup_rects`: its edges as page fractions clamped to [0, 1] and put in order; None when that is no wider or no taller than epsilon. |
| Interactions.NormalizeAll | src/pdf_viewer/interactions.rs:107-144 | The `filter_map` of `normalize_text_markup_rects` on a positive page: the normalised rectangles of the inputs that keep one, in order. |
| Interactions.NormalizeTextMarkupRects | src/pdf_viewer/interactions.rs:107-144 | `normalize_text_markup_rects`: nothing for a page without a positive size; otherwise each selection box as page fractions in the unit square, ordered, with the degenerate ones dropped. |
| Interactions.HullFacts | src/pdf_viewer/interactions.rs:249-286 | The hull holds every box, and each of its edges is some box's edge. |
| Interactions.SelectionAnchor | src/pdf_viewer/interactions.rs:249-286 | What `selection_anchor_from_rects` computes: None for a page without a positive size or no boxes, otherwise the centre of their hull. |
| Interactions.SelectionAnchorFacts | src/pdf_viewer/interactions.rs:249-286 | The anchor is on the selection's page, its ratios lie in [0, 1], and when the hull's centre lies on the page the ratios are exactly that centre over the page size. |
| Interactions.SelectionAnchorFromRects | src/pdf_viewer/interactions.rs:249-286 | `selection_anchor_from_rects`: the one loop over the boxes folds their hull (starting from the first box rather than from infinities, which reals lack, and which always end finite here). |
| Interactions.SetTextSelectionMarkupColor | src/pdf_viewer/interactions.rs:4-13 | `set_text_selection_markup_color`: only a different colour is stored (and repainted). |
| Interactions.NextTextMarkupId | src/pdf_viewer/interactions.rs:15-21 | `next_text_markup_id`: the least id from the clock's starting point that no markup uses, by the same saturating search as note ids. |
| Interactions.TrimmedClear | src/pdf_viewer/interactions.rs:146-187 | A trimmed markup no longer touches the range. |
| Interactions.OverlapsRemovedMembers | src/pdf_viewer/interactions.rs:146-187 | Every markup that does not touch the range survives the rebuild, and everything the rebuild keeps is such a markup or a touching one trimmed to a non-empty remainder. |
| Interactions.OverlapsRemovedClear | src/pdf_viewer/interactions.rs:146-187 | After the rebuild no markup touches the range. |
| Interactions.OverlapsRemovedOffPage | src/pdf_viewer/interactions.rs:146-187 | The markups on other files or pages keep their order. |
| Interactions.OverlapsRemovedUntouched | src/pdf_viewer/interactions.rs:146-187 | Nothing touching the range, the rebuilt list is the list itself. |
| Interactions.OverlapsRemovedIds | src/pdf_viewer/interactions.rs:146-187 | The rebuilt list uses no id the list did not. |
| Interactions.AnyTouchesPrefix | src/pdf_viewer/interactions.rs:165-168 | One more markup touches when the prefix did or the new one does. |
| Interactions.RemoveMarkupOverlapsForRange | src/pdf_viewer/interactions.rs:146-187 | `remove_markup_overlaps_for_range`: each markup on the file and page that overlaps the range is trimmed to what lies outside it (or dropped); the result says whether any did. |
| Interactions.RemoveMarkupOverlapsForRangeComplete | src/pdf_viewer/interactions.rs:294-327 | `remove_markup_overlaps_for_range_complete`: every markup on the file and page that overlaps the range is deleted and all others keep their order; the result says whether any was. |
| Interactions.ActiveTextSelectionSnapshot | src/pdf_viewer/interactions.rs:224-247 | `active_text_selection_snapshot`: the active tab's current selection on a cached page, None when there is none, when it covers no boxes or when its text is only white space. |
| Interactions.SnapshotOf | src/pdf_viewer/interactions.rs:224-247 | The snapshot of `selection` over its page's text `cache`: the selection's bounds and its trimmed text, when neither is empty. |
| Interactions.ActiveSelectionAnchor | src/pdf_viewer/interactions.rs:288-292 | The anchor of the active selection, if it has one. |
| Interactions.ActiveTextSelectionAnchor | src/pdf_viewer/interactions.rs:288-292 | The anchor of the active selection snapshot's rectangles (ActiveSelectionAnchor), none without a snapshot. |
| Interactions.SelectionTarget | src/pdf_viewer/interactions.rs:329-406 | The guards shared by `clear_text_markups_in_selection` and `add_text_markup_from_selection`: the active tab has a file and a selection snapshot whose boxes keep some normalised rectangle. |
| Interactions.ClearTextSelectionHoverMenuState | src/pdf_viewer/interactions.rs:189-199 | `clear_text_selection_hover_menu_state`: the menu ends cleared, and the result says whether there was anything to clear. |
| Interactions.CloseTextSelectionHoverMenu | src/pdf_viewer/interactions.rs:201-205 | The hover menu is shut, with its position and anchor cleared. |
| Interactions.OpenTextSelectionHoverMenu | src/pdf_viewer/interactions.rs:207-222 | `open_text_selection_hover_menu`: the context menu goes away (its markup id stays) and the hover menu opens at the position. |
| Interactions.ClearTextSelection | src/pdf_viewer/interactions.rs:467-473 | `clear_text_selection`: the hover menu is cleared and the active tab's selection dropped, its text caches kept. |
| Interactions.SelectAllText | src/pdf_viewer/interactions.rs:450-465 | `select_all_text`: the whole cached text of the active page becomes the selection, anchored at its first character, with no drag in progress; without such a page nothing changes. |
| Interactions.InsertMarkup | src/pdf_viewer/interactions.rs:360-406 | The list part of `add_text_markup_from_selection`: overlaps trimmed away, the new markup put in with a fresh id, the list sorted. |
| Interactions.AddTextMarkupFromSelection | src/pdf_viewer/interactions.rs:360-406 | `add_text_markup_from_selection`: false, changing nothing, unless the active tab has a file and a selection with rectangles to mark; then the markups overlapping the new one are trimmed, the new markup is added with a fresh id, the list is sorted newest first and written out, and the selection is cleared. |
| Interactions.AddMarkupAt | src/pdf_viewer/interactions.rs:360-406 | `add_text_markup_from_selection` past its guards. |
| Interactions.PersistAndClearSelection | src/pdf_viewer/interactions.rs:329-406 | The common ending of both selection actions: the markups are written out and the selection cleared. |
| Interactions.ClearTextMarkupsInSelection | src/pdf_viewer/interactions.rs:329-358 | `clear_text_markups_in_selection`: false, changing nothing, unless the active tab has a file and a selection with rectangles; then every markup on that page overlapping the selection is deleted (the rest re-sorted and written out when any was) and the selection cleared. The result says whether any markup went. |
| Interactions.ClearMarkupsAt | src/pdf_viewer/interactions.rs:329-358 | `clear_text_markups_in_selection` past its guards. |
| Interactions.RemoveAndResort | src/pdf_viewer/interactions.rs:329-358 | The list part of `clear_text_markups_in_selection`. |
| Interactions.ClearedMarkups | src/pdf_viewer/interactions.rs:329-358 | After clearing, no markup on the page overlaps the selection, every other markup is kept as often as before, and the list is sorted. |
| Interactions.AddedMarkups | src/pdf_viewer/interactions.rs:360-406 | After adding, the list is sorted, holds the new markup, and keeps every markup the trimming left; nothing else on the page overlaps the new markup's rectangles. |
| Interactions.ActiveTabTextMarkupsForPage | src/pdf_viewer/interactions.rs:408-418 | `active_tab_text_markups_for_page`: the markups on that page of the active tab's file, in list order; none without a file. |
| Interactions.TextMarkupById | src/pdf_viewer/interactions.rs:420-425 | `text_markup_by_id`: the first markup with the id. |
| Interactions.DeleteTextMarkupById | src/pdf_viewer/interactions.rs:427-435 | `delete_text_markup_by_id`: every markup with the id goes; when any did, the hovered markup is forgotten and the list written out, otherwise nothing changes. |
| Interactions.OpenTabContextMenu | src/pdf_viewer/interactions.rs:475-529 | `open_tab_context_menu` off macOS: for a present tab the context menu opens for it at the position, with no note anchor or note id, and the hover menu is cleared; an unknown tab changes nothing. |
| Interactions.CloseContextMenu | src/pdf_viewer/interactions.rs:531-546 | `close_context_menu`: already closed, nothing changes (not even a leftover note or markup target); otherwise all six fields clear. |
| Interactions.HoverTarget | src/pdf_viewer/interactions.rs:554-569 | The hover target `set_text_hover_hit` wants: the active tab and the page when the mouse is over text and a tab is active. |
| Interactions.SetTextHoverHit | src/pdf_viewer/interactions.rs:554-569 | `set_text_hover_hit`: the target becomes the wanted one, and the result says whether it changed. |
| Interactions.CurrentDragSourceTabId | src/pdf_viewer/interactions.rs:636-642 | The dragged tab's id, none exactly when no drag is under way. |
| Interactions.DragMoveIff | src/pdf_viewer/interactions.rs:696-729 | With unique ids a drag moves a tab exactly when it is over another tab and both are present; the source then lands at the target's index. |
| Interactions.FinishTabDrag | src/pdf_viewer/interactions.rs:696-729 | `finish_tab_drag`: a pending start is dropped; a drag over another present tab moves the source there and writes the open tabs out; any drag in progress ends with no mouse position; without a drag nothing else changes. The same code is at src/pdf_viewer.rs:3581-3610. |
| Interactions.EndDragOver | src/pdf_viewer/interactions.rs:701-721 | `finish_tab_drag` for a drag over a tab: the move, if any, is made and persisted, and the drag ends. |
| Interactions.MoveDraggedTab | src/pdf_viewer/interactions.rs:706-718 | A move of the source to the target's index, persisted; no move leaves the tabs and their store alone. |
| Interactions.MoveAndPersist | src/pdf_viewer/interactions.rs:712-718 | `move_tab` followed by `persist_open_tabs`: the tabs are reordered and written out. The same code is at src/tab.rs:197-209. |
| Interactions.PermutedSelectionsValid | src/tab.rs:197-209 | Reordering the tabs keeps every selection manager valid. |
| LegacyViewer.Lift | src/pdf.rs:299-392 | The legacy pages as pages of the shared request scheduler, with an unused thumbnail slot. |
| LegacyViewer.LiftInjective | src/pdf.rs:299-392 | Lifting forgets nothing: equal lifts come from equal pages. |
| LegacyViewer.LiftUpdate | src/pdf.rs:368-385 | Changing one page's display slot is changing the lifted page's display slot. |
| LegacyViewer.PendingDisplaySpec | src/pdf.rs:317-336 | The pending pages are distinct renderable candidates in the order of their first occurrence, at most one batch; none are picked only when no candidate is renderable. |
| LegacyViewer.InsertKeepsOrder | src/pdf.rs:97 | Inserting into ascending pages keeps them ascending and keeps a lower bound that `p` respects. |
| LegacyViewer.SortByIndex | src/pdf.rs:97 | `sort_by_key` on the index: the same pages in ascending index order. |
| LegacyViewer.SortByIndexLength | src/pdf.rs:97 | Sorting keeps the number of pages. |
| LegacyViewer.DisplayBaseWidth | src/pdf.rs:264-267 | `display_base_width`: the viewport without the sidebar, at least the minimum display width. |
| LegacyViewer.DisplayCardSize | src/pdf.rs:269-278 | `display_card_size`: the zoomed width, at least the minimum, and the height that keeps the page's aspect ratio. |
| LegacyViewer.CardKeepsProportions | src/pdf.rs:269-278 | A card has its page's proportions. |
| LegacyViewer.DisplayTargetWidth | src/pdf.rs:294-297 | `display_target_width`: the rendered width in pixels, the zoomed base width times the window's scale factor clamped to [1, i32::MAX] and rounded. |
| LegacyViewer.PdfViewer.constructor | src/pdf.rs:53-70 | `PdfViewer::new`: no file, no pages, page 0, zoom 1, the open prompt and an idle display lane. |
| LegacyViewer.PdfViewer.BeginOpen | src/pdf.rs:72-74 | `open_pdf_dialog` before the picker answers: the status asks for a file. |
| LegacyViewer.PdfViewer.ResetDisplay | src/pdf.rs:132-172 | The reset every answer of the picker does: no page loading, no task counted, a new epoch that makes running tasks stale, no visible range. |
| LegacyViewer.PdfViewer.ApplyLoadResult | src/pdf.rs:95-130 | The update after loading the picked path: success shows the pages sorted by index from the first, at zoom 1; failure leaves no pages and keeps the zoom; both reset the display requests. |
| LegacyViewer.PdfViewer.FinishOpen | src/pdf.rs:83-173 | The picker's answer. For a non-empty pick the first path is loaded, `parsed` being what loading it gave: on success the pages sorted by index at zoom 1, reported as loaded; on failure no pages, the zoom kept, reported as failed; page 0 either way. An empty pick, a cancel or a picker error only resets the display requests and reports. |
| LegacyViewer.PdfViewer.SelectPage | src/pdf.rs:178-184 | `select_page`: an index of a page becomes the selected page; any other index changes nothing. |
| LegacyViewer.PdfViewer.PrevPage | src/pdf.rs:186-190 | `prev_page`: one page back unless on the first page. |
| LegacyViewer.PdfViewer.NextPage | src/pdf.rs:192-196 | `next_page`: one page forward while a next page exists. |
| LegacyViewer.PdfViewer.ZoomBy | src/pdf.rs:198-206 | `zoom_in` (`delta` is `ZOOM_STEP`) and `zoom_out` (its negation): the zoom moved by the step and clamped to [0.6, 2.5]. |
| LegacyViewer.PdfViewer.ZoomReset | src/pdf.rs:208-211 | `zoom_reset`: the zoom becomes 1. |
| LegacyViewer.PdfViewer.RequestDisplayLoadFromCandidates | src/pdf.rs:299-350 | `request_display_load_from_candidates`: nothing without candidates, pages or a path, with the task limit reached, or when no candidate needs rendering; otherwise the pending pages are marked loading, one more task is counted, and the request carries the current epoch. |
| LegacyViewer.PdfViewer.RequestDisplayLoadForVisibleRange | src/pdf.rs:394-422 | `request_display_load_for_visible_range`: nothing for an empty range or without pages; otherwise loading markers are dropped when no task runs, the first visible page (or the last page) becomes the selected page, the range is recorded, and its pages are the candidates. |
| LegacyViewer.PdfViewer.StoreImages | src/pdf.rs:366-377 | The first loop of the completion: each returned image that names a page is stored with the request's width. |
| LegacyViewer.PdfViewer.MarkRequested | src/pdf.rs:380-387 | The second loop: every requested page leaves the loading set, and those without an image are marked failed. |
| LegacyViewer.PdfViewer.CompleteDisplayLoad | src/pdf.rs:357-389 | The completion closure: one task fewer is counted in any case (`saturating_sub`); a request of an earlier epoch is then dropped. Otherwise the pages become `Completed` and the requested pages stop loading. `images` is None when rendering failed. |
| LegacyViewer.PdfViewer.OnDisplayScrollOffsetChanged | src/pdf.rs:220-254 | `on_display_scroll_offset_changed`: records the offset; when it differs from a previously recorded one and there are pages, a thumbnail sync is scheduled (`schedule_thumbnail_sync_after_display_scroll`), whose timer captures the new sync epoch returned here. |
| LegacyViewer.PdfViewer.ThumbnailSyncTarget | src/pdf.rs:224-238 | The sync timer firing: only the timer of the latest sync epoch acts, and only with pages; it scrolls the thumbnails to the selected page clamped to the last page. |
| LegacyViewer.CompletedPages | src/pdf.rs:357-389 | After a completion, a returned image is stored on its page with the request's width and no failure; a requested page without one keeps its image and is marked failed; every other page is as it was. |
| MarkdownNoteDialog.CloseMarkdownNoteEditor | src/pdf_viewer/markdown_note_dialog.rs:136-158 | `close_markdown_note_editor`: the dialog is shut and the window it had is handed back to be removed; the root view asks for focus back exactly when there was something to shut. |
| MarkdownNoteDialog.OnMarkdownNoteEditorWindowClosed | src/pdf_viewer/markdown_note_dialog.rs:108-134 | `on_markdown_note_editor_window_closed`: a report from another session changes nothing; otherwise the dialog is shut and the root view asks for focus back exactly when there was something to shut. |
| MarkdownNoteDialog.OpenMarkdownNoteEditorWindow | src/pdf_viewer/markdown_note_dialog.rs:50-106 | `open_markdown_note_editor_window`: the dialog opens under the next session number (wrapping at 2^64) and the window is requested; `handle` is the window system's answer. With a window the dialog stays open holding it; without one it is shut again at once, as its own session's close report would. |
| MarkdownNoteDialog.OpenMarkdownNoteEditorForNew | src/pdf_viewer/markdown_note_dialog.rs:2-12 | `open_markdown_note_editor_for_new`: any open dialog is shut (its window handed back to be removed) and an empty one opens at the anchor. |
| MarkdownNoteDialog.SelectionNoteAnchor | src/pdf_viewer/markdown_note_dialog.rs:19-24 | Where a note for the selection goes: the hover menu's anchor, or else the anchor of the active selection. |
| MarkdownNoteDialog.OpenMarkdownNoteEditorForTextSelection | src/pdf_viewer/markdown_note_dialog.rs:14-33 | `open_markdown_note_editor_for_text_selection`: false, changing nothing, without an anchor for the selection; otherwise any open dialog is shut, the hover menu cleared and an empty dialog handle at that anchor. |
| MarkdownNoteDialog.OpenAtSelection | src/pdf_viewer/markdown_note_dialog.rs:26-32 | `open_markdown_note_editor_for_text_selection` once it has an anchor. |
| MarkdownNoteDialog.OpenMarkdownNoteEditorForEdit | src/pdf_viewer/markdown_note_dialog.rs:35-48 | `open_markdown_note_editor_for_edit`: an unknown note id changes nothing; otherwise any open dialog is shut and one opens on that note's text, without an anchor. |
| MarkdownNoteDialog.SaveMarkdownNoteFromEditorWindow | src/pdf_viewer/markdown_note_dialog.rs:160-205 | `save_markdown_note_from_editor_window`, given the window's text and the clock. A report for a shut dialog or another session is accepted (true) and changes nothing; blank text is refused (false) and changes nothing. An edited note that still exists gets the trimmed text; otherwise a new note is made at the anchor in the active file with a fresh id, and without a file or an anchor the save is refused. A saved note is upserted and the dialog shut. `outcome` says which of these happened. |
| MarkdownNoteDialog.SaveNewNote | src/pdf_viewer/markdown_note_dialog.rs:182-203 | The last branch of `save_markdown_note_from_editor_window`: a new note at the dialog's anchor in the active file, or nothing without either. |
| MarkdownNoteDialog.SaveAndClose | src/pdf_viewer/markdown_note_dialog.rs:177-180 | Upsert the note, then shut the dialog of its session. |
| PageRendering.ScanFullStays | src/pdf_viewer/page_rendering.rs:270-272 | Once the batch is full, later candidates change nothing. |
| PageRendering.PendingPagesSpec | src/pdf_viewer/page_rendering.rs:255-455 | The pages a request asks for: distinct pages that need rendering and have not failed, drawn from the candidates in the order of their first occurrence, at most a batch of them, and, when fewer than a batch, every such candidate. |
| PageRendering.SelectPending | src/pdf_viewer/page_rendering.rs:255-274 | The candidate loop with its `seen` set and its early `break`. |
| PageRendering.PlanRequest | src/pdf_viewer/page_rendering.rs:239-278 | What `request_*_load_from_candidates` asks the renderer for, if anything: nothing without candidates, pages or a path, with the lane's tasks at their limit, or when no candidate needs rendering. |
| PageRendering.StartedLane | src/pdf_viewer/page_rendering.rs:280-285 | The lane while a request is in flight: its pages are loading and one more task runs. |
| PageRendering.RequestLoadFromCandidates | src/pdf_viewer/page_rendering.rs:233-516 | `request_thumbnail_load_from_candidates` / `request_display_load_from_candidates`: the active tab's lane records the request as `PlanRequest` decides it. |
| PageRendering.SetImage | src/pdf_viewer/page_rendering.rs:311-317 | One returned image: stored with the request's width, failure cleared; an index past the pages is ignored. |
| PageRendering.LoadedIndices | src/pdf_viewer/page_rendering.rs:307-318 | The indices of the returned images that name a page (`loaded_indices`). |
| PageRendering.MarkFailed | src/pdf_viewer/page_rendering.rs:323-330 | A requested page that came back without an image is marked failed. |
| PageRendering.Completed | src/pdf_viewer/page_rendering.rs:306-330 | The pages after a completion is applied. |
| PageRendering.CompletedSpec | src/pdf_viewer/page_rendering.rs:306-330 | What a completion does to each page: a returned image is stored with the request's width and clears the failure; a requested page without one is marked failed and keeps its image; every other page, and the other lane, stay as they were. |
| PageRendering.FinishedLane | src/pdf_viewer/page_rendering.rs:304-324 | The lane once the request is back: its pages leave the loading set and one task fewer runs (`saturating_sub`). |
| PageRendering.CompleteLoad | src/pdf_viewer/page_rendering.rs:296-332 | The completion closure of `request_*_load_from_candidates`: discarded for another tab or epoch; otherwise the pages become `Completed` and the lane `FinishedLane`. `images` is None when rendering failed. |
| PageRendering.StoreImages | src/pdf_viewer/page_rendering.rs:309-321 | The first loop of the completion: each returned image is stored. |
| PageRendering.MarkRequested | src/pdf_viewer/page_rendering.rs:323-330 | The second loop: every requested page leaves the loading set, and those without an image are marked failed. |
| PageRendering.RequestLoadForVisibleRange | src/pdf_viewer/page_rendering.rs:337-540 | `request_*_load_for_visible_range`: ignored without an active tab, for an empty range or without pages; otherwise stale loading markers are dropped when nothing is in flight, the range is recorded, and the range's pages are the candidates. |
| PageRendering.RangeIndices | src/pdf_viewer/page_rendering.rs:356-357 | `start..end` as a candidate list: the indices from start up to end, in order, and none for an empty range. |
| PageRendering.SelectPage | src/pdf_viewer/page_rendering.rs:2-12 | `select_page`: an index inside the document becomes the selected and active page, the display scroll skips its next sync, and the position is saved; any other index, or no active tab, changes nothing. |
| PageRendering.Focus | src/pdf_viewer/page_rendering.rs:3-7 | The tab-side part of `select_page`. |
| PageRendering.PrevPage | src/pdf_viewer/page_rendering.rs:14-21 | `prev_page`: one page back while not on the first page. |
| PageRendering.NextPage | src/pdf_viewer/page_rendering.rs:23-30 | `next_page`: one page forward while a next page exists. |
| PageRendering.Zoomed | src/pdf_viewer/page_rendering.rs:32-44 | A zoom step clamped into `[lo, hi]` (`f32::clamp`). |
| PageRendering.ZoomInOut | src/pdf_viewer/page_rendering.rs:32-44 | Inside the range, zooming in and back out returns to the same zoom (over reals; `f32` rounding is not modelled). |
| PageRendering.ZoomSaturates | src/pdf_viewer/page_rendering.rs:32-44 | Repeated steps stop at the bounds. |
| PageRendering.ZoomBy | src/pdf_viewer/page_rendering.rs:32-44 | `zoom_in` / `zoom_out` (delta `ZOOM_STEP` or its negation) and `zoom_reset`: the active tab's zoom. The older copy at src/pdf_viewer.rs:2841-2853 has the same step and range. |
| PageRendering.ZoomReset | src/pdf_viewer/page_rendering.rs:46-51 | `zoom_reset`: the active tab's zoom becomes 1. |
| PageRendering.ScheduleThumbnailSync | src/pdf_viewer/page_rendering.rs:63-71 | `schedule_thumbnail_sync_after_display_scroll`: invalidates earlier sync timers by bumping the tab's sync epoch, and returns what the new timer captures (tab id, epoch). |
| PageRendering.SyncTarget | src/pdf_viewer/page_rendering.rs:89-93 | The page the sync timer makes active: the first visible page, or the current one, clamped to the last page. |
| PageRendering.ThumbnailSyncFired | src/pdf_viewer/page_rendering.rs:77-129 | The sync timer firing: only for the same tab and sync epoch, with pages. The active page moves to `SyncTarget`, and only when it changed is the position recorded and saved. |
| PageRendering.DisplayScrollOffsetChanged | src/pdf_viewer/page_rendering.rs:134-151 | `on_display_scroll_offset_changed`: records the offset; a real change on a tab with pages either consumes the one-shot suppression or schedules a sync. |
| PageRendering.KeepPage | src/pdf_viewer/mod.rs:450-451 | The page kept across a layout change: the active page clamped to the last page. The same code is at src/pdf_viewer/page_rendering.rs:186. |
| PageRendering.KeepPageIdempotent | src/pdf_viewer/mod.rs:450-463 | Keeping a kept page again changes nothing, so the delayed restore lands on the page the layout change chose. The same code is at src/pdf_viewer/page_rendering.rs:186. |
| PageRendering.KeepRange | src/pdf_viewer/mod.rs:454-455 | The visible range recorded for a kept page: that page alone. The same code is at src/pdf_viewer/page_rendering.rs:189-190. |
| PageRendering.KeepDisplayPage | src/pdf_viewer/mod.rs:450-457 | The display side of a kept page: it becomes the active and selected page and the recorded visible range, and the scroll offset is recorded. The scroll-sync suppression flag is left alone; the restore timer sets it on its own (LayoutRestoreFired). |
| PageRendering.ScheduleLayoutRestore | src/pdf_viewer/page_rendering.rs:153-172 | `schedule_restore_current_page_after_layout_change`: without an active tab nothing happens; otherwise earlier restore timers are invalidated and the new timer captures (tab id, restore epoch). |
| PageRendering.LayoutRestoreFired | src/pdf_viewer/page_rendering.rs:177-196 | The restore timer firing: only while its epoch is the latest and its tab is still active with pages; then the kept page is shown again. |
| PageRendering.WindowSizeObserved | src/pdf_viewer/mod.rs:362-372 | The window-size bookkeeping of `render`: a new size is recorded and flags a layout change; it is saved only outside maximised and full-screen windows. |
| PageRendering.LayoutChangedOnTab | src/pdf_viewer/mod.rs:446-459 | The tab side of a display layout change: the offset is recorded; with pages the kept page is shown and returned for the delayed restore. The scroll-sync suppression flag is unchanged. |
| PageRendering.UpdateDisplayLayout | src/pdf_viewer/mod.rs:425-467 | The display layout part of `render`: a window change or a new target width is a layout change. It invalidates pending scroll syncs, leaves the scroll-sync suppression flag alone, and on a tab with pages keeps the active page and schedules its restore. |
| PageRendering.SyncScrollToSelected | src/pdf_viewer/page_rendering.rs:53-61 | `sync_scroll_to_selected`: the scroll lists move to the selected page and the display's next scroll sync is skipped. |
| PageSize.ReadObject | src/utils.rs:318-320 | `read_object`: the object behind a reference, None when it cannot be read. The same code is at src/pdf/utils.rs:156-158. |
| PageSize.MediaBoxFromArray | src/utils.rs:348-365 | `media_box_from_array`: exactly four numbers, read as the corners (left, bottom, right, top); the size is accepted only when both sides exceed one point. The same code is at src/pdf/utils.rs:186-203. |
| PageSize.MediaBoxCornerOrder | src/utils.rs:353-359 | The size does not depend on which corner a box lists first. The same code is at src/pdf/utils.rs:191-197. |
| PageSize.AsDictionary | src/utils.rs:322-328 | `as_dictionary`: a dictionary, or an indirect object holding one. The same code is at src/pdf/utils.rs:160-166. |
| PageSize.ResolveObjectRef | src/utils.rs:330-336 | `resolve_object_ref`: a reference, possibly inside indirect objects. The same code is at src/pdf/utils.rs:168-174. |
| PageSize.ResolveMediaBox | src/utils.rs:338-346 | `resolve_media_box`: an array, or a reference or indirect object leading to one. `visited` holds the references already followed; a reference met twice ends the search with None. The same code is at src/pdf/utils.rs:176-184. |
| PageSize.MediaBoxOf | src/utils.rs:284-287 | The size a dictionary's own MediaBox entry gives, if any. The same code is at src/pdf/utils.rs:122-125. |
| PageSize.ParentOf | src/utils.rs:291 | The reference in a dictionary's Parent entry, if any. The same code is at src/pdf/utils.rs:129. |
| PageSize.ChainSize | src/utils.rs:296-315 | The size the Parent chain from `parent` gives, where the chain stops at the first ancestor already in `visited`. The same code is at src/pdf/utils.rs:134-153. |
| PageSize.PageStart | src/utils.rs:281-294 | Where the chain walk starts: the page's own MediaBox answers at once; otherwise the walk starts at the known parent, or else at the page's Parent entry. The same code is at src/pdf/utils.rs:119-132. |
| PageSize.PageSizeIsUsable | src/utils.rs:276-316 | Every page gets a size: a MediaBox larger than one point each way, or the default. The same code is at src/pdf/utils.rs:114-154. |
| PageSize.OwnMediaBoxWins | src/utils.rs:282-289 | A page whose own MediaBox is usable takes it, whatever its parents say. The same code is at src/pdf/utils.rs:120-127. |
| PageSize.InheritsParentMediaBox | src/utils.rs:290-312 | A page without a MediaBox inherits its parent's. The same code is at src/pdf/utils.rs:128-150. |
| PageSize.ResolvePageSize | src/utils.rs:276-316 | `resolve_page_size`, with the loop over the Parent chain stopping at the first ancestor it has already visited. The same code is at src/pdf/utils.rs:114-154. |
| PageSize.WalkAsWritten | src/utils.rs:296-313 | The loop as written after `n` rounds: the size once it has one, None while it is still running. The same code is at src/pdf/utils.rs:134-151. |
| PageSize.SelfParentNeverEnds | src/utils.rs:296-313 | On a Parent chain that comes back to itself without a MediaBox the loop as written never finishes, however many rounds it is given; the walk with a visited set gives the default size. The same code is at src/pdf/utils.rs:134-151. |
| PageSize.Ancestor | src/utils.rs:296-313 | The reference the loop as written holds after `k` rounds, None once it has ended. The same code is at src/pdf/utils.rs:134-151. |
| PageSize.WalkAgrees | src/utils.rs:296-313 | Where the loop as written finishes within `n` rounds without holding the same reference twice, the walk with a visited set gives the same size. The same code is at src/pdf/utils.rs:134-151. |
| PreviewUtils.PreviewRequests | src/pdf/utils.rs:75-78 | The pages `load_preview_images` renders, in rendering order: the requested ones sorted with duplicates removed. |
| PreviewUtils.LoadPreviewImages | src/pdf/utils.rs:51-99 | `load_preview_images` with Pdfium's work given as `render`: nothing for an empty request; otherwise the distinct requested pages in ascending order, out-of-range pages and failed renders skipped. |
| PreviewUtils.PreviewPages | src/pdf/utils.rs:51-99 | The previews: each requested page that is in range and renders, once, in ascending page order. |
| RecentBookmarkNotes.DesiredAnchor | src/pdf_viewer/recent_bookmark_notes.rs:51-58 | The anchor a hovered popup takes: the tab bar's add button wins over the open button, and with neither hovered the popup keeps its anchor (the open button when it has none). |
| RecentBookmarkNotes.UpdateRecentPopupVisibility | src/pdf_viewer/recent_bookmark_notes.rs:45-103 | `update_recent_popup_visibility`: the epoch always advances. While anything is hovered the popup opens at the desired anchor; otherwise a delayed close is scheduled for the new epoch. |
| RecentBookmarkNotes.RecentPopupDelayedClose | src/pdf_viewer/recent_bookmark_notes.rs:78-102 | The body of the delayed close: it closes the popup only if no update happened since it was scheduled (the epoch is the captured one) and nothing is hovered. |
| RecentBookmarkNotes.SetRecentPopupTriggerHovered | src/pdf_viewer/recent_bookmark_notes.rs:6-36 | `set_recent_popup_trigger_hovered`: the trigger's flag takes the new value, a hovered trigger becomes the anchor, and only a change in either runs the visibility update. |
| RecentBookmarkNotes.SetRecentPopupPanelHovered | src/pdf_viewer/recent_bookmark_notes.rs:38-43 | `set_recent_popup_panel_hovered`: only a change runs the update. |
| RecentBookmarkNotes.CloseRecentPopup | src/pdf_viewer/recent_bookmark_notes.rs:105-132 | `close_recent_popup`: every hover flag is cleared, the popup is shut without an anchor, and the epoch advances so that a pending delayed close does nothing. |
| RecentBookmarkNotes.StaleCloseEpoch | src/pdf_viewer/recent_bookmark_notes.rs:105-106 | A delayed close captured before a later epoch step is stale. |
| RecentBookmarkNotes.RecentFilesWithPositions | src/pdf_viewer/recent_bookmark_notes.rs:134-146 | `recent_files_with_positions`: each recent file with the page saved for it. |
| RecentBookmarkNotes.Inserted | src/pdf_viewer/recent_bookmark_notes.rs:161-166 | The list `insert_bookmark` leaves: the entry first, then every older bookmark at another place, in order. The same code is at src/pdf_viewer.rs:2161-2166. |
| RecentBookmarkNotes.InsertKeepsPlacesUnique | src/pdf_viewer/recent_bookmark_notes.rs:161-166 | When no two bookmarks share a place (file and page), none do after an insert either. The same code is at src/pdf_viewer.rs:2161-2166. |
| RecentBookmarkNotes.InsertLength | src/pdf_viewer/recent_bookmark_notes.rs:161-166 | Inserting at a place already bookmarked replaces that bookmark and changes nothing else; a new place makes the list one longer. The same code is at src/pdf_viewer.rs:2161-2166. |
| RecentBookmarkNotes.InsertBookmark | src/pdf_viewer/recent_bookmark_notes.rs:161-166 | `insert_bookmark`: the entry goes first, replaces a bookmark at the same place, and the list is written out. The same code is at src/pdf_viewer.rs:2161-2166. |
| RecentBookmarkNotes.CurrentBookmarkEntry | src/pdf_viewer/recent_bookmark_notes.rs:148-159 | `current_bookmark_entry`: nothing without an active tab, a path or pages; otherwise the active page (kept on the last page) of the active file, stamped with `now`. |
| RecentBookmarkNotes.DefaultScope | src/pdf_viewer/recent_bookmark_notes.rs:176-180 | The scope the bookmark popup opens in: the current file when there is one. |
| RecentBookmarkNotes.AddCurrentPageBookmarkAndOpen | src/pdf_viewer/recent_bookmark_notes.rs:168-186 | `add_current_page_bookmark_and_open`: the current page, if any, is bookmarked; an open recent-files popup is closed; the bookmark popup opens in the default scope. |
| RecentBookmarkNotes.BookmarkCurrentPage | src/pdf_viewer/recent_bookmark_notes.rs:169-171 | The start of `add_current_page_bookmark_and_open`: the current page, if there is one, is bookmarked. |
| RecentBookmarkNotes.OpenBookmarkPopup | src/pdf_viewer/recent_bookmark_notes.rs:176-184 | The end of `add_current_page_bookmark_and_open`: the bookmark popup opens in the default scope with a new epoch. |
| RecentBookmarkNotes.CloseBookmarkPopup | src/pdf_viewer/recent_bookmark_notes.rs:188-207 | `close_bookmark_popup`: the popup and its hover flags are cleared, the hover epoch is bumped, and a change is reported exactly when something was set. |
| RecentBookmarkNotes.UpdateBookmarkPopupVisibility | src/pdf_viewer/recent_bookmark_notes.rs:233-271 | `update_bookmark_popup_visibility`: the epoch always advances. While anything is hovered a shut popup opens in the default scope (an open one keeps its scope); otherwise a delayed close is scheduled. |
| RecentBookmarkNotes.BookmarkPopupDelayedClose | src/pdf_viewer/recent_bookmark_notes.rs:248-270 | The body of the bookmark popup's delayed close. |
| RecentBookmarkNotes.SetBookmarkPopupTriggerHovered | src/pdf_viewer/recent_bookmark_notes.rs:209-219 | `set_bookmark_popup_trigger_hovered`: only a change runs the update. |
| RecentBookmarkNotes.SetBookmarkPopupPanelHovered | src/pdf_viewer/recent_bookmark_notes.rs:221-231 | `set_bookmark_popup_panel_hovered`: only a change runs the update. |
| RecentBookmarkNotes.SetBookmarkScope | src/pdf_viewer/recent_bookmark_notes.rs:273-280 | `set_bookmark_scope`: reports whether the scope changed. |
| RecentBookmarkNotes.BookmarksForScope | src/pdf_viewer/recent_bookmark_notes.rs:282-292 | `bookmarks_for_scope`: in the `All` scope every bookmark, in order; in the `CurrentPdf` scope the bookmarks of the active file, in their order (none without one). |
| RecentBookmarkNotes.BookmarkedIffListed | src/pdf_viewer/recent_bookmark_notes.rs:282-301 | A page of the active file is bookmarked exactly when the current file's scope lists a bookmark of that page. |
| RecentBookmarkNotes.AddedPageIsBookmarked | src/pdf_viewer/recent_bookmark_notes.rs:161-166 | After bookmarking the current page, that page reads as bookmarked. |
| RecentBookmarkNotes.DeleteBookmark | src/pdf_viewer/recent_bookmark_notes.rs:340-348 | `delete_bookmark`: every bookmark at that place goes, the rest stay in order, and the list is written out only if one was removed. |
| RecentBookmarkNotes.ForgetBookmarkedFile | src/pdf_viewer/recent_bookmark_notes.rs:304-312 | The missing-file branch of `open_bookmark`: every bookmark into that file goes, and the list is written out only if one was removed. |
| RecentBookmarkNotes.OpenBookmark | src/pdf_viewer/recent_bookmark_notes.rs:303-338 | `open_bookmark`, with the file's existence passed in. A missing file loses every bookmark into it. Otherwise the bookmarked page is saved as the file's position; a tab already showing the file is switched to and, once it has pages, shows the bookmarked page (kept on the last page); any other file opens as a recent file does. Either way the bookmark popup closes. |
| RecentBookmarkNotes.OpenBookmarkedFile | src/pdf_viewer/recent_bookmark_notes.rs:314-337 | `open_bookmark` for a file that exists. |
| RecentBookmarkNotes.SaveBookmarkedPosition | src/pdf_viewer/recent_bookmark_notes.rs:314 | The bookmarked page becomes the saved position of its file; the tabs are untouched. |
| RecentBookmarkNotes.JumpOrOpen | src/pdf_viewer/recent_bookmark_notes.rs:316-337 | The tab search of `open_bookmark`: switch to the tab showing the file, or open the file with `open_recent_pdf`; either way the bookmark popup closes. |
| RecentBookmarkNotes.JumpToBookmark | src/pdf_viewer/recent_bookmark_notes.rs:323-334 | The switching branch of `open_bookmark`. |
| RecentBookmarkNotes.SwitchToBookmarkedTab | src/pdf_viewer/recent_bookmark_notes.rs:323-332 | `switch_to_tab`, then the bookmarked page. |
| RecentBookmarkNotes.OpenBookmarkedAsRecent | src/pdf_viewer/recent_bookmark_notes.rs:336-337 | The branch of `open_bookmark` that calls `open_recent_pdf`: no tab shows the file, so it opens in a new one. |
| RecentBookmarkNotes.ShowBookmarkedPage | src/pdf_viewer/recent_bookmark_notes.rs:325-332 | `select_page` on the bookmarked page when the active tab shows the bookmark's file and has pages. |
| RecentBookmarkNotes.SaturatingMul | src/pdf_viewer/recent_bookmark_notes.rs:351 | `u64::saturating_mul`: never above u64::MAX, and the product itself whenever that fits. |
| RecentBookmarkNotes.NextMarkdownNoteId | src/pdf_viewer/recent_bookmark_notes.rs:350-356 | `next_markdown_note_id`: the least id from the start the clock gives that no note uses. The search steps by `saturating_add(1)`, so it ends only when such an id exists below `u64::MAX` or is `u64::MAX`. |
| RecentBookmarkNotes.UpsertedContents | src/pdf_viewer/recent_bookmark_notes.rs:392-401 | After an upsert the list is sorted, holds the note exactly once and no other note with its id, and keeps every note with another id as many times as before. |
| RecentBookmarkNotes.UpsertMarkdownNote | src/pdf_viewer/recent_bookmark_notes.rs:392-401 | `upsert_markdown_note`: the note replaces any with its id, the list is re-sorted and written out. |
| RecentBookmarkNotes.MarkdownNoteById | src/pdf_viewer/recent_bookmark_notes.rs:372-377 | `markdown_note_by_id`: the first note with the id. |
| RecentBookmarkNotes.DeleteMarkdownNoteById | src/pdf_viewer/recent_bookmark_notes.rs:403-411 | `delete_markdown_note_by_id`: every note with the id goes; if one did, the hover is cleared and the list written out. |
| RecentBookmarkNotes.ActiveTabMarkdownNotesForPage | src/pdf_viewer/recent_bookmark_notes.rs:358-370 | `active_tab_markdown_notes_for_page`: the notes on a page of the active file, in list order; none without a file. |
| RecentBookmarkNotes.SetMarkdownNoteHoverId | src/pdf_viewer/recent_bookmark_notes.rs:383-390 | `set_markdown_note_hover_id`: reports whether the hovered note changed. |
| RecentBookmarkNotes.OpenMarkdownNoteEditorForNew | src/pdf_viewer/recent_bookmark_notes.rs:413-428 | `open_markdown_note_editor_for_new`: the editor opens empty at the anchor, for a new note; `initialText` is what the input is set to. |
| RecentBookmarkNotes.OpenMarkdownNoteEditorForEdit | src/pdf_viewer/recent_bookmark_notes.rs:430-448 | `open_markdown_note_editor_for_edit`: an unknown id changes nothing; otherwise the editor opens on that note's text, without an anchor. |
| RecentBookmarkNotes.CloseMarkdownNoteEditor | src/pdf_viewer/recent_bookmark_notes.rs:450-460 | `close_markdown_note_editor`: a shut editor is left alone; an open one is shut and the root view asks for focus back. |
| RecentBookmarkNotes.EditedNote | src/pdf_viewer/recent_bookmark_notes.rs:474-476 | An existing note with new text: only `markdown` and `updated_at` change. |
| RecentBookmarkNotes.NewNote | src/pdf_viewer/recent_bookmark_notes.rs:487-496 | A new note at an anchor: ratios clamped into [0, 1], both timestamps `now`, and no selection (the serde defaults of the fields the literal leaves out). |
| RecentBookmarkNotes.SaveMarkdownNoteFromEditor | src/pdf_viewer/recent_bookmark_notes.rs:462-504 | `save_markdown_note_from_editor`, given the editor's text and the clock. A shut editor or blank text changes nothing. An edited note that still exists gets the trimmed text; otherwise a new note is made at the anchor in the active file with a fresh id, and without a file or an anchor nothing changes. A saved note is upserted and the editor closed. |
| RecentBookmarkNotes.SaveNewNote | src/pdf_viewer/recent_bookmark_notes.rs:483-502 | The last branch of `save_markdown_note_from_editor`: a new note at the editor's anchor in the active file, or nothing without either. |
| RecentBookmarkNotes.StoreNoteAndClose | src/pdf_viewer/recent_bookmark_notes.rs:477-481 | Upsert the note, then close the open editor. |
| RecentBookmarkNotes.OpenPageContextMenu | src/pdf_viewer/recent_bookmark_notes.rs:506-520 | `open_page_context_menu`: the menu opens at the position for the page (no tab), carrying the note anchor and note under the mouse, which also becomes the hovered note. |
| RenderUtils.SwapRedBlue | src/utils.rs:269-274 | RGBA to BGRA, pixel by pixel. |
| RenderUtils.SwapRedBlueInvolution | src/utils.rs:269-274 | Swapping twice gives the bytes back. |
| RenderUtils.RgbaToBgra | src/utils.rs:269-274 | `rgba_to_bgra`, in place. |
| RenderUtils.Opaque | src/utils.rs:256-260 | Every whole pixel made fully opaque. |
| RenderUtils.ForceOpaque | src/utils.rs:256-260 | The alpha loop of `bitmap_to_gpui_render_image`, in place. |
| RenderUtils.BitmapBytes | src/utils.rs:229-263 | The bytes `bitmap_to_gpui_render_image` hands to the image buffer: the raw bytes of a native format, else the RGBA bytes converted; when the length is not width x height x 4 the converted RGBA bytes are tried instead, and an error is given when those do not fit either. A format without alpha has every pixel made opaque. `rawBytes` and `rgbaBytes` are the bitmap's two byte views; a missing format is read as BGRA. |
| RenderUtils.BitmapBytesOfWellSized | src/utils.rs:236-254 | A BGRA bitmap of the right length is passed through unchanged; an RGBA one has red and blue swapped in every pixel. |
| RenderUtils.BitmapToImageBytes | src/utils.rs:229-263 | `bitmap_to_gpui_render_image` on the bitmap's bytes, converting and forcing alpha in place in the buffer. |
| RenderUtils.FirstOccurrences | src/utils.rs:149-153 | The distinct elements of `s` in the order of their first occurrence (the `seen.insert` filter). |
| RenderUtils.FirstOccurrencesInOrder | src/utils.rs:149-153 | The elements keep the order in which each first occurs. |
| RenderUtils.DistinctRequests | src/utils.rs:149-153 | The `seen` filter of `load_display_images`. |
| RenderUtils.RenderedPages | src/utils.rs:155-222 | The images of the renderable pages among `requested` that render, in the order requested. |
| RenderUtils.RenderedPagesStep | src/utils.rs:155-222 | One more requested page adds its image when it is in range and renders, and nothing otherwise. |
| RenderUtils.DisplayImagesPages | src/utils.rs:99-226 | The pages of `load_display_images`' result: each distinct requested page that is in range and renders, exactly once, in the order of its first request. |
| RenderUtils.LoadDisplayImages | src/utils.rs:99-226 | `load_display_images` with Pdfium's work given as `render` (None for a page whose lookup, rendering or conversion fails): nothing for an empty request; otherwise each distinct requested page in the order of its first request, out-of-range pages skipped. |
| SettingsDialogs.UnitIndexUnique | src/pdf_viewer/settings_dialogs.rs:2-9 | Every byte count has exactly one unit. |
| SettingsDialogs.FormatStorageSize | src/pdf_viewer/settings_dialogs.rs:2-16 | `format_storage_size`: whole bytes below 1 KB, otherwise the size divided down to its unit and printed with one decimal by `formatOneDecimal`. |
| SettingsDialogs.ScaledAtLeast | src/pdf_viewer/settings_dialogs.rs:4-9 | The scaled size reaches 1024 exactly when the bytes reach the next unit, and dividing by 1024 once more scales by the next unit. |
| SettingsDialogs.FirstNonBlankLine | src/pdf_viewer/settings_dialogs.rs:43-46 | The first line with something other than white space. |
| SettingsDialogs.SummaryMessage | src/pdf_viewer/settings_dialogs.rs:41-51 | The message `summarize_updater_error` starts from: the first non-blank line (the whole text when there is none), trimmed, or "unknown error" when nothing is left. |
| SettingsDialogs.TruncateSummary | src/pdf_viewer/settings_dialogs.rs:51-54 | The length limit of `summarize_updater_error`, counted in characters: a longer message keeps its first 85 and ends in "...". |
| SettingsDialogs.SummarizeUpdaterError | src/pdf_viewer/settings_dialogs.rs:41-57 | `summarize_updater_error`: a non-empty one-line message of at most 88 characters. |
| SettingsDialogs.SummaryOfLine | src/pdf_viewer/settings_dialogs.rs:41-57 | The summary of an error with a non-blank line is that line, trimmed, or its first 85 characters followed by "...". |
| SettingsDialogs.CharBoundary | src/pdf_viewer/settings_dialogs.rs:51-54 | The number of characters of `s` whose UTF-8 encoding is exactly `n` bytes long, if `n` falls on a character boundary. |
| SettingsDialogs.EncodedPrefixes | src/pdf_viewer/settings_dialogs.rs:51-54 | A non-empty prefix encodes as its first character followed by the rest of the prefix. |
| SettingsDialogs.TruncateSummaryAsWritten | src/pdf_viewer/settings_dialogs.rs:51-54 | The truncation as `summarize_updater_error` writes it: `len` counts UTF-8 bytes, and `String::truncate` at byte 85 panics (None) when that byte lies inside a character. |
| SettingsDialogs.AsWrittenAgreesOnAscii | src/pdf_viewer/settings_dialogs.rs:51-54 | On ASCII text bytes are characters, and the written truncation is the one above. |
| SettingsDialogs.Wide | src/pdf_viewer/settings_dialogs.rs:51-54 | `n` copies of the three-byte character U+4E2D. |
| SettingsDialogs.WideHasNoBoundaryAt85 | src/pdf_viewer/settings_dialogs.rs:51-54 | No prefix of `Wide(n)` encodes to 85 bytes. |
| SettingsDialogs.WideMessagePanics | src/pdf_viewer/settings_dialogs.rs:51-54 | Thirty copies of U+4E2D are 90 bytes, over the limit, and byte 85 lies inside the 29th character: the written code panics where the character-counting truncation keeps the whole message. |
| SettingsDialogs.CheckForUpdates | src/pdf_viewer/settings_dialogs.rs:74-83 | `check_for_updates`: while a check runs another request is ignored; otherwise the state becomes `Checking` and the check is started (`started`). |
| SettingsDialogs.FinishUpdateCheck | src/pdf_viewer/settings_dialogs.rs:91-107 | The update-check task's completion: the state shows the outcome, a failure by its summarised message. |
| SettingsDialogs.RefreshDbUsage | src/pdf_viewer/settings_dialogs.rs:18-24 | `refresh_db_usage`: ignored while a refresh runs; otherwise marks the refresh as running and starts it (`started`). |
| SettingsDialogs.FinishDbUsageRefresh | src/pdf_viewer/settings_dialogs.rs:32-36 | The refresh task's completion: the measured size (None when it could not be measured) is stored and the refresh is over. |
| SettingsDialogs.CloseAboutDialog | src/pdf_viewer.rs:1417-1423 | The about dialog's open flag as `close_about_dialog` clears it. |
| SettingsDialogs.ClosePanelAndPopups | src/pdf_viewer/settings_dialogs.rs:113-121 | The command panel and both popups of `open_settings_dialog`, each closed when it is open. |
| SettingsDialogs.CloseOtherOverlays | src/pdf_viewer/settings_dialogs.rs:113-125 | The first half of `open_settings_dialog`: the command panel, both popups, the about dialog and the note editor are shut. |
| SettingsDialogs.OpenSettingsWindow | src/pdf_viewer/settings_dialogs.rs:127-185 | The second half of `open_settings_dialog`: an open dialog is only brought to the front; otherwise a new session starts, the database size is refreshed and the window (`window`, None when it could not be opened) is recorded, or the session closed again at once. |
| SettingsDialogs.OpenSettingsDialog | src/pdf_viewer/settings_dialogs.rs:112-186 | `open_settings_dialog`: the command panel, both popups, the about dialog and the note editor are shut. An open settings dialog keeps its session and is only refocused; otherwise a new session is opened. |
| SettingsDialogs.CloseSettingsDialog | src/pdf_viewer/settings_dialogs.rs:188-204 | `close_settings_dialog`: the dialog is shut and its window handed back to be removed; focus returns to the root view when there was anything to shut. |
| SettingsDialogs.OnSettingsDialogWindowClosed | src/pdf_viewer/settings_dialogs.rs:206-222 | `on_settings_dialog_window_closed`: a report from an earlier session changes nothing; the current session's report shuts the dialog. |
| SettingsDialogs.ReopenedSessionDiffers | src/pdf_viewer/settings_dialogs.rs:137-138 | A window closed after the dialog was reopened reports an older session, which the reopened dialog ignores. |
| SettingsDialogs.SetTitlebarNavigationVisible | src/pdf_viewer/settings_dialogs.rs:224-231 | `set_titlebar_navigation_visible`: nothing happens when the value is already set; otherwise it is stored and persisted. |
| SettingsDialogs.SetTitlebarZoomVisible | src/pdf_viewer/settings_dialogs.rs:357-364 | `set_titlebar_zoom_visible`: the same for the zoom controls. |
| SettingsDialogs.SetLanguagePreference | src/pdf_viewer/settings_dialogs.rs:233-252 | `set_language_preference`: nothing happens for the current preference; otherwise the preference is stored and the interface language re-resolved from it and the detected system language. Writing the preference out is not modelled (see Left out). |
| SettingsDialogs.SetThemeMode | src/pdf_viewer/settings_dialogs.rs:346-355 | `set_theme_mode`: nothing happens for the current mode; otherwise the mode is stored and persisted. |
| SettingsDialogs.SetThemeColorByName | src/pdf_viewer/settings_dialogs.rs:323-344 | `set_theme_color_by_name`: the preferred theme of the given mode becomes `name`; nothing happens when it already is. |
| SettingsDialogs.SelectedTheme | src/pdf_viewer/settings_dialogs.rs:272-290 | The theme `apply_theme_preferences` installs for a mode: the preferred one when the registry has a theme of that name and mode, else the registry's default for the mode. |
| Sled.Lookup | src/pdf_viewer/core.rs:360-375 | a key has a value exactly when some entry holds that key |
| Sled.KeysOf | src/pdf_viewer/core.rs:226-247 | the key set is exactly the keys of the entries |
| Sled.RemoveKey | src/pdf_viewer/core.rs:423-460 | removing a key never adds an entry |
| Sled.InsertSortedKeys | src/pdf_viewer/core.rs:396-421 | inserting adds exactly the inserted key to the key set |
| Sled.InsertSortedAscending | src/pdf_viewer/core.rs:396-421 | inserting keeps the entries in ascending byte order of their keys, the order `Tree::iter` returns them in |
| Sled.InsertAboveAll | src/pdf_viewer/core.rs:516-530 | inserting a key above every present key appends the entry, which is what the persist loops do with increasing big-endian keys |
| Sled.LookupInsert | src/pdf_viewer/core.rs:396-421 | after inserting, the key reads as the new value and every other key as before |
| Sled.LookupRemove | src/pdf_viewer/core.rs:423-460 | after removing, the key is absent and every other key reads as before |
| Sled.RemoveKeyKeepsAscending | src/pdf_viewer/core.rs:423-460 | removing keeps the entries ascending and adds none |
| Sled.Tree.constructor | src/pdf_viewer/core.rs:32-164 | a new tree is valid and empty |
| Sled.Tree.Get | src/pdf_viewer/core.rs:360-375 | `Tree::get` finds a value exactly when the key is present |
| Sled.Tree.Clear | src/pdf_viewer/core.rs:512-514 | `Tree::clear` leaves a valid, empty tree |
| Sled.Tree.Insert | src/pdf_viewer/core.rs:396-421 | `Tree::insert` keeps the tree valid and sorted, makes the key read as the value and changes no other key |
| Sled.Tree.Remove | src/pdf_viewer/core.rs:423-460 | `Tree::remove` keeps the tree valid, makes the key absent and changes no other key |
| Store.IndexKey | src/pdf_viewer/core.rs:517 | the key of the n-th record is 4 bytes whose big-endian value is n truncated to 32 bits |
| Store.U64Bytes | src/pdf_viewer/core.rs:518-519 | `to_be_bytes` of a u64 is 8 bytes whose big-endian value is the number modulo 2^64 |
| Store.DecodeNonEmptyString | src/pdf_viewer/core.rs:182-195 | a value is kept exactly when it is well-formed UTF-8 and not empty, and then it is the decoded text |
| Store.NonEmptyStringRoundTrip | src/pdf_viewer/core.rs:182-195 | a non-empty string stored as UTF-8 reads back as itself |
| Store.DecodeStoredString | src/pdf_viewer/core.rs:351-358 | a missing value reads as none and a present one as its non-empty UTF-8 text |
| Store.EncodeBool | src/pdf_viewer/core.rs:401-417 | a flag is stored as one byte |
| Store.DecodeStoredBool | src/pdf_viewer/core.rs:344-349 | a missing or empty value gives the default, otherwise the flag is whether the first byte is non-zero |
| Store.StoredBoolRoundTrip | src/pdf_viewer/core.rs:344-349 | a stored flag reads back as itself, whatever the default |
| Store.DecodeThemeMode | src/pdf_viewer/core.rs:377-394 | a missing value or one that is neither `light` nor `dark` gives the default |
| Store.ThemeModeRoundTrip | src/pdf_viewer/core.rs:423-460 | a stored theme mode reads back as itself, whatever the default |
| Store.EncodeBookmark | src/pdf_viewer/core.rs:516-530 | a bookmark record is at least 16 bytes: 8-byte page, 8-byte creation time, then the path |
| Store.DecodeBookmark | src/pdf_viewer/core.rs:197-224 | fewer than 9 bytes give nothing; a decoded bookmark has a non-empty path and the page from the first 8 bytes; 17 or more bytes carry the creation time in bytes 8 to 16 and the path after them, fewer bytes carry the path after byte 8 and creation time 0. The same code is at src/pdf_viewer.rs:524-551. |
| Store.BookmarkRoundTrip | src/pdf_viewer/core.rs:507-533 | a bookmark with a non-empty path, written as `persist_bookmarks` writes it, decodes back to itself. The same code is at src/pdf_viewer.rs:713-739. |
| Store.LegacyBookmark | src/pdf_viewer/core.rs:209-212 | an older-layout record whose path takes 1 to 8 bytes is read with creation time 0 |
| Store.LegacyBookmarkWithLongPath | src/pdf_viewer/core.rs:205-212 | an older-layout record whose path takes 9 bytes or more is misread in the newer layout and never comes back as the bookmark it recorded |
| Store.Indexed | src/pdf_viewer/core.rs:226-247 | the loader collects at most one record per entry |
| Store.InsertByIndex | src/pdf_viewer/core.rs:242 | one step of the stable sort adds exactly the new record |
| Store.SortByIndex | src/pdf_viewer/core.rs:242 | `sort_by_key` on the index returns a permutation of the records |
| Store.InsertByIndexSorted | src/pdf_viewer/core.rs:242 | inserting into records sorted by index keeps them sorted |
| Store.SortByIndexSorted | src/pdf_viewer/core.rs:242 | the sorted records are ordered by index |
| Store.SortByIndexOfIncreasing | src/pdf_viewer/core.rs:242 | sorting records whose indices already increase strictly changes nothing |
| Store.IndexedBelow | src/pdf_viewer/core.rs:226-247 | every collected index comes from a 4-byte key of the tree |
| Store.IndexedIncreasing | src/pdf_viewer/core.rs:226-247 | entries in ascending key order give strictly increasing indices |
| Store.LoadedInKeyOrder | src/pdf_viewer/core.rs:226-247 | the loaded records are the decodable 4-byte-keyed values in key order, so the sort changes nothing |
| Store.LoadIndexed | src/pdf_viewer/core.rs:226-247 | the loader loop returns the decodable values under 4-byte keys, in key order. The same code is at src/pdf_viewer.rs:553-574. |
| Store.Written | src/pdf_viewer/core.rs:507-533 | the tree a persist loop leaves is in ascending key order |
| Store.WrittenKeys | src/pdf_viewer/core.rs:507-533 | with fewer than 2^32 items every key is 4 bytes and below the item count, and each item's record is appended after the earlier ones |
| Store.RoundTrip | src/pdf_viewer/core.rs:507-533 | a write-then-read returns at most as many items as were written |
| Store.LoadWritten | src/pdf_viewer/core.rs:226-247 | loading what a persist loop wrote returns the items that encode and decode, in their original order |
| Store.IndexedWritten | src/pdf_viewer/core.rs:226-247 | the records collected from a written tree are the round-tripped items in order |
| Store.RoundTripIdentity | src/pdf_viewer/core.rs:507-533 | when every item encodes and decodes to itself the write-then-read returns the list unchanged |
| Store.RoundTripDecoded | src/pdf_viewer/core.rs:507-533 | every item read back was decoded from the encoding of a written item |
| Store.PersistIndexed | src/pdf_viewer/core.rs:507-533 | the writer loop clears the tree and leaves exactly each encodable item under its enumeration index |
| Store.LoadBookmarks | src/pdf_viewer/core.rs:226-247 | the bookmarks loaded are the decodable records in key order, each with a non-empty path |
| Store.IndexedDecoded | src/pdf_viewer/core.rs:226-247 | each collected record is what the decoder made of some entry's value |
| Store.PersistBookmarks | src/pdf_viewer/core.rs:507-533 | the bookmark tree holds exactly each bookmark's record under its index |
| Store.BookmarksRoundTrip | src/pdf_viewer/core.rs:507-533 | bookmarks with non-empty paths survive persist and load unchanged and in order. The same code is at src/pdf_viewer.rs:713-739. |
| Store.StoredNote | src/pdf_viewer/core.rs:535-555 | a fully populated stored note fills its defaults back to the note |
| Store.StoredMarkup | src/pdf_viewer/core.rs:557-577 | a fully populated stored markup fills its defaults back to the markup |
| Store.NoteDecoder | src/pdf_viewer/core.rs:249-274 | a note whose markdown is blank is never loaded |
| Store.MarkupDecoder | src/pdf_viewer/core.rs:276-301 | a markup without rectangles is never loaded |
| Store.LoadMarkdownNotes | src/pdf_viewer/core.rs:249-274 | the notes loaded are the decodable, non-blank records in key order |
| Store.LoadTextMarkups | src/pdf_viewer/core.rs:276-301 | the markups loaded are the decodable records with rectangles, in key order |
| Store.PersistMarkdownNotes | src/pdf_viewer/core.rs:535-555 | the notes tree holds exactly each serialisable note under its index |
| Store.PersistTextMarkups | src/pdf_viewer/core.rs:557-577 | the markups tree holds exactly each serialisable markup under its index |
| Store.NotesRoundTrip | src/pdf_viewer/core.rs:535-555 | with a JSON codec that round-trips, notes with non-blank markdown all load back, in order |
| Store.BlankNotesAreDropped | src/pdf_viewer/core.rs:264-266 | a note whose markdown is blank never loads back |
| Store.MarkupsRoundTrip | src/pdf_viewer/core.rs:557-577 | with a JSON codec that round-trips, markups with rectangles all load back, in order |
| Store.OpenTabsSnapshot | src/pdf_viewer/core.rs:462-505 | the saved active position, when present, indexes the saved paths, and no more paths than tabs are saved |
| Store.OpenTabsWritten | src/pdf_viewer/core.rs:462-505 | the open-tabs tree is in ascending key order |
| Store.PersistOpenTabs | src/pdf_viewer/core.rs:462-505 | the open-tabs tree holds exactly the paths under their indices and, when a tab with a path is active, its position under `active_index` |
| Store.DecodeU64 | src/pdf_viewer/core.rs:323-334 | a stored u64 is present exactly when the value has 8 bytes, and is their big-endian value |
| Store.U64RoundTrip | src/pdf_viewer/core.rs:323-334 | a stored u64 reads back as itself |
| Store.LoadOpenTabs | src/pdf_viewer/core.rs:303-342 | the reloaded paths and active index are those the open-tabs tree encodes, and no path is empty |
| Store.IndexedIgnoresOtherKeys | src/pdf_viewer/core.rs:309-311 | a key that is not 4 bytes long (`active_index`) is invisible to the index loaders |
| Store.OpenTabsRoundTrip | src/pdf_viewer/core.rs:303-342 | reopening restores the open tabs: the same paths in the same order, and the active tab's position when it has a path. The same code is at src/pdf_viewer.rs:576-615 (loader) and src/pdf_viewer.rs:668-711 (writer). |
| Store.PathsRoundTrip | src/pdf_viewer/core.rs:303-342 | non-empty paths written under their indices load back unchanged |
| Store.ActiveIndexRoundTrip | src/pdf_viewer/core.rs:323-334 | adding the active index leaves the loaded paths alone and stores the index |
| Store.ActiveIndexInserted | src/pdf_viewer/core.rs:323-334 | after inserting `active_index`, it loads back alongside the unchanged paths |
| Store.LoadRecentFiles | src/pdf_viewer/core.rs:182-195 | the first 12 non-empty UTF-8 values in key order, whatever their keys. The same code is at src/pdf_viewer.rs:509-522. |
| Store.PersistRecentFiles | src/pdf_viewer/tab_actions.rs:310-328 | the recent-files tree holds exactly the first 12 paths under their indices. The same code is at src/pdf_viewer.rs:1907-1925. |
| Store.RecentOfWritten | src/pdf_viewer/tab_actions.rs:310-328 | non-empty paths written under their indices read back in order |
| Store.RecentFilesRoundTrip | src/pdf_viewer/tab_actions.rs:310-328 | the recent-files list survives a restart, capped at 12 entries |
| Store.LoadTitlebarPreferences | src/pdf_viewer/core.rs:360-375 | a missing key gives that preference's default. The same code is at src/pdf_viewer.rs:624-639. |
| Store.PersistTitlebarPreferences | src/pdf_viewer/core.rs:396-421 | the saved preferences load back and no other key changes. The same code is at src/pdf_viewer.rs:641-666. |
| Store.LoadThemePreferences | src/pdf_viewer/core.rs:377-394 | a missing mode gives the default, and a loaded theme name is never empty |
| Store.NonEmptyName | src/pdf_viewer/core.rs:377-394 | a theme name loads back exactly when it is present and not empty |
| Store.PersistThemeName | src/pdf_viewer/core.rs:436-459 | one theme name is inserted when present and removed when not; it loads back as itself if non-empty, and no other key changes |
| Store.PersistThemePreferences | src/pdf_viewer/core.rs:423-460 | the mode and names load back whatever the default, and no other key changes |
| Store.LoadSavedFilePosition | src/pdf_viewer/tab_actions.rs:338-348 | a position is found exactly when the key holds 8 bytes, and is their big-endian value. The same code is at src/pdf_viewer.rs:1935-1945. |
| Store.SaveFilePosition | src/pdf_viewer/tab_actions.rs:350-358 | the saved page loads back (modulo 2^64) and no other key changes. The same code is at src/pdf_viewer.rs:1947-1955. |
| Tab.ResetLane | src/tab.rs:63-75 | a lane reset empties the loading set, zeroes the in-flight count, forgets the visible range and advances the epoch with 64-bit wrap-around, so a reset epoch below 2^64 always differs from the old one |
| Tab.PdfTab.constructor | src/tab.rs:36-61 | a new tab has the given id, no path, no pages, page 0 selected, zoom 1.0, initial render lanes, no saved position or scroll offset, summary flags cleared and an empty selection manager of its own |
| Tab.PdfTab.ResetThumbnailRenderState | src/tab.rs:63-68 | the thumbnail lane becomes the reset of its previous value, and nothing else changes |
| Tab.PdfTab.ResetDisplayRenderState | src/tab.rs:70-75 | the display lane becomes the reset of its previous value, and nothing else changes |
| Tab.PdfTab.ResetPageRenderState | src/tab.rs:77-82 | both lanes are reset, the text caches are emptied and the current selection, its start and the selecting flag are cleared |
| Tab.PdfTab.FileName | src/tab.rs:84-93 | "Home" when the tab has no path, the path's file name when there is one, "Unknown" when the path has none |
| Tab.IndexOf | src/tab.rs:270-272 | the result is the first position holding the id: it holds the id, no earlier position does, and None exactly when no tab has the id |
| Tab.MoveItem | src/tab.rs:197-209 | removing at `from` and inserting at `to` keeps the length |
| Tab.MoveItemPermutes | src/tab.rs:197-209 | a move is a permutation of the tabs and puts the moved tab at the target index |
| Tab.MoveItemKeepsOthersInOrder | src/tab.rs:197-209 | all tabs other than the moved one keep their relative order |
| Tab.MoveItemSource | src/tab.rs:197-209 | each position after the move holds the tab that was before, at, or after the insertion point of the remainder |
| Tab.MoveItemKeepsUniqueIds | src/tab.rs:197-209 | moving keeps tab ids unique and the set of tabs unchanged |
| Tab.RemoveAtFacts | src/tab.rs:139-158 | removing the tab at an index keeps ids unique, shifts later tabs down by one, drops exactly that id and keeps every other id |
| Tab.TabBar.constructor | src/tab.rs:108-117 | a new tab bar is valid, has no tabs, no active tab, next id 1 and no drag in progress |
| Tab.TabBar.CreateTabWithPath | src/tab.rs:128-137 | a fresh tab with the next id (an id no existing tab has) is appended with the given path and pages and becomes active; the earlier tabs are unchanged, the id counter goes up by one and the bar stays valid |
| Tab.TabBar.CreateTab | src/tab.rs:119-126 | as CreateTabWithPath, for a tab with no path and no pages |
| Tab.TabBar.CloseTab | src/tab.rs:139-158 | true exactly when a tab had the id; that tab is removed and the rest keep their order; an inactive close keeps the active tab; closing the active tab activates the tab that moved into its place, else the new last tab, else none; an unknown id changes nothing |
| Tab.TabBar.ActiveTab | src/tab.rs:160-163 | a tab is returned exactly when an id is active, and it is the tab with that id |
| Tab.TabBar.SwitchToTab | src/tab.rs:170-177 | true and that tab active exactly when a tab has the id; otherwise the active tab is unchanged |
| Tab.TabBar.MoveTab | src/tab.rs:197-209 | true exactly when both indices are in range; then the tabs are permuted with the moved tab at the target; an out-of-range or same-index request leaves the tabs as they were |
| Tab.TabBar.MoveMembers | src/tab.rs:197-209 | a move keeps the bar's invariant: ids unique, all below the next id, and the active id still present |
| Tab.TabBar.StartDrag | src/tab.rs:219-222 | the drag source is the given index and a drag is in progress |
| Tab.TabBar.UpdateDrag | src/tab.rs:224-228 | the target is recorded only while a drag is in progress, otherwise it is kept |
| Tab.TabBar.EndDrag | src/tab.rs:230-260 | the drag state is always cleared; a move is reported exactly when source and target are both set and differ, and then the tabs are moved from source to target |
| Tab.TabBar.TabIndexById | src/tab.rs:270-272 | a position is returned exactly when some tab has the id, and that position holds it |
| TabActions.TabPositionToSave | src/pdf_viewer/tab_actions.rs:9-17 | nothing for an unknown id or a tab without a path or pages; otherwise the tab's path and its active page clamped to the last page. The same code is at src/pdf_viewer.rs:1623-1631. |
| TabActions.PlannedSaves | src/pdf_viewer/tab_actions.rs:25-27 | the first loop performs at most one write per id |
| TabActions.LastSaveWins | src/pdf_viewer/tab_actions.rs:25-27 | of several writes to one key, the last one decides its value |
| TabActions.LastSaveOther | src/pdf_viewer/tab_actions.rs:25-27 | a write to another key leaves the last write for a key alone |
| TabActions.SaveTabPositionIfNeeded | src/pdf_viewer/tab_actions.rs:9-17 | the tab's page is written under its file's key and no other key changes; without a page to save the tree is unchanged |
| TabActions.SavedStep | src/pdf_viewer/tab_actions.rs:25-27 | one more write keeps every key at its last written page and every unwritten key as it was |
| TabActions.SaveTabPositions | src/pdf_viewer/tab_actions.rs:25-27 | after the first loop every written key holds the page last written for it, and keys nobody wrote keep their values |
| TabActions.IdSet | src/pdf_viewer/tab_actions.rs:29-31 | the set of the ids in the list |
| TabActions.Kept | src/pdf_viewer/tab_actions.rs:29-31 | the tabs whose id is not closed, never more than there were |
| TabActions.KeptNone | src/pdf_viewer/tab_actions.rs:29-31 | closing ids no tab has keeps every tab |
| TabActions.KeptRemoveAt | src/tab.rs:139-158 | with unique ids, removing the tab at an index is keeping all tabs but its id |
| TabActions.KeptKept | src/pdf_viewer/tab_actions.rs:29-31 | closing one set of ids and then another is closing both at once |
| TabActions.CloseStep | src/pdf_viewer/tab_actions.rs:29-31 | one `TabBar::close_tab` of the second loop keeps exactly the tabs without that id |
| TabActions.CloseStepKept | src/pdf_viewer/tab_actions.rs:29-31 | the loop so far has kept exactly the original tabs whose ids were not yet closed |
| TabActions.CloseIds | src/pdf_viewer/tab_actions.rs:29-31 | the tabs with the listed ids go and the rest keep their order |
| TabActions.CloseIdsOnBar | src/pdf_viewer/tab_actions.rs:29-31 | as CloseIds, on the tab bar itself; no tab is added |
| TabActions.CreateHomeTab | src/pdf_viewer/tab_actions.rs:33-36 | a fresh empty tab with an unused id is appended and becomes active |
| TabActions.CloseTabsByIds | src/pdf_viewer/tab_actions.rs:19-47 | an empty list changes nothing; otherwise the hovered note is cleared, each closing tab's page is saved (other keys untouched), the listed tabs go with the rest in order, an empty Home tab appears when none is left, the open tabs are written out and the active tab has no pending load |
| TabActions.CloseAndLoad | src/pdf_viewer/tab_actions.rs:25-46 | the pages are saved, the tabs close, the open tabs are written out and the active tab is loaded if needed |
| TabActions.SaveAndClose | src/pdf_viewer/tab_actions.rs:25-36 | the pages are saved and the listed tabs close, leaving an empty Home tab when none is left |
| TabActions.CloseAndRefill | src/pdf_viewer/tab_actions.rs:29-36 | the listed tabs close, leaving an empty Home tab when none is left; every tab left was there before or is fresh |
| TabActions.KeptSubset | src/pdf_viewer/tab_actions.rs:29-31 | every kept tab is one of the original tabs |
| TabActions.PersistAndLoad | src/pdf_viewer/tab_actions.rs:38-46 | the open tabs are written out and the active tab loads exactly when it had a pending path; afterwards it has none |
| TabActions.LoadActiveTab | src/pdf_viewer/core.rs:609-615 | `load_tab_if_needed` on the active tab loads exactly when it had a pending path, and leaves it with none |
| TabActions.CreateNewTab | src/pdf_viewer/tab_actions.rs:3-7 | an empty tab joins at the end and becomes active, and the open tabs are written out. The same code is at src/pdf_viewer.rs:1617-1621. |
| TabActions.KeptAll | src/pdf_viewer/tab_actions.rs:49-52 | closing every tab's id keeps none |
| TabActions.CloseAllTabs | src/pdf_viewer/tab_actions.rs:49-52 | with tabs open every page is saved and only an empty Home tab is left; without tabs nothing changes |
| TabActions.CloseTab | src/pdf_viewer/tab_actions.rs:76-78 | the tab with the id closes as `close_tabs_by_ids` closes it, with its page saved |
| TabActions.OtherIds | src/pdf_viewer/tab_actions.rs:60-65 | the ids of the open tabs other than the kept one |
| TabActions.KeptOthers | src/pdf_viewer/tab_actions.rs:54-74 | closing all the other ids of tabs with unique ids keeps exactly the kept tab |
| TabActions.KeptOnSubset | src/pdf_viewer/tab_actions.rs:29-31 | ids of no tab do not change what is kept |
| TabActions.CloseOtherTabs | src/pdf_viewer/tab_actions.rs:54-74 | an unknown id changes nothing; otherwise the tab becomes active, and every other tab closes the way `close_tabs_by_ids` closes it, leaving only that tab; when it is alone already the open tabs are just written out |
| TabActions.KeepAlone | src/pdf_viewer/tab_actions.rs:66-71 | a tab that is already alone becomes active and the open tabs are written out; no position is saved |
| TabActions.CloseSiblings | src/pdf_viewer/tab_actions.rs:59-73 | the kept tab becomes active and every other tab closes with its page saved |
| TabActions.SingleActive | src/tab.rs:139-158 | in a valid bar a lone tab is the active one |
| TabActions.Activate | src/pdf_viewer/tab_actions.rs:81 | `TabBar::switch_to_tab` on a present id makes it active |
| TabActions.SwitchToTab | src/pdf_viewer/tab_actions.rs:80-90 | an unknown id changes nothing; otherwise the tab becomes active, the hovered note is cleared, the open tabs are written out and the tab has no pending load afterwards |
| TabActions.SwitchAndLoad | src/pdf_viewer/tab_actions.rs:80-90 | the tab becomes active and loads exactly when it had a pending path |
| TabActions.PathIds | src/pdf_viewer/tab_actions.rs:92-99 | the ids of exactly the tabs that have a file |
| TabActions.VisibleTabIds | src/pdf_viewer/tab_actions.rs:92-99 | no more visible ids than tabs |
| TabActions.VisibleTabIdsMembers | src/pdf_viewer/tab_actions.rs:92-99 | a tab shows exactly when it has a file or no tab has one. The same code is at src/pdf_viewer.rs:1703-1710. |
| TabActions.VisibleTabIdsEmpty | src/pdf_viewer/tab_actions.rs:92-99 | some tab shows whenever any tab is open |
| TabActions.VisibleTabIdsNoDuplicates | src/pdf_viewer/tab_actions.rs:92-99 | with unique tab ids every visible id shows once |
| TabActions.Position | src/pdf_viewer/tab_actions.rs:116-119 | the first position of an element, and none exactly when it is absent |
| TabActions.VisibleTabIndexById | src/pdf_viewer/tab_actions.rs:279-291 | none exactly when the tab is not visible, otherwise the visible position holding it. The same code is at src/pdf_viewer.rs:1876-1888. |
| TabActions.TabAtVisibleIndex | src/pdf_viewer/tab_actions.rs:101-108 | none exactly when no tab shows; otherwise the visible tab at the index, or the last one when the index is past the end. The same code is at src/pdf_viewer.rs:1712-1719. |
| TabActions.LastVisibleTab | src/pdf_viewer/tab_actions.rs:101-108 | the largest index selects the last visible tab |
| TabActions.TabAtVisibleOffset | src/pdf_viewer/tab_actions.rs:110-124 | none exactly when fewer than two tabs show; otherwise one of the visible tabs. The same code is at src/pdf_viewer.rs:1721-1735. |
| TabActions.ModNext | src/pdf_viewer/tab_actions.rs:121 | `rem_euclid` one step forward wraps from the last position to 0 |
| TabActions.ModPrev | src/pdf_viewer/tab_actions.rs:121 | `rem_euclid` one step back wraps from 0 to the last position |
| TabActions.OffsetRoundTrip | src/pdf_viewer/tab_actions.rs:110-124 | one step forward and then one back returns to the visible active tab |
| TabActions.PositionOfUnique | src/pdf_viewer/tab_actions.rs:116-119 | in a list without duplicates, each element is found at its own position |
| TabActions.OffsetWraps | src/pdf_viewer/tab_actions.rs:110-124 | the last visible tab is followed by the first, and the first is preceded by the last |
| TabActions.VisibleHasId | src/pdf_viewer/tab_actions.rs:92-99 | a visible id names an open tab |
| TabActions.SwitchToVisibleTabByIndex | src/pdf_viewer/tab_actions.rs:101-108 | with no visible tab nothing changes; otherwise it switches, as `switch_to_tab` does, to the visible tab at the index or the last one |
| TabActions.SwitchVisibleTabByOffset | src/pdf_viewer/tab_actions.rs:110-124 | with fewer than two visible tabs nothing changes; otherwise it switches to the tab `offset` places from the active one, wrapping around |
| TabActions.ModalsOf | src/pdf_viewer/tab_actions.rs:126-277 | the dialog and panel flags the key handler looks at are the viewer's own |
| TabActions.DigitIndex | src/pdf_viewer/tab_actions.rs:126-277 | the digits 1 to 8 pick indices 0 to 7, and 9 picks the largest index |
| TabActions.KeyDownAction | src/pdf_viewer/tab_actions.rs:126-277 | Escape is always handled; while a dialog, the note editor or the command panel is open only their own keys act and no global shortcut runs |
| TabActions.EscapeCloses | src/pdf_viewer/tab_actions.rs:126-277 | Escape closes the innermost open dialog or panel, and clears the text selection when none is open |
| TabActions.DigitShortcuts | src/pdf_viewer/tab_actions.rs:126-277 | with nothing open, Cmd/Ctrl+1 to 8 select the first eight visible tabs and Cmd/Ctrl+9 the last one |
| TabActions.BracketShortcuts | src/pdf_viewer/tab_actions.rs:126-277 | with nothing open, Cmd/Ctrl+Shift+[ and ] step to the previous and next visible tab, and the brackets without Shift do nothing |
| Utf8.EncodeChar | src/pdf_viewer/core.rs:514-528 | one scalar value encodes to one to four bytes |
| Utf8.Encode | src/pdf_viewer/core.rs:514-528 | a string's UTF-8 bytes are at least as many as its characters, and empty exactly for the empty string |
| Utf8.DecodeChar | src/pdf_viewer/core.rs:182-195 | a decoded scalar value consumed between one byte and the whole input |
| Utf8.DecodeCharOfEncoding | src/pdf_viewer/core.rs:182-195 | the decoder reads back any encoded scalar value, whatever follows it, consuming exactly its encoding |
| Utf8.EncodingOfDecodedChar | src/pdf_viewer/core.rs:182-195 | a scalar value the decoder accepts re-encodes to exactly the bytes it consumed |
| Utf8.DecodeEncode | src/pdf_viewer/core.rs:182-195 | every string survives being stored as UTF-8 bytes and read back with `String::from_utf8` |
| Utf8.EncodeDecode | src/pdf_viewer/core.rs:182-195 | a byte string `String::from_utf8` accepts is the encoding of the string it yields |
| Utf8.EncodeAppend | src/pdf_viewer/core.rs:514-528 | encoding distributes over concatenation |
| Utf8.AsciiBytes | src/pdf_viewer/core.rs:436-452 | ASCII text is its own encoding, byte for byte |
| Utf8.EncodeAscii | src/pdf_viewer/core.rs:436-452 | the UTF-8 encoding of ASCII text is its ASCII bytes |
| Text.TrimStart | src/updater.rs:88-92 | only leading white space is removed: the result is a suffix that starts with a non-space and everything dropped is white space |
| Text.TrimEnd | src/updater.rs:88-92 | only trailing white space is removed: the result is a prefix that ends with a non-space and everything dropped is white space |
| Text.Trim | src/pdf_viewer/core.rs:264 | both ends' white space is removed, and the result is empty exactly when the whole string is white space |
| Text.ToAsciiLowercase | src/i18n.rs:22 | each character is lower-cased alone: `A`-`Z` become `a`-`z`, every other character is kept, the length is kept |
| Text.LowercaseIdempotent | src/command_panel.rs:98-111 | lower-casing twice is lower-casing once |
| Text.StartsWithLowercase | src/updater.rs:136-160 | a lower-case prefix of a name is still a prefix once the name is lower-cased |
| Text.EndsWithLowercase | src/updater.rs:136-160 | a lower-case suffix of a name is still a suffix once the name is lower-cased |
| Text.SuffixIsContained | src/updater.rs:136-160 | a string contains each of its suffixes |
| Text.StartsWithContains | src/updater.rs:136-160 | a string contains each of its prefixes |
| Text.StartsWithPrefix | src/i18n.rs:27-32 | a string that starts with `p + q` starts with `p` |
| Text.ReplaceAbsent | src/i18n.rs:540-550 | `replace` leaves text without the pattern unchanged |
| Text.ReplaceWhole | src/i18n.rs:540-550 | the pattern on its own is replaced whole |
| Text.StripCr | src/pdf_viewer/settings_dialogs.rs:40-50 | at most one trailing carriage return is dropped and no character is added |
| Text.Lines | src/pdf_viewer/settings_dialogs.rs:40-50 | `str::lines`: the lines of the empty string are none, and no line holds a newline. LinesSplit ties it to Split. |
| Text.LinesSplit | src/pdf_viewer/settings_dialogs.rs:40-50 | The lines of a string are its newline-separated pieces (Split on `\n`): each piece but the last loses one trailing carriage return, and a final empty piece (after a final newline, or of the empty string) is dropped. |
| Text.Split | scripts/icon_generator/src/main.rs:46-60 | `str::split` always yields at least one piece and no piece holds the separator |
| Text.SplitJoin | scripts/icon_generator/src/main.rs:46-60 | splitting a joined list gives the list back when no piece holds the separator |
| Text.JoinSplit | scripts/icon_generator/src/main.rs:46-60 | joining the pieces of a split gives the string back |
| Text.TrimWithoutWhitespace | src/updater.rs:88-92 | text without white space is its own trim |
| TextSelection.NewSelection | src/text_selection.rs:13-24 | `TextSelection::new`: the bounds are put in order. |
| TextSelection.NewSelectionSymmetric | src/text_selection.rs:13-24 | The order of the two bounds given to `TextSelection::new` does not matter. |
| TextSelection.CharCount | src/text_selection.rs:26-32 | `char_count`: for an ordered selection, end minus start, zero exactly when the selection is empty. |
| TextSelection.CharBounds | src/text_selection.rs:121-125 | `get_char_bounds`: the character's four edges exactly when the index is in range, none otherwise. |
| TextSelection.GetTextPastCache | src/text_selection.rs:180-188 | A selection that starts past the cached characters has empty text. |
| TextSelection.GetTextSplit | src/text_selection.rs:180-188 | Each selected character's text, one after the other: selecting a range `[a, b)` then `[b, c)` gives the text of `[a, c)`. |
| TextSelection.AddToLines | src/text_selection.rs:140-155 | Adds `c` to the first line whose first character sits within the tolerance of `c`'s baseline, or opens a new line. |
| TextSelection.GroupLinesShape | src/text_selection.rs:138-156 | Grouping gives non-empty lines, no more lines than characters, and at least one line for a non-empty run. |
| TextSelection.LineBoxEncloses | src/text_selection.rs:165-174 | A line's box encloses every character of the line. |
| TextSelection.Boxes | src/text_selection.rs:158-177 | One bounding box per line, each that line's box. |
| TextSelection.SelectionBoundsCount | src/text_selection.rs:127-177 | No boxes for an empty clamped range, otherwise at least one and never more than the number of characters selected. |
| TextSelection.GetSelectionBounds | src/text_selection.rs:127-178 | `PageTextCache::get_selection_bounds`: groups the selected characters into lines, then takes each line's bounding box. |
| TextSelection.Manager.constructor | src/text_selection.rs:251-258 | `TextSelectionManager::new`: no caches, no selection, no anchor, not selecting. |
| TextSelection.Manager.GetPageCache | src/text_selection.rs:260-262 | `get_page_cache`: the page's cache exactly when one is stored. |
| TextSelection.Manager.StartSelection | src/text_selection.rs:264-272 | `start_selection`: begins a drag at `(page, char)` with an empty range there. |
| TextSelection.Manager.UpdateSelection | src/text_selection.rs:274-281 | `update_selection`: spans anchor to `char` when `page` is the anchor's page; any other page, or no anchor, changes nothing. |
| TextSelection.Manager.EndSelection | src/text_selection.rs:283-350 | `end_selection`: the drag stops, the selection stays. |
| TextSelection.Manager.ClearSelection | src/text_selection.rs:352-357 | `clear_selection`: the selection, its start and the dragging flag are cleared, and the caches are kept. |
| TextSelection.Manager.GetSelectedText | src/text_selection.rs:367-376 | `get_selected_text`: None without a selection, without a cache for its page, or when the selected text is empty. |
| TextSelection.Manager.GetSelectionRects | src/text_selection.rs:378-385 | `get_selection_rects(page)`: the selection's boxes when it lies on `page` and that page is cached. |
| TextSelection.Manager.ClearCache | src/text_selection.rs:387-391 | `clear_cache`: every page cache is dropped and the selection state is kept. |
| TextSelection.Manager.LoadCachedText | src/text_selection.rs:394-410 | `load_cached_text`: inserts or replaces the page's cache. |
| Types.NoteWithDefaults | src/pdf_viewer/types.rs:48-62 | a note read from storage keeps every stored field; a missing selected text becomes the empty string and missing selection rectangles become the empty list |
| Types.MarkupWithDefaults | src/pdf_viewer/types.rs:72-102 | a markup read from storage keeps every stored field, and a missing colour becomes the default colour (yellow) |
| Types.Clamp01 | src/pdf_viewer/display_list.rs:522-523 | a clamped ratio lies in [0, 1], and a ratio already in [0, 1] is unchanged |
| Types.Clamp | src/pdf.rs:198-211 | a clamped value lies between the bounds, and a value already between them is unchanged |
| Types.RoundHalfUp | src/pdf.rs:264-297 | the result is the non-negative integer within one half of the input, with halves rounded up |
| Types.UnitRatio | src/pdf_viewer/display_list.rs:515-525 | a point inside a page, divided by the page's extent, is a ratio in [0, 1] |
| Types.MinNat | src/pdf_viewer/tab_actions.rs:14 | the result is one of the two arguments and no larger than either |
| Types.LastIndex | src/pdf_viewer/tab_actions.rs:14 | a saturating `len - 1`: the last index of a non-empty sequence, 0 for an empty one |
| Types.WrappingInc | src/tab.rs:63-68 | a 64-bit wrapping increment: the result is below 2^64 and is the successor whenever that fits |
| Bytes.EncodeBE | src/pdf_viewer/tab_actions.rs:318-322 | a big-endian encoding of a number that fits in `width` bytes has exactly `width` bytes |
| Bytes.DecodeBE | src/pdf_viewer/tab_actions.rs:338-348 | a big-endian decoding of n bytes is below 256^n |
| Bytes.DecodeEncodeBE | src/pdf_viewer/tab_actions.rs:352-358 | decoding the big-endian encoding of a number that fits gives the number back |
| Bytes.EncodeDecodeBE | src/pdf_viewer/tab_actions.rs:338-348 | encoding a decoded byte string at its own width gives the bytes back |
| Bytes.EncodeBEInjective | src/pdf_viewer/tab_actions.rs:318-322 | two numbers with equal encodings of one width are equal, so distinct indices give distinct keys |
| Bytes.LexLessIrreflexive | src/pdf_viewer/core.rs:182-195 | sled's byte order on keys is irreflexive |
| Bytes.LexLessTotal | src/pdf_viewer/core.rs:182-195 | any two distinct keys are ordered one way or the other |
| Bytes.LexLessAsymmetric | src/pdf_viewer/core.rs:182-195 | no two keys are each less than the other |
| Bytes.LexLessTransitive | src/pdf_viewer/core.rs:182-195 | the key order is transitive |
| Bytes.LexLessIsNumericOrder | src/pdf_viewer/core.rs:226-242 | for keys of one width, byte order is the numeric order of their big-endian values, so a key-ordered scan is already in index order |
| Updater.StripPrefix | src/updater.rs:89 | `str::strip_prefix`: the rest of the text exactly when it starts with the prefix. |
| Updater.TrimLeadingV | src/updater.rs:90-92 | `trim_start_matches(['v', 'V'])`: every leading `v` or `V` dropped. |
| Updater.NormalizeVersionLabel | src/updater.rs:87-93 | `normalize_version_label`: trimmed, without a `refs/tags/` prefix, trimmed again, without leading `v`/`V`. |
| Updater.NormalLabelKept | src/updater.rs:87-93 | An already normal label is kept. |
| Updater.LeadingVDropped | src/updater.rs:87-93 | A `v` or `V` in front of a normal label is dropped. |
| Updater.NormalizeLowerV | src/updater.rs:168 | The case of the unit test `normalize_version`: `v0.3.0` → `0.3.0`. |
| Updater.NormalizeUpperV | src/updater.rs:169 | The case of the unit test `normalize_version`: `V1.2.3` → `1.2.3`. |
| Updater.NormalizePlain | src/updater.rs:171 | The case of the unit test `normalize_version`: `0.4.0` → `0.4.0`. |
| Updater.RefTagDropped | src/updater.rs:87-93 | A tag reference loses its `refs/tags/` prefix and the `v` after it. |
| Updater.NormalizeRefTag | src/updater.rs:170 | The case of the unit test `normalize_version`: `refs/tags/v2.0.1` → `2.0.1`. |
| Updater.PrefixTestRedundant | src/updater.rs:136-151 | The `starts_with("x-")` test adds nothing to `contains("x")`. |
| Updater.AssetPredicatesSimplified | src/updater.rs:136-151 | Each platform predicate is the name, lower-cased, containing the platform word and ending in the extension. |
| Updater.AssetPredicatesIgnoreCase | src/updater.rs:136-160 | The predicates ignore letter case. |
| Updater.FindAsset | src/updater.rs:116-133 | `Iterator::find` over the assets by name: an asset of the list whose name passes, with none passing before it; none exactly when no name passes. |
| Updater.SelectMacosAsset | src/updater.rs:116-121 | `select_macos_asset`: the first disk image, else the first zipped app. |
| Updater.SelectWindowsAsset | src/updater.rs:124-128 | `select_windows_asset`: an installer from the list, None exactly when the list has none. |
| Updater.SelectLinuxAsset | src/updater.rs:131-133 | `select_linux_asset`: a Linux package from the list, None exactly when the list has none. |
| Updater.SelectAssetForPlatform | src/updater.rs:95-113 | `select_asset_for_current_platform`: the selector of the platform; an asset it returns is one of the release's, and another platform gets none. |
| Updater.MacosTestAssetFound | src/updater.rs:176-191 | In the asset list of the unit test `select_assets_by_platform_patterns`, the macOS selector finds an asset. |
| Updater.WindowsTestAssetFound | src/updater.rs:176-192 | In the same asset list, the Windows selector finds an asset. |
| Updater.LinuxTestAssetFound | src/updater.rs:176-193 | In the same asset list, the Linux selector finds an asset. |
| Updater.CheckForUpdates | src/updater.rs:39-57 | `check_for_updates` after the fetch: `parse` is `semver::Version::parse` and `le` its order. A failed fetch or an unparsable version is an error. |
| Decimal.NatToString | src/i18n.rs:240-259 | `to_string` of a count is a non-empty run of digits with no leading zero |
| Decimal.ValueOfNatToString | src/i18n.rs:240-259 | the digits of a rendered count read back as the count |
| Decimal.ParseNat | scripts/icon_generator/src/main.rs:48-58 | a parsed number came from a non-empty token |
| Decimal.ParseRendered | scripts/icon_generator/src/main.rs:48-58 | parsing the rendering of a number gives the number back |
| Decimal.NatToStringInjective | src/i18n.rs:240-259 | distinct counts render to distinct texts |
| Paths.FileName | src/utils.rs:62-66 | a file name is non-empty, holds no separator and is not `..` |
| Paths.DisplayFileName | src/utils.rs:62-66 | the path's file name when it has one, otherwise the whole path. The same code is at src/pdf/utils.rs:18-22. |
| Paths.FileNameOfPlainName | src/utils.rs:62-66 | a name without a separator (and not `.` or `..`) is its own file name |
| Paths.FileNameUnderDirectory | src/tab.rs:84-93 | `dir/name` has the file name `name` |
| Paths.SplitDot | scripts/icon_generator/src/main.rs:76-90 | a name is stem, dot and extension when it has an extension, the stem is non-empty and the extension holds no dot; otherwise the stem is the whole name |
| Paths.Extension | scripts/icon_generator/src/main.rs:76-90 | only a path with a file name has an extension |
| Paths.WithExtension | scripts/icon_generator/src/main.rs:224-228 | a path without a file name is returned unchanged |
| Paths.ExtensionOfName | scripts/icon_generator/src/main.rs:76-90 | `dir/stem.ext` has the extension `ext` |
| Paths.WithExtensionUnderDirectory | scripts/icon_generator/src/main.rs:224-228 | `with_extension` on `dir/name` keeps the directory and the stem and then has the new extension |
| SeqFilter.Retain | src/pdf_viewer/tab_actions.rs:304 | `Vec::retain` keeps exactly the accepted elements, each still accepted, and never grows the list |
| SeqFilter.RetainConcat | src/pdf_viewer/tab_actions.rs:304 | retaining distributes over concatenation, so the kept elements keep their relative order |
| SeqFilter.RetainLength | src/pdf_viewer/recent_bookmark_notes.rs:306 | the length is unchanged exactly when every element is kept, and then the list is unchanged |
| SeqFilter.RetainDropsOne | src/pdf_viewer/recent_bookmark_notes.rs:405 | with exactly one element rejected, retaining removes just that one |
| SeqFilter.RetainAround | src/pdf_viewer/recent_bookmark_notes.rs:405 | a rejected element between kept parts disappears and the parts join |
| SeqFilter.RetainMultiset | src/pdf_viewer/interactions.rs:429 | each kept element keeps its number of occurrences and the others vanish |
| SeqFilter.RetainUniqueBy | src/pdf_viewer/interactions.rs:429 | retaining keeps keys unique |
| SeqFilter.Find | src/pdf_viewer/settings_dialogs.rs:43-45 | `Iterator::find` returns nothing exactly when no element matches, and otherwise a matching element with no match before it |
| Sorting.InsertAscending | src/pdf/utils.rs:77 | inserting into an ascending list keeps it ascending and adds exactly the new element |
| Sorting.SortAscending | src/pdf/utils.rs:77 | `sort_unstable` returns an ascending permutation of its input |
| Sorting.DedupAdjacent | src/pdf/utils.rs:78 | `dedup` keeps the set of values and the last element |
| Sorting.DedupAscending | src/pdf/utils.rs:77-78 | sorting then de-duplicating leaves every value once, strictly ascending |
| Sorting.Dedup | src/pdf/utils.rs:78 | the in-place `dedup` loop computes the adjacent de-duplication |
| Sorting.AscendingUnique | src/pdf/utils.rs:77 | an ascending list is determined by its elements and their counts, so every sort gives the same result |
| Sorting.SortDedupOfStrictlyAscending | src/pdf/utils.rs:77-78 | a request list that is already strictly ascending passes through sort and dedup unchanged |
| Sorting.DedupOfStrictlyAscending | src/pdf/utils.rs:78 | `dedup` leaves a strictly ascending list unchanged |
| Recency.Insert | src/pdf_viewer/recent_bookmark_notes.rs:395-399 | one step of the newest-first sort adds exactly the new entry |
| Recency.InsertOrdered | src/pdf_viewer/recent_bookmark_notes.rs:395-399 | inserting into a newest-first list keeps it ordered |
| Recency.Sort | src/pdf_viewer/recent_bookmark_notes.rs:395-399 | `sort_by` newest update first, then highest id, returns an ordered permutation of its input. The markup list at src/pdf_viewer/interactions.rs:348-352 is sorted by the same order. |

## Left out

- Rendering and drawing: every `render_*` function, gpui elements, scroll and focus handles, `cx.notify`, cursor styles and window handles are not modelled. Scroll positions that the code reads from a handle are parameters.
- Pdfium and `pdf_rs` are outside the model. What they deliver is a parameter: a document's page summaries, a rendered bitmap's bytes, whether one page renders, and the object that `read_object` returns.
- sled I/O is outside the model: opening the database, `local_state_db_path`, `flush`, and the early return on an `is_err`. Every store operation succeeds.
- The filesystem is an input: `path.exists`, `canonicalize` in `file_position_key`, `create_dir_all`, and the `APPDATA`/`HOME` lookups are given as values.
- The clock is a parameter: the current seconds and milliseconds are passed in.
- Async tasks and timers are explicit methods. Spawning a task or a timer returns the epoch or tab id it captured. The completion is a separate method that receives that value and the task's result. The UI thread serialises updates, so no interleaving within one update is modelled.
- serde JSON for notes and markups is an abstract encoder/decoder pair. The round trip of that pair is assumed as a precondition of the lemmas that use it.
- The `semver` crate's parsing and ordering are parameters: a parse function and an order relation.
- The HTTP fetch in `fetch_latest_release` is a parameter. The release it returns is given as a value.
- Clipboard subprocesses (`copy_to_clipboard`, `copy_selected_text`), the macOS menu FFI, Win32 calls, src/logger.rs, src/icons.rs and src/main.rs are not modelled. The same goes for the reveal-in-folder and open-logs actions. Whether file logging is on is a parameter of the command panel.
- User-visible status texts are values of a datatype that names the message and its arguments. The localised wording is not modelled.
- Floating point is modelled as exact reals, with no `f32` rounding in zoom steps, geometry or ratios. Hit-testing with `sqrt` and a size bonus (`find_char_at_position`, `find_char_at_screen_position`, the `contains_point` tolerance) is out; the character under the mouse is a parameter. Also out: the drag start distance (`maybe_start_pending_tab_drag`, `update_drag_mouse_position`) and `calculate_page_coordinates`. The model starts from the page-local point.
- `format_storage_size` keeps its one-decimal formatting of an `f64` as the parameter `formatOneDecimal`. The model computes the unit and the scaled value, not the printed digits.
- `note_bubble_preview_text`, `text_cursor_style_for_page`, `has_text_selection`, `close_current_tab` and the getters of src/pdf_viewer/interactions.rs (lines 598-634) are left out. They only format text, pick a cursor or forward to members that are modelled.
- `save_window_size`, `scroll_tab_bar_to_active_tab` and `updater_status_text` are left out. They write the window size, move a scroll handle, and format a status message.
- `Language::detect` reads the operating system's locale. Only the tag classification `from_locale_tag` is modelled.
- `TabBar::tabs_mut` is not modelled. Tabs change only through the TabBar methods, so the tab bar invariant cannot be bypassed in the model.
- src/pdf_viewer/core.rs uses fields and a method that src/tab.rs does not declare: `summary_loaded`, `summary_loading`, `summary_failed` and `get_tab_mut`. The model adds them as src/pdf_viewer/core.rs uses them.
- src/pdf_viewer/core.rs returns nine stores where src/pdf_viewer/mod.rs destructures eight. The model keeps all nine, including the text-markup store.
- The icon generator's `usage` text, `--help`, the process exit, reading arguments from the process, image decoding, Lanczos resampling and the ICO/ICNS writers are not modelled. Arguments are strings, so the non-UTF-8 argument errors do not arise.
- `trim_display_cache` of src/pdf.rs does nothing and is not modelled. The same holds for `thumbnail_item_sizes`, `display_row_height` and `display_item_sizes`, which only build layout vectors.
- The task counter's `saturating_add(1)` is modelled as `+ 1`. A request starts only when no task is in flight, so the counter is at most 1.
- RecentBookmarkNotes.NextMarkdownNoteId: requires a free id between the clock's starting point and `u64::MAX`. Without one, the source loop never ends, because `saturating_add` stays at `u64::MAX`.
- RecentBookmarkNotes.SaveMarkdownNoteFromEditor: requires a free note id, for the same reason as NextMarkdownNoteId. RecentBookmarkNotes.SaveNewNote, MarkdownNoteDialog.SaveMarkdownNoteFromEditorWindow and MarkdownNoteDialog.SaveNewNote carry the same precondition.
- Interactions.NextTextMarkupId: requires a free markup id, for the same reason. Interactions.InsertMarkup, Interactions.AddTextMarkupFromSelection and Interactions.AddMarkupAt carry the same precondition.
- PageSize.ResolveMediaBox: a MediaBox reference that leads back to itself makes the source recurse without end, until the stack overflows. The model stops with None at the second visit.
- SettingsDialogs.SetLanguagePreference: the preference is not written to storage. `persist_language_preference` and its store (src/pdf_viewer/settings_dialogs.rs:245) are not declared in the modelled files, so the model only updates the preference and the language in memory.
- Tab.TabBar.EndDrag: the source panics in `Vec::remove` / `Vec::insert` (src/tab.rs:246-251) when a set source or target index is past the end of the tabs. The model excludes that panic by a precondition instead of modelling it.
- SettingsDialogs.CloseAboutDialog: follows src/pdf_viewer.rs. It does not model the about window's handle, so a handle left open without the open flag does not ask for a refocus.

## Findings

| source | as written | input that shows it | evidently intended | confidence | as-written member | corrected member |
|---|---|---|---|---|---|---|
| src/pdf_viewer/settings_dialogs.rs:51-54 | `summarize_updater_error` measures the message with `len`, which counts bytes. Past 88 bytes it calls `truncate(85)`, which panics when byte 85 falls inside a character. | an update error of 30 copies of U+4E2D (90 bytes) | the limit counted in characters: a message over 88 characters keeps its first 85 and ends in "..." | not executed | SettingsDialogs.TruncateSummaryAsWritten, SettingsDialogs.WideMessagePanics | SettingsDialogs.TruncateSummary, SettingsDialogs.SummarizeUpdaterError |
| src/utils.rs:296-313 | `resolve_page_size` follows `Parent` references in a loop and never remembers which ones it has visited. A page whose Parent chain comes back to itself without a MediaBox loops forever. | a page object (1 0) whose only entry is `Parent` pointing at (1 0) (PageSize.SELF_PARENT_DOC) | the walk stops at a revisited reference and falls back to the default page size | not executed | PageSize.WalkAsWritten, PageSize.SelfParentNeverEnds | PageSize.ResolvePageSize, PageSize.ChainSize, PageSize.WalkAgrees |
| src/pdf/utils.rs:134-151 | the same loop as src/utils.rs:296-313 | the same document | the same | not executed | PageSize.WalkAsWritten, PageSize.SelfParentNeverEnds | PageSize.ResolvePageSize, PageSize.ChainSize, PageSize.WalkAgrees |
