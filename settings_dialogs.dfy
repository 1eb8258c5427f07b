// The settings dialog and the preference setters of
// src/pdf_viewer/settings_dialogs.rs: the storage-size label, the one-line
// summary of an update-check error, the re-entry guards of the update check
// and the database-size refresh, the session-guarded close of the settings
// window, and setters that persist only when the value changes. The
// background tasks' completions are methods of their own that receive the
// task's result.
module SettingsDialogs {
  import opened Wrappers
  import opened Types
  import opened Viewer
  import Text
  import Decimal
  import I18n
  import Store
  import Updater
  import Persistence
  import CommandPanel
  import RecentBookmarkNotes
  import MarkdownNoteDialog
  import SeqFilter
  import Utf8

  // ---------------------------------------------------------------------
  // Storage size

  const STORAGE_UNITS: seq<string> := ["B", "KB", "MB", "GB", "TB"]

  function Pow1024(k: nat): (r: nat)
    ensures r >= 1
  {
    if k == 0 then 1 else 1024 * Pow1024(k - 1)
  }

  /** The unit a byte count is shown in: the largest unit it reaches, up to
      terabytes. */
  predicate IsUnitIndex(bytes: nat, k: nat)
  {
    && k < |STORAGE_UNITS|
    && (k == 0 || Pow1024(k) <= bytes)
    && (k == |STORAGE_UNITS| - 1 || bytes < Pow1024(k + 1))
  }

  /** Every byte count has exactly one unit. */
  lemma {:induction false} UnitIndexUnique(bytes: nat, j: nat, k: nat)
    requires IsUnitIndex(bytes, j) && IsUnitIndex(bytes, k)
    ensures j == k
  {
    if j < k {
      Pow1024Mono(j + 1, k);
    } else if k < j {
      Pow1024Mono(k + 1, j);
    }
  }

  lemma {:induction false} Pow1024Mono(i: nat, j: nat)
    requires i <= j
    ensures Pow1024(i) <= Pow1024(j)
    decreases j - i
  {
    if i < j {
      Pow1024Mono(i, j - 1);
    }
  }

  /** `format_storage_size`: whole bytes below 1 KB, otherwise the size
      divided down to its unit and printed with one decimal by
      `formatOneDecimal`. */
  method FormatStorageSize(bytes: nat, formatOneDecimal: real -> string) returns (shown: string, unitIndex: nat, size: real)
    ensures IsUnitIndex(bytes, unitIndex)
    ensures size == (bytes as real) / (Pow1024(unitIndex) as real)
    ensures unitIndex == 0 ==> shown == Decimal.NatToString(bytes) + " B"
    ensures unitIndex > 0 ==> shown == formatOneDecimal(size) + " " + STORAGE_UNITS[unitIndex]
  {
    size := bytes as real;
    unitIndex := 0;
    while size >= 1024.0 && unitIndex < |STORAGE_UNITS| - 1
      invariant unitIndex < |STORAGE_UNITS|
      invariant unitIndex == 0 || Pow1024(unitIndex) <= bytes
      invariant size == (bytes as real) / (Pow1024(unitIndex) as real)
      decreases |STORAGE_UNITS| - unitIndex
    {
      ScaledAtLeast(bytes, unitIndex);
      size := size / 1024.0;
      unitIndex := unitIndex + 1;
    }
    if unitIndex < |STORAGE_UNITS| - 1 {
      ScaledAtLeast(bytes, unitIndex);
    }
    if unitIndex == 0 {
      shown := Decimal.NatToString(bytes) + " B";
    } else {
      shown := formatOneDecimal(size) + " " + STORAGE_UNITS[unitIndex];
    }
  }

  /** The scaled size reaches 1024 exactly when the bytes reach the next
      unit, and dividing by 1024 once more scales by the next unit. */
  lemma ScaledAtLeast(bytes: nat, k: nat)
    ensures (bytes as real) / (Pow1024(k) as real) >= 1024.0 <==> bytes >= Pow1024(k + 1)
    ensures (bytes as real) / (Pow1024(k) as real) / 1024.0 == (bytes as real) / (Pow1024(k + 1) as real)
  {
    var p := Pow1024(k) as real;
    assert Pow1024(k + 1) as real == 1024.0 * p;
  }

  // ---------------------------------------------------------------------
  // Update-check error summary

  const SUMMARY_MAX_LEN: nat := 88

  /** The first line with something other than white space. */
  function FirstNonBlankLine(raw: string): (r: Option<string>)
    ensures r.Some? ==> r.value in Text.Lines(raw) && !Text.IsBlank(r.value)
    ensures r.None? ==> forall l :: l in Text.Lines(raw) ==> Text.IsBlank(l)
  {
    SeqFilter.Find(Text.Lines(raw), (l: string) => !Text.IsBlank(l))
  }

  /** The message `summarize_updater_error` starts from: the first
      non-blank line (the whole text when there is none), trimmed, or
      "unknown error" when nothing is left. */
  function SummaryMessage(raw: string): (r: string)
    ensures r != []
    ensures FirstNonBlankLine(raw).Some? ==> r == Text.Trim(FirstNonBlankLine(raw).value)
    ensures FirstNonBlankLine(raw).None? && !Text.IsBlank(raw) ==> r == Text.Trim(raw)
    ensures FirstNonBlankLine(raw).None? && Text.IsBlank(raw) ==> r == "unknown error"
  {
    var line := match FirstNonBlankLine(raw) case Some(l) => l case None => raw;
    var message := Text.Trim(line);
    if message == [] then "unknown error" else message
  }

  /** The length limit of `summarize_updater_error`, counted in
      characters: a longer message keeps its first 85 and ends in "...". */
  function TruncateSummary(message: string): (r: string)
    ensures |r| <= SUMMARY_MAX_LEN
    ensures |message| <= SUMMARY_MAX_LEN ==> r == message
    ensures |message| > SUMMARY_MAX_LEN ==>
      |r| == SUMMARY_MAX_LEN && r[..SUMMARY_MAX_LEN - 3] == message[..SUMMARY_MAX_LEN - 3] && r[SUMMARY_MAX_LEN - 3..] == "..."
  {
    if |message| > SUMMARY_MAX_LEN then message[..SUMMARY_MAX_LEN - 3] + "..." else message
  }

  /** `summarize_updater_error`: a non-empty one-line message of at most
      88 characters. */
  function SummarizeUpdaterError(raw: string): (r: string)
    ensures 0 < |r| <= SUMMARY_MAX_LEN
    ensures |SummaryMessage(raw)| <= SUMMARY_MAX_LEN ==> r == SummaryMessage(raw)
    ensures Text.StartsWith(SummaryMessage(raw), r) || (|r| == SUMMARY_MAX_LEN && r[SUMMARY_MAX_LEN - 3..] == "...")
  {
    var message := SummaryMessage(raw);
    var r := TruncateSummary(message);
    assert |message| <= SUMMARY_MAX_LEN ==> Text.StartsWith(message, r);
    r
  }

  /** The summary of an error with a non-blank line is that line, trimmed,
      or its first 85 characters followed by "...". */
  lemma SummaryOfLine(raw: string)
    requires FirstNonBlankLine(raw).Some?
    ensures var message := Text.Trim(FirstNonBlankLine(raw).value);
      var r := SummarizeUpdaterError(raw);
      || r == message
      || (|r| == SUMMARY_MAX_LEN && Text.StartsWith(message, r[..SUMMARY_MAX_LEN - 3]) && r[SUMMARY_MAX_LEN - 3..] == "...")
  {
  }

  /** The number of characters of `s` whose UTF-8 encoding is exactly `n`
      bytes long, if `n` falls on a character boundary. */
  function CharBoundary(s: string, n: nat): (r: Option<nat>)
    ensures r.Some? ==> r.value <= |s| && |Utf8.Encode(s[..r.value])| == n
    ensures r.None? ==> forall k :: 0 <= k <= |s| ==> |Utf8.Encode(s[..k])| != n
  {
    if n == 0 then Some(0)
    else if s == [] then None
    else
      var w := |Utf8.EncodeChar(s[0])|;
      if w > n then
        EncodedPrefixes(s);
        None
      else match CharBoundary(s[1..], n - w)
        case Some(k) =>
          EncodedPrefixes(s);
          Some(k + 1)
        case None =>
          EncodedPrefixes(s);
          None
  }

  /** A non-empty prefix encodes as its first character followed by the
      rest of the prefix. */
  lemma EncodedPrefixes(s: string)
    requires s != []
    ensures forall k :: 1 <= k <= |s| ==>
      Utf8.Encode(s[..k]) == Utf8.EncodeChar(s[0]) + Utf8.Encode(s[1..][..k - 1])
  {
    forall k | 1 <= k <= |s|
      ensures Utf8.Encode(s[..k]) == Utf8.EncodeChar(s[0]) + Utf8.Encode(s[1..][..k - 1])
    {
      assert s[..k][0] == s[0];
      assert s[..k][1..] == s[1..][..k - 1];
    }
  }

  /** The truncation as `summarize_updater_error` writes it: `len` counts
      UTF-8 bytes, and `String::truncate` at byte 85 panics (None) when
      that byte lies inside a character. */
  function TruncateSummaryAsWritten(message: string): (r: Option<string>)
    ensures |Utf8.Encode(message)| <= SUMMARY_MAX_LEN ==> r == Some(message)
    ensures r.Some? && |Utf8.Encode(message)| > SUMMARY_MAX_LEN ==>
      |Utf8.Encode(r.value)| == SUMMARY_MAX_LEN && Text.EndsWith(r.value, "...")
    ensures r.None? <==>
      |Utf8.Encode(message)| > SUMMARY_MAX_LEN && forall k :: 0 <= k <= |message| ==> |Utf8.Encode(message[..k])| != SUMMARY_MAX_LEN - 3
  {
    if |Utf8.Encode(message)| <= SUMMARY_MAX_LEN then Some(message)
    else match CharBoundary(message, SUMMARY_MAX_LEN - 3)
      case Some(k) =>
        Utf8.EncodeAppend(message[..k], "...");
        Utf8.EncodeAscii("...");
        Some(message[..k] + "...")
      case None => None
  }

  /** On ASCII text bytes are characters, and the written truncation is
      the one above. */
  lemma AsWrittenAgreesOnAscii(message: string)
    requires forall i :: 0 <= i < |message| ==> message[i] as int < 0x80
    ensures TruncateSummaryAsWritten(message) == Some(TruncateSummary(message))
  {
    Utf8.EncodeAscii(message);
    if |message| > SUMMARY_MAX_LEN {
      var prefix := message[..SUMMARY_MAX_LEN - 3];
      Utf8.EncodeAscii(prefix);
      var b := CharBoundary(message, SUMMARY_MAX_LEN - 3);
      assert b.Some?;
      Utf8.EncodeAscii(message[..b.value]);
    }
  }

  /** `n` copies of the three-byte character U+4E2D. */
  function Wide(n: nat): (r: string)
    ensures |r| == n
    ensures forall i :: 0 <= i < n ==> r[i] == '\U{4E2D}'
  {
    seq(n, i => '\U{4E2D}')
  }

  lemma {:induction false} WideEncodedLength(n: nat)
    ensures |Utf8.Encode(Wide(n))| == 3 * n
  {
    if n > 0 {
      assert Wide(n)[1..] == Wide(n - 1);
      WideEncodedLength(n - 1);
    }
  }

  /** No prefix of `Wide(n)` encodes to 85 bytes. */
  lemma WideHasNoBoundaryAt85(n: nat)
    ensures forall k :: 0 <= k <= n ==> |Utf8.Encode(Wide(n)[..k])| != SUMMARY_MAX_LEN - 3
  {
    forall k | 0 <= k <= n
      ensures |Utf8.Encode(Wide(n)[..k])| != SUMMARY_MAX_LEN - 3
    {
      assert Wide(n)[..k] == Wide(k);
      WideEncodedLength(k);
    }
  }

  /** Thirty copies of U+4E2D are 90 bytes, over the limit, and byte 85
      lies inside the 29th character: the written code panics where the
      character-counting truncation keeps the whole message. */
  lemma WideMessagePanics()
    ensures TruncateSummaryAsWritten(Wide(30)).None?
    ensures TruncateSummary(Wide(30)) == Wide(30)
  {
    var w := Wide(30);
    WideEncodedLength(30);
    WideHasNoBoundaryAt85(30);
    assert |Utf8.Encode(w)| > SUMMARY_MAX_LEN;
  }

  // ---------------------------------------------------------------------
  // Background checks

  /** `check_for_updates`: while a check runs another request is ignored;
      otherwise the state becomes `Checking` and the check is started
      (`started`). */
  method CheckForUpdates(v: PdfViewer) returns (started: bool)
    modifies v`updaterState
    ensures started <==> !old(v.updaterState).Checking?
    ensures v.updaterState == Checking
  {
    if v.updaterState.Checking? {
      return false;
    }
    v.updaterState := Checking;
    started := true;
  }

  /** The update-check task's completion: the state shows the outcome, a
      failure by its summarised message. */
  method FinishUpdateCheck(v: PdfViewer, result: Result<Updater.UpdateCheck>)
    modifies v`updaterState
    ensures result.Ok? && result.value.UpToDate? ==> v.updaterState == UpToDate(result.value.latestVersion)
    ensures result.Ok? && result.value.UpdateAvailable? ==>
      v.updaterState == Available(result.value.latestVersion, result.value.downloadUrl)
    ensures result.Err? ==> v.updaterState == UpdateError(SummarizeUpdaterError(result.message))
  {
    if result.Err? {
      v.updaterState := UpdateError(SummarizeUpdaterError(result.message));
    } else if result.value.UpToDate? {
      v.updaterState := UpToDate(result.value.latestVersion);
    } else {
      v.updaterState := Available(result.value.latestVersion, result.value.downloadUrl);
    }
  }

  /** `refresh_db_usage`: ignored while a refresh runs; otherwise marks the
      refresh as running and starts it (`started`). */
  method RefreshDbUsage(v: PdfViewer) returns (started: bool)
    modifies v`dbUsageRefreshing
    ensures started <==> !old(v.dbUsageRefreshing)
    ensures v.dbUsageRefreshing
  {
    if v.dbUsageRefreshing {
      return false;
    }
    v.dbUsageRefreshing := true;
    started := true;
  }

  /** The refresh task's completion: the measured size (None when it
      could not be measured) is stored and the refresh is over. */
  method FinishDbUsageRefresh(v: PdfViewer, usageBytes: Option<nat>)
    modifies v`dbUsageBytes, v`dbUsageRefreshing
    ensures v.dbUsageBytes == usageBytes && !v.dbUsageRefreshing
  {
    v.dbUsageBytes := usageBytes;
    v.dbUsageRefreshing := false;
  }

  // ---------------------------------------------------------------------
  // The settings window

  /** The about dialog's open flag as `close_about_dialog` clears it. */
  method CloseAboutDialog(v: PdfViewer)
    modifies v`aboutDialogOpen, v`needsRootRefocus
    ensures !v.aboutDialogOpen
    ensures v.needsRootRefocus == (old(v.needsRootRefocus) || old(v.aboutDialogOpen))
  {
    if v.aboutDialogOpen {
      v.aboutDialogOpen := false;
      v.needsRootRefocus := true;
    }
  }

  /** The command panel and both popups of `open_settings_dialog`, each
      closed when it is open. */
  method ClosePanelAndPopups(v: PdfViewer)
    requires v.Valid()
    modifies v`commandPanelOpen, v`commandPanelNeedsFocus, v`needsRootRefocus
    modifies v`recentPopupTriggerHovered, v`recentPopupTabTriggerHovered, v`recentPopupPanelHovered
    modifies v`recentPopupHoverEpoch, v`recentPopupAnchor, v`recentPopupOpen
    modifies v`bookmarkPopupTriggerHovered, v`bookmarkPopupPanelHovered, v`bookmarkPopupHoverEpoch, v`bookmarkPopupOpen
    ensures v.Valid()
    ensures !v.commandPanelOpen && !v.recentPopupOpen && !v.bookmarkPopupOpen
  {
    if v.commandPanelOpen {
      var _ := CommandPanel.CloseCommandPanel(v);
    }
    if v.recentPopupOpen {
      var _ := RecentBookmarkNotes.CloseRecentPopup(v);
    }
    if v.bookmarkPopupOpen {
      var _ := RecentBookmarkNotes.CloseBookmarkPopup(v);
    }
  }

  /** The first half of `open_settings_dialog`: the command panel, both
      popups, the about dialog and the note editor are shut. */
  method CloseOtherOverlays(v: PdfViewer)
    requires v.Valid()
    modifies v`commandPanelOpen, v`commandPanelNeedsFocus, v`needsRootRefocus
    modifies v`recentPopupTriggerHovered, v`recentPopupTabTriggerHovered, v`recentPopupPanelHovered
    modifies v`recentPopupHoverEpoch, v`recentPopupAnchor, v`recentPopupOpen
    modifies v`bookmarkPopupTriggerHovered, v`bookmarkPopupPanelHovered, v`bookmarkPopupHoverEpoch, v`bookmarkPopupOpen
    modifies v`aboutDialogOpen
    modifies v`noteEditorOpen, v`noteEditorAnchor, v`noteEditorEditNoteId, v`noteEditorWindow
    ensures v.Valid()
    ensures !v.commandPanelOpen && !v.recentPopupOpen && !v.bookmarkPopupOpen && !v.aboutDialogOpen && !v.noteEditorOpen
    ensures old(v.noteEditorOpen) ==> MarkdownNoteDialog.DialogShut(v)
  {
    ClosePanelAndPopups(v);
    CloseAboutDialog(v);
    if v.noteEditorOpen {
      var _ := MarkdownNoteDialog.CloseMarkdownNoteEditor(v);
    }
  }

  /** The second half of `open_settings_dialog`: an open dialog is only
      brought to the front; otherwise a new session starts, the database
      size is refreshed and the window (`window`, None when it could not
      be opened) is recorded, or the session closed again at once. */
  method OpenSettingsWindow(v: PdfViewer, window: Option<nat>)
    modifies v`settingsDialogOpen, v`needsRootRefocus, v`settingsDialogSession, v`settingsDialogWindow, v`dbUsageRefreshing
    ensures old(v.settingsDialogOpen) ==>
      && v.settingsDialogOpen && v.settingsDialogSession == old(v.settingsDialogSession)
      && v.settingsDialogWindow == old(v.settingsDialogWindow) && v.dbUsageRefreshing == old(v.dbUsageRefreshing)
      && v.needsRootRefocus == old(v.needsRootRefocus)
    ensures !old(v.settingsDialogOpen) ==>
      && v.settingsDialogSession == WrappingInc(old(v.settingsDialogSession))
      && v.dbUsageRefreshing
      && v.settingsDialogOpen == window.Some?
      && v.settingsDialogWindow == window
      && v.needsRootRefocus == window.None?
  {
    if v.settingsDialogOpen {
      return;
    }
    v.settingsDialogOpen := true;
    v.needsRootRefocus := false;
    v.settingsDialogSession := WrappingInc(v.settingsDialogSession);
    var session := v.settingsDialogSession;
    var _ := RefreshDbUsage(v);
    match window
    case Some(handle) =>
      v.settingsDialogWindow := Some(handle);
    case None =>
      OnSettingsDialogWindowClosed(v, session);
  }

  /** `open_settings_dialog`. */
  method OpenSettingsDialog(v: PdfViewer, window: Option<nat>)
    requires v.Valid()
    modifies v`commandPanelOpen, v`commandPanelNeedsFocus, v`needsRootRefocus
    modifies v`recentPopupTriggerHovered, v`recentPopupTabTriggerHovered, v`recentPopupPanelHovered
    modifies v`recentPopupHoverEpoch, v`recentPopupAnchor, v`recentPopupOpen
    modifies v`bookmarkPopupTriggerHovered, v`bookmarkPopupPanelHovered, v`bookmarkPopupHoverEpoch, v`bookmarkPopupOpen
    modifies v`aboutDialogOpen
    modifies v`noteEditorOpen, v`noteEditorAnchor, v`noteEditorEditNoteId, v`noteEditorWindow
    modifies v`settingsDialogOpen, v`settingsDialogSession, v`settingsDialogWindow, v`dbUsageRefreshing
    ensures v.Valid()
    ensures !v.commandPanelOpen && !v.recentPopupOpen && !v.bookmarkPopupOpen && !v.aboutDialogOpen && !v.noteEditorOpen
    ensures old(v.settingsDialogOpen) ==>
      v.settingsDialogOpen && v.settingsDialogSession == old(v.settingsDialogSession)
    ensures !old(v.settingsDialogOpen) ==>
      && v.settingsDialogSession == WrappingInc(old(v.settingsDialogSession))
      && v.settingsDialogOpen == window.Some? && v.settingsDialogWindow == window && v.dbUsageRefreshing
  {
    CloseOtherOverlays(v);
    OpenSettingsWindow(v, window);
  }

  /** `close_settings_dialog`: the dialog is shut and its window handed
      back to be removed; focus returns to the root view when there was
      anything to shut. */
  method CloseSettingsDialog(v: PdfViewer) returns (removedWindow: Option<nat>)
    modifies v`settingsDialogOpen, v`settingsDialogWindow, v`needsRootRefocus
    ensures !v.settingsDialogOpen && v.settingsDialogWindow == None
    ensures removedWindow == old(v.settingsDialogWindow)
    ensures v.needsRootRefocus == (old(v.needsRootRefocus) || old(v.settingsDialogOpen) || old(v.settingsDialogWindow).Some?)
  {
    removedWindow := v.settingsDialogWindow;
    v.settingsDialogWindow := None;
    var changed := false;
    if v.settingsDialogOpen {
      v.settingsDialogOpen := false;
      changed := true;
    }
    if changed || removedWindow.Some? {
      v.needsRootRefocus := true;
    }
  }

  /** `on_settings_dialog_window_closed`: a report from an earlier session
      changes nothing; the current session's report shuts the dialog. */
  method OnSettingsDialogWindowClosed(v: PdfViewer, sessionId: nat)
    modifies v`settingsDialogOpen, v`settingsDialogWindow, v`needsRootRefocus
    ensures sessionId != v.settingsDialogSession ==>
      && v.settingsDialogOpen == old(v.settingsDialogOpen) && v.settingsDialogWindow == old(v.settingsDialogWindow)
      && v.needsRootRefocus == old(v.needsRootRefocus)
    ensures sessionId == v.settingsDialogSession ==>
      && !v.settingsDialogOpen && v.settingsDialogWindow == None
      && v.needsRootRefocus == (old(v.needsRootRefocus) || old(v.settingsDialogOpen) || old(v.settingsDialogWindow).Some?)
  {
    if v.settingsDialogSession != sessionId {
      return;
    }
    var changed := false;
    if v.settingsDialogOpen {
      v.settingsDialogOpen := false;
      changed := true;
    }
    if v.settingsDialogWindow.Some? {
      v.settingsDialogWindow := None;
      changed := true;
    }
    if changed {
      v.needsRootRefocus := true;
    }
  }

  /** A window closed after the dialog was reopened reports an older
      session, which the reopened dialog ignores. */
  lemma ReopenedSessionDiffers(session: nat)
    requires session < U64_MODULUS
    ensures WrappingInc(session) != session
  {
  }

  // ---------------------------------------------------------------------
  // Preference setters

  /** `set_titlebar_navigation_visible`: nothing happens when the value is
      already set; otherwise it is stored and persisted. */
  method SetTitlebarNavigationVisible(v: PdfViewer, visible: bool)
    requires v.Valid()
    modifies v`titlebarPreferences, v.titlebarPreferencesStore
    ensures v.Valid()
    ensures old(v.titlebarPreferences).showNavigation == visible ==>
      v.titlebarPreferences == old(v.titlebarPreferences) && unchanged(v.titlebarPreferencesStore)
    ensures old(v.titlebarPreferences).showNavigation != visible ==>
      && v.titlebarPreferences == old(v.titlebarPreferences).(showNavigation := visible)
      && Store.LoadTitlebarPreferences(v.titlebarPreferencesStore) == v.titlebarPreferences
  {
    if v.titlebarPreferences.showNavigation == visible {
      return;
    }
    v.titlebarPreferences := v.titlebarPreferences.(showNavigation := visible);
    Persistence.PersistTitlebarPreferences(v);
  }

  /** `set_titlebar_zoom_visible`: the same for the zoom controls. */
  method SetTitlebarZoomVisible(v: PdfViewer, visible: bool)
    requires v.Valid()
    modifies v`titlebarPreferences, v.titlebarPreferencesStore
    ensures v.Valid()
    ensures old(v.titlebarPreferences).showZoom == visible ==>
      v.titlebarPreferences == old(v.titlebarPreferences) && unchanged(v.titlebarPreferencesStore)
    ensures old(v.titlebarPreferences).showZoom != visible ==>
      && v.titlebarPreferences == old(v.titlebarPreferences).(showZoom := visible)
      && Store.LoadTitlebarPreferences(v.titlebarPreferencesStore) == v.titlebarPreferences
  {
    if v.titlebarPreferences.showZoom == visible {
      return;
    }
    v.titlebarPreferences := v.titlebarPreferences.(showZoom := visible);
    Persistence.PersistTitlebarPreferences(v);
  }

  /** `set_language_preference`: nothing happens for the current
      preference; otherwise the preference is stored and the interface
      language re-resolved from it and the detected system language. The
      write of the preference to its store is not modelled: that store and
      `persist_language_preference` are not part of this model. */
  method SetLanguagePreference(v: PdfViewer, preference: LanguagePreference, detected: I18n.Language,
                               resolve: (LanguagePreference, I18n.Language) -> I18n.Language)
    modifies v`languagePreference, v`language
    ensures old(v.languagePreference) == preference ==> v.language == old(v.language)
    ensures v.languagePreference == preference
    ensures old(v.languagePreference) != preference ==> v.language == resolve(preference, detected)
  {
    if v.languagePreference == preference {
      return;
    }
    v.languagePreference := preference;
    v.language := resolve(preference, detected);
  }

  /** The saved theme preferences load back as the viewer holds them. */
  ghost predicate ThemePersisted(v: PdfViewer)
    reads v, v.themePreferencesStore
  {
    forall d :: Store.LoadThemePreferences(v.themePreferencesStore, d)
             == (v.themeMode, Store.NonEmptyName(v.preferredLightThemeName), Store.NonEmptyName(v.preferredDarkThemeName))
  }

  /** `set_theme_mode`: nothing happens for the current mode; otherwise
      the mode is stored and persisted. */
  method SetThemeMode(v: PdfViewer, mode: ThemeMode)
    requires v.Valid()
    modifies v`themeMode, v.themePreferencesStore
    ensures v.Valid()
    ensures v.themeMode == mode
    ensures old(v.themeMode) == mode ==> unchanged(v.themePreferencesStore)
    ensures old(v.themeMode) != mode ==> ThemePersisted(v)
  {
    if v.themeMode == mode {
      return;
    }
    v.themeMode := mode;
    Persistence.PersistThemePreferences(v);
  }

  /** `set_theme_color_by_name`: the preferred theme of the given mode
      becomes `name`; nothing happens when it already is. */
  method SetThemeColorByName(v: PdfViewer, mode: ThemeMode, name: string)
    requires v.Valid()
    modifies v`preferredLightThemeName, v`preferredDarkThemeName, v.themePreferencesStore
    ensures v.Valid()
    ensures mode == Dark ==> v.preferredDarkThemeName == Some(name) && v.preferredLightThemeName == old(v.preferredLightThemeName)
    ensures mode == Light ==> v.preferredLightThemeName == Some(name) && v.preferredDarkThemeName == old(v.preferredDarkThemeName)
    ensures (if mode == Dark then old(v.preferredDarkThemeName) else old(v.preferredLightThemeName)) == Some(name) ==>
      unchanged(v.themePreferencesStore)
    ensures (if mode == Dark then old(v.preferredDarkThemeName) else old(v.preferredLightThemeName)) != Some(name) ==>
      ThemePersisted(v)
  {
    if mode == Dark {
      if v.preferredDarkThemeName == Some(name) {
        return;
      }
      v.preferredDarkThemeName := Some(name);
    } else {
      if v.preferredLightThemeName == Some(name) {
        return;
      }
      v.preferredLightThemeName := Some(name);
    }
    Persistence.PersistThemePreferences(v);
  }

  /** The theme `apply_theme_preferences` installs for a mode: the
      preferred one when the registry has a theme of that name and mode,
      else the registry's default for the mode. */
  function SelectedTheme(preferred: Option<string>, registry: map<string, ThemeMode>, mode: ThemeMode, default: string): (r: string)
    ensures r == default || (preferred == Some(r) && r in registry && registry[r] == mode)
    ensures preferred.Some? && preferred.value in registry && registry[preferred.value] == mode ==> r == preferred.value
  {
    match preferred
    case Some(name) => if name in registry && registry[name] == mode then name else default
    case None => default
  }
}
