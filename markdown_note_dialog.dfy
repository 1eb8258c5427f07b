// The markdown note editor in a window of its own. Every window opened
// gets a new session number; the window reports its session back when it
// closes or saves, and a report from an older session is ignored.
module MarkdownNoteDialog {
  import opened Wrappers
  import opened Types
  import opened Viewer
  import I18n
  import Text
  import Store
  import Interactions
  import RecentBookmarkNotes

  /** Everything the dialog keeps is cleared: shut, no anchor, no note
      being edited, no window. */
  predicate DialogShut(v: PdfViewer)
    reads v`noteEditorOpen, v`noteEditorAnchor, v`noteEditorEditNoteId, v`noteEditorWindow
  {
    !v.noteEditorOpen && v.noteEditorAnchor == None && v.noteEditorEditNoteId == None && v.noteEditorWindow == None
  }

  /** Whether shutting the dialog has anything to clear. */
  predicate HasDialogState(v: PdfViewer)
    reads v`noteEditorOpen, v`noteEditorAnchor, v`noteEditorEditNoteId, v`noteEditorWindow
  {
    v.noteEditorOpen || v.noteEditorAnchor.Some? || v.noteEditorEditNoteId.Some? || v.noteEditorWindow.Some?
  }

  /** What the editor window is built with: its session, the interface
      language, whether it edits an existing note, and its initial text. */
  datatype EditorWindow = EditorWindow(sessionId: nat, language: I18n.Language, isEditing: bool, initialMarkdown: string)

  /** `close_markdown_note_editor`: the dialog is shut and the window it
      had is handed back to be removed; the root view asks for focus back
      exactly when there was something to shut. */
  method CloseMarkdownNoteEditor(v: PdfViewer) returns (removedWindow: Option<nat>)
    modifies v`noteEditorOpen, v`noteEditorAnchor, v`noteEditorEditNoteId, v`noteEditorWindow, v`needsRootRefocus
    ensures DialogShut(v)
    ensures removedWindow == old(v.noteEditorWindow)
    ensures v.needsRootRefocus == (old(v.needsRootRefocus) || old(HasDialogState(v)))
  {
    removedWindow := v.noteEditorWindow;
    v.noteEditorWindow := None;
    var changed := false;
    if v.noteEditorOpen {
      v.noteEditorOpen := false;
      changed := true;
    }
    if v.noteEditorAnchor.Some? {
      v.noteEditorAnchor := None;
      changed := true;
    }
    if v.noteEditorEditNoteId.Some? {
      v.noteEditorEditNoteId := None;
      changed := true;
    }
    if changed || removedWindow.Some? {
      v.needsRootRefocus := true;
    }
  }

  /** `on_markdown_note_editor_window_closed`: a report from another
      session changes nothing; otherwise the dialog is shut and the root
      view asks for focus back exactly when there was something to shut. */
  method OnMarkdownNoteEditorWindowClosed(v: PdfViewer, sessionId: nat)
    modifies v`noteEditorOpen, v`noteEditorAnchor, v`noteEditorEditNoteId, v`noteEditorWindow, v`needsRootRefocus
    ensures old(v.noteEditorSession) != sessionId ==>
      unchanged(v`noteEditorOpen, v`noteEditorAnchor, v`noteEditorEditNoteId, v`noteEditorWindow, v`needsRootRefocus)
    ensures old(v.noteEditorSession) == sessionId ==>
      DialogShut(v) && v.needsRootRefocus == (old(v.needsRootRefocus) || old(HasDialogState(v)))
  {
    if v.noteEditorSession != sessionId {
      return;
    }
    var changed := false;
    if v.noteEditorOpen {
      v.noteEditorOpen := false;
      changed := true;
    }
    if v.noteEditorAnchor.Some? {
      v.noteEditorAnchor := None;
      changed := true;
    }
    if v.noteEditorEditNoteId.Some? {
      v.noteEditorEditNoteId := None;
      changed := true;
    }
    if v.noteEditorWindow.Some? {
      v.noteEditorWindow := None;
      changed := true;
    }
    if changed {
      v.needsRootRefocus := true;
    }
  }

  /** `open_markdown_note_editor_window`: the dialog opens under the next
      session number (wrapping at 2^64) and the window is requested;
      `handle` is the window system's answer. With a window the dialog stays
      open holding it; without one it is shut again at once, as its own
      session's close report would. */
  method OpenMarkdownNoteEditorWindow(v: PdfViewer, initialMarkdown: string, isEditing: bool, handle: Option<nat>)
    returns (window: EditorWindow)
    modifies v`noteEditorOpen, v`noteEditorAnchor, v`noteEditorEditNoteId, v`noteEditorWindow, v`needsRootRefocus
    modifies v`noteEditorSession
    ensures v.noteEditorSession == WrappingInc(old(v.noteEditorSession))
    ensures v.noteEditorSession != old(v.noteEditorSession) || old(v.noteEditorSession) >= U64_MODULUS
    ensures window == EditorWindow(v.noteEditorSession, v.language, isEditing, initialMarkdown)
    ensures handle.Some? ==>
      && v.noteEditorOpen && v.noteEditorWindow == handle && !v.needsRootRefocus
      && v.noteEditorAnchor == old(v.noteEditorAnchor) && v.noteEditorEditNoteId == old(v.noteEditorEditNoteId)
    ensures handle.None? ==> DialogShut(v) && v.needsRootRefocus
  {
    v.noteEditorOpen := true;
    v.needsRootRefocus := false;
    v.noteEditorSession := WrappingInc(v.noteEditorSession);
    var sessionId := v.noteEditorSession;
    window := EditorWindow(sessionId, v.language, isEditing, initialMarkdown);
    if handle.Some? {
      v.noteEditorWindow := handle;
    } else {
      OnMarkdownNoteEditorWindowClosed(v, sessionId);
    }
  }

  /** The dialog after opening a window for a note: a new session, the
      given anchor and note id, and either the window or, without one, a
      shut dialog. */
  predicate OpenedFor(v: PdfViewer, oldSession: nat, anchor: Option<MarkdownNoteAnchor>, noteId: Option<nat>, handle: Option<nat>)
    reads v`noteEditorOpen, v`noteEditorAnchor, v`noteEditorEditNoteId, v`noteEditorWindow, v`needsRootRefocus
    reads v`noteEditorSession
  {
    && v.noteEditorSession == WrappingInc(oldSession)
    && (handle.Some? ==>
      && v.noteEditorOpen && v.noteEditorWindow == handle && !v.needsRootRefocus
      && v.noteEditorAnchor == anchor && v.noteEditorEditNoteId == noteId)
    && (handle.None? ==> DialogShut(v) && v.needsRootRefocus)
  }

  /** `open_markdown_note_editor_for_new`: any open dialog is shut (its
      window handed back to be removed) and an empty one opens at the
      anchor. */
  method OpenMarkdownNoteEditorForNew(v: PdfViewer, anchor: MarkdownNoteAnchor, handle: Option<nat>)
    returns (removedWindow: Option<nat>, window: EditorWindow)
    modifies v`noteEditorOpen, v`noteEditorAnchor, v`noteEditorEditNoteId, v`noteEditorWindow, v`needsRootRefocus
    modifies v`noteEditorSession
    ensures removedWindow == old(v.noteEditorWindow)
    ensures OpenedFor(v, old(v.noteEditorSession), Some(anchor), None, handle)
    ensures window == EditorWindow(v.noteEditorSession, v.language, false, "")
  {
    removedWindow := CloseMarkdownNoteEditor(v);
    v.noteEditorAnchor := Some(anchor);
    v.noteEditorEditNoteId := None;
    window := OpenMarkdownNoteEditorWindow(v, "", false, handle);
  }

  /** Where a note for the selection goes: the hover menu's anchor, or
      else the anchor of the active selection. */
  function SelectionNoteAnchor(v: PdfViewer): (r: Option<MarkdownNoteAnchor>)
    reads v, v.tabBar, v.tabBar.tabs, Selections(v.tabBar.tabs)
    requires v.tabBar.Valid()
    ensures v.textSelectionHoverMenuAnchor.Some? ==> r == v.textSelectionHoverMenuAnchor
    ensures v.textSelectionHoverMenuAnchor.None? ==> r == Interactions.ActiveSelectionAnchor(v)
  {
    if v.textSelectionHoverMenuAnchor.Some? then v.textSelectionHoverMenuAnchor
    else Interactions.ActiveSelectionAnchor(v)
  }

  /** `open_markdown_note_editor_for_text_selection`: false, changing
      nothing, without an anchor for the selection; otherwise any open
      dialog is shut, the hover menu cleared and an empty dialog handle at
      that anchor. */
  method OpenMarkdownNoteEditorForTextSelection(v: PdfViewer, handle: Option<nat>, ghost target: Option<MarkdownNoteAnchor>)
    returns (started: bool, removedWindow: Option<nat>, window: Option<EditorWindow>)
    requires v.tabBar.Valid()
    requires target == SelectionNoteAnchor(v)
    modifies v`noteEditorOpen, v`noteEditorAnchor, v`noteEditorEditNoteId, v`noteEditorWindow, v`needsRootRefocus
    modifies v`noteEditorSession
    modifies v`textSelectionHoverMenuOpen, v`textSelectionHoverMenuPosition, v`textSelectionHoverMenuAnchor
    ensures started <==> target.Some?
    ensures !started ==> removedWindow == None && window == None
    ensures !started ==> unchanged(v`noteEditorOpen, v`noteEditorAnchor, v`noteEditorEditNoteId, v`noteEditorWindow, v`needsRootRefocus)
    ensures !started ==> unchanged(v`noteEditorSession, v`textSelectionHoverMenuOpen, v`textSelectionHoverMenuPosition, v`textSelectionHoverMenuAnchor)
    ensures started ==>
      && removedWindow == old(v.noteEditorWindow)
      && Interactions.HoverMenuCleared(v)
      && OpenedFor(v, old(v.noteEditorSession), target, None, handle)
      && window == Some(EditorWindow(v.noteEditorSession, v.language, false, ""))
  {
    var anchor := SelectionNoteAnchor(v);
    if anchor.None? {
      return false, None, None;
    }
    var w;
    removedWindow, w := OpenAtSelection(v, anchor.value, handle);
    started, window := true, Some(w);
  }

  /** `open_markdown_note_editor_for_text_selection` once it has an
      anchor. */
  method OpenAtSelection(v: PdfViewer, anchor: MarkdownNoteAnchor, handle: Option<nat>)
    returns (removedWindow: Option<nat>, window: EditorWindow)
    modifies v`noteEditorOpen, v`noteEditorAnchor, v`noteEditorEditNoteId, v`noteEditorWindow, v`needsRootRefocus
    modifies v`noteEditorSession
    modifies v`textSelectionHoverMenuOpen, v`textSelectionHoverMenuPosition, v`textSelectionHoverMenuAnchor
    ensures removedWindow == old(v.noteEditorWindow)
    ensures Interactions.HoverMenuCleared(v)
    ensures OpenedFor(v, old(v.noteEditorSession), Some(anchor), None, handle)
    ensures window == EditorWindow(v.noteEditorSession, v.language, false, "")
  {
    removedWindow := CloseMarkdownNoteEditor(v);
    var _ := Interactions.ClearTextSelectionHoverMenuState(v);
    v.noteEditorAnchor := Some(anchor);
    v.noteEditorEditNoteId := None;
    window := OpenMarkdownNoteEditorWindow(v, "", false, handle);
  }

  /** `open_markdown_note_editor_for_edit`: an unknown note id changes
      nothing; otherwise any open dialog is shut and one opens on that
      note's text, without an anchor. */
  method OpenMarkdownNoteEditorForEdit(v: PdfViewer, noteId: nat, handle: Option<nat>)
    returns (removedWindow: Option<nat>, window: Option<EditorWindow>)
    modifies v`noteEditorOpen, v`noteEditorAnchor, v`noteEditorEditNoteId, v`noteEditorWindow, v`needsRootRefocus
    modifies v`noteEditorSession
    ensures window.Some? <==> RecentBookmarkNotes.NoteIdUsed(v.markdownNotes, noteId)
    ensures window.None? ==> removedWindow == None
    ensures window.None? ==>
      unchanged(v`noteEditorOpen, v`noteEditorAnchor, v`noteEditorEditNoteId, v`noteEditorWindow, v`needsRootRefocus, v`noteEditorSession)
    ensures window.Some? ==>
      && removedWindow == old(v.noteEditorWindow)
      && OpenedFor(v, old(v.noteEditorSession), None, Some(noteId), handle)
      && window.value == EditorWindow(v.noteEditorSession, v.language, true,
        RecentBookmarkNotes.MarkdownNoteById(v.markdownNotes, noteId).value.markdown)
  {
    var note := RecentBookmarkNotes.MarkdownNoteById(v.markdownNotes, noteId);
    if note.None? {
      return None, None;
    }
    removedWindow := CloseMarkdownNoteEditor(v);
    v.noteEditorAnchor := None;
    v.noteEditorEditNoteId := Some(noteId);
    var w := OpenMarkdownNoteEditorWindow(v, note.value.markdown, true, handle);
    window := Some(w);
  }

  /** Saving put `note` into the list, wrote the list out and shut the
      dialog of its session. */
  ghost predicate Saved(v: PdfViewer, before: seq<MarkdownNoteEntry>, note: MarkdownNoteEntry)
    reads v, v.notesStore
  {
    && v.markdownNotes == RecentBookmarkNotes.Upserted(before, note)
    && v.notesStore.entries == Store.Written(v.markdownNotes, v.serializeNote)
    && DialogShut(v) && v.needsRootRefocus
  }

  /** The save is for the open dialog of the current session. */
  predicate CurrentSession(v: PdfViewer, sessionId: nat)
    reads v`noteEditorOpen, v`noteEditorSession
  {
    v.noteEditorOpen && v.noteEditorSession == sessionId
  }

  /** `save_markdown_note_from_editor_window`, given the window's text and
      the clock. A report for a shut dialog or another session is accepted
      (true) and changes nothing; blank text is refused (false) and changes
      nothing. An edited note that still exists gets the trimmed text;
      otherwise a new note is made at the anchor in the active file with a
      fresh id, and without a file or an anchor the save is refused. A
      saved note is upserted and the dialog shut. `outcome` says which of
      these happened. */
  method SaveMarkdownNoteFromEditorWindow(v: PdfViewer, sessionId: nat, markdown: string, now: nat, nowMillis: nat)
    returns (accepted: bool, ghost outcome: RecentBookmarkNotes.NoteSave)
    requires v.Valid()
    requires exists c :: RecentBookmarkNotes.IdSearchStart(nowMillis) <= c <= RecentBookmarkNotes.U64_MAX && !RecentBookmarkNotes.NoteIdUsed(v.markdownNotes, c)
    modifies v`markdownNotes, v.notesStore
    modifies v`noteEditorOpen, v`noteEditorAnchor, v`noteEditorEditNoteId, v`noteEditorWindow, v`needsRootRefocus
    ensures v.Valid()
    ensures accepted <==> !outcome.Blank? && !outcome.NoTarget?
    ensures outcome.NotOpen? <==> !old(CurrentSession(v, sessionId))
    ensures outcome.Blank? <==> old(CurrentSession(v, sessionId)) && Text.Trim(markdown) == []
    ensures outcome.NotOpen? || outcome.Blank? || outcome.NoTarget? ==>
      && v.markdownNotes == old(v.markdownNotes) && v.notesStore.entries == old(v.notesStore.entries)
      && unchanged(v`noteEditorOpen, v`noteEditorAnchor, v`noteEditorEditNoteId, v`noteEditorWindow, v`needsRootRefocus)
    ensures outcome.Edited? ==>
      && old(RecentBookmarkNotes.EditTarget(v)).Some?
      && outcome.note == RecentBookmarkNotes.EditedNote(old(RecentBookmarkNotes.EditTarget(v)).value, Text.Trim(markdown), now)
      && Saved(v, old(v.markdownNotes), outcome.note)
    ensures outcome.Created? || outcome.NoTarget? ==>
      old(CurrentSession(v, sessionId)) && Text.Trim(markdown) != [] && old(RecentBookmarkNotes.EditTarget(v)).None?
    ensures outcome.NoTarget? <==>
      && old(CurrentSession(v, sessionId)) && Text.Trim(markdown) != [] && old(RecentBookmarkNotes.EditTarget(v)).None?
      && (v.ActiveTabPath().None? || old(v.noteEditorAnchor).None?)
    ensures outcome.Created? ==>
      && old(v.noteEditorAnchor).Some? && v.ActiveTabPath().Some?
      && outcome.note == RecentBookmarkNotes.NewNote(outcome.note.id, v.ActiveTabPath().value, old(v.noteEditorAnchor).value, Text.Trim(markdown), now)
      && !RecentBookmarkNotes.NoteIdUsed(old(v.markdownNotes), outcome.note.id)
      && RecentBookmarkNotes.IdSearchStart(nowMillis) <= outcome.note.id <= RecentBookmarkNotes.U64_MAX
      && Saved(v, old(v.markdownNotes), outcome.note)
  {
    if !v.noteEditorOpen || v.noteEditorSession != sessionId {
      return true, RecentBookmarkNotes.NotOpen;
    }
    var text := Text.Trim(markdown);
    if text == [] {
      return false, RecentBookmarkNotes.Blank;
    }
    var target := RecentBookmarkNotes.EditTarget(v);
    if target.Some? {
      var note := RecentBookmarkNotes.EditedNote(target.value, text, now);
      SaveAndClose(v, note, sessionId);
      return true, RecentBookmarkNotes.Edited(note);
    }
    accepted, outcome := SaveNewNote(v, sessionId, text, now, nowMillis);
  }

  /** The last branch of `save_markdown_note_from_editor_window`: a new
      note at the dialog's anchor in the active file, or nothing without
      either. */
  method SaveNewNote(v: PdfViewer, sessionId: nat, markdown: string, now: nat, nowMillis: nat)
    returns (saved: bool, ghost outcome: RecentBookmarkNotes.NoteSave)
    requires v.Valid() && CurrentSession(v, sessionId)
    requires exists c :: RecentBookmarkNotes.IdSearchStart(nowMillis) <= c <= RecentBookmarkNotes.U64_MAX && !RecentBookmarkNotes.NoteIdUsed(v.markdownNotes, c)
    modifies v`markdownNotes, v.notesStore
    modifies v`noteEditorOpen, v`noteEditorAnchor, v`noteEditorEditNoteId, v`noteEditorWindow, v`needsRootRefocus
    ensures v.Valid()
    ensures outcome.Created? || outcome.NoTarget?
    ensures saved <==> outcome.Created?
    ensures outcome.NoTarget? <==> v.ActiveTabPath().None? || old(v.noteEditorAnchor).None?
    ensures outcome.NoTarget? ==>
      && v.markdownNotes == old(v.markdownNotes) && v.notesStore.entries == old(v.notesStore.entries)
      && unchanged(v`noteEditorOpen, v`noteEditorAnchor, v`noteEditorEditNoteId, v`noteEditorWindow, v`needsRootRefocus)
    ensures outcome.Created? ==>
      && outcome.note == RecentBookmarkNotes.NewNote(outcome.note.id, v.ActiveTabPath().value, old(v.noteEditorAnchor).value, markdown, now)
      && !RecentBookmarkNotes.NoteIdUsed(old(v.markdownNotes), outcome.note.id)
      && RecentBookmarkNotes.IdSearchStart(nowMillis) <= outcome.note.id <= RecentBookmarkNotes.U64_MAX
      && Saved(v, old(v.markdownNotes), outcome.note)
  {
    var path := v.ActiveTabPath();
    if path.None? || v.noteEditorAnchor.None? {
      return false, RecentBookmarkNotes.NoTarget;
    }
    var id := RecentBookmarkNotes.NextMarkdownNoteId(v, nowMillis);
    var note := RecentBookmarkNotes.NewNote(id, path.value, v.noteEditorAnchor.value, markdown, now);
    SaveAndClose(v, note, sessionId);
    saved, outcome := true, RecentBookmarkNotes.Created(note);
  }

  /** Upsert the note, then shut the dialog of its session. */
  method SaveAndClose(v: PdfViewer, note: MarkdownNoteEntry, sessionId: nat)
    requires v.Valid() && CurrentSession(v, sessionId)
    modifies v`markdownNotes, v.notesStore
    modifies v`noteEditorOpen, v`noteEditorAnchor, v`noteEditorEditNoteId, v`noteEditorWindow, v`needsRootRefocus
    ensures v.Valid() && Saved(v, old(v.markdownNotes), note)
  {
    RecentBookmarkNotes.UpsertMarkdownNote(v, note);
    OnMarkdownNoteEditorWindowClosed(v, sessionId);
  }
}
