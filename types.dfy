// The viewer's value types: drag state, bookmarks, markdown notes, text
// markups, popups and preferences, with their `Default` values. Paths are
// strings, `f32` coordinates and ratios are reals, and `u64`/`usize`
// counters are naturals.
module Types {
  import opened Wrappers

  type Path = string

  /** Tab drag-reorder progress, by tab id. */
  datatype DragState =
    | NoDrag
    | Started(sourceTabId: nat)
    | Over(sourceTabId: nat, targetTabId: nat)

  datatype RecentPopupAnchor = OpenButton | TabAddButton

  datatype BookmarkEntry = BookmarkEntry(path: Path, pageIndex: nat, createdAtUnixSecs: nat)

  datatype BookmarkScope = CurrentPdf | All

  datatype LanguagePreference = System | ZhCnPreference | EnUsPreference

  const DEFAULT_LANGUAGE_PREFERENCE: LanguagePreference := System

  datatype TextMarkupKind = Highlight | Underline

  datatype TextMarkupColor = Yellow | Green | Blue | Pink

  const DEFAULT_TEXT_MARKUP_COLOR: TextMarkupColor := Yellow

  /** A rectangle as fractions of the page size, PDF orientation (top above bottom). */
  datatype TextMarkupRect = TextMarkupRect(leftRatio: real, topRatio: real, rightRatio: real, bottomRatio: real)

  datatype MarkdownNoteEntry = MarkdownNoteEntry(
    id: nat,
    path: Path,
    pageIndex: nat,
    xRatio: real,
    yRatio: real,
    markdown: string,
    createdAtUnixSecs: nat,
    updatedAtUnixSecs: nat,
    selectedText: string,
    selectionRects: seq<TextMarkupRect>)

  datatype TextMarkupEntry = TextMarkupEntry(
    id: nat,
    path: Path,
    pageIndex: nat,
    kind: TextMarkupKind,
    color: TextMarkupColor,
    selectedText: string,
    rects: seq<TextMarkupRect>,
    createdAtUnixSecs: nat,
    updatedAtUnixSecs: nat)

  datatype MarkdownNoteAnchor = MarkdownNoteAnchor(pageIndex: nat, xRatio: real, yRatio: real)

  datatype UpdaterUiState =
    | Idle
    | Checking
    | UpToDate(latestVersion: string)
    | Available(latestVersion: string, downloadUrl: string)
    | UpdateError(message: string)

  datatype TitleBarVisibilityPreferences = TitleBarVisibilityPreferences(showNavigation: bool, showZoom: bool)

  const DEFAULT_TITLEBAR_PREFERENCES: TitleBarVisibilityPreferences := TitleBarVisibilityPreferences(true, true)

  datatype TabLayoutMode = Horizontal | Vertical

  const DEFAULT_TAB_LAYOUT_MODE: TabLayoutMode := Horizontal

  /** The colour scheme of the UI toolkit; `Light` is its default. */
  datatype ThemeMode = Light | Dark

  const DEFAULT_THEME_MODE: ThemeMode := Light

  /** A markdown note as deserialised, before `#[serde(default)]` fills the
      fields that older records lack. */
  datatype StoredMarkdownNote = StoredMarkdownNote(
    id: nat, path: Path, pageIndex: nat, xRatio: real, yRatio: real, markdown: string,
    createdAtUnixSecs: nat, updatedAtUnixSecs: nat,
    selectedText: Option<string>, selectionRects: Option<seq<TextMarkupRect>>)

  /** A markup as deserialised, before the default colour is filled in. */
  datatype StoredTextMarkup = StoredTextMarkup(
    id: nat, path: Path, pageIndex: nat, kind: TextMarkupKind, color: Option<TextMarkupColor>,
    selectedText: string, rects: seq<TextMarkupRect>, createdAtUnixSecs: nat, updatedAtUnixSecs: nat)

  function NoteWithDefaults(n: StoredMarkdownNote): (e: MarkdownNoteEntry)
    ensures e.id == n.id && e.path == n.path && e.pageIndex == n.pageIndex && e.markdown == n.markdown
    ensures e.xRatio == n.xRatio && e.yRatio == n.yRatio
    ensures e.createdAtUnixSecs == n.createdAtUnixSecs && e.updatedAtUnixSecs == n.updatedAtUnixSecs
    ensures e.selectedText == (if n.selectedText.Some? then n.selectedText.value else "")
    ensures e.selectionRects == (if n.selectionRects.Some? then n.selectionRects.value else [])
  {
    MarkdownNoteEntry(n.id, n.path, n.pageIndex, n.xRatio, n.yRatio, n.markdown,
      n.createdAtUnixSecs, n.updatedAtUnixSecs,
      match n.selectedText case Some(t) => t case None => "",
      match n.selectionRects case Some(r) => r case None => [])
  }

  function MarkupWithDefaults(m: StoredTextMarkup): (e: TextMarkupEntry)
    ensures e.color == (if m.color.Some? then m.color.value else DEFAULT_TEXT_MARKUP_COLOR)
    ensures e.id == m.id && e.path == m.path && e.pageIndex == m.pageIndex && e.kind == m.kind
    ensures e.selectedText == m.selectedText && e.rects == m.rects
    ensures e.createdAtUnixSecs == m.createdAtUnixSecs && e.updatedAtUnixSecs == m.updatedAtUnixSecs
  {
    TextMarkupEntry(m.id, m.path, m.pageIndex, m.kind,
      match m.color case Some(c) => c case None => DEFAULT_TEXT_MARKUP_COLOR,
      m.selectedText, m.rects, m.createdAtUnixSecs, m.updatedAtUnixSecs)
  }

  /** `f32::clamp(0.0, 1.0)`, used for every stored ratio. */
  function Clamp01(x: real): (r: real)
    ensures 0.0 <= r <= 1.0
    ensures 0.0 <= x <= 1.0 ==> r == x
  {
    if x < 0.0 then 0.0 else if x > 1.0 then 1.0 else x
  }

  function Clamp(x: real, lo: real, hi: real): (r: real)
    requires lo <= hi
    ensures lo <= r <= hi
    ensures lo <= x <= hi ==> r == x
  {
    if x < lo then lo else if x > hi then hi else x
  }

  /** `round` on a non-negative float: the nearest integer, halves
      rounding up (away from zero). */
  function RoundHalfUp(x: real): (r: int)
    requires x >= 0.0
    ensures r >= 0 && (r as real) - 0.5 <= x < (r as real) + 0.5
  {
    (x + 0.5).Floor
  }

  /** A part over its whole lies in [0, 1]. */
  lemma UnitRatio(x: real, w: real)
    requires 0.0 <= x <= w && w > 0.0
    ensures 0.0 <= x / w <= 1.0
  {
    assert (x / w) * w == x;
  }

  function MinNat(a: nat, b: nat): (r: nat)
    ensures r <= a && r <= b && (r == a || r == b)
  {
    if a <= b then a else b
  }

  /** `n.saturating_sub(1)` for a length: the last index, or 0 when empty. */
  function LastIndex(n: nat): (r: nat)
    ensures n > 0 ==> r == n - 1
    ensures n == 0 ==> r == 0
  {
    if n == 0 then 0 else n - 1
  }

  const U64_MODULUS: nat := 0x1_0000_0000_0000_0000

  /** `x.wrapping_add(1)` on a u64 epoch or session counter. */
  function WrappingInc(x: nat): (r: nat)
    ensures r < U64_MODULUS
    ensures x + 1 < U64_MODULUS ==> r == x + 1
  {
    (x + 1) % U64_MODULUS
  }
}
