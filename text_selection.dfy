// Text selection on a page: the selected character range, the per-page
// text caches, and the manager's start/update/end/clear state machine
// (src/text_selection.rs). Coordinates are PDF points over the reals.
module TextSelection {
  import opened Wrappers

  /** A character range on one page, always ordered start <= end. */
  datatype Selection = Selection(pageIndex: nat, startCharIndex: nat, endCharIndex: nat)
  {
    predicate Ordered() { startCharIndex <= endCharIndex }
  }

  /** `TextSelection::new`: the bounds are put in order. */
  function NewSelection(page: nat, a: nat, b: nat): (s: Selection)
    ensures s.Ordered() && s.pageIndex == page
    ensures {s.startCharIndex, s.endCharIndex} == {a, b}
  {
    if a <= b then Selection(page, a, b) else Selection(page, b, a)
  }

  lemma NewSelectionSymmetric(page: nat, a: nat, b: nat)
    ensures NewSelection(page, a, b) == NewSelection(page, b, a)
  {
  }

  predicate IsEmpty(s: Selection) { s.startCharIndex == s.endCharIndex }

  /** `char_count`: `end.saturating_sub(start)`. */
  function CharCount(s: Selection): (n: nat)
    ensures s.Ordered() ==> n == s.endCharIndex - s.startCharIndex
    ensures s.Ordered() ==> (n == 0 <==> IsEmpty(s))
  {
    if s.endCharIndex >= s.startCharIndex then s.endCharIndex - s.startCharIndex else 0
  }

  datatype CharInfo = CharInfo(charIndex: nat, text: string, left: real, top: real, right: real, bottom: real)

  datatype PageTextCache = PageTextCache(pageIndex: nat, chars: seq<CharInfo>, pageWidth: real, pageHeight: real)

  /** A rectangle as `(left, top, right, bottom)`. */
  datatype Bounds = Bounds(left: real, top: real, right: real, bottom: real)

  function Min(a: nat, b: nat): nat { if a <= b then a else b }

  /** `get_char_bounds`. */
  function CharBounds(cache: PageTextCache, i: nat): (r: Option<Bounds>)
    ensures r.Some? <==> i < |cache.chars|
    ensures r.Some? ==> r.value == Bounds(cache.chars[i].left, cache.chars[i].top, cache.chars[i].right, cache.chars[i].bottom)
  {
    if i < |cache.chars| then
      var c := cache.chars[i];
      Some(Bounds(c.left, c.top, c.right, c.bottom))
    else None
  }

  function Concat(cs: seq<CharInfo>): string
  {
    if cs == [] then [] else Concat(cs[..|cs| - 1]) + cs[|cs| - 1].text
  }

  lemma {:induction false} ConcatAppend(cs: seq<CharInfo>, ds: seq<CharInfo>)
    ensures Concat(cs + ds) == Concat(cs) + Concat(ds)
  {
    if ds == [] {
      assert cs + ds == cs;
    } else {
      assert (cs + ds)[..|cs + ds| - 1] == cs + ds[..|ds| - 1];
      ConcatAppend(cs, ds[..|ds| - 1]);
    }
  }

  /** `get_text`: the texts of the selected characters that the cache holds,
      joined in order. */
  function GetText(cache: PageTextCache, s: Selection): (t: string)
  {
    var n := |cache.chars|;
    var lo := Min(s.startCharIndex, n);
    var hi := Min(s.endCharIndex, n);
    if lo <= hi then Concat(cache.chars[lo..hi]) else []
  }

  lemma GetTextPastCache(cache: PageTextCache, s: Selection)
    requires s.startCharIndex >= |cache.chars|
    ensures GetText(cache, s) == []
  {
  }

  /** Each selected character's text, one after the other: selecting a
      range `[a, b)` then `[b, c)` gives the text of `[a, c)`. */
  lemma GetTextSplit(cache: PageTextCache, page: nat, a: nat, b: nat, c: nat)
    requires a <= b <= c <= |cache.chars|
    ensures GetText(cache, Selection(page, a, c))
         == GetText(cache, Selection(page, a, b)) + GetText(cache, Selection(page, b, c))
  {
    assert cache.chars[a..c] == cache.chars[a..b] + cache.chars[b..c];
    ConcatAppend(cache.chars[a..b], cache.chars[b..c]);
  }

  const LINE_TOLERANCE: real := 8.0

  function Abs(x: real): real { if x < 0.0 then -x else x }

  predicate SameLine(line: seq<CharInfo>, c: CharInfo)
  {
    |line| > 0 && Abs(line[0].bottom - c.bottom) < LINE_TOLERANCE
  }

  /** Adds `c` to the first line whose first character sits within the
      tolerance of `c`'s baseline, or opens a new line. */
  function AddToLines(lines: seq<seq<CharInfo>>, c: CharInfo): (r: seq<seq<CharInfo>>)
    ensures |r| == |lines| || |r| == |lines| + 1
  {
    if lines == [] then [[c]]
    else if SameLine(lines[0], c) then [lines[0] + [c]] + lines[1..]
    else [lines[0]] + AddToLines(lines[1..], c)
  }

  /** The line groups that `get_selection_bounds` builds from the selected
      characters, in order of first appearance. */
  function GroupLines(cs: seq<CharInfo>): seq<seq<CharInfo>>
  {
    if cs == [] then [] else AddToLines(GroupLines(cs[..|cs| - 1]), cs[|cs| - 1])
  }

  predicate AllNonEmpty(lines: seq<seq<CharInfo>>)
  {
    forall i :: 0 <= i < |lines| ==> |lines[i]| > 0
  }

  lemma {:induction false} AddToLinesNonEmpty(lines: seq<seq<CharInfo>>, c: CharInfo)
    requires AllNonEmpty(lines)
    ensures AllNonEmpty(AddToLines(lines, c))
  {
    if lines != [] && !SameLine(lines[0], c) {
      AddToLinesNonEmpty(lines[1..], c);
    }
  }

  lemma {:induction false} GroupLinesShape(cs: seq<CharInfo>)
    ensures AllNonEmpty(GroupLines(cs))
    ensures |GroupLines(cs)| <= |cs|
    ensures cs != [] ==> |GroupLines(cs)| > 0
  {
    if cs != [] {
      GroupLinesShape(cs[..|cs| - 1]);
      AddToLinesNonEmpty(GroupLines(cs[..|cs| - 1]), cs[|cs| - 1]);
    }
  }

  function MinLeft(line: seq<CharInfo>): real
    requires |line| > 0
  {
    if |line| == 1 then line[0].left
    else var m := MinLeft(line[1..]); if line[0].left <= m then line[0].left else m
  }

  function MaxRight(line: seq<CharInfo>): real
    requires |line| > 0
  {
    if |line| == 1 then line[0].right
    else var m := MaxRight(line[1..]); if line[0].right >= m then line[0].right else m
  }

  function MinBottom(line: seq<CharInfo>): real
    requires |line| > 0
  {
    if |line| == 1 then line[0].bottom
    else var m := MinBottom(line[1..]); if line[0].bottom <= m then line[0].bottom else m
  }

  function MaxTop(line: seq<CharInfo>): real
    requires |line| > 0
  {
    if |line| == 1 then line[0].top
    else var m := MaxTop(line[1..]); if line[0].top >= m then line[0].top else m
  }

  /** The bounding box of one line, `(min left, max top, max right, min bottom)`. */
  function LineBox(line: seq<CharInfo>): (b: Bounds)
    requires |line| > 0
  {
    Bounds(MinLeft(line), MaxTop(line), MaxRight(line), MinBottom(line))
  }

  lemma {:induction false} LineBoxEncloses(line: seq<CharInfo>, i: nat)
    requires i < |line|
    ensures MinLeft(line) <= line[i].left && line[i].right <= MaxRight(line)
    ensures MinBottom(line) <= line[i].bottom && line[i].top <= MaxTop(line)
  {
    if i > 0 {
      LineBoxEncloses(line[1..], i - 1);
    }
  }

  function Boxes(lines: seq<seq<CharInfo>>): (bs: seq<Bounds>)
    requires AllNonEmpty(lines)
    ensures |bs| == |lines|
    ensures forall i :: 0 <= i < |lines| ==> bs[i] == LineBox(lines[i])
  {
    if lines == [] then [] else [LineBox(lines[0])] + Boxes(lines[1..])
  }

  function SelectedChars(cache: PageTextCache, s: Selection): seq<CharInfo>
  {
    var n := |cache.chars|;
    var lo := Min(s.startCharIndex, n);
    var hi := Min(s.endCharIndex, n);
    if lo < hi then cache.chars[lo..hi] else []
  }

  /** What `get_selection_bounds` returns: one box per line group. */
  function SelectionBounds(cache: PageTextCache, s: Selection): seq<Bounds>
  {
    var cs := SelectedChars(cache, s);
    GroupLinesShape(cs);
    Boxes(GroupLines(cs))
  }

  /** No boxes for an empty clamped range, otherwise at least one and never
      more than the number of characters selected. */
  lemma SelectionBoundsCount(cache: PageTextCache, s: Selection)
    ensures var lo := Min(s.startCharIndex, |cache.chars|);
            var hi := Min(s.endCharIndex, |cache.chars|);
            (lo >= hi ==> SelectionBounds(cache, s) == [])
            && (lo < hi ==> 0 < |SelectionBounds(cache, s)| <= hi - lo)
  {
    GroupLinesShape(SelectedChars(cache, s));
  }

  /** `PageTextCache::get_selection_bounds`: groups the selected characters
      into lines, then takes each line's bounding box. */
  method GetSelectionBounds(cache: PageTextCache, s: Selection) returns (bounds: seq<Bounds>)
    ensures bounds == SelectionBounds(cache, s)
  {
    var n := |cache.chars|;
    var lo := Min(s.startCharIndex, n);
    var hi := Min(s.endCharIndex, n);
    if lo >= hi {
      return [];
    }
    var lines: seq<seq<CharInfo>> := [];
    for i := lo to hi
      invariant lines == GroupLines(cache.chars[lo..i])
    {
      assert cache.chars[lo..i + 1][..i - lo] == cache.chars[lo..i];
      lines := AddToLines(lines, cache.chars[i]);
    }
    assert cache.chars[lo..hi] == SelectedChars(cache, s);
    GroupLinesShape(cache.chars[lo..hi]);
    bounds := [];
    for k := 0 to |lines|
      invariant |bounds| == k
      invariant forall j :: 0 <= j < k ==> bounds[j] == LineBox(lines[j])
    {
      bounds := bounds + [LineBox(lines[k])];
    }
  }

  /** `TextSelectionManager`: the page text caches, the current selection
      and the drag anchor. */
  class Manager {
    var caches: map<nat, PageTextCache>
    var currentSelection: Option<Selection>
    var isSelecting: bool
    var selectionStart: Option<(nat, nat)>

    /** Cached pages are stored under their own index; a drag in progress
        has an anchor; the anchor is an end of the current selection, on
        its page. */
    ghost predicate Valid()
      reads this
    {
      && (forall p :: p in caches ==> caches[p].pageIndex == p)
      && (isSelecting ==> selectionStart.Some?)
      && (currentSelection.Some? ==> currentSelection.value.Ordered())
      && (selectionStart.Some? ==>
            && currentSelection.Some?
            && currentSelection.value.pageIndex == selectionStart.value.0
            && selectionStart.value.1 in {currentSelection.value.startCharIndex, currentSelection.value.endCharIndex})
    }

    constructor ()
      ensures Valid()
      ensures caches == map[] && currentSelection == None && !isSelecting && selectionStart == None
    {
      caches := map[];
      currentSelection := None;
      isSelecting := false;
      selectionStart := None;
    }

    /** `get_page_cache`. */
    function GetPageCache(page: nat): (r: Option<PageTextCache>)
      reads this
      ensures r.Some? <==> page in caches
      ensures r.Some? ==> r.value == caches[page]
    {
      if page in caches then Some(caches[page]) else None
    }

    /** `start_selection`: begins a drag at `(page, char)` with an empty range there. */
    method StartSelection(page: nat, ch: nat)
      requires Valid()
      modifies this
      ensures Valid()
      ensures isSelecting && selectionStart == Some((page, ch))
      ensures currentSelection == Some(Selection(page, ch, ch))
      ensures caches == old(caches)
    {
      isSelecting := true;
      selectionStart := Some((page, ch));
      currentSelection := Some(NewSelection(page, ch, ch));
    }

    /** `update_selection`: spans anchor to `char` when `page` is the
        anchor's page; any other page, or no anchor, changes nothing. */
    method UpdateSelection(page: nat, ch: nat)
      requires Valid()
      modifies this
      ensures Valid()
      ensures old(selectionStart).Some? && old(selectionStart).value.0 == page
              ==> currentSelection == Some(NewSelection(page, old(selectionStart).value.1, ch))
      ensures !(old(selectionStart).Some? && old(selectionStart).value.0 == page)
              ==> currentSelection == old(currentSelection)
      ensures isSelecting == old(isSelecting) && selectionStart == old(selectionStart) && caches == old(caches)
    {
      if selectionStart.Some? {
        var (startPage, startChar) := selectionStart.value;
        if startPage == page {
          currentSelection := Some(NewSelection(page, startChar, ch));
        }
      }
    }

    /** `end_selection`: the drag stops, the selection stays. */
    method EndSelection()
      requires Valid()
      modifies this
      ensures Valid()
      ensures !isSelecting
      ensures currentSelection == old(currentSelection) && selectionStart == old(selectionStart)
      ensures caches == old(caches)
    {
      isSelecting := false;
    }

    /** `clear_selection`. */
    method ClearSelection()
      requires Valid()
      modifies this
      ensures Valid()
      ensures currentSelection == None && selectionStart == None && !isSelecting
      ensures caches == old(caches)
    {
      currentSelection := None;
      selectionStart := None;
      isSelecting := false;
    }

    /** `get_selected_text`: None without a selection, without a cache for
        its page, or when the selected text is empty. */
    function GetSelectedText(): (r: Option<string>)
      reads this
      ensures r.Some? <==> (currentSelection.Some? && currentSelection.value.pageIndex in caches
                            && GetText(caches[currentSelection.value.pageIndex], currentSelection.value) != [])
      ensures r.Some? ==> r.value == GetText(caches[currentSelection.value.pageIndex], currentSelection.value)
    {
      if currentSelection.None? then None
      else
        match GetPageCache(currentSelection.value.pageIndex)
        case None => None
        case Some(cache) =>
          var text := GetText(cache, currentSelection.value);
          if text == [] then None else Some(text)
    }

    /** `get_selection_rects(page)`: the selection's boxes when it lies on
        `page` and that page is cached. */
    function GetSelectionRects(page: nat): (r: Option<seq<Bounds>>)
      reads this
      ensures r.Some? <==> currentSelection.Some? && currentSelection.value.pageIndex == page && page in caches
      ensures r.Some? ==> r.value == SelectionBounds(caches[page], currentSelection.value)
    {
      if currentSelection.None? || currentSelection.value.pageIndex != page then None
      else
        match GetPageCache(page)
        case None => None
        case Some(cache) => Some(SelectionBounds(cache, currentSelection.value))
    }

    /** `clear_cache`. */
    method ClearCache()
      requires Valid()
      modifies this
      ensures Valid()
      ensures caches == map[]
      ensures currentSelection == old(currentSelection) && selectionStart == old(selectionStart)
      ensures isSelecting == old(isSelecting)
    {
      caches := map[];
    }

    /** `load_cached_text`: inserts or replaces the page's cache. */
    method LoadCachedText(page: nat, width: real, height: real, chars: seq<CharInfo>)
      requires Valid()
      modifies this
      ensures Valid()
      ensures caches == old(caches)[page := PageTextCache(page, chars, width, height)]
      ensures GetPageCache(page) == Some(PageTextCache(page, chars, width, height))
      ensures currentSelection == old(currentSelection) && selectionStart == old(selectionStart)
      ensures isSelecting == old(isSelecting)
    {
      caches := caches[page := PageTextCache(page, chars, width, height)];
    }
  }
}
