// The index handling of `load_preview_images` in src/pdf/utils.rs: the
// requested pages sorted, de-duplicated, and rendered in ascending order
// with out-of-range pages skipped. Pdfium's work on one page is the
// parameter `render`, as in module RenderUtils; `display_file_name`,
// `media_box_from_array` and `resolve_page_size` of the same file are
// modules Paths and PageSize.
module PreviewUtils {
  import opened Wrappers
  import SeqFilter
  import RenderUtils
  import opened Sorting

  /** The pages `load_preview_images` renders, in rendering order: the
      requested ones sorted with duplicates removed. */
  function PreviewRequests(pageIndices: seq<nat>): (r: seq<nat>)
    ensures StrictlyAscending(r)
    ensures forall x :: x in r <==> x in pageIndices
  {
    var sorted := SortAscending(pageIndices);
    assert forall x :: x in sorted <==> x in multiset(sorted);
    DedupAscending(sorted);
    DedupAdjacent(sorted)
  }

  /** `load_preview_images` with Pdfium's work given as `render`: nothing
      for an empty request; otherwise the distinct requested pages in
      ascending order, out-of-range pages and failed renders skipped. */
  method LoadPreviewImages<Image>(pageIndices: seq<nat>, totalPages: nat, render: nat -> Option<Image>)
    returns (images: seq<(nat, Image)>)
    ensures images == RenderUtils.RenderedPages(PreviewRequests(pageIndices), totalPages, render)
  {
    if |pageIndices| == 0 {
      return [];
    }
    var requested := SortAscending(pageIndices);
    requested := Dedup(requested);
    images := [];
    var i := 0;
    while i < |requested|
      invariant 0 <= i <= |requested|
      invariant images == RenderUtils.RenderedPages(requested[..i], totalPages, render)
    {
      var ix := requested[i];
      RenderUtils.RenderedPagesStep(requested, i, totalPages, render);
      if RenderUtils.Renderable(ix, totalPages) {
        match render(ix)
        case Some(image) =>
          images := images + [(ix, image)];
        case None =>
      }
      i := i + 1;
    }
    assert requested[..i] == requested;
  }

  /** The previews: each requested page that is in range and renders,
      once, in ascending page order. */
  lemma PreviewPages<Image>(pageIndices: seq<nat>, totalPages: nat, render: nat -> Option<Image>)
    ensures var pages := RenderUtils.PagesOf(RenderUtils.RenderedPages(PreviewRequests(pageIndices), totalPages, render));
      && (forall x :: x in pages <==> x in pageIndices && RenderUtils.Renderable(x, totalPages) && render(x).Some?)
      && StrictlyAscending(pages)
  {
    var requested := PreviewRequests(pageIndices);
    RenderUtils.RetainKeepsOrder(requested, RenderUtils.Renders(totalPages, render), (x: nat) => x);
  }
}
