// The byte-level and index-level parts of rendering in src/utils.rs:
// `rgba_to_bgra` and the checks of `bitmap_to_gpui_render_image` on a
// rendered bitmap's bytes, and the order and range filtering of
// `load_display_images`. Pdfium itself (opening documents, rendering a
// page) is a parameter: the bytes it produced, or the outcome of rendering
// one page.
module RenderUtils {
  import opened Wrappers
  import opened Bytes
  import SeqFilter

  // ---------------------------------------------------------------------
  // Pixel bytes

  /** The length of the whole 4-byte pixels at the start of `n` bytes
      (`chunks_exact(4)` leaves the rest alone). */
  function WholePixels(n: nat): (r: nat)
    ensures r <= n && r % 4 == 0 && n - r < 4
  {
    n / 4 * 4
  }

  /** Byte `i` after swapping bytes 0 and 2 of every whole pixel. */
  function SwappedAt(s: seq<byte>, i: nat): byte
    requires i < |s|
  {
    if i < WholePixels(|s|) && i % 4 == 0 then s[i + 2]
    else if i < WholePixels(|s|) && i % 4 == 2 then s[i - 2]
    else s[i]
  }

  /** RGBA to BGRA, pixel by pixel. */
  function SwapRedBlue(s: seq<byte>): (r: seq<byte>)
    ensures |r| == |s|
    ensures forall i :: 0 <= i < |s| ==> r[i] == SwappedAt(s, i)
  {
    if |s| < 4 then s
    else
      var rest := SwapRedBlue(s[4..]);
      var r := [s[2], s[1], s[0], s[3]] + rest;
      PixelsShift(s);
      assert forall i :: 4 <= i < |s| ==> r[i] == rest[i - 4];
      r
  }

  /** Past the first pixel, a byte's fate is that of the same byte in the
      bytes after the first pixel. */
  lemma PixelsShift(s: seq<byte>)
    requires |s| >= 4
    ensures WholePixels(|s|) == WholePixels(|s| - 4) + 4
    ensures forall i :: 4 <= i < |s| ==> SwappedAt(s, i) == SwappedAt(s[4..], i - 4)
    ensures forall i :: 4 <= i < |s| ==> OpaqueAt(s, i) == OpaqueAt(s[4..], i - 4)
  {
    assert WholePixels(|s|) == WholePixels(|s| - 4) + 4;
    forall i | 4 <= i < |s|
      ensures SwappedAt(s, i) == SwappedAt(s[4..], i - 4)
      ensures OpaqueAt(s, i) == OpaqueAt(s[4..], i - 4)
    {
      assert i % 4 == (i - 4) % 4;
    }
  }

  /** Swapping twice gives the bytes back. */
  lemma SwapRedBlueInvolution(s: seq<byte>)
    ensures SwapRedBlue(SwapRedBlue(s)) == s
  {
    var r := SwapRedBlue(s);
    var rr := SwapRedBlue(r);
    assert forall i :: 0 <= i < |s| ==> rr[i] == SwappedAt(r, i);
  }

  /** `rgba_to_bgra`, in place. */
  method RgbaToBgra(a: array<byte>)
    modifies a
    ensures a[..] == SwapRedBlue(old(a[..]))
  {
    ghost var s := a[..];
    var whole := a.Length / 4 * 4;
    var i := 0;
    while i < whole
      invariant 0 <= i <= whole && i % 4 == 0
      invariant whole == WholePixels(|s|)
      invariant forall k :: 0 <= k < i ==> a[k] == SwappedAt(s, k)
      invariant forall k :: i <= k < a.Length ==> a[k] == s[k]
    {
      a[i], a[i + 2] := a[i + 2], a[i];
      i := i + 4;
    }
    assert forall k :: 0 <= k < a.Length ==> a[k] == SwappedAt(s, k);
  }

  /** Byte `i` after setting the alpha byte of every whole pixel to 255. */
  function OpaqueAt(s: seq<byte>, i: nat): byte
    requires i < |s|
  {
    if i < WholePixels(|s|) && i % 4 == 3 then 255 else s[i]
  }

  /** Every whole pixel made fully opaque. */
  function Opaque(s: seq<byte>): (r: seq<byte>)
    ensures |r| == |s|
    ensures forall i :: 0 <= i < |s| ==> r[i] == OpaqueAt(s, i)
  {
    if |s| < 4 then s
    else
      var rest := Opaque(s[4..]);
      var r := [s[0], s[1], s[2], 255] + rest;
      PixelsShift(s);
      assert forall i :: 4 <= i < |s| ==> r[i] == rest[i - 4];
      r
  }

  /** The alpha loop of `bitmap_to_gpui_render_image`, in place. */
  method ForceOpaque(a: array<byte>)
    modifies a
    ensures a[..] == Opaque(old(a[..]))
  {
    ghost var s := a[..];
    var whole := a.Length / 4 * 4;
    var i := 0;
    while i < whole
      invariant 0 <= i <= whole && i % 4 == 0
      invariant whole == WholePixels(|s|)
      invariant forall k :: 0 <= k < i ==> a[k] == OpaqueAt(s, k)
      invariant forall k :: i <= k < a.Length ==> a[k] == s[k]
    {
      a[i + 3] := 255;
      i := i + 4;
    }
    assert forall k :: 0 <= k < a.Length ==> a[k] == OpaqueAt(s, k);
  }

  // ---------------------------------------------------------------------
  // Rendered bitmaps

  /** Pdfium's pixel formats; the ones `bitmap_to_gpui_render_image`
      passes through unconverted are listed, the rest are `OtherFormat`. */
  datatype BitmapFormat = BGRA | BGRx | BRGx | OtherFormat

  predicate IsNativeFormat(f: BitmapFormat)
  {
    f == BGRA || f == BGRx || f == BRGx
  }

  /** The formats with an unused fourth byte. */
  predicate HasNoAlpha(f: BitmapFormat)
  {
    f == BGRx || f == BRGx
  }

  /** The bytes `bitmap_to_gpui_render_image` hands to the image buffer:
      the raw bytes of a native format, else the RGBA bytes converted; when
      the length is not width x height x 4 the converted RGBA bytes are
      tried instead, and an error is given when those do not fit either.
      A format without alpha has every pixel made opaque. `rawBytes` and
      `rgbaBytes` are the bitmap's two byte views; a missing format is
      read as BGRA. */
  function BitmapBytes(width: nat, height: nat, format: Option<BitmapFormat>, rawBytes: seq<byte>, rgbaBytes: seq<byte>): (r: Result<seq<byte>>)
    ensures var f := if format.Some? then format.value else BGRA;
      var first := if IsNativeFormat(f) then rawBytes else rgbaBytes;
      r.Ok? <==> width > 0 && height > 0 && (|first| == width * height * 4 || |rgbaBytes| == width * height * 4)
    ensures r.Ok? ==> |r.value| == width * height * 4
    ensures r.Ok? && format.Some? && HasNoAlpha(format.value) ==>
      forall i :: 0 <= i < |r.value| && i % 4 == 3 ==> r.value[i] == 255
  {
    if width == 0 || height == 0 then Err("invalid bitmap size")
    else
      var f := if format.Some? then format.value else BGRA;
      var first := if IsNativeFormat(f) then rawBytes else SwapRedBlue(rgbaBytes);
      var expected := width * height * 4;
      var bytes := if |first| == expected then first else SwapRedBlue(rgbaBytes);
      if |bytes| != expected then Err("unexpected bitmap length")
      else if HasNoAlpha(f) then
        assert WholePixels(|bytes|) == |bytes|;
        Ok(Opaque(bytes))
      else Ok(bytes)
  }

  /** A BGRA bitmap of the right length is passed through unchanged; an
      RGBA one has red and blue swapped in every pixel. */
  lemma BitmapBytesOfWellSized(width: nat, height: nat, rawBytes: seq<byte>, rgbaBytes: seq<byte>)
    requires width > 0 && height > 0
    ensures |rawBytes| == width * height * 4 ==> BitmapBytes(width, height, Some(BGRA), rawBytes, rgbaBytes) == Ok(rawBytes)
    ensures |rgbaBytes| == width * height * 4 ==>
      BitmapBytes(width, height, Some(OtherFormat), rawBytes, rgbaBytes) == Ok(SwapRedBlue(rgbaBytes))
  {
  }

  /** `bitmap_to_gpui_render_image` on the bitmap's bytes, converting and
      forcing alpha in place in the buffer. */
  method BitmapToImageBytes(width: nat, height: nat, format: Option<BitmapFormat>, rawBytes: seq<byte>, rgbaBytes: seq<byte>)
    returns (r: Result<seq<byte>>)
    ensures r == BitmapBytes(width, height, format, rawBytes, rgbaBytes)
  {
    if width == 0 || height == 0 {
      return Err("invalid bitmap size");
    }
    var f := if format.Some? then format.value else BGRA;
    var bytes: array<byte>;
    if IsNativeFormat(f) {
      bytes := new byte[|rawBytes|](i requires 0 <= i < |rawBytes| => rawBytes[i]);
      assert bytes[..] == rawBytes;
    } else {
      bytes := new byte[|rgbaBytes|](i requires 0 <= i < |rgbaBytes| => rgbaBytes[i]);
      assert bytes[..] == rgbaBytes;
      RgbaToBgra(bytes);
    }
    var expected := width * height * 4;
    if bytes.Length != expected {
      bytes := new byte[|rgbaBytes|](i requires 0 <= i < |rgbaBytes| => rgbaBytes[i]);
      assert bytes[..] == rgbaBytes;
      RgbaToBgra(bytes);
      if bytes.Length != expected {
        return Err("unexpected bitmap length");
      }
    }
    if HasNoAlpha(f) {
      ForceOpaque(bytes);
    }
    r := Ok(bytes[..]);
  }

  // ---------------------------------------------------------------------
  // Page requests

  const U16_MAX: nat := 65535

  /** The distinct elements of `s` in the order of their first occurrence
      (the `seen.insert` filter). */
  function FirstOccurrences(s: seq<nat>): (r: seq<nat>)
    ensures forall x :: x in r <==> x in s
    ensures forall i, j :: 0 <= i < j < |r| ==> r[i] != r[j]
  {
    if s == [] then []
    else
      var d := FirstOccurrences(s[..|s| - 1]);
      var x := s[|s| - 1];
      assert s == s[..|s| - 1] + [x];
      if x in d then d else d + [x]
  }

  /** The first position of `x` in `s`. */
  function FirstIndex(s: seq<nat>, x: nat): (k: nat)
    requires x in s
    ensures k < |s| && s[k] == x && x !in s[..k]
  {
    if s[0] == x then 0
    else
      var k := FirstIndex(s[1..], x);
      assert s[..k + 1] == [s[0]] + s[1..][..k];
      k + 1
  }

  /** The first position of an element does not change when more are
      appended. */
  lemma FirstIndexOfPrefix(s: seq<nat>, n: nat, x: nat)
    requires n <= |s| && x in s[..n]
    ensures FirstIndex(s, x) == FirstIndex(s[..n], x)
  {
    var k := FirstIndex(s[..n], x);
    assert s[..n][..k] == s[..k];
  }

  /** The elements keep the order in which each first occurs. */
  lemma {:induction false} FirstOccurrencesInOrder(s: seq<nat>)
    ensures IncreasingBy(FirstOccurrences(s), FirstIndexIn(s))
  {
    if s != [] {
      var p := s[..|s| - 1];
      FirstOccurrencesInOrder(p);
      var d := FirstOccurrences(p);
      var x := s[|s| - 1];
      assert s == p + [x];
      assert p == s[..|s| - 1];
      forall y | y in d
        ensures FirstIndex(s, y) == FirstIndex(p, y) < |s| - 1
      {
        FirstIndexOfPrefix(s, |s| - 1, y);
      }
      if x !in d {
        assert x !in p;
        assert FirstIndex(s, x) == |s| - 1 by {
          var k := FirstIndex(s, x);
          assert s[..|s| - 1] == p;
        }
      }
    }
  }

  /** The `seen` filter of `load_display_images`. */
  method DistinctRequests(pageIndices: seq<nat>) returns (requested: seq<nat>)
    ensures requested == FirstOccurrences(pageIndices)
  {
    var seen: set<nat> := {};
    requested := [];
    var i := 0;
    while i < |pageIndices|
      invariant 0 <= i <= |pageIndices|
      invariant requested == FirstOccurrences(pageIndices[..i])
      invariant forall x :: x in seen <==> x in pageIndices[..i]
    {
      var ix := pageIndices[i];
      assert pageIndices[..i + 1][..i] == pageIndices[..i];
      if ix !in seen {
        seen := seen + {ix};
        requested := requested + [ix];
      }
      i := i + 1;
    }
    assert pageIndices[..i] == pageIndices;
  }

  /** A requested page `load_display_images` tries to render. */
  predicate Renderable(ix: nat, totalPages: nat)
  {
    ix < totalPages && ix <= U16_MAX
  }

  /** The requested pages that yield an image. */
  function Renders<Image>(totalPages: nat, render: nat -> Option<Image>): nat -> bool
  {
    (x: nat) => Renderable(x, totalPages) && render(x).Some?
  }

  /** Page numbers of a list of results. */
  function PagesOf<Image>(images: seq<(nat, Image)>): (r: seq<nat>)
    ensures |r| == |images| && forall k :: 0 <= k < |images| ==> r[k] == images[k].0
  {
    seq(|images|, k requires 0 <= k < |images| => images[k].0)
  }

  /** The images of the renderable pages among `requested` that render,
      in the order requested. */
  function RenderedPages<Image>(requested: seq<nat>, totalPages: nat, render: nat -> Option<Image>): (r: seq<(nat, Image)>)
    ensures PagesOf(r) == SeqFilter.Retain(requested, Renders(totalPages, render))
    ensures forall k :: 0 <= k < |r| ==> render(r[k].0) == Some(r[k].1)
  {
    if requested == [] then []
    else
      var rest := RenderedPages(requested[..|requested| - 1], totalPages, render);
      var ix := requested[|requested| - 1];
      if Renderable(ix, totalPages) && render(ix).Some? then
        var r := rest + [(ix, render(ix).value)];
        assert PagesOf(r) == PagesOf(rest) + [ix];
        r
      else rest
  }

  /** One more requested page adds its image when it is in range and
      renders, and nothing otherwise. */
  lemma RenderedPagesStep<Image>(requested: seq<nat>, i: nat, totalPages: nat, render: nat -> Option<Image>)
    requires i < |requested|
    ensures RenderedPages(requested[..i + 1], totalPages, render) ==
      RenderedPages(requested[..i], totalPages, render) +
        (if Renderable(requested[i], totalPages) && render(requested[i]).Some?
         then [(requested[i], render(requested[i]).value)] else [])
  {
    assert requested[..i + 1][..i] == requested[..i];
  }

  /** The pages of `load_display_images`' result: each distinct requested
      page that is in range and renders, exactly once, in the order of its
      first request. */
  lemma DisplayImagesPages<Image>(pageIndices: seq<nat>, totalPages: nat, render: nat -> Option<Image>)
    ensures var pages := PagesOf(RenderedPages(FirstOccurrences(pageIndices), totalPages, render));
      && (forall x :: x in pages <==> x in pageIndices && Renderable(x, totalPages) && render(x).Some?)
      && (forall i, j :: 0 <= i < j < |pages| ==> pages[i] != pages[j])
      && IncreasingBy(pages, FirstIndexIn(pageIndices))
  {
    var requested := FirstOccurrences(pageIndices);
    var keep := Renders(totalPages, render);
    SeqFilter.RetainUniqueBy(requested, keep, (x: nat) => x);
    FirstOccurrencesInOrder(pageIndices);
    RetainKeepsOrder(requested, keep, FirstIndexIn(pageIndices));
  }

  /** The first position in `s` of an element of `s`. */
  function FirstIndexIn(s: seq<nat>): nat -> nat
  {
    (x: nat) => if x in s then FirstIndex(s, x) else 0
  }

  /** `s` is strictly increasing by `key`. */
  predicate IncreasingBy(s: seq<nat>, key: nat -> nat)
  {
    forall i, j :: 0 <= i < j < |s| ==> key(s[i]) < key(s[j])
  }

  /** Retaining keeps any strict order by a key. */
  lemma {:induction false} RetainKeepsOrder(s: seq<nat>, keep: nat -> bool, key: nat -> nat)
    requires IncreasingBy(s, key)
    ensures IncreasingBy(SeqFilter.Retain(s, keep), key)
  {
    if s != [] {
      var init := s[..|s| - 1];
      RetainKeepsOrder(init, keep, key);
      var r := SeqFilter.Retain(init, keep);
      var last := s[|s| - 1];
      forall i | 0 <= i < |r|
        ensures key(r[i]) < key(last)
      {
        assert r[i] in init;
        var k :| 0 <= k < |init| && init[k] == r[i];
        assert s[k] == r[i];
      }
      if keep(last) {
        var r2 := r + [last];
        assert SeqFilter.Retain(s, keep) == r2;
        forall i, j | 0 <= i < j < |r2|
          ensures key(r2[i]) < key(r2[j])
        {
          assert r2[i] == r[i];
          if j < |r| {
            assert r2[j] == r[j];
          } else {
            assert r2[j] == last;
          }
        }
      } else {
        assert SeqFilter.Retain(s, keep) == r;
      }
    }
  }

  /** `load_display_images` with Pdfium's work given as `render` (None
      for a page whose lookup, rendering or conversion fails): nothing for
      an empty request; otherwise each distinct requested page in the
      order of its first request, out-of-range pages skipped. */
  method LoadDisplayImages<Image>(pageIndices: seq<nat>, totalPages: nat, render: nat -> Option<Image>)
    returns (images: seq<(nat, Image)>)
    ensures images == RenderedPages(FirstOccurrences(pageIndices), totalPages, render)
  {
    if |pageIndices| == 0 {
      return [];
    }
    var requested := DistinctRequests(pageIndices);
    images := [];
    var i := 0;
    while i < |requested|
      invariant 0 <= i <= |requested|
      invariant images == RenderedPages(requested[..i], totalPages, render)
    {
      var ix := requested[i];
      RenderedPagesStep(requested, i, totalPages, render);
      if Renderable(ix, totalPages) {
        match render(ix)
        case Some(image) =>
          images := images + [(ix, image)];
        case None =>
      }
      i := i + 1;
    }
    assert requested[..i] == requested;
  }
}
