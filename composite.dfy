/**
 * The composite as a value: the decoded images stacked top to bottom in
 * input order, each left-aligned and padded on the right with opaque
 * white up to the composite width. This is the reference the in-place
 * compositing loop is proved against.
 */
module Composite {
  import opened Pixels
  import opened Geometry

  /** Image `img` widened to `w` columns by white pixels on the right. */
  function PadRight(img: RgbaImage, w: nat): (band: seq<seq<Rgba>>)
    requires img.width <= w
    ensures |band| == img.height
    ensures forall y, x :: 0 <= y < img.height && 0 <= x < w ==>
      |band[y]| == w && band[y][x] == if x < img.width then img.rows[y][x] else White
  {
    seq(img.height, (y: int) requires 0 <= y < img.height =>
      img.rows[y] + seq(w - img.width, _ => White))
  }

  /** Whether every image fits in `w` columns. */
  predicate FitsWidth(images: seq<RgbaImage>, w: nat) {
    forall i :: 0 <= i < |images| ==> images[i].width <= w
  }

  /** The padded bands of all images, concatenated in input order. */
  function Stack(images: seq<RgbaImage>, w: nat): (rows: seq<seq<Rgba>>)
    requires FitsWidth(images, w)
    ensures |rows| == TotalHeight(images)
    ensures forall y :: 0 <= y < |rows| ==> |rows[y]| == w
  {
    if images == [] then []
    else
      var n := |images| - 1;
      assert forall i :: 0 <= i < n ==> images[..n][i] == images[i];
      Stack(images[..n], w) + PadRight(images[n], w)
  }

  /**
   * Placement: pixel (x, y) of image i sits at row `BandStart(images, i) + y`
   * of the stack, all four channels unchanged; columns right of the image
   * are white.
   */
  lemma StackPixel(images: seq<RgbaImage>, w: nat, i: nat, y: nat, x: nat)
    requires FitsWidth(images, w)
    requires i < |images| && y < images[i].height && x < w
    ensures BandStart(images, i) + y < |Stack(images, w)|
    ensures Stack(images, w)[BandStart(images, i) + y][x] ==
      if x < images[i].width then images[i].rows[y][x] else White
  {
    StackRow(images, w, i, y);
  }

  /** Row y of image i's band is that image's row y, padded to `w` columns. */
  lemma {:induction false} StackRow(images: seq<RgbaImage>, w: nat, i: nat, y: nat)
    requires FitsWidth(images, w)
    requires i < |images| && y < images[i].height
    ensures BandStart(images, i) + y < |Stack(images, w)|
    ensures Stack(images, w)[BandStart(images, i) + y] == PadRight(images[i], w)[y]
  {
    var n := |images| - 1;
    var prefix := images[..n];
    if i == n {
      assert BandStart(images, i) == TotalHeight(prefix);
      StackLastBand(images, w, y);
    } else {
      BandStartOfPrefix(images, n, i);
      BandInsideCanvas(prefix, i);
      StackKeepsEarlierRows(images, w, BandStart(prefix, i) + y);
      assert prefix[i] == images[i];
      StackRow(prefix, w, i, y);
    }
  }

  /** Rows of the last band are the last image's padded rows. */
  lemma StackLastBand(images: seq<RgbaImage>, w: nat, y: nat)
    requires FitsWidth(images, w) && |images| > 0
    requires y < images[|images| - 1].height
    ensures TotalHeight(images[..|images| - 1]) + y < |Stack(images, w)|
    ensures Stack(images, w)[TotalHeight(images[..|images| - 1]) + y] ==
      PadRight(images[|images| - 1], w)[y]
  {
    var n := |images| - 1;
    assert forall k :: 0 <= k < n ==> images[..n][k] == images[k];
    var top, band := Stack(images[..n], w), PadRight(images[n], w);
    assert Stack(images, w) == top + band;
    assert (top + band)[|top| + y] == band[y];
  }

  /** Adding the last image's band leaves the rows above it unchanged. */
  lemma StackKeepsEarlierRows(images: seq<RgbaImage>, w: nat, r: nat)
    requires FitsWidth(images, w) && |images| > 0
    requires r < TotalHeight(images[..|images| - 1])
    ensures FitsWidth(images[..|images| - 1], w)
    ensures r < |Stack(images, w)|
    ensures Stack(images, w)[r] == Stack(images[..|images| - 1], w)[r]
  {
    var n := |images| - 1;
    assert forall k :: 0 <= k < n ==> images[..n][k] == images[k];
    var top, band := Stack(images[..n], w), PadRight(images[n], w);
    assert Stack(images, w) == top + band;
    assert (top + band)[r] == top[r];
  }

  /** Band i of the stack, all at once: its rows are image i padded with white. */
  lemma StackBand(images: seq<RgbaImage>, w: nat, i: nat)
    requires FitsWidth(images, w) && i < |images|
    ensures BandStart(images, i) + images[i].height <= |Stack(images, w)|
    ensures forall y, x :: BandStart(images, i) <= y < BandStart(images, i) + images[i].height && 0 <= x < w ==>
      Stack(images, w)[y][x] ==
        if x < images[i].width then images[i].rows[y - BandStart(images, i)][x] else White
  {
    BandInsideCanvas(images, i);
    forall y, x | BandStart(images, i) <= y < BandStart(images, i) + images[i].height && 0 <= x < w
      ensures Stack(images, w)[y][x] ==
        if x < images[i].width then images[i].rows[y - BandStart(images, i)][x] else White
    {
      StackPixel(images, w, i, y - BandStart(images, i), x);
    }
  }

  /** An image with the composite's geometry and the stack's pixels is the composite. */
  lemma ComposeFromPixels(images: seq<RgbaImage>, img: RgbaImage)
    requires |images| > 0 && TotalHeight(images) <= MaxU32
    requires img.width == MaxWidth(images) && img.height == TotalHeight(images)
    requires forall y, x :: 0 <= y < img.height && 0 <= x < img.width ==>
      img.rows[y][x] == Stack(images, MaxWidth(images))[y][x]
    ensures img == Compose(images)
  {
  }

  /** The composite image: maximum width, summed height, stacked bands. */
  function Compose(images: seq<RgbaImage>): (canvas: RgbaImage)
    requires |images| > 0 && TotalHeight(images) <= MaxU32
    ensures canvas.width == MaxWidth(images) && canvas.height == TotalHeight(images)
  {
    var w := MaxWidth(images);
    Raster(w, TotalHeight(images), Stack(images, w))
  }

  /** Image i's pixel (x, y) appears verbatim at (x, y + offset of band i) of the composite. */
  lemma ComposePlacement(images: seq<RgbaImage>, i: nat, y: nat, x: nat)
    requires |images| > 0 && TotalHeight(images) <= MaxU32
    requires i < |images| && y < images[i].height && x < images[i].width
    ensures BandStart(images, i) + y < Compose(images).height && x < Compose(images).width
    ensures Compose(images).rows[BandStart(images, i) + y][x] == images[i].rows[y][x]
  {
    StackPixel(images, MaxWidth(images), i, y, x);
  }

  /** Row y of the stack is the padded row of the image whose band owns y. */
  lemma StackRowOwner(images: seq<RgbaImage>, w: nat, y: nat, x: nat)
    requires FitsWidth(images, w) && y < TotalHeight(images) && x < w
    ensures
      var i := BandOf(images, y);
      Stack(images, w)[y][x] ==
        if x < images[i].width then images[i].rows[y - BandStart(images, i)][x] else White
  {
    StackBand(images, w, BandOf(images, y));
  }

  /**
   * Every composite pixel is determined by the band that owns its row: a
   * copy of that image's pixel when the column is within the image, opaque
   * white otherwise.
   */
  lemma ComposePixel(images: seq<RgbaImage>, y: nat, x: nat)
    requires |images| > 0 && TotalHeight(images) <= MaxU32
    requires y < Compose(images).height && x < Compose(images).width
    ensures
      var i := BandOf(images, y);
      Compose(images).rows[y][x] ==
        if x < images[i].width then images[i].rows[y - BandStart(images, i)][x] else White
  {
    StackRowOwner(images, MaxWidth(images), y, x);
  }

  /** Padding: a pixel right of the image owning its row stays opaque white. */
  lemma ComposePadding(images: seq<RgbaImage>, y: nat, x: nat)
    requires |images| > 0 && TotalHeight(images) <= MaxU32
    requires y < Compose(images).height && x < Compose(images).width
    requires x >= images[BandOf(images, y)].width
    ensures Compose(images).rows[y][x] == White
  {
    ComposePixel(images, y, x);
  }

  /**
   * Reordering the inputs may move the bands but leaves the composite's
   * width and height unchanged.
   */
  lemma ComposeDimensionsIgnoreOrder(a: seq<RgbaImage>, b: seq<RgbaImage>)
    requires |a| > 0 && TotalHeight(a) <= MaxU32 && multiset(a) == multiset(b)
    ensures |b| > 0 && TotalHeight(b) <= MaxU32
    ensures Compose(b).width == Compose(a).width && Compose(b).height == Compose(a).height
  {
    TotalHeightPermutation(a, b);
    MaxWidthPermutation(a, b);
  }
}
