/**
 * `merge_images_vertically`: decode every blob, stack the decoded images
 * top to bottom in input order on a white canvas as wide as the widest
 * image, drop the alpha channel and encode the result as JPEG once.
 */
module Merge {
  import opened Pixels
  import opened Decoding
  import opened Geometry
  import opened Composite
  import opened Canvas

  /**
   * What one call of the JPEG encoder leaves behind: the bytes it wrote to
   * the output vector and whether `encode_image` returned `Ok`.
   */
  datatype EncoderRun = EncoderRun(written: seq<byte>, succeeded: bool)

  /** The encoder's outcome as the public result: its bytes on success, absence on error. */
  function EncodeOutcome(run: EncoderRun): (result: Option<seq<byte>>)
    ensures result.Some? <==> run.succeeded
    ensures result.Some? ==> result.value == run.written
  {
    if run.succeeded then Some(run.written) else None
  }

  /**
   * The result of merging `blobs`: absent for an empty batch or when no
   * blob decodes, otherwise what the encoder makes of the RGB form of the
   * composite. `decode` stands for loading a blob and converting it to RGBA,
   * `encode` for one run of the JPEG encoder at its default settings.
   */
  function Merged(blobs: seq<Blob>, decode: Blob -> Option<RgbaImage>, encode: RgbImage -> EncoderRun)
    : (result: Option<seq<byte>>)
    requires TotalHeight(DecodeAll(blobs, decode)) <= MaxU32
    ensures blobs == [] ==> result == None
    ensures (forall j :: 0 <= j < |blobs| ==> decode(blobs[j]).None?) ==> result == None
  {
    DecodeAllEmptyIff(blobs, decode);
    if blobs == [] then None
    else
      var images := DecodeAll(blobs, decode);
      if images == [] then None
      else EncodeOutcome(encode(DropAlpha(Compose(images))))
  }

  /**
   * One pass of the compositing loop: copies every pixel (x, y) of `img`,
   * row by row, to (x, y + offset) of the canvas. Pixels outside that
   * rectangle keep their previous value.
   */
  method CopyIntoBand(merged: ImageBuffer, img: RgbaImage, offset: nat)
    requires merged.Valid()
    requires img.width <= merged.width && offset + img.height <= merged.height
    modifies merged.pixels
    ensures forall x, y :: 0 <= x < merged.width && 0 <= y < merged.height ==>
      merged.pixels[x, y] ==
        if offset <= y < offset + img.height && x < img.width then img.rows[y - offset][x]
        else old(merged.pixels[x, y])
  {
    for y := 0 to img.height
      invariant forall px, py :: 0 <= px < merged.width && 0 <= py < merged.height ==>
        merged.pixels[px, py] ==
          if offset <= py < offset + y && px < img.width then img.rows[py - offset][px]
          else old(merged.pixels[px, py])
    {
      for x := 0 to img.width
        invariant forall px, py :: 0 <= px < merged.width && 0 <= py < merged.height ==>
          merged.pixels[px, py] ==
            if (offset <= py < offset + y || (py == offset + y && px < x)) && px < img.width
            then img.rows[py - offset][px]
            else old(merged.pixels[px, py])
      {
        merged.PutPixel(x, y + offset, img.rows[y][x]);
      }
    }
  }

  /**
   * One iteration of the compositing loop: the canvas holds the stack above
   * `offset` and white below it; copying image i at `offset` extends the
   * stacked part by that image's band.
   */
  method PlaceBand(merged: ImageBuffer, images: seq<RgbaImage>, i: nat, offset: nat)
    requires merged.Valid() && i < |images|
    requires merged.width == MaxWidth(images) && merged.height == TotalHeight(images)
    requires offset == BandStart(images, i)
    requires forall x, y :: 0 <= x < merged.width && 0 <= y < merged.height ==>
      merged.pixels[x, y] == if y < offset then Stack(images, merged.width)[y][x] else White
    modifies merged.pixels
    ensures forall x, y :: 0 <= x < merged.width && 0 <= y < merged.height ==>
      merged.pixels[x, y] ==
        if y < offset + images[i].height then Stack(images, merged.width)[y][x] else White
  {
    BandInsideCanvas(images, i);
    CopyIntoBand(merged, images[i], offset);
    StackBand(images, merged.width, i);
  }

  /**
   * Steps 4 to 6 of the operation: a canvas as wide as the widest image and
   * as tall as all images together is filled with opaque white, then each
   * image is copied into its band, in input order, while the row offset
   * advances by the image's height. The canvas ends up holding the composite.
   */
  method ComposeOnCanvas(images: seq<RgbaImage>) returns (merged: ImageBuffer)
    requires |images| > 0 && TotalHeight(images) <= MaxU32
    ensures fresh(merged) && fresh(merged.pixels) && merged.Valid()
    ensures merged.ToImage() == Compose(images)
  {
    var finalWidth := MaxWidth(images);
    var totalHeight := TotalHeight(images);
    merged := new ImageBuffer.FromPixel(finalWidth, totalHeight, White);
    ghost var expected := Stack(images, finalWidth);

    var offset: nat := 0;
    for i := 0 to |images|
      invariant offset == BandStart(images, i)
      invariant forall x, y :: 0 <= x < finalWidth && 0 <= y < totalHeight ==>
        merged.pixels[x, y] == if y < offset then expected[y][x] else White
    {
      PlaceBand(merged, images, i, offset);
      BandStartStep(images, i);
      offset := offset + images[i].height;
    }

    assert images[..|images|] == images;
    ComposeFromPixels(images, merged.ToImage());
  }

  /**
   * The operation itself: an empty batch and a batch where nothing decodes
   * give no result; otherwise the composite is built, its alpha channel
   * dropped, and the encoder's outcome returned.
   */
  method MergeImagesVertically(blobs: seq<Blob>, decode: Blob -> Option<RgbaImage>, encode: RgbImage -> EncoderRun)
    returns (result: Option<seq<byte>>)
    requires TotalHeight(DecodeAll(blobs, decode)) <= MaxU32
    ensures result == Merged(blobs, decode, encode)
    ensures blobs == [] ==> result == None
    ensures (forall j :: 0 <= j < |blobs| ==> decode(blobs[j]).None?) ==> result == None
  {
    if |blobs| == 0 {
      return None;
    }
    var images := DecodeAll(blobs, decode);
    DecodeAllEmptyIff(blobs, decode);
    if |images| == 0 {
      return None;
    }
    var merged := ComposeOnCanvas(images);
    var rgb := DropAlpha(merged.ToImage());
    result := EncodeOutcome(encode(rgb));
  }

  /**
   * When every blob fails to decode there is no result, whatever the
   * encoder would do; a single undecodable blob is such a batch.
   */
  lemma {:induction false} AllInvalidGivesNone(blobs: seq<Blob>, decode: Blob -> Option<RgbaImage>, encode: RgbImage -> EncoderRun)
    requires forall j :: 0 <= j < |blobs| ==> decode(blobs[j]).None?
    ensures TotalHeight(DecodeAll(blobs, decode)) <= MaxU32
    ensures Merged(blobs, decode, encode) == None
  {
    DecodeAllEmptyIff(blobs, decode);
  }

  /**
   * The result is present exactly when some blob decodes and the encoder
   * succeeds on the RGB form of the composite, and then it is exactly the
   * bytes the encoder wrote.
   */
  lemma {:induction false} MergedOutcome(blobs: seq<Blob>, decode: Blob -> Option<RgbaImage>, encode: RgbImage -> EncoderRun)
    requires TotalHeight(DecodeAll(blobs, decode)) <= MaxU32
    ensures Merged(blobs, decode, encode).Some? ==>
      DecodeAll(blobs, decode) != [] &&
      encode(DropAlpha(Compose(DecodeAll(blobs, decode)))) == EncoderRun(Merged(blobs, decode, encode).value, true)
    ensures (exists j :: 0 <= j < |blobs| && decode(blobs[j]).Some?) ==>
      DecodeAll(blobs, decode) != [] &&
      (Merged(blobs, decode, encode).Some? <==> encode(DropAlpha(Compose(DecodeAll(blobs, decode)))).succeeded)
  {
    DecodeAllEmptyIff(blobs, decode);
  }

  /**
   * Reordering the input blobs may move the bands but leaves the width and
   * height of the composite handed to the encoder unchanged.
   */
  lemma BlobOrderKeepsDimensions(a: seq<Blob>, b: seq<Blob>, decode: Blob -> Option<RgbaImage>)
    requires multiset(a) == multiset(b)
    requires DecodeAll(a, decode) != [] && TotalHeight(DecodeAll(a, decode)) <= MaxU32
    ensures DecodeAll(b, decode) != [] && TotalHeight(DecodeAll(b, decode)) <= MaxU32
    ensures Compose(DecodeAll(b, decode)).width == Compose(DecodeAll(a, decode)).width
    ensures Compose(DecodeAll(b, decode)).height == Compose(DecodeAll(a, decode)).height
  {
    DecodeAllPermutation(a, b, decode);
    ComposeDimensionsIgnoreOrder(DecodeAll(a, decode), DecodeAll(b, decode));
  }

  const Red: Rgba := Rgba(255, 0, 0, 255)
  const Green: Rgba := Rgba(0, 255, 0, 255)

  /** The two fixtures of the multiple-images test: a red 2 by 2 and a green 2 by 3 image. */
  const RedSquare: RgbaImage := Raster(2, 2, [[Red, Red], [Red, Red]])
  const GreenBlock: RgbaImage := Raster(2, 3, [[Green, Green], [Green, Green], [Green, Green]])

  /** Stacking the two fixtures: a 2 by 5 composite, red on top, green below. */
  lemma TwoImagesComposite()
    ensures TotalHeight([RedSquare, GreenBlock]) == 5 && MaxWidth([RedSquare, GreenBlock]) == 2
    ensures forall y, x :: 0 <= y < 5 && 0 <= x < 2 ==>
      Compose([RedSquare, GreenBlock]).rows[y][x] == if y < 2 then Red else Green
  {
    var images := [RedSquare, GreenBlock];
    assert images[..1] == [RedSquare] && [RedSquare][..0] == [];
    assert images[..0] == [] && images[..2] == images;
    assert BandStart(images, 0) == 0 && BandStart(images, 1) == 2 && BandStart(images, 2) == 5;
    forall y, x | 0 <= y < 5 && 0 <= x < 2
      ensures Compose(images).rows[y][x] == if y < 2 then Red else Green
    {
      if y < 2 {
        BandsDisjoint(images, y, 0);
        ComposePixel(images, y, x);
        assert RedSquare.rows[y] == [Red, Red];
      } else {
        BandsDisjoint(images, y, 1);
        ComposePixel(images, y, x);
        assert GreenBlock.rows[y - 2] == [Green, Green];
      }
    }
  }

  /**
   * The multiple-images test: when the two blobs decode to the fixtures, the
   * decoded batch is the fixtures in order and the result is the encoder's
   * outcome on the 2 by 5 composite.
   */
  lemma TwoImagesMerge(a: Blob, b: Blob, decode: Blob -> Option<RgbaImage>, encode: RgbImage -> EncoderRun)
    requires decode(a) == Some(RedSquare) && decode(b) == Some(GreenBlock)
    ensures DecodeAll([a, b], decode) == [RedSquare, GreenBlock]
    ensures TotalHeight(DecodeAll([a, b], decode)) <= MaxU32
    ensures Merged([a, b], decode, encode) == EncodeOutcome(encode(DropAlpha(Compose([RedSquare, GreenBlock]))))
  {
    assert [a, b][..1] == [a] && [a][..0] == [];
    TwoImagesComposite();
  }
}
