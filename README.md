# Vertical image merge, modelled in Dafny

This project models `merge_images_vertically` from `rust/src/api/simple.rs`.
That function receives a batch of encoded images (PNG, JPEG, ... as byte
vectors) and works in these steps:

1. It decodes each image and drops the ones that fail to decode.
2. It stacks the remaining images top to bottom, in input order. The canvas is
   as wide as the widest image and as tall as all images together, and it
   starts filled with opaque white.
3. It drops the alpha channel and encodes the canvas once as JPEG.

An empty batch gives `None`. So does a batch in which nothing decodes, and so
does an encoder error. Otherwise the result is `Some` of the bytes the encoder
wrote.

Files and modules:

- `seqfacts.dfy` (`SeqFacts`): two general facts about sequences and
  multisets, used by the reordering lemmas.
- `pixels.dfy` (`Pixels`): the 8-bit `byte`, `Rgba` and `Rgb` pixels, opaque
  `White`, and the immutable `Raster` images. `RgbaImage` and `RgbImage` are
  well-formed rasters whose dimensions fit in a `u32`. `DropAlpha` models
  `to_rgb8`.
- `decode.dfy` (`Decoding`): the `filter_map` over the blobs (`DecodeAll`), and
  the positions of the blobs that decode (`SuccessIndices`).
- `geometry.dfy` (`Geometry`): the width and height reductions. It also holds
  the row offset of each image's band (`BandStart`, the value of
  `current_offset_y` before image i is placed) and the band that owns a row
  (`BandOf`).
- `composite.dfy` (`Composite`): the composite as a value. `Stack` defines it
  as the concatenation of the images, each padded on the right with white.
  `Compose` adds the width and height to that.
- `canvas.dfy` (`Canvas`): the mutable `ImageBuffer` class. It has a 2-D pixel
  array, `FromPixel`, `PutPixel`, and `ToImage`, which reads the buffer back as an
  image value.
- `merge.dfy` (`Merge`):
  - `CopyIntoBand`: the in-place nested `y`/`x` copy loop for one image.
  - `PlaceBand`: one pass of the loop over the images.
  - `ComposeOnCanvas`: the loop over the images that advances the offset.
  - `MergeImagesVertically`: the whole operation, with its early exits.
  - `Merged`: the specification function the operation is proved against.
  - Lemmas about the outcome, and the two-image example from
    `rust/tests/test_simple.rs`.

The loader and the encoder are foreign library calls, so they are parameters
of the model:

- `decode: Blob -> Option<RgbaImage>` stands for `image::load_from_memory`
  followed by `to_rgba8`.
- `encode: RgbImage -> EncoderRun` stands for one call of
  `JpegEncoder::encode_image`. `EncoderRun` holds the bytes written to the
  output vector and whether the call returned `Ok`.

The test file calls `merge_images_vertically` with a second `max_size_kb`
argument (rust/tests/test_simple.rs:12, 133-136). It also asserts that the
output fits within that many kilobytes (rust/tests/test_simple.rs:152). The
code has only one parameter (simple.rs:17) and encodes exactly once with the
encoder's default settings (simple.rs:87). This model follows the code, so it
has no size budget and no quality loop.

## Model

| member | source | states |
|---|---|---|
| `Pixels.DropAlpha` | rust/src/api/simple.rs:85 | The RGB image keeps the width and height. Every pixel keeps its red, green and blue channels and loses alpha. |
| `Decoding.Decoded` | rust/src/api/simple.rs:28-35 | One blob contributes at most one image, and none exactly when the loader rejects it. |
| `Decoding.DecodeAll` | rust/src/api/simple.rs:26-36 | There is at most one decoded image per blob. What the images are and their order is stated by `DecodeAllIsSuccessesInOrder`, `DecodeAllEmptyIff`, `DecodeAllAppend` and `DecodeAllPermutation`. |
| `Decoding.SuccessIndices` | rust/src/api/simple.rs:26-36 | Lists, in strictly increasing order, exactly the positions of the blobs the loader accepts. |
| `Decoding.DecodeAllIsSuccessesInOrder` | rust/src/api/simple.rs:26-36 | There is one decoded image per accepted blob. The k-th image is the loader's result for the k-th accepted blob, so input order is kept and failures are dropped. |
| `Decoding.DecodeAllEmptyIff` | rust/src/api/simple.rs:26-41 | The decoded batch is empty if and only if every blob fails to decode. |
| `Decoding.DecodeAllAppend` | rust/src/api/simple.rs:26-36 | Decoding two concatenated batches gives the concatenation of their results. This is the order-preserving `collect` of the parallel `filter_map`. |
| `Decoding.DecodeAllPermutation` | rust/src/api/simple.rs:26-36 | Reordering the blobs reorders the decoded images and nothing else: the same images come out, each as many times. |
| `Geometry.MaxWidth` | rust/src/api/simple.rs:46 | The canvas width is at least every image's width, and some image has exactly that width. |
| `Geometry.TotalHeight` | rust/src/api/simple.rs:47 | An empty batch sums to 0, and one image sums to its own height. `TotalHeightAppend` and `TotalHeightPermutation` state the rest of the sum's meaning. |
| `Geometry.TotalHeightAppend` | rust/src/api/simple.rs:47 | The height sum of two concatenated batches is the sum of their height sums. |
| `Geometry.TotalHeightPermutation` | rust/src/api/simple.rs:47 | Any reordering of the images has the same total height. |
| `Geometry.MaxWidthPermutation` | rust/src/api/simple.rs:46 | Any reordering of the images has the same maximum width. |
| `Geometry.BandStart` | rust/src/api/simple.rs:59-72 | The value of `current_offset_y` before image i is placed. It is 0 before the first image and the total height after the last. `BandStartStep` and `BandStartMonotone` state how it advances. |
| `Geometry.BandStartStep` | rust/src/api/simple.rs:59-72 | After image i is placed, `current_offset_y` has grown by exactly image i's height. |
| `Geometry.BandStartMonotone` | rust/src/api/simple.rs:59-72 | The offset starts at 0 and never decreases. It never exceeds the total height, and after the last image it equals the total height. |
| `Geometry.BandInsideCanvas` | rust/src/api/simple.rs:69 | Every image's band ends no later than the canvas height summed at simple.rs:47, so every row `y + current_offset_y` passed to `put_pixel` is inside the canvas. |
| `Geometry.BandOf` | rust/src/api/simple.rs:59-72 | Every row of the canvas lies inside the band of some image, at a local row within that image's height. |
| `Geometry.BandsDisjoint` | rust/src/api/simple.rs:59-72 | A row lies in only one band. With `BandOf`, this means the bands tile the height exactly. |
| `Composite.PadRight` | rust/src/api/simple.rs:50-71 | One band has the image's height and the canvas width. It holds the image's pixels left of the image's width and white to the right of it. |
| `Composite.Stack` | rust/src/api/simple.rs:50-72 | The stacked rows number exactly the total height, and each row is exactly canvas-width pixels long. |
| `Composite.StackPixel` | rust/src/api/simple.rs:66-72 | Pixel (x, y) of image i is at row `BandStart(i) + y` with all four channels. Columns right of the image in that row are white. |
| `Composite.StackRow` | rust/src/api/simple.rs:66-72 | Row `BandStart(i) + y` of the stack is exactly row y of image i padded with white to the canvas width. |
| `Composite.StackBand` | rust/src/api/simple.rs:66-72 | The rows of band i are image i's rows, padded with white to the canvas width. |
| `Composite.Compose` | rust/src/api/simple.rs:46-54 | The composite's width is the maximum width and its height is the sum of the heights. |
| `Composite.ComposePlacement` | rust/src/api/simple.rs:66-70 | Image i's pixel (x, y) appears verbatim at (x, y + offset of band i). No blending is done. |
| `Composite.ComposePixel` | rust/src/api/simple.rs:50-72 | Every canvas pixel comes from the image whose band owns its row. It is that image's pixel when the column is within the image, and white otherwise. |
| `Composite.ComposePadding` | rust/src/api/simple.rs:50-54 | A pixel right of the image that owns its row stays opaque white (255, 255, 255, 255). |
| `Composite.ComposeDimensionsIgnoreOrder` | rust/src/api/simple.rs:46-47 | Reordering the decoded images leaves the composite's width and height unchanged. `BlobOrderKeepsDimensions` lifts this to the input blobs. |
| `Canvas.ImageBuffer.FromPixel` | rust/src/api/simple.rs:50-54 | Makes a fresh buffer of the given width and height in which every pixel is the fill colour. |
| `Canvas.ImageBuffer.ToImage` | rust/src/api/simple.rs:85 | Reads the buffer as an image value with the buffer's width and height, whose pixel at row y, column x is the buffer's pixel (x, y). This is the `DynamicImage::ImageRgba8(merged_buffer)` handed to `to_rgb8`. |
| `Canvas.ImageBuffer.PutPixel` | rust/src/api/simple.rs:69 | Overwrites exactly one in-bounds pixel and leaves every other pixel unchanged. |
| `Merge.Merged` | rust/src/api/simple.rs:17-94 | The whole operation as a function of the blobs, the loader and the encoder. It is `None` for an empty batch and `None` when no blob decodes. Otherwise it is the encoder's outcome on the RGB form of the composite, as `MergedOutcome` states. |
| `Merge.EncodeOutcome` | rust/src/api/simple.rs:86-93 | The result is present exactly when the encoder returned `Ok`, and then it is exactly the bytes the encoder wrote. |
| `Merge.CopyIntoBand` | rust/src/api/simple.rs:66-71 | After the nested loops, rows `[offset, offset + h)` hold the image's pixels in columns below the image's width. Every other pixel keeps its old value. |
| `Merge.PlaceBand` | rust/src/api/simple.rs:62-72 | One pass of the loop over the images: if the canvas holds the stack above the offset and white below it, then after image i is copied the stacked part extends to the end of image i's band. |
| `Merge.ComposeOnCanvas` | rust/src/api/simple.rs:46-80 | The white canvas, after every image is copied in input order at the running offset, holds exactly the composite `Compose(images)`. |
| `Merge.MergeImagesVertically` | rust/src/api/simple.rs:17-94 | The result equals `Merged`. It is `None` for an empty batch and `None` when no blob decodes. |
| `Merge.AllInvalidGivesNone` | rust/src/api/simple.rs:26-41 | If every blob fails to decode, the result is `None` whatever the encoder does. A single undecodable blob is such a batch. |
| `Merge.MergedOutcome` | rust/src/api/simple.rs:84-93 | A present result is exactly the bytes of a successful encoder run on the RGB form of the composite. When some blob decodes, the result is present if and only if that encoder run succeeds. |
| `Merge.BlobOrderKeepsDimensions` | rust/src/api/simple.rs:26-47 | Reordering the input blobs leaves the width and height of the composite handed to the encoder unchanged. |
| `Merge.TwoImagesComposite` | rust/tests/test_simple.rs:24-73 | A red 2×2 image stacked over a green 2×3 image gives a 2×5 composite: rows 0-1 are red and rows 2-4 are green. |
| `Merge.TwoImagesMerge` | rust/tests/test_simple.rs:57-62 | When the two blobs decode to those images, the decoded batch is the two images in order. The result is the encoder's outcome on their 2×5 composite. |

## Left out

- `init_app` and the `flutter_rust_bridge` init hook (simple.rs:5-9) are host-runtime glue and are not modelled.
- Timing and logging are not modelled: `Instant::now`, `elapsed`, `println!` and `eprintln!`. They have no effect on the result.
- `image::load_from_memory` and `to_rgba8` are foreign calls and become the `decode` parameter. The formats the loader accepts and how it decodes them are not modelled.
- `JpegEncoder::encode_image` is a foreign call and becomes the `encode` parameter. Its default quality and the JPEG bit stream are not modelled.
- The rayon parallelism is modelled as sequential `filter_map`, `max` and `sum`. This relies on rayon's `collect` keeping input order. Concurrency itself is not modelled.
- The size budget and quality search are not modelled, because the code has neither (simple.rs:17, 87). Only the tests' two-argument calls and their size assertion (rust/tests/test_simple.rs:133-136, 152) refer to them.
- `Merge.MergeImagesVertically`: requires the total height to fit in a `u32`. In Rust, an overflowing `sum` panics in debug builds and wraps in release builds. Neither outcome is modelled.
- `ImageBuffer::from_pixel` panics when `width * height * 4` overflows `usize`, and allocation can fail. Neither is modelled.
- The buffer's storage is a flat row-major byte vector. Here it is a 2-D array of `Rgba` pixels indexed `[x, y]`, so byte layout is not modelled.
- The test file's fixtures, JPEG size prints and `save_debug_image` file output are not modelled. Only the two-image example becomes lemmas.
