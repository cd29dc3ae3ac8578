/**
 * Pixel and raster values shared by the compositor: 8-bit channels,
 * RGBA and RGB pixels, and an immutable raster (the decoded inputs and
 * the value handed to the JPEG encoder).
 */
module Pixels {

  /** An unsigned 8-bit value (Rust `u8`): one colour channel or one output byte. */
  newtype byte = x: int | 0 <= x < 256

  /** Largest value of a Rust `u32`, the type of every image dimension and offset. */
  const MaxU32: nat := 0xFFFF_FFFF

  datatype Rgba = Rgba(r: byte, g: byte, b: byte, a: byte)

  datatype Rgb = Rgb(r: byte, g: byte, b: byte)

  /** Opaque white, the colour the canvas is filled with before any image is placed. */
  const White: Rgba := Rgba(255, 255, 255, 255)

  /**
   * A raster of `height` rows of `width` pixels each; `rows[y][x]` is the
   * pixel at column x of row y (what `get_pixel(x, y)` returns).
   */
  datatype Raster<P> = Raster(width: nat, height: nat, rows: seq<seq<P>>)
  {
    /** The shape is consistent and both dimensions fit in a `u32`. */
    predicate WellFormed() {
      width <= MaxU32 && height <= MaxU32 && |rows| == height &&
      forall y :: 0 <= y < |rows| ==> |rows[y]| == width
    }
  }

  /** A decoded image converted to 8-bit RGBA (`RgbaImage` of the image crate). */
  type RgbaImage = img: Raster<Rgba> | img.WellFormed() witness Raster(0, 0, [])

  /** An 8-bit RGB image, the only form the JPEG encoder is given (`RgbImage`). */
  type RgbImage = img: Raster<Rgb> | img.WellFormed() witness Raster(0, 0, [])

  /** Drops the alpha channel of one pixel. */
  function DropPixelAlpha(p: Rgba): (q: Rgb) {
    Rgb(p.r, p.g, p.b)
  }

  /**
   * `to_rgb8` on an RGBA image: same geometry, every pixel keeps its red,
   * green and blue channels and loses its alpha.
   */
  function DropAlpha(img: RgbaImage): (r: RgbImage)
    ensures r.width == img.width && r.height == img.height
    ensures forall y, x :: 0 <= y < r.height && 0 <= x < r.width ==>
      r.rows[y][x].r == img.rows[y][x].r &&
      r.rows[y][x].g == img.rows[y][x].g &&
      r.rows[y][x].b == img.rows[y][x].b
  {
    Raster(img.width, img.height,
      seq(img.height, (y: int) requires 0 <= y < img.height =>
        seq(img.width, (x: int) requires 0 <= x < img.width => DropPixelAlpha(img.rows[y][x]))))
  }
}
