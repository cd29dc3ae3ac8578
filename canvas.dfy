/**
 * The mutable RGBA pixel buffer the composite is built in (`ImageBuffer`
 * of the image crate). Its storage is abstracted to a 2-D array addressed
 * as `pixels[x, y]`, the argument order of `get_pixel` and `put_pixel`.
 */
module Canvas {
  import opened Pixels

  class ImageBuffer {
    const width: nat
    const height: nat
    const pixels: array2<Rgba>

    /** The array has the buffer's dimensions, both of which fit in a `u32`. */
    predicate Valid()
      reads this
    {
      pixels.Length0 == width && pixels.Length1 == height &&
      width <= MaxU32 && height <= MaxU32
    }

    /** `ImageBuffer::from_pixel`: a `w` by `h` buffer with every pixel set to `fill`. */
    constructor FromPixel(w: nat, h: nat, fill: Rgba)
      requires w <= MaxU32 && h <= MaxU32
      ensures Valid() && width == w && height == h && fresh(pixels)
      ensures forall x, y :: 0 <= x < w && 0 <= y < h ==> pixels[x, y] == fill
    {
      width, height := w, h;
      pixels := new Rgba[w, h]((x, y) => fill);
    }

    /**
     * `put_pixel`: overwrites the one pixel at (x, y) with `p`, every channel
     * included. The source panics on a position outside the buffer, so the
     * position must be inside it.
     */
    method PutPixel(x: nat, y: nat, p: Rgba)
      requires Valid() && x < width && y < height
      modifies pixels
      ensures pixels[x, y] == p
      ensures forall x', y' :: 0 <= x' < width && 0 <= y' < height && (x' != x || y' != y) ==>
        pixels[x', y'] == old(pixels[x', y'])
    {
      pixels[x, y] := p;
    }

    /** The buffer's current contents as an image value, row by row. */
    function ToImage(): (img: RgbaImage)
      requires Valid()
      reads this, pixels
      ensures img.width == width && img.height == height
      ensures forall y, x :: 0 <= y < height && 0 <= x < width ==> img.rows[y][x] == pixels[x, y]
    {
      Raster(width, height,
        seq(height, (y: int) requires 0 <= y < height reads pixels =>
          seq(width, (x: int) requires 0 <= x < width reads pixels => pixels[x, y])))
    }
  }
}
