/** Pixels and image buffers: the `ImageBuffer<Rgb<u8>, Vec<u8>>` the converter works on. */
module Images {
  import opened Arith

  /** An 8-bit unsigned channel value (a Rust `u8`). */
  type Byte = b: int | 0 <= b < 256

  /** An `Rgb<u8>` pixel: channel 0 is red, 1 is green, 2 is blue. */
  type Pixel = p: seq<Byte> | |p| == 3 witness [0, 0, 0]

  /** The pixel a freshly created image buffer holds everywhere. */
  const Black: Pixel := [0, 0, 0]

  datatype Option<T> = None | Some(value: T)

  /** Position (x, y) of a row-major buffer of width w lies at y * w + x, and that index lies inside the buffer. */
  lemma RowMajorIndex(x: nat, y: nat, w: nat, h: nat)
    requires x < w && y < h
    ensures y * w + x < w * h
    ensures (y * w + x) / w == y && (y * w + x) % w == x
  {
    MulMonotonic(y + 1, h, w);
    DivModUnique(y * w + x, w, y, x);
  }

  /** Index i of a row-major buffer of width w and height h is position (i % w, i / w). */
  lemma RowMajorPosition(i: nat, w: nat, h: nat)
    requires i < w * h
    ensures w > 0 && i % w < w && i / w < h
    ensures (i / w) * w + i % w == i
  {
    if i / w >= h {
      MulMonotonic(h, i / w, w);
    }
  }

  /** The value of an image buffer: its dimensions and its pixels in row-major order (y outer, x inner). */
  datatype Grid = Grid(width: nat, height: nat, pixels: seq<Pixel>) {

    /** Every coordinate in [0, width) x [0, height) has exactly one pixel. */
    predicate Valid() {
      |pixels| == width * height
    }

    predicate Contains(x: nat, y: nat) {
      x < width && y < height
    }

    function At(x: nat, y: nat): Pixel
      requires Valid() && Contains(x, y)
    {
      RowMajorIndex(x, y, width, height);
      pixels[y * width + x]
    }

    /** `get_pixel_checked`: the pixel at (x, y), or None outside the bounds. */
    function PixelChecked(x: nat, y: nat): (r: Option<Pixel>)
      requires Valid()
      ensures r.Some? <==> Contains(x, y)
      ensures r.Some? ==> r.value == At(x, y)
    {
      if Contains(x, y) then Some(At(x, y)) else None
    }
  }

  /** The grid `Image::new(w, h)` creates: every pixel black. */
  function Blank(w: nat, h: nat): (g: Grid)
    ensures g.Valid() && g.width == w && g.height == h
    ensures forall i :: 0 <= i < |g.pixels| ==> g.pixels[i] == Black
  {
    Grid(w, h, seq(w * h, _ => Black))
  }

  /** An image buffer whose pixels are updated in place. */
  class Image {
    const width: nat
    const height: nat
    /** The pixels in row-major order. */
    const data: array<Pixel>

    ghost predicate Valid()
      reads this
    {
      data.Length == width * height
    }

    /** The value the buffer currently holds. */
    ghost function View(): (g: Grid)
      reads this, data
      requires Valid()
      ensures g.Valid() && g.width == width && g.height == height
    {
      Grid(width, height, data[..])
    }

    /** `Image::new(w, h)`. */
    constructor (w: nat, h: nat)
      ensures Valid() && fresh(data)
      ensures View() == Blank(w, h)
    {
      width, height := w, h;
      data := new Pixel[w * h](_ => Black);
    }

    /** `get_pixel_checked(x, y)`. */
    function PixelChecked(x: nat, y: nat): (r: Option<Pixel>)
      reads this, data
      requires Valid()
      ensures r == View().PixelChecked(x, y)
    {
      if x < width && y < height then
        RowMajorIndex(x, y, width, height);
        Some(data[y * width + x])
      else
        None
    }
  }
}
