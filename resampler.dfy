/** Nearest-neighbour resampling (`resize`). */
module Resampler {
  import opened Images
  import opened Arith

  /**
   * The source coordinate that target coordinate t samples along one axis:
   * `(t as f32 * (old as f32 / new as f32)) as u32`, taken here as the exact
   * floor of t * old / new.
   */
  function NearestCoord(t: nat, oldDim: nat, newDim: nat): (s: nat)
    requires t < newDim
    ensures s * newDim <= t * oldDim < s * newDim + newDim
  {
    FloorDivBounds(t * oldDim, newDim);
    t * oldDim / newDim
  }

  /**
   * The sampled coordinate is the floor of t * old / new; it lies inside a
   * non-empty source axis, and equals t when the axis keeps its length.
   */
  lemma NearestCoordBounds(t: nat, oldDim: nat, newDim: nat)
    requires t < newDim
    ensures var s := NearestCoord(t, oldDim, newDim);
            && s * newDim <= t * oldDim < (s + 1) * newDim
            && (oldDim > 0 ==> s < oldDim)
            && (oldDim == newDim ==> s == t)
  {
    var s := NearestCoord(t, oldDim, newDim);
    FloorDivBounds(t * oldDim, newDim);
    assert (s + 1) * newDim == s * newDim + newDim;
    if oldDim > 0 && s >= oldDim {
      MulMonotonic(oldDim, s, newDim);
      MulStrictMonotonic(t, newDim, oldDim);
    }
    if oldDim == newDim {
      DivModUnique(t * oldDim, newDim, t, 0);
    }
  }

  /** The pixel target position (x, y) receives: the sampled source pixel, or the default when that lies outside the source. */
  function ResampledPixel(src: Grid, newWidth: nat, newHeight: nat, x: nat, y: nat): (p: Pixel)
    requires src.Valid() && x < newWidth && y < newHeight
    ensures var sx, sy := NearestCoord(x, src.width, newWidth), NearestCoord(y, src.height, newHeight);
            p == if src.Contains(sx, sy) then src.At(sx, sy) else Black
  {
    match src.PixelChecked(NearestCoord(x, src.width, newWidth), NearestCoord(y, src.height, newHeight))
    case Some(p) => p
    case None => Black
  }

  /** The pixel at index i of the row-major target buffer. */
  function ResampledAtIndex(src: Grid, newWidth: nat, newHeight: nat, i: nat): Pixel
    requires src.Valid() && i < newWidth * newHeight
  {
    RowMajorPosition(i, newWidth, newHeight);
    ResampledPixel(src, newWidth, newHeight, i % newWidth, i / newWidth)
  }

  /** What `resize(src, (newWidth, newHeight))` returns. */
  function Resized(src: Grid, newWidth: nat, newHeight: nat): (r: Grid)
    requires src.Valid()
    ensures r.Valid() && r.width == newWidth && r.height == newHeight
    ensures newWidth == 0 || newHeight == 0 ==> r.pixels == []
  {
    Grid(newWidth, newHeight,
         seq(newWidth * newHeight, i requires 0 <= i < newWidth * newHeight => ResampledAtIndex(src, newWidth, newHeight, i)))
  }

  /**
   * Every target pixel copies the source pixel at the truncated scaled
   * coordinate when that lies inside the source, and is (0, 0, 0) otherwise;
   * the second case happens exactly when the source has no pixels.
   */
  lemma ResizedAt(src: Grid, newWidth: nat, newHeight: nat, x: nat, y: nat)
    requires src.Valid() && x < newWidth && y < newHeight
    ensures var sx, sy := NearestCoord(x, src.width, newWidth), NearestCoord(y, src.height, newHeight);
            && Resized(src, newWidth, newHeight).At(x, y) == (if src.Contains(sx, sy) then src.At(sx, sy) else Black)
            && (!src.Contains(sx, sy) <==> src.width == 0 || src.height == 0)
  {
    RowMajorIndex(x, y, newWidth, newHeight);
    NearestCoordBounds(x, src.width, newWidth);
    NearestCoordBounds(y, src.height, newHeight);
  }

  /** Resizing to the source's own dimensions gives the source back. */
  lemma ResizeIdentity(src: Grid)
    requires src.Valid()
    ensures Resized(src, src.width, src.height) == src
  {
    var r := Resized(src, src.width, src.height);
    forall i | 0 <= i < |src.pixels|
      ensures r.pixels[i] == src.pixels[i]
    {
      RowMajorPosition(i, src.width, src.height);
      var x, y := i % src.width, i / src.width;
      NearestCoordBounds(x, src.width, src.width);
      NearestCoordBounds(y, src.height, src.height);
      assert r.pixels[i] == src.At(x, y);
    }
  }

  /** Resizing a non-empty single-colour image gives a single-colour image of the same colour. */
  lemma ResizeSolid(src: Grid, c: Pixel, newWidth: nat, newHeight: nat)
    requires src.Valid() && src.width > 0 && src.height > 0
    requires forall i :: 0 <= i < |src.pixels| ==> src.pixels[i] == c
    ensures forall i :: 0 <= i < newWidth * newHeight ==> Resized(src, newWidth, newHeight).pixels[i] == c
  {
    var r := Resized(src, newWidth, newHeight);
    forall i | 0 <= i < newWidth * newHeight
      ensures r.pixels[i] == c
    {
      RowMajorPosition(i, newWidth, newHeight);
      var x, y := i % newWidth, i / newWidth;
      ResizedAt(src, newWidth, newHeight, x, y);
      RowMajorIndex(x, y, newWidth, newHeight);
      assert r.pixels[i] == r.At(x, y);
      var sx, sy := NearestCoord(x, src.width, newWidth), NearestCoord(y, src.height, newHeight);
      RowMajorIndex(sx, sy, src.width, src.height);
    }
  }

  /**
   * `resize`: builds a new width x height buffer and, in the order
   * `enumerate_pixels_mut` visits it, overwrites each pixel whose sampled
   * source position is inside the source.
   */
  method Resize(img: Image, newWidth: nat, newHeight: nat) returns (resized: Image)
    requires img.Valid()
    ensures fresh(resized.data) && resized.Valid()
    ensures resized.View() == Resized(img.View(), newWidth, newHeight)
  {
    resized := new Image(newWidth, newHeight);
    ghost var target := Resized(img.View(), newWidth, newHeight);
    var i := 0;
    while i < resized.data.Length
      invariant 0 <= i <= resized.data.Length
      invariant forall k :: 0 <= k < i ==> resized.data[k] == target.pixels[k]
      invariant forall k :: i <= k < resized.data.Length ==> resized.data[k] == Black
    {
      RowMajorPosition(i, newWidth, newHeight);
      var x, y := i % newWidth, i / newWidth;
      var nearestX := NearestCoord(x, img.width, newWidth);
      var nearestY := NearestCoord(y, img.height, newHeight);
      match img.PixelChecked(nearestX, nearestY) {
        case Some(oldPixel) =>
          resized.data[i] := oldPixel;
        case None =>
      }
      i := i + 1;
    }
    assert resized.data[..] == target.pixels;
  }
}
