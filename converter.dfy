/** The converter's pipeline: resize, then quantise for the preview and for the hex dump; N is `channel_colour_combinations`. */
module Converter {
  import opened Images
  import opened Arith
  import opened Bits
  import opened Resampler
  import opened Quantiser
  import opened Packer

  /**
   * `channel_colour_combinations`. Despite the name, a channel takes the
   * four values 0, 85, 170 and 255 (bus indices 0 to 3).
   */
  const Combinations: Byte := 3

  /** Every pixel of the grid passed through `clamp_colour`. */
  function Quantised(g: Grid, combinations: Byte, busMode: bool): (r: Grid)
    requires g.Valid() && combinations >= 1
    ensures r.Valid() && r.width == g.width && r.height == g.height
  {
    Grid(g.width, g.height,
         seq(|g.pixels|, i requires 0 <= i < |g.pixels| => ClampedColour(g.pixels[i], combinations, busMode)))
  }

  /** The pixel at index i after one quantising pass of dst from src. */
  function QuantisedAt(dst: Grid, src: Grid, combinations: Byte, busMode: bool, i: nat): Pixel
    requires dst.Valid() && src.Valid() && combinations >= 1 && i < |dst.pixels|
  {
    RowMajorPosition(i, dst.width, dst.height);
    match src.PixelChecked(i % dst.width, i / dst.width)
    case Some(p) => ClampedColour(p, combinations, busMode)
    case None => dst.pixels[i]
  }

  /** The grid one quantising pass leaves in dst: the clamped source pixel wherever src has one. */
  function QuantisedInto(dst: Grid, src: Grid, combinations: Byte, busMode: bool): (r: Grid)
    requires dst.Valid() && src.Valid() && combinations >= 1
    ensures r.Valid() && r.width == dst.width && r.height == dst.height
  {
    Grid(dst.width, dst.height,
         seq(|dst.pixels|, i requires 0 <= i < |dst.pixels| => QuantisedAt(dst, src, combinations, busMode, i)))
  }

  /**
   * After a pass, position (x, y) holds the clamped source pixel at the same
   * position when the source has one, and keeps its old pixel otherwise.
   */
  lemma QuantisedIntoAt(dst: Grid, src: Grid, combinations: Byte, busMode: bool, x: nat, y: nat)
    requires dst.Valid() && src.Valid() && combinations >= 1 && dst.Contains(x, y)
    ensures QuantisedInto(dst, src, combinations, busMode).At(x, y)
         == if src.Contains(x, y) then ClampedColour(src.At(x, y), combinations, busMode) else dst.At(x, y)
  {
    RowMajorIndex(x, y, dst.width, dst.height);
  }

  /** A pass over a buffer of the source's own size quantises the source, whatever the buffer held. */
  lemma QuantisedIntoSameSize(dst: Grid, src: Grid, combinations: Byte, busMode: bool)
    requires dst.Valid() && src.Valid() && combinations >= 1
    requires dst.width == src.width && dst.height == src.height
    ensures QuantisedInto(dst, src, combinations, busMode) == Quantised(src, combinations, busMode)
  {
    var r := QuantisedInto(dst, src, combinations, busMode);
    forall i | 0 <= i < |dst.pixels|
      ensures r.pixels[i] == ClampedColour(src.pixels[i], combinations, busMode)
    {
      RowMajorPosition(i, dst.width, dst.height);
      assert src.Contains(i % dst.width, i / dst.width);
    }
  }

  /**
   * When the source covers the buffer, a pass leaves no trace of what the
   * buffer held before: the bus pass overwrites every preview pixel.
   */
  lemma QuantisedIntoForgets(d1: Grid, d2: Grid, src: Grid, combinations: Byte, busMode: bool)
    requires d1.Valid() && d2.Valid() && src.Valid() && combinations >= 1
    requires d1.width == d2.width && d1.height == d2.height
    requires d1.width <= src.width && d1.height <= src.height
    ensures QuantisedInto(d1, src, combinations, busMode) == QuantisedInto(d2, src, combinations, busMode)
  {
    var r1, r2 := QuantisedInto(d1, src, combinations, busMode), QuantisedInto(d2, src, combinations, busMode);
    forall i | 0 <= i < |d1.pixels|
      ensures r1.pixels[i] == r2.pixels[i]
    {
      RowMajorPosition(i, d1.width, d1.height);
      assert src.Contains(i % d1.width, i / d1.width);
    }
  }

  /**
   * One pass of the clamping loop: `enumerate_pixels_mut` visits the
   * clamped buffer in row-major order, and each pixel whose position the
   * resized image also has is set to `clamp_colour` of that pixel.
   */
  method QuantiseInto(clamped: Image, resized: Image, combinations: Byte, hex: bool)
    requires clamped.Valid() && resized.Valid() && clamped.data != resized.data && combinations >= 1
    modifies clamped.data
    ensures clamped.View() == QuantisedInto(old(clamped.View()), resized.View(), combinations, hex)
  {
    ghost var target := QuantisedInto(clamped.View(), resized.View(), combinations, hex);
    var i := 0;
    while i < clamped.data.Length
      invariant 0 <= i <= clamped.data.Length
      invariant forall k :: 0 <= k < i ==> clamped.data[k] == target.pixels[k]
      invariant forall k :: i <= k < clamped.data.Length ==> clamped.data[k] == old(clamped.data[k])
    {
      RowMajorPosition(i, clamped.width, clamped.height);
      var x, y := i % clamped.width, i / clamped.width;
      match resized.PixelChecked(x, y) {
        case Some(originalPixel) =>
          var pixel := ClampColour(originalPixel, combinations, hex);
          clamped.data[i] := pixel;
        case None =>
      }
      i := i + 1;
    }
    assert clamped.data[..] == target.pixels;
  }

  /**
   * The preview `main` saves and the text it writes to `image.hex`, for an
   * already decoded image: the preview has the requested size and only the
   * values 0, 85, 170 and 255, and the dump always succeeds, one byte (two
   * hex digits and a newline) per pixel.
   */
  function Converted(src: Grid, resizeX: nat, resizeY: nat): (r: (Grid, Result<string>))
    requires src.Valid()
    ensures r.0.Valid() && r.0.width == resizeX && r.0.height == resizeY
    ensures forall i, c :: 0 <= i < |r.0.pixels| && 0 <= c < 3 ==> r.0.pixels[i][c] % 85 == 0
    ensures r.1.Ok? && |r.1.value| == 3 * (resizeX * resizeY)
  {
    var resized := Resized(src, resizeX, resizeY);
    var preview, bus := Quantised(resized, Combinations, false), Quantised(resized, Combinations, true);
    PreviewLevels(resized);
    DumpLength(bus.pixels);
    (preview, HexDump(bus.pixels, Combinations))
  }

  /** With the converter's setting every preview channel is a multiple of 85. */
  lemma PreviewLevels(g: Grid)
    requires g.Valid()
    ensures var preview := Quantised(g, Combinations, false);
            forall i, c :: 0 <= i < |preview.pixels| && 0 <= c < 3 ==> preview.pixels[i][c] % 85 == 0
  {
    assert BlockSize(Combinations) == 85;
  }

  /** With the converter's setting the dump succeeds with three characters per pixel. */
  lemma DumpLength(pixels: seq<Pixel>)
    ensures HexDump(pixels, Combinations).Ok? && |HexDump(pixels, Combinations).value| == 3 * |pixels|
  {
    BusBitsExamples();
    assert PixelDataBytes(2) == 1;
  }

  /**
   * The body of `main` after decoding: resizes, creates a blank buffer of the
   * new size, and for `hex` in false, true quantises into it, keeping the
   * preview after the first pass and dumping after the second.
   */
  method Convert(img: Image, resizeX: nat, resizeY: nat) returns (preview: Grid, hexFile: Result<string>)
    requires img.Valid()
    ensures (preview, hexFile) == Converted(img.View(), resizeX, resizeY)
  {
    var resized := Resize(img, resizeX, resizeY);
    var clamped := new Image(resizeX, resizeY);
    ghost var blank := clamped.View();
    ghost var r := resized.View();
    // placeholders: the first pass sets the preview and the second the dump
    preview, hexFile := Grid(clamped.width, clamped.height, clamped.data[..]), Err(AddOverflow);
    var passes := [false, true];
    for pass := 0 to 2
      invariant clamped.Valid() && resized.Valid() && clamped.data != resized.data
      invariant clamped.width == resizeX && clamped.height == resizeY
      invariant resized.View() == r
      invariant pass == 0 ==> clamped.View() == blank
      invariant pass >= 1 ==> preview == Quantised(r, Combinations, false)
      invariant pass >= 1 ==> clamped.View() == Quantised(r, Combinations, passes[pass - 1])
      invariant pass == 2 ==> hexFile == HexDump(Quantised(r, Combinations, true).pixels, Combinations)
    {
      var hex := passes[pass];
      ghost var before := clamped.View();
      QuantiseInto(clamped, resized, Combinations, hex);
      QuantisedIntoSameSize(before, r, Combinations, hex);
      if hex {
        hexFile := ImageHexDump(clamped, Combinations);
      } else {
        preview := Grid(clamped.width, clamped.height, clamped.data[..]);
      }
    }
  }

  /** The bus carries the indices 0 .. combinations when combinations + 1 is a power of two. */
  predicate PowerOfTwoLevels(combinations: Byte) {
    1 <= combinations < 255 && Pow2(FloorLog2(combinations + 1)) == combinations + 1
  }

  /** The values of N whose bus is exactly full: 1, 3, 7, 15, 31, 63 and 127. */
  lemma PowerOfTwoLevelsCases(combinations: Byte)
    requires PowerOfTwoLevels(combinations)
    ensures combinations == 1 || combinations == 3 || combinations == 7 || combinations == 15
         || combinations == 31 || combinations == 63 || combinations == 127
  {
    var k := FloorLog2(combinations + 1);
    assert Pow2(1) == 2 && Pow2(2) == 4 && Pow2(3) == 8 && Pow2(4) == 16;
    assert Pow2(5) == 32 && Pow2(6) == 64 && Pow2(7) == 128 && Pow2(8) == 256;
    if k >= 8 {
      Pow2Monotonic(8, k);
    }
  }

  /** For these N the top bus index, that of input 255, is combinations itself. */
  lemma PowerOfTwoTopIndex(combinations: Byte)
    requires PowerOfTwoLevels(combinations)
    ensures 255 / BlockSize(combinations) == combinations
  {
    PowerOfTwoLevelsCases(combinations);
    assert 255 / 1 == 255 && 255 / 255 == 1;
    assert 255 / 3 == 85 && 255 / 85 == 3;
    assert 255 / 7 == 36 && 255 / 36 == 7;
    assert 255 / 15 == 17 && 255 / 17 == 15;
    assert 255 / 31 == 8 && 255 / 8 == 31;
    assert 255 / 63 == 4 && 255 / 4 == 63;
    assert 255 / 127 == 2 && 255 / 2 == 127;
  }

  /** When combinations + 1 is a power of two every bus-mode channel fits in the bus width. */
  lemma BusPixelFits(p: Pixel, combinations: Byte)
    requires PowerOfTwoLevels(combinations)
    ensures PixelFitsBus(ClampedColour(p, combinations, true), FloorLog2(combinations + 1))
  {
    PowerOfTwoTopIndex(combinations);
    BusIndex(p[0], combinations);
    BusIndex(p[1], combinations);
    BusIndex(p[2], combinations);
  }

  /** When combinations + 1 is a power of two the whole bus-mode image fits the bus width. */
  lemma QuantisedFitsBus(g: Grid, combinations: Byte)
    requires g.Valid() && PowerOfTwoLevels(combinations)
    ensures FitsBus(Quantised(g, combinations, true).pixels, FloorLog2(combinations + 1))
  {
    var bus := Quantised(g, combinations, true).pixels;
    forall j | 0 <= j < |bus|
      ensures PixelFitsBus(bus[j], FloorLog2(combinations + 1))
    {
      BusPixelFits(g.pixels[j], combinations);
    }
  }

  /**
   * When combinations + 1 is a power of two (the converter's 3 among them) the hex
   * dump of the bus-mode image succeeds and reads back, pixel by pixel, to
   * the bus-mode image.
   */
  lemma QuantisedDumpRoundTrip(g: Grid, combinations: Byte)
    requires g.Valid() && PowerOfTwoLevels(combinations)
    ensures var w, bus := FloorLog2(combinations + 1), Quantised(g, combinations, true).pixels;
            var text := HexDumpText(bus, w, PixelDataBytes(w));
            && HexDump(bus, combinations) == Ok(text)
            && ReadPixels(ParseTokens(text), w, PixelDataBytes(w)) == bus
  {
    var w, bus := FloorLog2(combinations + 1), Quantised(g, combinations, true).pixels;
    QuantisedFitsBus(g, combinations);
    PixelDataBytesRange(combinations);
    HexDumpOk(bus, combinations, w, HexDumpText(bus, w, PixelDataBytes(w)));
    HexDumpRoundTrip(bus, w);
  }

  /** The converter's own setting: its dump always succeeds and decodes to the bus-mode image. */
  lemma ConvertedDumpRoundTrip(src: Grid, resizeX: nat, resizeY: nat)
    requires src.Valid()
    ensures var bus := Quantised(Resized(src, resizeX, resizeY), Combinations, true).pixels;
            && Converted(src, resizeX, resizeY).1 == Ok(HexDumpText(bus, 2, 1))
            && ReadPixels(ParseTokens(HexDumpText(bus, 2, 1)), 2, 1) == bus
  {
    assert Pow2(2) == 4 && Pow2(3) == 8;
    assert FloorLog2(4) == 2;
    QuantisedDumpRoundTrip(Resized(src, resizeX, resizeY), Combinations);
  }

  /**
   * Conversely, when combinations + 1 is not a power of two, input 255 in bus
   * mode gives an index that needs more bits than the bus has.
   */
  lemma NarrowBusAlways(n: Byte)
    requires 1 <= n < 255 && !PowerOfTwoLevels(n)
    ensures QuantiseChannel(255, n, true) >= Pow2(FloorLog2(n + 1))
  {
    TopBusIndex(n);
  }

  /** Index 4 on green and index 1 on red pack to the same word on a 2-bit bus. */
  lemma PackCollision()
    ensures Pack([0, 4, 0], 2) == Pack([1, 0, 0], 2) == 16
  {
    assert ShiftLeft(4, 2) == 16 && ShiftLeft(1, 4) == 16;
    assert ShiftLeft(0, 4) == 0 && ShiftLeft(0, 2) == 0;
  }

  /**
   * When combinations + 1 is not a power of two the bus is too narrow: with
   * N = 4 it is 2 bits wide but carries index 4, and the distinct inputs
   * (0, 255, 0) and (63, 0, 0) become the bus pixels (0, 4, 0) and (1, 0, 0).
   */
  lemma NarrowBusIndices()
    ensures BusBits(4) == Ok(2) && QuantiseChannel(255, 4, true) == 4
    ensures ClampedColour([0, 255, 0], 4, true) == [0, 4, 0]
    ensures ClampedColour([63, 0, 0], 4, true) == [1, 0, 0]
  {
    assert Pow2(2) == 4 && Pow2(3) == 8;
  }

  /** ... and those two bus pixels are written as the same byte. */
  lemma NarrowBusCollision()
    ensures HexDump([[0, 4, 0]], 4) == HexDump([[1, 0, 0]], 4) == Ok(HexToken(16))
  {
    assert Pow2(2) == 4 && Pow2(3) == 8;
    PackCollision();
    SingleBytePixel([0, 4, 0], 2);
    SingleBytePixel([1, 0, 0], 2);
    HexDumpOk([[0, 4, 0]], 4, 2, HexToken(16));
    HexDumpOk([[1, 0, 0]], 4, 2, HexToken(16));
  }
}
