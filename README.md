# fpvga image converter, modelled in Dafny

`image_converter` turns a picture into two outputs:
- a preview image;
- a hex file (`image.hex`) that the fpvga board can load.

The converter works in four steps:
1. It resizes the decoded RGB image to the requested width and height by nearest-neighbour sampling (`resize`).
2. It quantises every channel (`round`, `clamp_colour`). With N = `channel_colour_combinations` and block size b = 255 / N, each channel is rounded to a multiple of b, or to 255 when that multiple overflows a `u8`. The bus index of a channel is the rounded value divided by b. Indices run from 0 to 255 / b. That top index is at least N (`TopBusIndex`), so a channel takes at least N + 1 values. For N = 3 these are 0, 85, 170 and 255 with indices 0 to 3. For N = 100 the indices run to 127. The comment at `image_converter/src/main.rs:80` says "3 discrete values" for N = 3, one fewer than the code produces.
3. In a first pass it stores the rounded colours (0..255) for the preview.
4. In a second pass it stores the bus indices ("bus mode"). It then packs each pixel's three indices into a word of `3 * bus_bits` bits and writes the low `pixel_data_bytes` bytes of each word as hex tokens (`image_hex_dump`).

The model follows that structure, one module per concern:

| file | module | models |
|---|---|---|
| `images.dfy` | `Images` | `Rgb<u8>` pixels, image buffers as a value (`Grid`) and as a mutable buffer (`Image`), `Image::new`, `get_pixel_checked` |
| `bits.dfy` | `Bits` | the shift, mask and or operators on unsigned words, defined bit by bit on naturals |
| `resampler.dfy` | `Resampler` | `resize` |
| `quantiser.dfy` | `Quantiser` | `round` and `clamp_colour` |
| `packer.dfy` | `Packer` | `image_hex_dump`: bus width, bytes per pixel, packing, byte order, hex text |
| `converter.dfy` | `Converter` | the two clamping passes of `main` and the pipeline from resized image to preview and hex text |

Each imperative part of the source is a Dafny method with loop invariants, proved equal to a specification function:
- `Resize` and `QuantiseInto` update an `array` in place, as `enumerate_pixels_mut` does.
- `ClampColour` fills its output channel by channel.
- `WritePixel`, `DumpPixels` and `ImageHexDump` build the text with the `bytes_written` counter.

`round` is a function. The properties are lemmas about the specification functions.

Decisions on the arithmetic the source leaves to `f32`:
- `round(num, b)` is the integer `k * b` with `k = (2 * num + b) / (2 * b)`, or 255 when that exceeds a `u8`.
  - For `u8` operands the `f32` quotient `num / b` is a half exactly when the exact quotient is.
  - Otherwise it is at least 1/510 away from a half, so `f32::round` picks the same `k`.
  - With `b == 0` the quotient is NaN or infinite, the saturating cast and the multiplication by 0 give 0, and the model returns 0.
- The resize coordinate `(t as f32 * (old as f32 / new as f32)) as u32` is taken to be the exact floor of `t * old / new`.
- `bus_bits`, `(ln(N + 1) / ln 2) as u8`, is taken to be the integer floor of log2(N + 1).
- `pixel_data_bytes` is the ceiling of `3 * bus_bits / 8`, computed in integers as `(bus_bits * 3 + 7) / 8`.

Facts about the code that the model keeps:
- The bus width is floor(log2(N + 1)), because `as u8` truncates the `f32` ratio of logarithms (`image_converter/src/main.rs:123-125`).
- Each pixel's bytes are written least significant first. The loop walks the `to_be_bytes()` array from index 3 down to 0 (`image_converter/src/main.rs:139-148`). `Packer.EmittedBytes` and `Packer.TwoBytePixelExample` state this.
- N is a `u8`, and `N + 1` overflows for N = 255. Below that the bus is at most 7 bits wide and a pixel takes at most 3 bytes (`Packer.PixelDataBytesRange`).
- `main` ignores the result of `image_hex_dump` (`let _ =`, `image_converter/src/main.rs:39`). `Converter.Convert` returns it anyway.

The bus is lossless exactly when N + 1 is a power of two. In that case every bus index fits in `bus_bits` bits (`Converter.BusPixelFits`, `Converter.QuantisedFitsBus`). Otherwise input 255 gets an index that needs more than `bus_bits` bits (`Converter.NarrowBusAlways`). The packed fields then overlap under `|`, and the model keeps that behaviour (`Converter.NarrowBusCollision`). The converter's own setting, N = 3, is a power-of-two case: its dump is lossless (`Converter.ConvertedDumpRoundTrip`).

## Model

| member | source | states |
|---|---|---|
| Images.Grid.PixelChecked | image_converter/src/main.rs:71 | `get_pixel_checked` is Some exactly for in-bounds coordinates, holding the pixel at row-major index y * width + x |
| Images.Image.PixelChecked | image_converter/src/main.rs:33 | reading the mutable buffer with `get_pixel_checked` agrees with the value of the buffer |
| Images.Blank | image_converter/src/main.rs:63 | `Image::new(w, h)` is a w x h grid whose every pixel is (0, 0, 0) |
| Images.Image.constructor | image_converter/src/main.rs:28 | a fresh buffer holds the blank grid of the given size |
| Resampler.NearestCoord | image_converter/src/main.rs:68-69 | the sampled coordinate s is the floor of t * old / new: s * new <= t * old < s * new + new |
| Resampler.ResampledPixel | image_converter/src/main.rs:71-73 | the target pixel is the source pixel at the sampled coordinates when the source has it, and (0, 0, 0) otherwise |
| Resampler.NearestCoordBounds | image_converter/src/main.rs:68-69 | the sampled coordinate s satisfies s * new <= t * old < (s + 1) * new; it lies inside a non-empty source axis, and equals t when the axis keeps its length |
| Resampler.Resized | image_converter/src/main.rs:59-77 | the resized grid has exactly the requested dimensions and no pixels when either is 0 |
| Resampler.ResizedAt | image_converter/src/main.rs:65-74 | each target pixel is the source pixel at the truncated scaled coordinate, or (0, 0, 0) exactly when the source is empty |
| Resampler.ResizeIdentity | image_converter/src/main.rs:68-73 | resizing to the source's own dimensions returns the source |
| Resampler.ResizeSolid | image_converter/src/main.rs:65-74 | a non-empty single-colour image resizes to a single-colour image of the same colour at any size |
| Resampler.Resize | image_converter/src/main.rs:59-77 | the in-place loop over a fresh buffer produces exactly the resized grid |
| Quantiser.Round | image_converter/src/main.rs:108-111 | with to_nearest == 0 the result is 0; otherwise a nearest index k of num / to_nearest (halves up) exists, and for any such k the result is k * to_nearest when that fits a u8 and 255 otherwise |
| Quantiser.NearestIndexIsQuotient | image_converter/src/main.rs:109 | the nearest index of num / b exists and is unique: it is (2 * num + b) / (2 * b) |
| Quantiser.RoundIsNearest | image_converter/src/main.rs:108-111 | for b >= 1 and the index k nearest to num / b (halves up), round gives k * b when that fits a u8 and 255 otherwise, and gives 255 exactly when k * b >= 255 |
| Quantiser.RoundIndexMonotonic | image_converter/src/main.rs:109 | the rounding index never decreases as num grows |
| Quantiser.RoundOfMultiple | image_converter/src/main.rs:108-111 | a multiple of b that fits a u8 rounds to itself |
| Quantiser.RoundClampsAbove | image_converter/src/main.rs:109-110 | once the product overflows for some input it overflows, giving 255, for every larger input |
| Quantiser.RoundIdempotent | image_converter/src/main.rs:108-111 | round(round(v, b), b) == round(v, b) for every b, including 0 |
| Quantiser.BlockSize | image_converter/src/main.rs:93 | `u8::MAX / combinations` is at least 1 for N from 1 to 255 |
| Quantiser.BlockSizeBounds | image_converter/src/main.rs:93 | the block size is the largest b with b * combinations <= 255 |
| Quantiser.QuantiseChannel | image_converter/src/main.rs:96-102 | without bus mode the channel is the rounded value; in bus mode it is the index r with r * b <= rounded < r * b + b, the floor of the rounded value by the block size |
| Quantiser.ExpandedIsLevel | image_converter/src/main.rs:96-101 | an expanded channel is a multiple of the block size unless it was clamped to 255 |
| Quantiser.TopBusIndex | image_converter/src/main.rs:93-99 | input 255 goes to bus index 255 / block size, which is at least N |
| Quantiser.RoundTop | image_converter/src/main.rs:96-99 | the rounded value of 255 divided by the block size is 255 / block size |
| Quantiser.TopIndexIsFloor | image_converter/src/main.rs:109 | when the rounded 255 does not overflow, its index is the floor index 255 / b |
| Quantiser.BusIndex | image_converter/src/main.rs:96-102 | the bus channel is the expanded channel divided by the block size; times the block size it gives the expanded channel back exactly when that is a multiple; it never exceeds the index of 255 |
| Quantiser.ClampedColour | image_converter/src/main.rs:90-105 | in bus mode every channel is at most the index of 255; otherwise every channel is a multiple of the block size or 255 |
| Quantiser.ClampedColourChannels | image_converter/src/main.rs:95-102 | a pixel whose channels are the values the loop body stores is the clamped colour, channel by channel |
| Quantiser.ClampColourIdempotent | image_converter/src/main.rs:93-111 | clamping an already clamped colour (not bus mode) gives it back |
| Quantiser.ClampColourExample | image_converter/src/main.rs:83-89 | with N = 3, (70, 158, 237) becomes (85, 170, 255), or (1, 2, 3) in bus mode |
| Quantiser.ClampColour | image_converter/src/main.rs:90-105 | the channel loop stores the quantised channel at each index, giving the clamped colour |
| Packer.BusBits | image_converter/src/main.rs:123-125 | the bus width w satisfies 2^w <= N + 1 < 2^(w + 1), and N = 255 is the `u8` overflow of N + 1 |
| Packer.BusBitsExamples | image_converter/src/main.rs:122 | N = 3 gives a 2-bit bus and N = 15 a 4-bit bus |
| Packer.BusBitsFacts | image_converter/src/main.rs:121-125 | for N below 255 the bus is at most 7 bits wide and grows with N |
| Packer.PixelDataBytes | image_converter/src/main.rs:127 | the byte count n is the least with 3 * bus_bits <= 8 * n |
| Packer.PixelDataBytesRange | image_converter/src/main.rs:121-127 | for N from 1 to 254 the bus is 1 to 7 bits, a pixel takes 1 to 3 bytes, and those bytes hold its 3 * bus_bits bits |
| Bits.OrDisjoint | image_converter/src/main.rs:134-137 | or-ing a value below bit k into a word shifted left by k is adding it |
| Packer.PackAdds | image_converter/src/main.rs:134-137 | when green and blue fit the bus, the or of the shifted channels is ((r << w) + g) << w plus b |
| Packer.PackLossless | image_converter/src/main.rs:133-137 | when every channel fits the bus, the word is below 2^(3w) and shifting and masking recover each channel |
| Packer.Pack | image_converter/src/main.rs:134-137 | with a bus of at most 7 bits the packed word is below 2^22, so the `u32` never drops a bit |
| Packer.ChannelsOrBound | image_converter/src/main.rs:134-137 | the or of three bytes shifted left by at most 14, 7 and 0 bits is below 2^22 |
| Packer.ToBeBytes | image_converter/src/main.rs:139 | `to_be_bytes` puts byte 3 - i of the word, counted from the least significant end, at index i; read from index 3 down to 0 the bytes rebuild any 32-bit word |
| Packer.BigEndianRecombine | image_converter/src/main.rs:139 | a 32-bit word is rebuilt from its four bytes, least significant first |
| Packer.EmittedBytes | image_converter/src/main.rs:139-148 | a pixel gets min(pixel_data_bytes, 4) bytes, and byte k written is byte k of the word counted from the least significant end |
| Packer.EmittedBytesRecombine | image_converter/src/main.rs:139-148 | a word that fits in n bytes is rebuilt from the n bytes written for it |
| Packer.HexDigit | image_converter/src/main.rs:145 | a value below 16 is written as a lower-case hex digit whose value it is |
| Packer.HexToken | image_converter/src/main.rs:145 | `{:02x?} ` is three characters: two lower-case hex digits that give the byte back, then a space |
| Packer.HexTokenExamples | image_converter/src/main.rs:145 | 0x1b, 0x23 and 0x01 are written "1b ", "23 " and "01 " |
| Packer.ParseTokensRoundTrip | image_converter/src/main.rs:145 | reading the tokens back gives the bytes |
| Packer.DumpBytesLength | image_converter/src/main.rs:131-148 | the dump writes exactly pixel_data_bytes bytes per pixel |
| Packer.HexDumpLength | image_converter/src/main.rs:131-148 | the text is 3 * pixel_data_bytes * (number of pixels) characters long |
| Packer.HexDumpTextSnoc | image_converter/src/main.rs:131-149 | the pixels are written in order: one more pixel appends its tokens |
| Packer.HexDump | image_converter/src/main.rs:115-152 | the dump fails exactly when N = 255; otherwise the text holds three characters per written byte, pixel_data_bytes bytes per pixel |
| Packer.HexDumpOk | image_converter/src/main.rs:121-152 | for N below 255 the dump succeeds with the bus width and byte count the function computes |
| Packer.HexDumpOverflow | image_converter/src/main.rs:123 | with N = 255 the dump fails on the overflow of N + 1 |
| Packer.SingleBytePixel | image_converter/src/main.rs:139-148 | at one byte per pixel, a pixel whose word fits a byte is written as that byte's token |
| Packer.PackExample | image_converter/src/main.rs:134-137 | on a 2-bit bus (1, 2, 3) packs to 0x1b |
| Packer.HexDumpExample | image_converter/src/main.rs:115-152 | with N = 3 the bus pixel (1, 2, 3) is written "1b " |
| Packer.WidePackExample | image_converter/src/main.rs:134-137 | on a 4-bit bus (1, 2, 3) packs to 0x123 |
| Packer.WideWordBytes | image_converter/src/main.rs:139 | the low bytes of 0x123 are 0x23 then 0x01 |
| Packer.TwoByteText | image_converter/src/main.rs:139-148 | at two bytes per pixel a pixel is written as the tokens of its low byte and then its second byte |
| Packer.TwoBytePixelExample | image_converter/src/main.rs:115-152 | with N = 15, (1, 2, 3) is written "23 01 ", least significant byte first |
| Packer.HexDumpRoundTrip | image_converter/src/main.rs:131-148 | when every channel fits the bus, parsing the text and reading pixel_data_bytes bytes per pixel gives the pixels back |
| Packer.ReadDumpBytes | image_converter/src/main.rs:131-148 | when every channel fits the bus, the written bytes read back, pixel by pixel, to the pixels |
| Packer.WritePixel | image_converter/src/main.rs:139-148 | the `bytes_written` loop over indices 3 down to 0 writes the tokens of the low pixel_data_bytes bytes, least significant first |
| Packer.DumpPixels | image_converter/src/main.rs:131-149 | the pixel loop writes the dump text of the buffer's pixels in row-major order |
| Packer.ImageHexDump | image_converter/src/main.rs:115-152 | the function's result is the dump of the image's pixels, or the overflow error for N = 255 |
| Converter.Quantised | image_converter/src/main.rs:31-36 | clamping every pixel keeps the grid's dimensions |
| Converter.QuantisedInto | image_converter/src/main.rs:31-36 | a clamping pass keeps the buffer's dimensions |
| Converter.QuantisedIntoAt | image_converter/src/main.rs:32-35 | after a pass, a position holds the clamped resized pixel when the resized image has it, and its old pixel otherwise |
| Converter.QuantisedIntoSameSize | image_converter/src/main.rs:27-36 | a pass over a buffer of the resized image's size clamps the resized image, whatever the buffer held |
| Converter.QuantisedIntoForgets | image_converter/src/main.rs:31-36 | when the resized image covers the buffer, the result of a pass does not depend on the buffer's previous pixels |
| Converter.QuantiseInto | image_converter/src/main.rs:31-36 | the in-place loop over `clamped_image` leaves exactly the pass's grid |
| Converter.Converted | image_converter/src/main.rs:27-43 | the preview has the requested size and only channel values that are multiples of 85; the dump always succeeds with three characters per pixel |
| Converter.PreviewLevels | image_converter/src/main.rs:31-36 | with N = 3 every preview channel is a multiple of 85 |
| Converter.DumpLength | image_converter/src/main.rs:121-148 | with N = 3 the dump succeeds with three characters per pixel |
| Converter.Convert | image_converter/src/main.rs:27-43 | resizing then the false/true passes yield the clamped preview and the hex dump of the bus-mode image |
| Converter.PowerOfTwoLevelsCases | image_converter/src/main.rs:121-125 | the values of N below 255 with N + 1 a power of two are 1, 3, 7, 15, 31, 63 and 127 |
| Converter.PowerOfTwoTopIndex | image_converter/src/main.rs:93-99 | for those counts the top bus index 255 / (255 / N) is N |
| Converter.BusPixelFits | image_converter/src/main.rs:93-137 | for those counts every bus-mode channel fits in bus_bits bits |
| Converter.QuantisedFitsBus | image_converter/src/main.rs:31-36 | for those counts the whole bus-mode image fits the bus |
| Converter.QuantisedDumpRoundTrip | image_converter/src/main.rs:31-39 | for those counts the dump of the bus-mode image succeeds and reads back to the bus-mode image |
| Converter.ConvertedDumpRoundTrip | image_converter/src/main.rs:22-39 | with the converter's N = 3 the hex text is one token per pixel and decodes to the bus-mode image |
| Converter.PackCollision | image_converter/src/main.rs:134-137 | on a 2-bit bus the index pixels (0, 4, 0) and (1, 0, 0) pack to the same word |
| Converter.NarrowBusAlways | image_converter/src/main.rs:93-125 | for N below 255 with N + 1 not a power of two, input 255 in bus mode gets an index of at least 2^bus_bits, which the bus cannot carry |
| Converter.NarrowBusIndices | image_converter/src/main.rs:93-125 | with N = 4 the bus is 2 bits wide but carries index 4; the inputs (0, 255, 0) and (63, 0, 0) become the bus pixels (0, 4, 0) and (1, 0, 0) |
| Converter.NarrowBusCollision | image_converter/src/main.rs:131-148 | the bus pixels (0, 4, 0) and (1, 0, 0) have the same dump on a 2-bit bus |

## Left out

- Console input (`read_string`, `image_converter/src/main.rs:14-19, 48-56`) and the `parse().expect` panics: the width and height are parameters of `Convert`.
- Opening and decoding the input file and `to_rgb8` (`image_converter/src/main.rs:25-26`): these are image-crate codecs. `Convert` starts from a decoded image.
- Saving `preview.png` (`image_converter/src/main.rs:41`): `Convert` returns the preview as a grid instead of encoding it.
- Creating and writing `image.hex` (`image_converter/src/main.rs:129, 145`): the text is returned instead. The model has no I/O errors, so the `?` paths are not modelled.
- The memory layout of `ImageBuffer`: the bytes of a `Vec<u8>` are not modelled. A buffer is its dimensions plus a row-major array of pixels.
- Convert: the two passes visit the buffer in index order. This is the row-major order of `enumerate_pixels_mut` (y outer, x inner), which the model takes as given.
- IEEE `f32` arithmetic is not modelled; integer equivalents replace it:
  - `round` uses an integer quotient, which is exact for `u8` operands as argued above.
  - Resampler.NearestCoord: takes the exact floor of `t * old / new`. The `f32` computation rounds the ratio and then the product, and the two differ whenever that rounding error carries the product across an integer. This already happens at dimensions of a few thousand: for old = 6244, new = 2081 and t = 2080 the `f32` product is 6241.0 but the exact floor is 6240.
  - Packer.BusBits: takes floor(log2(N + 1)) for the `f32` ratio of natural logarithms. Where N + 1 is a power of two and the rounded ratio lands just below the integer, the code would take one bit less; the model assumes the ratio is exact at integers.
- Packer.BusBits: `N = 255` is modelled as the overflow panic of a debug build. A release build would wrap `N + 1` to 0 and continue with a bus width taken from `ln 0`; that is not modelled.
- Quantiser.ClampColour: `N = 0` is a precondition (`combinations >= 1`), because `255 / 0` panics at `image_converter/src/main.rs:93`. The same precondition applies to `Quantiser.BlockSize`, `Converter.QuantiseInto` and the functions they use.
- Machine integer widths: dimensions are unbounded naturals rather than `u32`. Packed words are naturals with bit-level shift, mask and or, not `u32`. `Packer.Pack` states that with at most 7 bus bits the packed word never reaches bit 22, so a `u32` loses nothing.
