/** The pixel packer and hex serialiser (`image_hex_dump`); N is `channel_colour_combinations`. */
module Packer {
  import opened Images
  import opened Arith
  import opened Bits

  /** `channel_colour_combinations + 1` is a u8 addition: with N = 255 it overflows, which panics. */
  datatype Error = AddOverflow

  datatype Result<T> = Ok(value: T) | Err(error: Error)

  /**
   * `bus_bits`: `((combinations + 1) as f32).ln() / 2.0_f32.ln()` truncated
   * to a u8, taken here as the integer floor of log2(combinations + 1).
   */
  function BusBits(combinations: Byte): (w: Result<nat>)
    ensures w.Err? <==> combinations == 255
    ensures w.Ok? ==> Pow2(w.value) <= combinations + 1 < Pow2(w.value + 1)
  {
    if combinations == 255 then Err(AddOverflow) else Ok(FloorLog2(combinations + 1))
  }

  /** The bus is 2 bits wide for N = 3 (the converter's setting) and 4 bits wide for N = 15. */
  lemma BusBitsExamples()
    ensures BusBits(3) == Ok(2) && BusBits(15) == Ok(4)
  {
    assert Pow2(2) == 4 && Pow2(3) == 8;
    assert Pow2(4) == 16 && Pow2(5) == 32;
  }

  /** For N below 255 the bus width never exceeds 7 bits and grows with N. */
  lemma BusBitsFacts(m: Byte, n: Byte)
    requires m <= n < 255
    ensures BusBits(n).Ok? && BusBits(n).value <= 7
    ensures BusBits(m).value <= BusBits(n).value
  {
    FloorLog2Monotonic(m + 1, n + 1);
    assert Pow2(8) == 256;
    if FloorLog2(n + 1) >= 8 {
      Pow2Monotonic(8, FloorLog2(n + 1));
    }
  }

  /** `pixel_data_bytes`: `((bus_bits * 3) / 8).ceil()`, the whole bytes that hold three fields of busBits bits. */
  function PixelDataBytes(busBits: nat): (n: nat)
    ensures 8 * n - 8 < 3 * busBits <= 8 * n
  {
    (busBits * 3 + 7) / 8
  }

  /** For N from 1 to 254 a pixel takes 1 to 3 bytes, and those bytes have room for its 3 * bus_bits bits. */
  lemma PixelDataBytesRange(combinations: Byte)
    requires 1 <= combinations < 255
    ensures var w := BusBits(combinations).value;
            && 1 <= w <= 7
            && 1 <= PixelDataBytes(w) <= 3
            && Pow2(3 * w) <= Pow2(8 * PixelDataBytes(w))
  {
    BusBitsFacts(combinations, combinations);
    var w := BusBits(combinations).value;
    assert Pow2(1) == 2;
    Pow2Monotonic(3 * w, 8 * PixelDataBytes(w));
  }

  /**
   * `(r as u32) << (2 * bus_bits) | (g as u32) << bus_bits | (b as u32)`.
   * With at most 7 bits per channel the word stays below 2^22, so the u32
   * never drops a bit.
   */
  function Pack(p: Pixel, busBits: nat): (word: nat)
    ensures busBits <= 7 ==> word < Pow2(22)
  {
    ChannelsOrBound(p, busBits);
    BitOr(BitOr(ShiftLeft(p[0], 2 * busBits), ShiftLeft(p[1], busBits)), p[2])
  }

  /** The or of three bytes shifted by at most 14, 7 and 0 bits stays below 2^22. */
  lemma ChannelsOrBound(p: Pixel, busBits: nat)
    ensures busBits <= 7 ==> BitOr(BitOr(ShiftLeft(p[0], 2 * busBits), ShiftLeft(p[1], busBits)), p[2]) < Pow2(22)
  {
    if busBits <= 7 {
      var red, green := ShiftLeft(p[0], 2 * busBits), ShiftLeft(p[1], busBits);
      ChannelShiftBound(p[0], 2 * busBits);
      ChannelShiftBound(p[1], busBits);
      ChannelShiftBound(p[2], 0);
      OrBound(red, green, 22);
      OrBound(BitOr(red, green), p[2], 22);
    }
  }

  /** `(word >> shift) & ((1 << bus_bits) - 1)`: the busBits-bit field of word starting at bit shift. */
  function Field(word: nat, shift: nat, busBits: nat): nat {
    LowBits(ShiftRight(word, shift), busBits)
  }

  /** The channels of a packed word, red in the highest field. */
  function Unpack(word: nat, busBits: nat): seq<nat> {
    [Field(word, 2 * busBits, busBits), Field(word, busBits, busBits), Field(word, 0, busBits)]
  }

  /** Every channel of the pixel fits in busBits bits. */
  predicate PixelFitsBus(p: Pixel, busBits: nat) {
    p[0] < Pow2(busBits) && p[1] < Pow2(busBits) && p[2] < Pow2(busBits)
  }

  /** Every channel of every pixel fits in busBits bits. */
  predicate FitsBus(pixels: seq<Pixel>, busBits: nat) {
    forall j :: 0 <= j < |pixels| ==> PixelFitsBus(pixels[j], busBits)
  }

  /** When green and blue fit in busBits bits, the packed word is ((r << w) + g) << w plus b. */
  lemma PackAdds(p: Pixel, busBits: nat)
    requires p[1] < Pow2(busBits) && p[2] < Pow2(busBits)
    ensures Pack(p, busBits) == ShiftLeft(ShiftLeft(p[0], busBits) + p[1], busBits) + p[2]
  {
    var w := busBits;
    var high := ShiftLeft(p[0], w) + p[1];
    ShiftLeftAdd(p[0], w, w, 2 * w);
    OrShifted(ShiftLeft(p[0], w), p[1], w);
    OrDisjoint(p[0], p[1], w);
    OrDisjoint(high, p[2], w);
  }

  /**
   * When every channel fits in busBits bits the fields do not overlap: the
   * packed word fits in 3 * busBits bits, and shifting and masking recovers
   * each channel.
   */
  lemma PackLossless(p: Pixel, busBits: nat)
    requires PixelFitsBus(p, busBits)
    ensures Pack(p, busBits) < Pow2(3 * busBits)
    ensures Unpack(Pack(p, busBits), busBits) == p
  {
    var w := busBits;
    var high := ShiftLeft(p[0], w) + p[1];
    PackAdds(p, w);
    var word := ShiftLeft(high, w) + p[2];
    ShiftLeftBound(p[0], p[1], w, w, 2 * w);
    ShiftLeftBound(high, p[2], 2 * w, w, 3 * w);
    SplitAt(high, p[2], w);
    SplitAt(p[0], p[1], w);
    ShiftRightAdd(word, w, w, 2 * w);
    LowBitsOfSmall(p[0], w);
  }

  /** A channel shifted left by at most 14 bits stays below 2^22. */
  lemma ChannelShiftBound(v: Byte, k: nat)
    requires k <= 14
    ensures ShiftLeft(v, k) < Pow2(22)
  {
    Pow2Monotonic(8, 22 - k);
    assert Pow2(8) == 256;
    ShiftLeftBound(v, 0, 22 - k, k, 22);
  }

  /**
   * `pixel_data.to_be_bytes()`: index 0 holds the most significant byte, so
   * read from index 3 down to 0 the bytes rebuild a 32-bit word.
   */
  function ToBeBytes(word: nat): (bytes: seq<Byte>)
    ensures |bytes| == 4
    ensures forall i :: 0 <= i < 4 ==> bytes[i] == ByteAt(word, 3 - i)
    ensures word < Pow2(32) ==> WordOf([bytes[3], bytes[2], bytes[1], bytes[0]]) == word
  {
    BigEndianRecombine(word);
    [ByteAt(word, 3), ByteAt(word, 2), ByteAt(word, 1), ByteAt(word, 0)]
  }

  /** A 32-bit word is rebuilt from its four bytes, least significant first. */
  lemma BigEndianRecombine(word: nat)
    ensures word < Pow2(32) ==> WordOf([ByteAt(word, 0), ByteAt(word, 1), ByteAt(word, 2), ByteAt(word, 3)]) == word
  {
    if word < Pow2(32) {
      LowBytesAt(word, 4, 0);
      LowBytesAt(word, 4, 1);
      LowBytesAt(word, 4, 2);
      LowBytesAt(word, 4, 3);
      assert LowBytes(word, 4) == [ByteAt(word, 0), ByteAt(word, 1), ByteAt(word, 2), ByteAt(word, 3)];
      WordOfLowBytes(word, 4);
    }
  }

  /** Byte k of word, counting from the least significant: `(word >> 8k) as u8`. */
  function ByteAt(word: nat, k: nat): Byte {
    assert Pow2(8) == 256;
    LowBits(ShiftRight(word, 8 * k), 8)
  }

  function Min(a: nat, b: nat): nat {
    if a <= b then a else b
  }

  /**
   * The bytes the inner loop of `image_hex_dump` writes for one pixel:
   * `pixel_bytes[i]` for i = 3, 2, 1, 0 while fewer than pixelDataBytes are
   * written. These are the low bytes of the word, least significant first.
   */
  function EmittedBytes(word: nat, pixelDataBytes: nat): (bytes: seq<Byte>)
    ensures |bytes| == Min(pixelDataBytes, 4)
    ensures forall k :: 0 <= k < |bytes| ==> bytes[k] == ByteAt(word, k)
  {
    var be := ToBeBytes(word);
    assert forall k :: 0 <= k < 4 ==> be[3 - k] == ByteAt(word, k) by {
      forall k | 0 <= k < 4 ensures be[3 - k] == ByteAt(word, k) {
        assert be[3 - k] == ByteAt(word, 3 - (3 - k));
      }
    }
    seq(Min(pixelDataBytes, 4), k requires 0 <= k < Min(pixelDataBytes, 4) => be[3 - k])
  }

  /** The n least significant bytes of x, least significant first. */
  function LowBytes(x: nat, n: nat): (bytes: seq<nat>)
    ensures |bytes| == n
    decreases n
  {
    if n == 0 then [] else [LowBits(x, 8)] + LowBytes(ShiftRight(x, 8), n - 1)
  }

  lemma {:induction false} LowBytesAt(x: nat, n: nat, k: nat)
    requires k < n
    ensures LowBytes(x, n)[k] == ByteAt(x, k)
    decreases k
  {
    if k > 0 {
      LowBytesAt(ShiftRight(x, 8), n - 1, k - 1);
      ShiftRightAdd(x, 8, 8 * (k - 1), 8 * k);
    }
  }

  /** The bytes of a word, least significant first, reassembled into the word. */
  function WordOf(bytes: seq<nat>): nat
  {
    if |bytes| == 0 then 0 else bytes[0] + 256 * WordOf(bytes[1..])
  }

  /** A word is 256 times its value shifted right by a byte, plus its low byte. */
  lemma ByteSplit(x: nat)
    ensures x == 256 * ShiftRight(x, 8) + LowBits(x, 8)
  {
    Decompose(x, 8);
    ShiftLeftIsMul(ShiftRight(x, 8), 8);
    assert Pow2(8) == 256;
  }

  /** A word below 2^(8n) is rebuilt from its n low bytes. */
  lemma {:induction false} WordOfLowBytes(x: nat, n: nat)
    requires x < Pow2(8 * n)
    ensures WordOf(LowBytes(x, n)) == x
    decreases n
  {
    var bytes := LowBytes(x, n);
    if n == 0 {
      assert bytes == [];
    } else {
      var rest := ShiftRight(x, 8);
      assert bytes[0] == LowBits(x, 8);
      assert bytes[1..] == LowBytes(rest, n - 1);
      ShiftRightBound(x, 8 * (n - 1), 8, 8 * n);
      WordOfLowBytes(rest, n - 1);
      assert WordOf(bytes) == bytes[0] + 256 * rest;
      ByteSplit(x);
    }
  }

  /** A word that fits in n bytes is rebuilt from the n bytes the dump emits for it. */
  lemma EmittedBytesRecombine(word: nat, n: nat)
    requires n <= 4 && word < Pow2(8 * n)
    ensures WordOf(EmittedBytes(word, n)) == word
  {
    forall k | 0 <= k < n
      ensures EmittedBytes(word, n)[k] == LowBytes(word, n)[k]
    {
      LowBytesAt(word, n, k);
    }
    assert EmittedBytes(word, n) == LowBytes(word, n);
    WordOfLowBytes(word, n);
  }

  predicate IsLowerHexDigit(c: char) {
    '0' <= c <= '9' || 'a' <= c <= 'f'
  }

  /** Hexadecimal digit d in lower case. */
  function HexDigit(d: nat): (c: char)
    requires d < 16
    ensures IsLowerHexDigit(c) && DigitValue(c) == d
  {
    if d < 10 then ('0' as int + d) as char else ('a' as int + d - 10) as char
  }

  /** The value of a lower-case hexadecimal digit. */
  function DigitValue(c: char): nat {
    if '0' <= c <= '9' then c as nat - '0' as nat
    else if 'a' <= c <= 'f' then c as nat - 'a' as nat + 10
    else 0
  }

  /** `write!(output, "{:02x?} ", byte)`: two lower-case hex digits and a space. */
  function HexToken(b: Byte): (token: string)
    ensures |token| == 3 && token[2] == ' '
    ensures IsLowerHexDigit(token[0]) && IsLowerHexDigit(token[1])
    ensures DigitValue(token[0]) * 16 + DigitValue(token[1]) == b
  {
    [HexDigit(b / 16), HexDigit(b % 16), ' ']
  }

  /** 0x1b, 0x23 and 0x01 are written "1b ", "23 " and "01 ". */
  lemma HexTokenExamples()
    ensures HexToken(27) == "1b " && HexToken(35) == "23 " && HexToken(1) == "01 "
  {
    assert HexDigit(1) == '1' && HexDigit(11) == 'b';
    assert HexDigit(2) == '2' && HexDigit(3) == '3' && HexDigit(0) == '0';
  }

  /** The tokens of a byte sequence, one after another. */
  function Tokens(bytes: seq<Byte>): (s: string)
    ensures |s| == 3 * |bytes|
  {
    if |bytes| == 0 then "" else HexToken(bytes[0]) + Tokens(bytes[1..])
  }

  lemma {:induction false} TokensAppend(a: seq<Byte>, b: seq<Byte>)
    ensures Tokens(a + b) == Tokens(a) + Tokens(b)
  {
    if |a| == 0 {
      assert a + b == b;
    } else {
      assert (a + b)[0] == a[0];
      assert (a + b)[1..] == a[1..] + b;
      TokensAppend(a[1..], b);
    }
  }

  /** Extending a prefix of the bytes by one byte extends its text by that byte's token. */
  lemma TokensSnoc(bytes: seq<Byte>, n: nat)
    requires n < |bytes|
    ensures Tokens(bytes[..n + 1]) == Tokens(bytes[..n]) + HexToken(bytes[n])
  {
    assert bytes[..n + 1] == bytes[..n] + [bytes[n]];
    TokensAppend(bytes[..n], [bytes[n]]);
    assert Tokens([bytes[n]]) == HexToken(bytes[n]) + Tokens([]);
  }

  /** Reads a text of tokens back into bytes: every three characters, two hex digits. */
  function ParseTokens(s: string): seq<nat>
  {
    if |s| < 3 then [] else [DigitValue(s[0]) * 16 + DigitValue(s[1])] + ParseTokens(s[3..])
  }

  lemma {:induction false} ParseTokensRoundTrip(bytes: seq<Byte>)
    ensures ParseTokens(Tokens(bytes)) == bytes
  {
    if |bytes| > 0 {
      var t := Tokens(bytes);
      assert t[3..] == Tokens(bytes[1..]);
      ParseTokensRoundTrip(bytes[1..]);
    }
  }

  /** The bytes the dump writes for the pixels, in order. */
  function DumpBytes(pixels: seq<Pixel>, busBits: nat, pixelDataBytes: nat): seq<Byte>
  {
    if |pixels| == 0 then []
    else EmittedBytes(Pack(pixels[0], busBits), pixelDataBytes) + DumpBytes(pixels[1..], busBits, pixelDataBytes)
  }

  lemma {:induction false} DumpBytesSnoc(pixels: seq<Pixel>, p: Pixel, busBits: nat, pixelDataBytes: nat)
    ensures DumpBytes(pixels + [p], busBits, pixelDataBytes)
         == DumpBytes(pixels, busBits, pixelDataBytes) + EmittedBytes(Pack(p, busBits), pixelDataBytes)
  {
    if |pixels| > 0 {
      assert (pixels + [p])[1..] == pixels[1..] + [p];
      DumpBytesSnoc(pixels[1..], p, busBits, pixelDataBytes);
    }
  }

  /** The text of the dump: every byte of every pixel, as a token. */
  function HexDumpText(pixels: seq<Pixel>, busBits: nat, pixelDataBytes: nat): string
  {
    Tokens(DumpBytes(pixels, busBits, pixelDataBytes))
  }

  /**
   * What `image_hex_dump(img, combinations, _)` writes to its file, or the
   * overflow it panics on: three characters for each of the pixel_data_bytes
   * bytes of each pixel.
   */
  function HexDump(pixels: seq<Pixel>, combinations: Byte): (r: Result<string>)
    ensures r.Err? <==> combinations == 255
    ensures r.Ok? ==> |r.value| == 3 * (PixelDataBytes(BusBits(combinations).value) * |pixels|)
  {
    match BusBits(combinations)
    case Err(e) => Err(e)
    case Ok(w) =>
      BusBitsFacts(combinations, combinations);
      HexDumpLength(pixels, w, PixelDataBytes(w));
      Ok(HexDumpText(pixels, w, PixelDataBytes(w)))
  }

  /** The dump writes exactly pixelDataBytes bytes per pixel. */
  lemma {:induction false} DumpBytesLength(pixels: seq<Pixel>, busBits: nat, pixelDataBytes: nat)
    requires pixelDataBytes <= 4
    ensures |DumpBytes(pixels, busBits, pixelDataBytes)| == pixelDataBytes * |pixels|
  {
    if |pixels| > 0 {
      DumpBytesLength(pixels[1..], busBits, pixelDataBytes);
      var rest := |pixels| - 1;
      assert pixelDataBytes * (rest + 1) == pixelDataBytes + pixelDataBytes * rest;
    }
  }

  /** The dump text has three characters for each of the pixelDataBytes bytes of each pixel. */
  lemma HexDumpLength(pixels: seq<Pixel>, busBits: nat, pixelDataBytes: nat)
    requires pixelDataBytes <= 4
    ensures |HexDumpText(pixels, busBits, pixelDataBytes)| == 3 * (pixelDataBytes * |pixels|)
  {
    DumpBytesLength(pixels, busBits, pixelDataBytes);
  }

  /** Appending a pixel appends its tokens to the dump text. */
  lemma HexDumpTextSnoc(pixels: seq<Pixel>, p: Pixel, busBits: nat, pixelDataBytes: nat)
    ensures HexDumpText(pixels + [p], busBits, pixelDataBytes)
         == HexDumpText(pixels, busBits, pixelDataBytes) + Tokens(EmittedBytes(Pack(p, busBits), pixelDataBytes))
  {
    DumpBytesSnoc(pixels, p, busBits, pixelDataBytes);
    TokensAppend(DumpBytes(pixels, busBits, pixelDataBytes), EmittedBytes(Pack(p, busBits), pixelDataBytes));
  }

  /** For N below 255 the dump succeeds with the bus width and byte count the source computes. */
  lemma HexDumpOk(pixels: seq<Pixel>, combinations: Byte, busBits: nat, text: string)
    requires combinations < 255 && busBits == FloorLog2(combinations + 1)
    requires text == HexDumpText(pixels, busBits, PixelDataBytes(busBits))
    ensures HexDump(pixels, combinations) == Ok(text)
  {
    assert BusBits(combinations) == Ok(busBits);
  }

  /** With N = 255 `combinations + 1` overflows before anything is written. */
  lemma HexDumpOverflow(pixels: seq<Pixel>)
    ensures HexDump(pixels, 255) == Err(AddOverflow)
  {
  }

  /** A single pixel whose word fits in one byte is dumped, one byte per pixel, as that byte's token. */
  lemma SingleBytePixel(p: Pixel, busBits: nat)
    requires Pack(p, busBits) < 256
    ensures HexDumpText([p], busBits, 1) == HexToken(Pack(p, busBits))
  {
    var word := Pack(p, busBits);
    assert ByteAt(word, 0) == word by {
      assert Pow2(8) == 256;
      LowBitsOfSmall(word, 8);
    }
    assert EmittedBytes(word, 1) == [word];
    assert DumpBytes([p], busBits, 1) == [word];
  }

  /** On a 2-bit bus (1, 2, 3) packs to 01 10 11 in binary, 0x1b. */
  lemma PackExample()
    ensures Pack([1, 2, 3], 2) == 27
  {
    assert ShiftLeft(1, 4) == 16 && ShiftLeft(2, 2) == 8;
    assert BitOr(16, 8) == 24 && BitOr(24, 3) == 27;
  }

  /** With N = 3 the bus pixel (1, 2, 3) is written as "1b ". */
  lemma HexDumpExample()
    ensures HexDump([[1, 2, 3]], 3) == Ok("1b ")
  {
    PackExample();
    SingleBytePixel([1, 2, 3], 2);
    HexTokenExamples();
    assert Pow2(2) == 4 && Pow2(3) == 8;
    HexDumpOk([[1, 2, 3]], 3, 2, "1b ");
  }


  /** On a 4-bit bus (1, 2, 3) packs to 0x123. */
  lemma WidePackExample()
    ensures Pack([1, 2, 3], 4) == 291
  {
    assert Pow2(4) == 16;
    PackAdds([1, 2, 3], 4);
    assert ShiftLeft(1, 4) == 16 && ShiftLeft(18, 4) == 288;
  }

  /** 0x123 is the bytes 0x23 and 0x01, least significant first. */
  lemma WideWordBytes()
    ensures ByteAt(291, 0) == 35 && ByteAt(291, 1) == 1
  {
    assert Pow2(8) == 256;
    ShiftLeftIsMul(1, 8);
    SplitAt(1, 35, 8);
    LowBitsOfSmall(1, 8);
  }

  /** At 2 bytes per pixel a pixel is written as the tokens of its two low bytes, least significant first. */
  lemma TwoByteText(p: Pixel, busBits: nat)
    ensures HexDumpText([p], busBits, 2)
         == HexToken(ByteAt(Pack(p, busBits), 0)) + HexToken(ByteAt(Pack(p, busBits), 1))
  {
    var word := Pack(p, busBits);
    var e := EmittedBytes(word, 2);
    assert DumpBytes([p], busBits, 2) == e;
    assert Tokens(e) == HexToken(e[0]) + Tokens(e[1..]);
    assert Tokens(e[1..]) == HexToken(e[1]) + Tokens([]);
  }

  /**
   * With N = 15 the bus is 4 bits wide and a pixel takes 2 bytes: (1, 2, 3)
   * packs to 0x123 and is written low byte first, as "23 01 ".
   */
  lemma TwoBytePixelExample()
    ensures HexDump([[1, 2, 3]], 15) == Ok("23 01 ")
  {
    WidePackExample();
    WideWordBytes();
    TwoByteText([1, 2, 3], 4);
    HexTokenExamples();
    assert Pow2(4) == 16 && Pow2(5) == 32;
    HexDumpOk([[1, 2, 3]], 15, 4, "23 01 ");
  }

  /** Reads dump bytes back into pixels, pixelDataBytes bytes per pixel. */
  function ReadPixels(bytes: seq<nat>, busBits: nat, pixelDataBytes: nat): seq<seq<nat>>
    requires 1 <= pixelDataBytes
    decreases |bytes|
  {
    if |bytes| < pixelDataBytes then []
    else [Unpack(WordOf(bytes[..pixelDataBytes]), busBits)] + ReadPixels(bytes[pixelDataBytes..], busBits, pixelDataBytes)
  }

  /**
   * When every channel fits the bus width, the dump loses nothing: reading
   * its tokens back, pixelDataBytes bytes per pixel, gives the pixels.
   */
  lemma HexDumpRoundTrip(pixels: seq<Pixel>, busBits: nat)
    requires 1 <= busBits <= 7 && FitsBus(pixels, busBits)
    ensures var n := PixelDataBytes(busBits);
            1 <= n <= 3 && ReadPixels(ParseTokens(HexDumpText(pixels, busBits, n)), busBits, n) == pixels
  {
    var n := PixelDataBytes(busBits);
    ParseTokensRoundTrip(DumpBytes(pixels, busBits, n));
    ReadDumpBytes(pixels, busBits);
  }

  lemma {:induction false} ReadDumpBytes(pixels: seq<Pixel>, busBits: nat)
    requires 1 <= busBits <= 7 && FitsBus(pixels, busBits)
    ensures var n := PixelDataBytes(busBits);
            1 <= n <= 3 && ReadPixels(DumpBytes(pixels, busBits, n), busBits, n) == pixels
  {
    var n := PixelDataBytes(busBits);
    if |pixels| > 0 {
      var p, word := pixels[0], Pack(pixels[0], busBits);
      var bytes := DumpBytes(pixels, busBits, n);
      assert PixelFitsBus(p, busBits);
      assert FitsBus(pixels[1..], busBits) by {
        assert forall j :: 0 <= j < |pixels| - 1 ==> pixels[1..][j] == pixels[j + 1];
      }
      PackLossless(p, busBits);
      Pow2Monotonic(3 * busBits, 8 * n);
      EmittedBytesRecombine(word, n);
      assert bytes[..n] == EmittedBytes(word, n);
      assert bytes[n..] == DumpBytes(pixels[1..], busBits, n);
      ReadDumpBytes(pixels[1..], busBits);
      assert ReadPixels(bytes, busBits, n) == [Unpack(word, busBits)] + ReadPixels(bytes[n..], busBits, n);
      assert pixels == [p] + pixels[1..];
    }
  }

  /**
   * The inner loop of `image_hex_dump` for one packed pixel: walks the
   * big-endian bytes from index 3 down to 0 and writes a token for each
   * while fewer than pixelDataBytes have been written.
   */
  method WritePixel(pixelData: nat, pixelDataBytes: nat) returns (text: string)
    ensures text == Tokens(EmittedBytes(pixelData, pixelDataBytes))
  {
    var pixelBytes := ToBeBytes(pixelData);
    ghost var emitted := EmittedBytes(pixelData, pixelDataBytes);
    text := "";
    var bytesWritten := 0;
    var i := 4;
    while i > 0
      invariant 0 <= i <= 4
      invariant bytesWritten == Min(4 - i, pixelDataBytes)
      invariant text == Tokens(emitted[..bytesWritten])
    {
      i := i - 1;
      if bytesWritten < pixelDataBytes {
        assert emitted[bytesWritten] == pixelBytes[i];
        TokensSnoc(emitted, bytesWritten);
        text := text + HexToken(pixelBytes[i]);
        bytesWritten := bytesWritten + 1;
      }
    }
    assert emitted[..bytesWritten] == emitted;
  }

  /**
   * The pixel loop of `image_hex_dump`: for each pixel in row-major order,
   * packs its channels and writes the low pixelDataBytes bytes of the word,
   * least significant first.
   */
  method DumpPixels(img: Image, busBits: nat, pixelDataBytes: nat) returns (output: string)
    requires img.Valid()
    ensures output == HexDumpText(img.View().pixels, busBits, pixelDataBytes)
  {
    output := "";
    var j := 0;
    while j < img.data.Length
      invariant 0 <= j <= img.data.Length
      invariant output == HexDumpText(img.data[..j], busBits, pixelDataBytes)
    {
      var pixel := img.data[j];
      var pixelData := Pack(pixel, busBits);
      var text := WritePixel(pixelData, pixelDataBytes);
      assert img.data[..j + 1] == img.data[..j] + [pixel];
      HexDumpTextSnoc(img.data[..j], pixel, busBits, pixelDataBytes);
      output := output + text;
      j := j + 1;
    }
    assert img.data[..j] == img.View().pixels;
  }

  /**
   * `image_hex_dump(img, combinations, _)`: works out the bus width and the
   * bytes per pixel, then dumps every pixel; N = 255 overflows the u8
   * addition and panic.
   */
  method ImageHexDump(img: Image, combinations: Byte) returns (r: Result<string>)
    requires img.Valid()
    ensures r == HexDump(img.View().pixels, combinations)
  {
    ghost var pixels := img.View().pixels;
    if combinations == 255 {
      HexDumpOverflow(pixels);
      return Err(AddOverflow);
    }
    var busBits := FloorLog2(combinations + 1);
    var pixelDataBytes := (busBits * 3 + 7) / 8;
    var output := DumpPixels(img, busBits, pixelDataBytes);
    assert pixelDataBytes == PixelDataBytes(busBits);
    HexDumpOk(pixels, combinations, busBits, output);
    r := Ok(output);
  }
}
