/** The channel quantiser: `round` and `clamp_colour`; N is `combinations`. */
module Quantiser {
  import opened Images
  import opened Arith

  /**
   * k is num / b rounded to the nearest integer, a half rounding up (away
   * from zero, as `f32::round` does for the non-negative quotients here).
   */
  predicate NearestIndex(num: int, b: int, k: int) {
    2 * k * b - b <= 2 * num < 2 * k * b + b
  }

  /** The nearest index of num / b is unique: it is the quotient (2 * num + b) / (2 * b). */
  lemma NearestIndexIsQuotient(num: nat, b: nat)
    requires b >= 1
    ensures NearestIndex(num, b, (2 * num + b) / (2 * b))
    ensures forall k :: NearestIndex(num, b, k) ==> k == (2 * num + b) / (2 * b)
  {
    var n := 2 * num + b;
    var q := n / (2 * b);
    assert n == q * (2 * b) + n % (2 * b);
    assert 2 * q * b == q * (2 * b);
    forall k | NearestIndex(num, b, k)
      ensures k == q
    {
      assert 2 * k * b == k * (2 * b);
      DivModUnique(n, 2 * b, k, n - k * (2 * b));
    }
  }

  /**
   * `round(num, to_nearest)`: num rounded to the nearest multiple of
   * toNearest, or 255 when that multiple does not fit in a u8.
   * The f32 quotient of two u8 values is a half exactly when the real one is
   * and is otherwise at least 1/510 away from a half, so the integer quotient
   * below picks the same index. With toNearest == 0 the quotient is NaN or
   * infinite, the cast saturates, and multiplying by 0 gives 0.
   */
  function Round(num: Byte, toNearest: Byte): (r: Byte)
    ensures toNearest == 0 ==> r == 0
    ensures toNearest >= 1 ==> exists k :: NearestIndex(num, toNearest, k)
    ensures toNearest >= 1 ==> forall k :: NearestIndex(num, toNearest, k) ==>
              r == if k * toNearest <= 255 then k * toNearest else 255
  {
    if toNearest == 0 then 0
    else
      var n: nat, d: nat := num, toNearest;
      var k: nat := (2 * n + d) / (2 * d);
      var product: nat := k * d;
      NearestIndexIsQuotient(n, d);
      assert NearestIndex(num, toNearest, k);
      if product <= 255 then product else 255
  }

  /** Round returns k * b for the nearest index k, and 255 exactly when k * b overflows a u8 (or is 255 itself). */
  lemma RoundIsNearest(num: Byte, b: Byte, k: int)
    requires b >= 1 && NearestIndex(num, b, k)
    ensures Round(num, b) == if k * b <= 255 then k * b else 255
    ensures Round(num, b) == 255 <==> k * b >= 255
  {
    NearestIndexIsQuotient(num, b);
  }

  /** The index Round uses is non-decreasing in num. */
  lemma RoundIndexMonotonic(u: Byte, v: Byte, b: Byte)
    requires b >= 1 && u <= v
    ensures (2 * u + b) / (2 * b) <= (2 * v + b) / (2 * b)
  {
    var ku, kv := (2 * u + b) / (2 * b), (2 * v + b) / (2 * b);
    if ku > kv {
      MulMonotonic(kv + 1, ku, 2 * b);
    }
  }

  /** A multiple of b that fits in a u8 rounds to itself. */
  lemma RoundOfMultiple(k: nat, b: Byte)
    requires b >= 1 && k * b <= 255
    ensures Round(k * b, b) == k * b
  {
    assert k * (2 * b) == 2 * (k * b);
    DivModUnique(2 * (k * b) + b, 2 * b, k, b);
  }

  /** Once rounding num clamps to 255, rounding any larger value clamps as well. */
  lemma RoundClampsAbove(u: Byte, v: Byte, b: Byte)
    requires b >= 1 && u <= v
    requires (2 * u + b) / (2 * b) * b > 255
    ensures Round(v, b) == 255
  {
    var ku: nat, kv: nat := (2 * u + b) / (2 * b), (2 * v + b) / (2 * b);
    RoundIndexMonotonic(u, v, b);
    MulMonotonic(ku, kv, b);
  }

  /** Rounding an already rounded value changes nothing. */
  lemma RoundIdempotent(v: Byte, b: Byte)
    ensures Round(Round(v, b), b) == Round(v, b)
  {
    if b >= 1 {
      var k: nat := (2 * v + b) / (2 * b);
      if k * b <= 255 {
        assert Round(v, b) == k * b;
        RoundOfMultiple(k, b);
      } else {
        assert Round(v, b) == 255;
        RoundClampsAbove(v, 255, b);
      }
    }
  }

  /** `u8::MAX / combinations`: the spacing of the rounded values. */
  function BlockSize(combinations: Byte): (b: Byte)
    requires combinations >= 1
    ensures b >= 1
  {
    255 / combinations
  }

  /** The block size is the largest spacing that fits combinations blocks into 255. */
  lemma BlockSizeBounds(combinations: Byte)
    requires combinations >= 1
    ensures var b := BlockSize(combinations);
            b * combinations <= 255 < (b + 1) * combinations
  {
    var b: nat := BlockSize(combinations);
    assert b * combinations + 255 % combinations == 255;
  }

  /**
   * One channel of `clamp_colour(input, combinations, bus_mode)`: the
   * rounded value, or in bus mode the floor of its quotient by the block size.
   */
  function QuantiseChannel(v: Byte, combinations: Byte, busMode: bool): (r: Byte)
    requires combinations >= 1
    ensures var b, rounded := BlockSize(combinations), Round(v, BlockSize(combinations));
            if busMode then r * b <= rounded < r * b + b else r == rounded
  {
    FloorDivBounds(Round(v, BlockSize(combinations)), BlockSize(combinations));
    ChannelOutput(Round(v, BlockSize(combinations)), BlockSize(combinations), busMode)
  }

  /** What `clamp_colour` stores for a rounded channel: the value itself, or in bus mode its bus index. */
  function ChannelOutput(rounded: Byte, blockSize: Byte, busMode: bool): Byte
    requires blockSize >= 1
  {
    if busMode then DivAtMost(rounded, blockSize); rounded / blockSize else rounded
  }

  /** The expanded channel is a multiple of the block size unless it was clamped to 255. */
  lemma ExpandedIsLevel(v: Byte, combinations: Byte)
    requires combinations >= 1
    ensures var b, expanded := BlockSize(combinations), QuantiseChannel(v, combinations, false);
            expanded % b == 0 || expanded == 255
  {
    var b: nat := BlockSize(combinations);
    var k: nat := (2 * v + b) / (2 * b);
    if k * b <= 255 {
      assert QuantiseChannel(v, combinations, false) == k * b;
      DivModUnique(k * b, b, k, 0);
    }
  }

  /**
   * The top input 255 goes to bus index 255 / block size, and that index is
   * at least combinations: the bus carries the indices 0..combinations, and
   * more when the block size does not divide 255.
   */
  lemma TopBusIndex(combinations: Byte)
    requires combinations >= 1
    ensures var b := BlockSize(combinations);
            QuantiseChannel(255, combinations, true) == 255 / b >= combinations
  {
    var b: nat := BlockSize(combinations);
    RoundTop(b);
    var q: nat := 255 / b;
    if q < combinations {
      FloorDivBounds(255, b);
      BlockSizeBounds(combinations);
      MulStrictMonotonic(q, combinations, b);
      assert false;
    }
  }

  /** Rounding 255 lands on the largest multiple of b that fits, or clamps; either way its index is 255 / b. */
  lemma RoundTop(b: Byte)
    requires b >= 1
    ensures Round(255, b) / b == 255 / b
  {
    var q: nat, k: nat := 255 / b, (2 * 255 + b) / (2 * b);
    TopIndexIsFloor(b, q, k);
    if k * b <= 255 {
      assert Round(255, b) == q * b;
      DivModUnique(q * b, b, q, 0);
    } else {
      assert Round(255, b) == 255;
    }
  }

  /** When the nearest index of 255 does not overflow it is the floor index 255 / b. */
  lemma TopIndexIsFloor(b: nat, q: nat, k: nat)
    requires b >= 1 && q == 255 / b && k == (2 * 255 + b) / (2 * b)
    ensures k * b <= 255 ==> k == q
  {
    FloorDivBounds(255, b);
    FloorDivBounds(2 * 255 + b, 2 * b);
    assert k * (2 * b) == 2 * (k * b);
    if k * b <= 255 {
      if k > q {
        MulStrictMonotonic(q, k, b);
      } else if k < q {
        MulStrictMonotonic(k, q, b);
      }
    }
  }

  /**
   * The bus channel is the expanded one divided by the block size: times the
   * block size it gives the expanded value back exactly when no clamping left
   * a remainder, and it never exceeds the index of input 255.
   */
  lemma BusIndex(v: Byte, combinations: Byte)
    requires combinations >= 1
    ensures var b, expanded, bus := BlockSize(combinations), QuantiseChannel(v, combinations, false), QuantiseChannel(v, combinations, true);
            && bus == expanded / b
            && (bus * b == expanded <==> expanded % b == 0)
            && bus <= 255 / b == QuantiseChannel(255, combinations, true)
  {
    var b: nat := BlockSize(combinations);
    var expanded: nat := QuantiseChannel(v, combinations, false);
    var bus: nat := QuantiseChannel(v, combinations, true);
    assert bus == expanded / b;
    assert expanded == bus * b + expanded % b;
    DivMonotonic(expanded, 255, b);
    TopBusIndex(combinations);
  }

  /**
   * `clamp_colour` as a value: each channel quantised on its own. A bus
   * channel never exceeds the index of 255, and an expanded channel is a
   * multiple of the block size or the clamped 255.
   */
  function ClampedColour(p: Pixel, combinations: Byte, busMode: bool): (r: Pixel)
    requires combinations >= 1
    ensures busMode ==> forall c :: 0 <= c < 3 ==> r[c] <= 255 / BlockSize(combinations)
    ensures !busMode ==> forall c :: 0 <= c < 3 ==> r[c] % BlockSize(combinations) == 0 || r[c] == 255
  {
    BusIndex(p[0], combinations);
    BusIndex(p[1], combinations);
    BusIndex(p[2], combinations);
    ExpandedIsLevel(p[0], combinations);
    ExpandedIsLevel(p[1], combinations);
    ExpandedIsLevel(p[2], combinations);
    [QuantiseChannel(p[0], combinations, busMode),
     QuantiseChannel(p[1], combinations, busMode),
     QuantiseChannel(p[2], combinations, busMode)]
  }

  /** Quantising an already quantised (expanded) pixel gives it back. */
  lemma ClampColourIdempotent(p: Pixel, combinations: Byte)
    requires combinations >= 1
    ensures ClampedColour(ClampedColour(p, combinations, false), combinations, false) == ClampedColour(p, combinations, false)
  {
    var b := BlockSize(combinations);
    RoundIdempotent(p[0], b);
    RoundIdempotent(p[1], b);
    RoundIdempotent(p[2], b);
  }

  /** The example of the `clamp_colour` comment: with N = 3, (70, 158, 237) becomes (85, 170, 255), or (1, 2, 3) on the bus. */
  lemma ClampColourExample()
    ensures ClampedColour([70, 158, 237], 3, false) == [85, 170, 255]
    ensures ClampedColour([70, 158, 237], 3, true) == [1, 2, 3]
  {
  }

  /**
   * `clamp_colour(input, combinations, bus_mode)`: fills the output channel
   * by channel with the rounded value, or in bus mode with its bus index.
   */
  method ClampColour(input: Pixel, combinations: Byte, busMode: bool) returns (output: Pixel)
    requires combinations >= 1
    ensures forall c :: 0 <= c < 3 ==> output[c] == QuantiseChannel(input[c], combinations, busMode)
    ensures output == ClampedColour(input, combinations, busMode)
  {
    output := [0, 0, 0];
    var blockSize := BlockSize(combinations);
    for channel := 0 to 3
      invariant forall c :: 0 <= c < channel ==> output[c] == ChannelOutput(Round(input[c], blockSize), blockSize, busMode)
    {
      var roundedChannel := Round(input[channel], blockSize);
      DivAtMost(roundedChannel as nat, blockSize as nat);
      if busMode {
        output := output[channel := roundedChannel / blockSize];
      } else {
        output := output[channel := roundedChannel];
      }
    }
    ClampedColourChannels(input, combinations, busMode, output);
  }

  /** A pixel whose every channel is the loop's stored value is the clamped pixel. */
  lemma ClampedColourChannels(input: Pixel, combinations: Byte, busMode: bool, output: Pixel)
    requires combinations >= 1
    requires var b := 255 / combinations;
             forall c :: 0 <= c < 3 ==> output[c] == ChannelOutput(Round(input[c], b), b, busMode)
    ensures forall c :: 0 <= c < 3 ==> output[c] == QuantiseChannel(input[c], combinations, busMode)
    ensures output == ClampedColour(input, combinations, busMode)
  {
  }
}
