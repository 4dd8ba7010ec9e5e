/** Integer colour and pixel math of the library crate: packing ARGB
    pixels as little-endian bytes, the rounded channel multiply, byte-order
    swaps with platform-dependent alpha premultiplication, the hue
    conversions of the colour picker, and the centre of a rectangle. */
module Color {
  import opened Ints
  import Numeric

  // ---------------------------------------------------------------------
  // Pixels as bytes

  /** The four bytes of a `u32` in little-endian order. An ARGB pixel
      stores blue, green, red, alpha in that order. */
  datatype Bytes = Bytes(b0: u8, b1: u8, b2: u8, b3: u8)

  function FromLeBytes(b: Bytes): (c: u32)
    ensures c as int == b.b0 as int + 0x100 * b.b1 as int + 0x1_0000 * b.b2 as int + 0x100_0000 * b.b3 as int
  {
    (b.b0 as int + 0x100 * b.b1 as int + 0x1_0000 * b.b2 as int + 0x100_0000 * b.b3 as int) as u32
  }

  function ToLeBytes(c: u32): Bytes
  {
    var q1 := c as int / 0x100;
    var q2 := q1 / 0x100;
    Bytes((c as int % 0x100) as u8, (q1 % 0x100) as u8, (q2 % 0x100) as u8, (q2 / 0x100) as u8)
  }

  /** Packing the bytes of a value gives the value back. */
  lemma PackUnpack(c: u32)
    ensures FromLeBytes(ToLeBytes(c)) == c
  {
    var q1 := c as int / 0x100;
    var q2 := q1 / 0x100;
    assert c as int == c as int % 0x100 + 0x100 * (q1 % 0x100) + 0x1_0000 * (q2 % 0x100) + 0x100_0000 * (q2 / 0x100);
  }

  /** Splitting a packed value gives back its bytes. */
  lemma BytesRoundTrip(b: Bytes)
    ensures ToLeBytes(FromLeBytes(b)) == b
  {
    var x := FromLeBytes(b) as int;
    var q1 := b.b1 as int + 0x100 * b.b2 as int + 0x1_0000 * b.b3 as int;
    var q2 := b.b2 as int + 0x100 * b.b3 as int;
    assert x == b.b0 as int + 0x100 * q1;
    assert x / 0x100 == q1 && x % 0x100 == b.b0 as int;
    assert q1 / 0x100 == q2 && q1 % 0x100 == b.b1 as int;
    assert q2 / 0x100 == b.b3 as int && q2 % 0x100 == b.b2 as int;
  }

  /** A colour's red, green and blue channels. */
  datatype Rgb = Rgb(r: u8, g: u8, b: u8)

  /** An ARGB pixel from its colour and alpha. */
  function ArgbOf(c: Rgb, alpha: u8): u32
  {
    FromLeBytes(Bytes(c.b, c.g, c.r, alpha))
  }

  function RgbOf(pixel: u32): Rgb
  {
    var b := ToLeBytes(pixel);
    Rgb(b.b2, b.b1, b.b0)
  }

  function AlphaOf(pixel: u32): u8
  {
    ToLeBytes(pixel).b3
  }

  /** A pixel is its colour and alpha, and they can be read back. */
  lemma ArgbParts(c: Rgb, alpha: u8)
    ensures RgbOf(ArgbOf(c, alpha)) == c && AlphaOf(ArgbOf(c, alpha)) == alpha
  {
    BytesRoundTrip(Bytes(c.b, c.g, c.r, alpha));
  }

  lemma ArgbOfParts(pixel: u32)
    ensures ArgbOf(RgbOf(pixel), AlphaOf(pixel)) == pixel
  {
  }

  // ---------------------------------------------------------------------
  // Channel multiply

  /** `a * b / 255` with a 16-bit intermediate, where adding 127 before
      the truncating division rounds. The result exceeds neither channel,
      255 is the identity and 0 absorbs; `MultiplyRounds` states the
      rounding. */
  function MultiplyColorChannels(a: u8, b: u8): (r: u8)
    ensures r <= a && r <= b
    ensures a == 255 ==> r == b
    ensures b == 255 ==> r == a
    ensures a == 0 || b == 0 ==> r == 0
  {
    ProductBounds(a as int, b as int);
    RoundedQuotient(a as int * b as int, a as int * b as int + 127);
    ((a as u16 * b as u16 + 127) / 255) as u8
  }

  /** The product is the nearest integer to `a * b / 255` (255 is odd, so
      there is never a tie). */
  lemma MultiplyRounds(a: u8, b: u8)
    ensures -127 <= 255 * MultiplyColorChannels(a, b) as int - a as int * b as int <= 127
  {
    ProductBounds(a as int, b as int);
    RoundedQuotient(a as int * b as int, a as int * b as int + 127);
  }

  /** The product of two channels fits in 16 bits with room for the
      rounding term, and is at most 255 times either channel. */
  lemma ProductBounds(a: int, b: int)
    requires 0 <= a < 0x100 && 0 <= b < 0x100
    ensures 0 <= a * b <= 255 * a && a * b <= 255 * b && a * b + 127 < U16_LIMIT
  {
    var a', b' := 255 - a, 255 - b;
    assert 255 * b == a * b + a' * b && a' * b >= 0;
    assert 255 * a == a * b + a * b' && a * b' >= 0;
  }

  /** The quotient of `p + 127` by 255 is within 127/255 of `p / 255`, and
      no larger than the `a` or `b` that `p` is at most 255 times. */
  lemma RoundedQuotient(p: int, wide: int)
    requires 0 <= p && wide == p + 127
    ensures -127 <= 255 * (wide / 255) - p <= 127
    ensures forall a: int | p <= 255 * a :: wide / 255 <= a
  {
  }

  /** The library's examples at half alpha; those at full and zero alpha
      are instances of `MultiplyIdentities`. */
  lemma MultiplyExamples()
    ensures MultiplyColorChannels(255, 127) == 127
    ensures MultiplyColorChannels(127, 127) == 63
    ensures MultiplyColorChannels(0, 127) == 0
  {
    assert 255 * 127 + 127 == 127 * 255 + 127;
    assert 127 * 127 + 127 == 16256;
  }

  /** For every channel, 255 is the identity and 0 absorbs, on either
      side, and the operands commute. */
  lemma MultiplyIdentities(c: u8, d: u8)
    ensures MultiplyColorChannels(c, 255) == c && MultiplyColorChannels(255, c) == c
    ensures MultiplyColorChannels(c, 0) == 0 && MultiplyColorChannels(0, c) == 0
    ensures MultiplyColorChannels(c, d) == MultiplyColorChannels(d, c)
  {
    assert c as int * d as int == d as int * c as int;
  }

  // ---------------------------------------------------------------------
  // Byte order and premultiplied alpha

  /** The two platform families the pixel code distinguishes: Windows
      wants premultiplied alpha, the others do not. */
  datatype Platform = Windows | OtherPlatform

  /** Every colour channel scaled by alpha, each rounded to the nearest
      integer. */
  function Premultiplied(c: Rgb, alpha: u8): (r: Rgb)
    ensures r.r <= alpha && r.g <= alpha && r.b <= alpha
    ensures r.r <= c.r && r.g <= c.g && r.b <= c.b
  {
    Rgb(MultiplyColorChannels(c.r, alpha), MultiplyColorChannels(c.g, alpha), MultiplyColorChannels(c.b, alpha))
  }

  /** Premultiply where the platform needs it: on Windows each colour
      channel becomes its rounded product with alpha and alpha stays; on
      other platforms the pixel is unchanged. */
  function PremultiplyAlpha(p: Platform, pixel: u32): (r: u32)
    ensures AlphaOf(r) == AlphaOf(pixel)
    ensures p.OtherPlatform? ==> r == pixel
    ensures p.Windows? ==> RgbOf(r) == Premultiplied(RgbOf(pixel), AlphaOf(pixel))
  {
    match p
    case OtherPlatform => pixel
    case Windows =>
      var b := ToLeBytes(pixel);
      var r := FromLeBytes(Bytes(MultiplyColorChannels(b.b0, b.b3), MultiplyColorChannels(b.b1, b.b3),
                                 MultiplyColorChannels(b.b2, b.b3), b.b3));
      BytesRoundTrip(Bytes(MultiplyColorChannels(b.b0, b.b3), MultiplyColorChannels(b.b1, b.b3),
                           MultiplyColorChannels(b.b2, b.b3), b.b3));
      r
  }

  /** On Windows the result is a valid premultiplied pixel: no channel
      exceeds alpha. Full alpha keeps the pixel and zero alpha clears its
      colour. */
  lemma PremultiplyFacts(p: Platform, pixel: u32)
    ensures var r := RgbOf(PremultiplyAlpha(p, pixel)); var a := AlphaOf(pixel);
            p.Windows? ==> r.r <= a && r.g <= a && r.b <= a
    ensures AlphaOf(pixel) == 255 ==> PremultiplyAlpha(p, pixel) == pixel
    ensures p.Windows? && AlphaOf(pixel) == 0 ==> RgbOf(PremultiplyAlpha(p, pixel)) == Rgb(0, 0, 0)
  {
    var c := RgbOf(pixel);
    MultiplyIdentities(c.r, 0);
    MultiplyIdentities(c.g, 0);
    MultiplyIdentities(c.b, 0);
    if p.Windows? && AlphaOf(pixel) == 255 {
      ArgbOfParts(PremultiplyAlpha(p, pixel));
      ArgbOfParts(pixel);
    }
  }

  /** Reorder a PNG pixel, read as little-endian red, green, blue, alpha,
      into ARGB (blue, green, red, alpha), premultiplying on Windows. */
  function RgbaToArgb(p: Platform, rgba: u32): (r: u32)
    ensures var s := ToLeBytes(rgba);
            AlphaOf(r) == s.b3 &&
            RgbOf(r) == (if p.Windows? then Premultiplied(Rgb(s.b0, s.b1, s.b2), s.b3) else Rgb(s.b0, s.b1, s.b2))
  {
    var s := ToLeBytes(rgba);
    var out := match p
      case Windows => Bytes(MultiplyColorChannels(s.b2, s.b3), MultiplyColorChannels(s.b1, s.b3),
                            MultiplyColorChannels(s.b0, s.b3), s.b3)
      case OtherPlatform => Bytes(s.b2, s.b1, s.b0, s.b3);
    BytesRoundTrip(out);
    FromLeBytes(out)
  }

  /** The Windows conversion is the plain reordering followed by the
      premultiply, and the plain reordering undoes itself. */
  lemma RgbaToArgbSplits(rgba: u32)
    ensures RgbaToArgb(Windows, rgba) == PremultiplyAlpha(Windows, RgbaToArgb(OtherPlatform, rgba))
    ensures RgbaToArgb(OtherPlatform, RgbaToArgb(OtherPlatform, rgba)) == rgba
  {
    var w := RgbaToArgb(Windows, rgba);
    var o := RgbaToArgb(OtherPlatform, rgba);
    ArgbOfParts(w);
    ArgbOfParts(PremultiplyAlpha(Windows, o));
    ArgbOfParts(RgbaToArgb(OtherPlatform, o));
    ArgbOfParts(rgba);
  }

  /** An opaque pixel is only reordered, on both platforms. */
  lemma OpaqueReorders(p: Platform, b: Bytes)
    requires b.b3 == 255
    ensures ToLeBytes(RgbaToArgb(p, FromLeBytes(b))) == Bytes(b.b2, b.b1, b.b0, 255)
  {
    BytesRoundTrip(b);
    MultiplyIdentities(b.b0, 255);
    MultiplyIdentities(b.b1, 255);
    MultiplyIdentities(b.b2, 255);
    BytesRoundTrip(Bytes(b.b2, b.b1, b.b0, 255));
  }

  /** The library's example: an opaque pixel with red 20, green 40 and
      blue 60 comes out with its bytes reversed on both platforms. */
  lemma PixelFormatExample(p: Platform)
    ensures ToLeBytes(RgbaToArgb(p, FromLeBytes(Bytes(20, 40, 60, 255)))) == Bytes(60, 40, 20, 255)
  {
    OpaqueReorders(p, Bytes(20, 40, 60, 255));
  }

  // ---------------------------------------------------------------------
  // Hue

  /** The `u8` product `6 * h`, wrapping at 256. */
  function WrappingMul6(h: u8): u8
  {
    ((h as int * 6) % 0x100) as u8
  }

  /** Which of the six sections of the 0..255 hue circle `h` lies in; the
      boundaries are the ceilings of multiples of 256/6. */
  function HueSection(h: u8): (k: nat)
    ensures k < 6
  {
    if h < 43 then 0
    else if h < 86 then 1
    else if h < 128 then 2
    else if h < 171 then 3
    else if h < 214 then 4
    else 5
  }

  /** The colour of fully saturated hue `h` whose peak channel is `full`
      and whose ramping channel is `ramp` on the way up and `fall` on the
      way down, by section: red to yellow, yellow to green, green to cyan,
      cyan to blue, blue to magenta, magenta to red. */
  function SectionRgb(k: nat, full: u8, ramp: u8, fall: u8): Rgb
    requires k < 6
  {
    match k
    case 0 => Rgb(full, ramp, 0)
    case 1 => Rgb(fall, full, 0)
    case 2 => Rgb(0, full, ramp)
    case 3 => Rgb(0, fall, full)
    case 4 => Rgb(ramp, 0, full)
    case 5 => Rgb(full, 0, fall)
  }

  /** One channel is at its peak and one is off. */
  predicate Saturated(c: Rgb, full: u8)
  {
    (c.r == full || c.g == full || c.b == full) && (c.r == 0 || c.g == 0 || c.b == 0)
  }

  lemma SectionSaturated(k: nat, full: u8, ramp: u8, fall: u8)
    requires k < 6
    ensures Saturated(SectionRgb(k, full, ramp, fall), full)
  {
  }

  /** Hue with full saturation and brightness `value`: the peak channel is
      `value`, one channel is off, and the ramping channel is the sawtooth
      scaled by `value`, so that no channel exceeds `value`. */
  function HueValueRgb(hue: u8, value: u8): (c: Rgb)
    ensures Saturated(c, value)
    ensures c.r <= value && c.g <= value && c.b <= value
  {
    var raw := WrappingMul6(hue);
    SectionSaturated(HueSection(hue), value, MultiplyColorChannels(raw, value), MultiplyColorChannels(255 - raw, value));
    SectionRgb(HueSection(hue), value, MultiplyColorChannels(raw, value), MultiplyColorChannels(255 - raw, value))
  }

  function HueValueToArgb(hue: u8, value: u8): (c: u32)
    ensures AlphaOf(c) == 255 && RgbOf(c) == HueValueRgb(hue, value)
    ensures Saturated(RgbOf(c), value)
  {
    ArgbParts(HueValueRgb(hue, value), 255);
    ArgbOf(HueValueRgb(hue, value), 255)
  }

  /** Hue with full saturation and brightness: the same colour as the
      brightness-scaled hue at full brightness. */
  function HueRgb(hue: u8): (c: Rgb)
    ensures c == HueValueRgb(hue, 255)
    ensures Saturated(c, 255)
  {
    var raw := WrappingMul6(hue);
    MultiplyIdentities(raw, 255);
    MultiplyIdentities(255 - raw, 255);
    SectionRgb(HueSection(hue), 255, raw, 255 - raw)
  }

  function HueAlphaToArgb(hue: u8, alpha: u8): (c: u32)
    ensures AlphaOf(c) == alpha && RgbOf(c) == HueRgb(hue)
    ensures Saturated(RgbOf(c), 255)
  {
    ArgbParts(HueRgb(hue), alpha);
    ArgbOf(HueRgb(hue), alpha)
  }

  /** At full brightness and full alpha the two hue conversions agree. */
  lemma HueValueFullIsHueAlphaFull(hue: u8)
    ensures HueValueToArgb(hue, 255) == HueAlphaToArgb(hue, 255)
  {
  }

  /** Within each hue section the wrapped `6 * hue` is the unwrapped one
      less 256 per earlier section: the sawtooth never wraps inside a
      section. */
  lemma HueSawtooth(hue: u8)
    ensures WrappingMul6(hue) as int == 6 * hue as int - 256 * HueSection(hue)
  {
  }

  /** Neighbouring hues differ by at most 6 in every channel, across
      section boundaries too. */
  lemma HueContinuous(hue: u8)
    requires hue < 255
    ensures Near(HueRgb(hue), HueRgb(hue + 1), 6)
  {
    SawtoothContinuous(hue);
  }

  lemma SawtoothContinuous(hue: u8)
    requires hue < 255
    ensures var raw, raw' := WrappingMul6(hue), WrappingMul6(hue + 1);
            Near(SectionRgb(HueSection(hue), 255, raw, 255 - raw), SectionRgb(HueSection(hue + 1), 255, raw', 255 - raw'), 6)
  {
    HueSawtooth(hue);
    HueSawtooth(hue + 1);
  }

  predicate Near(x: Rgb, y: Rgb, d: int)
  {
    -d <= x.r as int - y.r as int <= d && -d <= x.g as int - y.g as int <= d && -d <= x.b as int - y.b as int <= d
  }

  // ---------------------------------------------------------------------
  // Colour picker coordinates

  /** Side of one of the picker's six hue sections, in pixels. */
  const COLOR_PICKER_SECTION_WIDTH: nat := 42
  const COLOR_PICKER_NUM_SECTIONS: nat := 6
  /** Side of the square colour picker: 252 pixels. */
  const COLOR_PICKER_SIZE: nat := COLOR_PICKER_SECTION_WIDTH * COLOR_PICKER_NUM_SECTIONS

  /** The picker section column `x` lies in; columns 252 to 255 fall in
      the last section. */
  function PickerSection(x: u8): (k: nat)
    ensures k < 6
  {
    if x < 42 then 0
    else if x < 84 then 1
    else if x < 126 then 2
    else if x < 168 then 3
    else if x < 210 then 4
    else 5
  }

  /** The colour at picker column `x` as the library computes it: the
      42-pixel sections of the picker, but the ramp taken from `6 * x`
      wrapped at 256, as for the 256-step hue circle. */
  function XYRgbAsWritten(x: u8): Rgb
  {
    var raw := WrappingMul6(x);
    SectionRgb(PickerSection(x), 255, raw, 255 - raw)
  }

  /** The colour picked at column `x` and row `y`, as written: alpha is
      `255 - y`. */
  function XYToArgb252AsWritten(x: u8, y: u8): (c: u32)
    ensures AlphaOf(c) == 255 - y && Saturated(RgbOf(c), 255)
  {
    ArgbParts(XYRgbAsWritten(x), 255 - y);
    SectionSaturated(PickerSection(x), 255, WrappingMul6(x), 255 - WrappingMul6(x));
    ArgbOf(XYRgbAsWritten(x), 255 - y)
  }

  /** The ramp within a picker section: 6 per column from the section's
      first column. */
  function PickerRamp(x: u8): u8
  {
    ((6 * (x as int - 42 * PickerSection(x))) % 0x100) as u8
  }

  /** The colour at picker column `x`, with the ramp restarting at each
      section boundary as the drawn picker's does. */
  function XYRgb(x: u8): Rgb
  {
    var raw := PickerRamp(x);
    SectionRgb(PickerSection(x), 255, raw, 255 - raw)
  }

  /** The colour picked at column `x` and row `y`: the hue of the column at
      full brightness, with alpha `255 - y`. */
  function XYToArgb252(x: u8, y: u8): (c: u32)
    ensures AlphaOf(c) == 255 - y && Saturated(RgbOf(c), 255)
  {
    ArgbParts(XYRgb(x), 255 - y);
    SectionSaturated(PickerSection(x), 255, PickerRamp(x), 255 - PickerRamp(x));
    ArgbOf(XYRgb(x), 255 - y)
  }

  /** In the first section both computations agree; from the second on,
      the as-written ramp is off: at column 42 it starts at 252 instead of
      0, so the red channel drops from 255 at column 41 to 3. */
  lemma XYAsWrittenJumps()
    ensures XYRgbAsWritten(41) == Rgb(255, 246, 0)
    ensures XYRgbAsWritten(42) == Rgb(3, 255, 0)
    ensures XYRgb(42) == Rgb(255, 255, 0)
    ensures forall x: u8 | x < 42 :: XYRgbAsWritten(x) == XYRgb(x)
  {
  }

  /** Neighbouring picker columns differ by at most 9 in every channel:
      6 within a section and 9 across a boundary, where the last column of
      a section stops 9 short of the peak. */
  lemma XYContinuous(x: u8)
    requires (x as int) + 1 < COLOR_PICKER_SIZE
    ensures Near(XYRgb(x), XYRgb(x + 1), 9)
  {
    PickerRampExact(x);
    PickerRampExact(x + 1);
  }

  /** Inside the picker the ramp never wraps: it is 6 per column from the
      section's first column, at most 246. */
  lemma PickerRampExact(x: u8)
    requires (x as int) < COLOR_PICKER_SIZE
    ensures PickerRamp(x) as int == 6 * (x as int - 42 * PickerSection(x)) <= 246
  {
  }

  /** The colour picked from picker coordinates: the coordinates truncated
      to bytes. The picker is 252 pixels square. */
  function HueAlphaColorFromCoordinates(x: nat, y: nat, width: nat, height: nat): (c: u32)
    requires width == COLOR_PICKER_SIZE && height == COLOR_PICKER_SIZE
    ensures AlphaOf(c) as int == 255 - y % 0x100
    ensures RgbOf(c) == XYRgb((x % 0x100) as u8)
  {
    var column := (x % 0x100) as u8;
    var row := (y % 0x100) as u8;
    var c := XYToArgb252(column, row);
    assert c == ArgbOf(XYRgb(column), 255 - row);
    ArgbParts(XYRgb(column), 255 - row);
    c
  }

  // ---------------------------------------------------------------------
  // Geometry

  /** The centre of the rectangle with top-left corner `(x, y)`, rounding
      half sizes towards minus infinity. The sums must not overflow
      `i32`. */
  function RectangleCenter(x: i32, y: i32, width: i32, height: i32): (c: (i32, i32))
    requires I32_MIN <= x as int + Numeric.DivFloorI32(width, 2) as int <= I32_MAX
    requires I32_MIN <= y as int + Numeric.DivFloorI32(height, 2) as int <= I32_MAX
    ensures 2 * (c.0 as int - x as int) <= width as int < 2 * (c.0 as int - x as int) + 2
    ensures 2 * (c.1 as int - y as int) <= height as int < 2 * (c.1 as int - y as int) + 2
  {
    (x + Numeric.DivFloorI32(width, 2), y + Numeric.DivFloorI32(height, 2))
  }

  /** The library's examples: corners at 0, 2 and -2 with even and odd
      sizes, and a 1080p monitor above and right of the primary one. */
  lemma RectangleCenterExamples()
    ensures RectangleCenter(0, 0, 100, 100) == (50, 50)
    ensures RectangleCenter(0, 0, 101, 101) == (50, 50)
    ensures RectangleCenter(2, 2, 96, 96) == (50, 50)
    ensures RectangleCenter(2, 2, 97, 97) == (50, 50)
    ensures RectangleCenter(-2, -2, 104, 104) == (50, 50)
    ensures RectangleCenter(-2, -2, 105, 105) == (50, 50)
    ensures RectangleCenter(397, -1080, 1920, 1080) == (397 + 960, -1080 + 540)
  {
  }
}
