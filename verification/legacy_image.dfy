/** Pixel conversion of the original single-crate build: the same byte
    reordering as the library, but a premultiply that truncates instead of
    rounding. */
module LegacyImage {
  import opened Ints
  import opened Color

  /** `c * alpha / 255` with a 16-bit intermediate, truncated. The result
      exceeds neither operand, full alpha keeps the channel and zero alpha
      clears it; `TruncatedMultiplyFloors` states the truncation. */
  function TruncatedMultiply(c: u8, alpha: u8): (r: u8)
    ensures r <= c && r <= alpha
    ensures alpha == 255 ==> r == c
    ensures alpha == 0 ==> r == 0
  {
    ProductBounds(c as int, alpha as int);
    ((c as u16 * alpha as u16) / 255) as u8
  }

  /** The truncated product is the floor of `c * alpha / 255`: never above
      the rounded one and at most one below it. */
  lemma TruncatedMultiplyFloors(c: u8, alpha: u8)
    ensures 255 * TruncatedMultiply(c, alpha) as int <= c as int * alpha as int < 255 * TruncatedMultiply(c, alpha) as int + 255
    ensures TruncatedMultiply(c, alpha) as int <= MultiplyColorChannels(c, alpha) as int <= TruncatedMultiply(c, alpha) as int + 1
  {
    ProductBounds(c as int, alpha as int);
    MultiplyRounds(c, alpha);
  }

  /** Full alpha keeps a channel and zero alpha clears it. */
  lemma TruncatedIdentities(c: u8)
    ensures TruncatedMultiply(c, 255) == c && TruncatedMultiply(c, 0) == 0
  {
  }

  /** Premultiply where the platform needs it: on Windows each colour
      channel is truncated to `channel * alpha / 255` and alpha stays; on
      other platforms the pixel is unchanged. */
  function PremultiplyAlpha(p: Platform, pixel: u32): (r: u32)
    ensures AlphaOf(r) == AlphaOf(pixel)
    ensures p.OtherPlatform? ==> r == pixel
    ensures p.Windows? ==> var c := RgbOf(pixel); var a := AlphaOf(pixel);
      RgbOf(r) == Rgb(TruncatedMultiply(c.r, a), TruncatedMultiply(c.g, a), TruncatedMultiply(c.b, a))
  {
    match p
    case OtherPlatform => pixel
    case Windows =>
      var b := ToLeBytes(pixel);
      var out := Bytes(TruncatedMultiply(b.b0, b.b3), TruncatedMultiply(b.b1, b.b3), TruncatedMultiply(b.b2, b.b3), b.b3);
      BytesRoundTrip(out);
      FromLeBytes(out)
  }

  /** On Windows no channel of the result exceeds alpha; full alpha keeps
      the pixel and zero alpha clears its colour. */
  lemma PremultiplyFacts(p: Platform, pixel: u32)
    ensures var r := RgbOf(PremultiplyAlpha(p, pixel)); var a := AlphaOf(pixel);
            p.Windows? ==> r.r <= a && r.g <= a && r.b <= a
    ensures AlphaOf(pixel) == 255 ==> PremultiplyAlpha(p, pixel) == pixel
    ensures p.Windows? && AlphaOf(pixel) == 0 ==> RgbOf(PremultiplyAlpha(p, pixel)) == Rgb(0, 0, 0)
  {
    var c := RgbOf(pixel);
    var a := AlphaOf(pixel);
    TruncatedMultiplyFloors(c.r, a);
    TruncatedMultiplyFloors(c.g, a);
    TruncatedMultiplyFloors(c.b, a);
    TruncatedIdentities(c.r);
    TruncatedIdentities(c.g);
    TruncatedIdentities(c.b);
    if p.Windows? && a == 255 {
      ArgbOfParts(PremultiplyAlpha(p, pixel));
      ArgbOfParts(pixel);
    }
  }

  /** Premultiplied channels here and in the library differ by at most
      one, the library's never being the smaller. */
  lemma PremultiplyNearLibrary(p: Platform, pixel: u32)
    ensures var legacy := RgbOf(PremultiplyAlpha(p, pixel));
            var library := RgbOf(Color.PremultiplyAlpha(p, pixel));
            legacy.r as int <= library.r as int <= legacy.r as int + 1 && legacy.g as int <= library.g as int <= legacy.g as int + 1 &&
            legacy.b as int <= library.b as int <= legacy.b as int + 1
  {
    var c := RgbOf(pixel);
    var a := AlphaOf(pixel);
    TruncatedMultiplyFloors(c.r, a);
    TruncatedMultiplyFloors(c.g, a);
    TruncatedMultiplyFloors(c.b, a);
  }

  /** Reorder a PNG pixel from red, green, blue, alpha into ARGB, then
      premultiply where the platform needs it. */
  function RgbaToArgb(p: Platform, rgba: u32): (r: u32)
    ensures r == PremultiplyAlpha(p, Color.RgbaToArgb(OtherPlatform, rgba))
    ensures var s := ToLeBytes(rgba); AlphaOf(r) == s.b3 && (p.OtherPlatform? ==> RgbOf(r) == Rgb(s.b0, s.b1, s.b2))
  {
    var s := ToLeBytes(rgba);
    var argb := FromLeBytes(Bytes(s.b2, s.b1, s.b0, s.b3));
    BytesRoundTrip(Bytes(s.b2, s.b1, s.b0, s.b3));
    PremultiplyAlpha(p, argb)
  }

  /** An opaque pixel is only reordered, on both platforms. */
  lemma OpaqueReorders(p: Platform, b: Bytes)
    requires b.b3 == 255
    ensures ToLeBytes(RgbaToArgb(p, FromLeBytes(b))) == Bytes(b.b2, b.b1, b.b0, 255)
  {
    BytesRoundTrip(b);
    var argb := FromLeBytes(Bytes(b.b2, b.b1, b.b0, 255));
    BytesRoundTrip(Bytes(b.b2, b.b1, b.b0, 255));
    PremultiplyFacts(p, argb);
  }
}
