/** The tray icon: a square of RGBA bytes holding an opaque red disc with a
    green and blue gradient, transparent outside the disc. */
module Icon {
  import opened Ints
  import Numeric

  /** Bitwise `&` of two bytes. */
  function And(a: u8, b: u8): u8
  {
    ((a as bv8) & (b as bv8)) as u8
  }

  lemma AndMask(v: u8)
    ensures And(v, 0xFF) == v && And(v, 0) == 0
  {
  }

  /** Offset from the icon's centre, in `i32` with truncating division:
      `(2 * i - size + 1) / 2`. */
  function CentreOffset(size: nat, i: nat): int
  {
    Numeric.TruncDiv(2 * i - size + 1, 2)
  }

  /** `0xFF` where the pixel lies strictly inside the disc of diameter
      `size`, `0` elsewhere. */
  function Mask(size: nat, x: nat, y: nat): u8
  {
    Inside(size, CentreOffset(size, x), CentreOffset(size, y))
  }

  /** `0xFF` where the offsets `(dx, dy)` from the centre lie strictly
      inside the disc of diameter `size`, `0` elsewhere. */
  function Inside(size: nat, dx: int, dy: int): u8
  {
    if dx * dx + dy * dy < Numeric.TruncDiv(size * size, 4) then 0xFF else 0
  }

  /** The red, green, blue and alpha bytes of the pixel in column `x` and
      row `y`: either opaque red with the gradients `x * 128 / size` and
      `y * 128 / size`, both below 128, in green and blue, or fully
      transparent black. */
  function IconPixel(size: nat, x: nat, y: nat): (p: seq<u8>)
    requires x < size && y < size
    ensures |p| == 4
    ensures p[0] == p[3] && (p[3] == 0 || p[3] == 0xFF)
    ensures p[3] == 0 ==> p[1] == 0 && p[2] == 0
    ensures p[3] == 0xFF ==> p[1] as int == x * 128 / size < 128 && p[2] as int == y * 128 / size < 128
  {
    Below128(x, size);
    Below128(y, size);
    AndMask(Gradient(size, x));
    AndMask(Gradient(size, y));
    var mask := Mask(size, x, y);
    [mask, And(Gradient(size, x), mask), And(Gradient(size, y), mask), mask]
  }

  /** `i * 128 / size`, which fits a byte. */
  function Gradient(size: nat, i: nat): u8
    requires i < size
  {
    Below128(i, size);
    (i * 128 / size) as u8
  }

  /** Pixel `p` of a byte buffer of RGBA pixels. */
  function Quad(bytes: seq<u8>, p: nat): seq<u8>
    requires 4 * p + 4 <= |bytes|
  {
    bytes[4 * p .. 4 * p + 4]
  }

  /** Where the loops put the pixel of column `x` and row `y`: the icon is
      laid out column after column. */
  function PixelIndex(size: nat, x: nat, y: nat): nat
  {
    x * size + y
  }

  /** Generate the icon of side `size`: four bytes per pixel, columns in
      order, each column's rows in order. The size is a `u32` and the byte
      count `4 * size * size` is computed in `u32`, so it must not
      overflow. */
  method GenerateIconRgba(size: nat) returns (icon: seq<u8>)
    requires 4 * size * size < U32_LIMIT
    ensures |icon| == 4 * size * size
    ensures forall x: nat, y: nat | x < size && y < size ::
      PixelIndex(size, x, y) < size * size && Quad(icon, PixelIndex(size, x, y)) == IconPixel(size, x, y)
  {
    icon := [];
    var x, start := 0, 0;
    while x < size
      invariant x <= size && start == x * size && |icon| == 4 * start
      invariant ColumnsLaid(icon, size, x)
    {
      var prior := icon;
      icon := AppendColumn(icon, size, x, start);
      ColumnsKept(prior, icon, size, x, start);
      x, start := x + 1, start + size;
    }
  }

  /** The pixels of the first `columns` columns are in place. */
  ghost predicate ColumnsLaid(icon: seq<u8>, size: nat, columns: nat)
  {
    forall x: nat, y: nat | x < columns && x < size && y < size ::
      PixelIndex(size, x, y) < columns * size && 4 * PixelIndex(size, x, y) + 4 <= |icon| &&
      Quad(icon, PixelIndex(size, x, y)) == IconPixel(size, x, y)
  }

  /** The inner loop: append the pixels of column `x`, row after row,
      after the `start` pixels already written. */
  method AppendColumn(icon: seq<u8>, size: nat, x: nat, start: nat) returns (r: seq<u8>)
    requires x < size && |icon| == 4 * start
    ensures |r| == 4 * (start + size) && r[..|icon|] == icon
    ensures forall y: nat | y < size :: Quad(r, start + y) == IconPixel(size, x, y)
  {
    r := icon;
    var y := 0;
    while y < size
      invariant y <= size && |r| == 4 * (start + y) && r[..|icon|] == icon
      invariant forall y': nat | y' < y :: Quad(r, start + y') == IconPixel(size, x, y')
    {
      var prior := r;
      r := r + IconPixel(size, x, y);
      Appended(prior, IconPixel(size, x, y), start + y);
      y := y + 1;
    }
  }

  /** Appending column `x` after the first `x` columns lays out the first
      `x + 1`. */
  lemma ColumnsKept(prior: seq<u8>, icon: seq<u8>, size: nat, x: nat, start: nat)
    requires x < size && start == x * size && |prior| == 4 * start && ColumnsLaid(prior, size, x)
    requires |icon| == 4 * (start + size) && icon[..|prior|] == prior
    requires forall y: nat | y < size :: Quad(icon, start + y) == IconPixel(size, x, y)
    ensures ColumnsLaid(icon, size, x + 1)
  {
    assert (x + 1) * size == start + size;
    forall x': nat, y': nat | x' < x + 1 && x' < size && y' < size
      ensures PixelIndex(size, x', y') < start + size && 4 * PixelIndex(size, x', y') + 4 <= |icon| &&
              Quad(icon, PixelIndex(size, x', y')) == IconPixel(size, x', y')
    {
      PixelKept(prior, icon, size, x, start, x', y');
    }
  }

  /** One pixel of `ColumnsKept`: an earlier column's pixel is in the
      unchanged prefix, and a pixel of column `x` was just appended. */
  lemma PixelKept(prior: seq<u8>, icon: seq<u8>, size: nat, x: nat, start: nat, x': nat, y': nat)
    requires x < size && start == x * size && |prior| == 4 * start && ColumnsLaid(prior, size, x)
    requires |icon| == 4 * (start + size) && icon[..|prior|] == prior
    requires forall y: nat | y < size :: Quad(icon, start + y) == IconPixel(size, x, y)
    requires x' <= x && y' < size
    ensures PixelIndex(size, x', y') < start + size && 4 * PixelIndex(size, x', y') + 4 <= |icon| &&
            Quad(icon, PixelIndex(size, x', y')) == IconPixel(size, x', y')
  {
    var p := PixelIndex(size, x', y');
    if x' < x {
      EarlierColumn(size, x', y', x);
      assert Quad(icon, p) == icon[..|prior|][4 * p .. 4 * p + 4];
    } else {
      assert p == start + y';
    }
  }

  /** A pixel of an earlier column comes before every pixel of column
      `x`. */
  lemma EarlierColumn(size: nat, x': nat, y': nat, x: nat)
    requires x' < x && y' < size
    ensures PixelIndex(size, x', y') < x * size
  {
    var k := x - x' - 1;
    assert x * size == x' * size + size + k * size by {
      assert x == x' + 1 + k;
    }
  }

  /** Appending a pixel keeps the earlier ones and adds it as the last. */
  lemma Appended(bytes: seq<u8>, pixel: seq<u8>, count: nat)
    requires |bytes| == 4 * count && |pixel| == 4
    ensures forall p: nat | p < count :: Quad(bytes + pixel, p) == Quad(bytes, p)
    ensures Quad(bytes + pixel, count) == pixel
  {
  }

  lemma Below128(i: nat, size: nat)
    requires i < size
    ensures i * 128 / size < 128
  {
    assert i * 128 < size * 128;
  }

  /** The disc is symmetric: mirroring a column or a row, or swapping
      columns and rows, does not change which pixels are opaque. The
      mirror symmetry rests on `/` truncating towards zero. */
  lemma MaskSymmetric(size: nat, x: nat, y: nat)
    requires x < size && y < size
    ensures Mask(size, x, y) == Mask(size, size - 1 - x, y)
    ensures Mask(size, x, y) == Mask(size, x, size - 1 - y)
    ensures Mask(size, x, y) == Mask(size, y, x)
  {
    OffsetMirrored(size, x);
    OffsetMirrored(size, y);
    InsideSymmetric(size, CentreOffset(size, x), CentreOffset(size, y));
  }

  lemma InsideSymmetric(size: nat, dx: int, dy: int)
    ensures Inside(size, -dx, dy) == Inside(size, dx, dy)
    ensures Inside(size, dx, -dy) == Inside(size, dx, dy)
    ensures Inside(size, dy, dx) == Inside(size, dx, dy)
  {
    assert (-dx) * (-dx) == dx * dx;
    assert (-dy) * (-dy) == dy * dy;
  }

  lemma OffsetMirrored(size: nat, i: nat)
    requires i < size
    ensures CentreOffset(size, size - 1 - i) == -CentreOffset(size, i)
  {
    var n := 2 * i - size + 1;
    assert 2 * (size - 1 - i) - size + 1 == -n;
    Numeric.TruncDivNeg(n, 2);
  }

  /** An icon at least two pixels wide is opaque in the middle. */
  lemma CentreOpaque(size: nat)
    requires size >= 2
    ensures Mask(size, size / 2, size / 2) == 0xFF
  {
    var n := 2 * (size / 2) - size + 1;
    assert 0 <= n <= 1;
    assert CentreOffset(size, size / 2) == 0;
    Numeric.MulAtLeast(size, size);
    assert Numeric.TruncDiv(size * size, 4) == size * size / 4 >= 1;
  }
}
