/** The colour picker image: 252 by 252 pixels, six 42-pixel hue sections
    from left to right, brightness falling from the top row down. */
module ColorPicker {
  import opened Ints
  import opened Color

  /** `u8` addition and subtraction that wrap at 256. */
  function WrappingAdd(a: u8, b: u8): u8
  {
    ((a as int + b as int) % 0x100) as u8
  }

  function WrappingSub(a: u8, b: u8): u8
  {
    ((a as int - b as int) % 0x100) as u8
  }

  /** The pixel at column `x` and row `y` of a picker-sized buffer, stored
      row after row. */
  function Pixel(buffer: seq<u32>, x: nat, y: nat): u32
    requires x < COLOR_PICKER_SIZE && y < COLOR_PICKER_SIZE
    requires |buffer| == 252 * 252
  {
    buffer[y * 252 + x]
  }

  /** The colour the picker shows at column `x` and row `y`: the section's
      hue ramp, 6 per column from the section's first column, with every
      channel scaled by the row's brightness `255 - y`. */
  function PickerRgb(x: nat, y: nat): Rgb
    requires x < COLOR_PICKER_SIZE && y < COLOR_PICKER_SIZE
  {
    var column := x % COLOR_PICKER_SECTION_WIDTH;
    var value := (255 - y) as u8;
    SectionRgb(x / COLOR_PICKER_SECTION_WIDTH, value,
               MultiplyColorChannels((6 * column) as u8, value),
               MultiplyColorChannels((255 - 6 * column) as u8, value))
  }

  /** The picker's colour in column `c` of section `k`. */
  lemma PickerRgbAt(k: nat, c: nat, y: nat)
    requires k < COLOR_PICKER_NUM_SECTIONS && c < COLOR_PICKER_SECTION_WIDTH && y < COLOR_PICKER_SIZE
    ensures var value := (255 - y) as u8;
            PickerRgb(COLOR_PICKER_SECTION_WIDTH * k + c, y)
            == SectionRgb(k, value, MultiplyColorChannels((6 * c) as u8, value),
                          MultiplyColorChannels((255 - 6 * c) as u8, value))
  {
    var x := COLOR_PICKER_SECTION_WIDTH * k + c;
    assert x / COLOR_PICKER_SECTION_WIDTH == k && x % COLOR_PICKER_SECTION_WIDTH == c;
  }

  /** The bytes the drawing loop writes in section `k`, given the row's
      brightness and the two ramps already scaled by it. */
  function SectionBytes(k: nat, value: u8, up: u8, down: u8): Bytes
    requires k < COLOR_PICKER_NUM_SECTIONS
  {
    match k
    case 0 => Bytes(0, up, value, 255)
    case 1 => Bytes(0, value, down, 255)
    case 2 => Bytes(up, value, 0, 255)
    case 3 => Bytes(value, down, 0, 255)
    case 4 => Bytes(value, 0, up, 255)
    case 5 => Bytes(down, 0, value, 255)
  }

  /** Draw the picker into `buffer`, which must be exactly picker-sized.
      Each row keeps a rising and a falling ramp, one step of 6 per
      column, written to all six sections at once, and the brightness
      drops by one per row. None of the byte counters ever wraps. */
  method DrawColorPicker(buffer: seq<u32>) returns (out: seq<u32>)
    requires |buffer| == 252 * 252
    ensures |out| == |buffer|
    ensures forall x: nat, y: nat | x < COLOR_PICKER_SIZE && y < COLOR_PICKER_SIZE ::
      Pixel(out, x, y) == ArgbOf(PickerRgb(x, y), 255)
  {
    out := buffer;
    var value: u8 := 255;
    var row := 0;
    while row < COLOR_PICKER_SIZE
      invariant row <= COLOR_PICKER_SIZE && |out| == |buffer| && value as int == 255 - row
      invariant RowsDrawn(out, row)
    {
      out := DrawRow(out, row, value);
      assert WrappingSub(value, 1) as int == value as int - 1;
      value := WrappingSub(value, 1);
      row := row + 1;
    }
  }

  /** The first `rows` rows of the buffer hold the picker. */
  ghost predicate RowsDrawn(out: seq<u32>, rows: nat)
  {
    |out| == 252 * 252 &&
    forall x: nat, y: nat | x < COLOR_PICKER_SIZE && y < rows && y < COLOR_PICKER_SIZE ::
      Pixel(out, x, y) == ArgbOf(PickerRgb(x, y), 255)
  }

  /** The inner loop: draw row `row` at brightness `value`, column by
      column across all six sections at once, leaving the other rows as
      they were. */
  method DrawRow(before: seq<u32>, row: nat, value: u8) returns (out: seq<u32>)
    requires row < COLOR_PICKER_SIZE && |before| == 252 * 252 && value as int == 255 - row
    ensures |out| == |before|
    ensures forall x: nat | x < COLOR_PICKER_SIZE :: Pixel(out, x, row) == ArgbOf(PickerRgb(x, row), 255)
    ensures forall x: nat, y: nat | x < COLOR_PICKER_SIZE && y < COLOR_PICKER_SIZE && y != row ::
      Pixel(out, x, y) == Pixel(before, x, y)
  {
    out := before;
    var rampUp: u8 := 0;
    var rampDown: u8 := 255;
    var col := 0;
    while col < COLOR_PICKER_SECTION_WIDTH
      invariant col <= COLOR_PICKER_SECTION_WIDTH && |out| == |before|
      invariant rampUp as int == 6 * col && rampDown as int == 255 - 6 * col
      invariant RowProgress(before, out, row, col)
    {
      var rampUpTimesValue := MultiplyColorChannels(rampUp, value);
      var rampDownTimesValue := MultiplyColorChannels(rampDown, value);
      RowStep(before, out, row, col, value, rampUp, rampDown);
      out := WriteColumn(out, row, col, value, rampUpTimesValue, rampDownTimesValue);
      RampStep(rampUp, rampDown, col);
      rampUp := WrappingAdd(rampUp, 6);
      rampDown := WrappingSub(rampDown, 6);
      col := col + 1;
    }
  }

  /** Within a section the ramps step by 6 without wrapping. */
  lemma RampStep(rampUp: u8, rampDown: u8, col: nat)
    requires col < COLOR_PICKER_SECTION_WIDTH && rampUp as int == 6 * col && rampDown as int == 255 - 6 * col
    ensures WrappingAdd(rampUp, 6) as int == 6 * (col + 1)
    ensures WrappingSub(rampDown, 6) as int == 255 - 6 * (col + 1)
  {
  }

  /** Midway through row `row`: the other rows are as they were, and the
      first `col` columns of every section of the row are drawn. */
  ghost predicate RowProgress(before: seq<u32>, out: seq<u32>, row: nat, col: nat)
  {
    |before| == 252 * 252 && |out| == 252 * 252 && row < COLOR_PICKER_SIZE &&
    (forall x: nat, y: nat | x < COLOR_PICKER_SIZE && y < COLOR_PICKER_SIZE && y != row ::
       Pixel(out, x, y) == Pixel(before, x, y)) &&
    (forall x: nat | x < COLOR_PICKER_SIZE && x % COLOR_PICKER_SECTION_WIDTH < col ::
       Pixel(out, x, row) == ArgbOf(PickerRgb(x, row), 255))
  }

  /** A column step carries the row's progress one column on. */
  lemma RowStep(before: seq<u32>, out: seq<u32>, row: nat, col: nat, value: u8, rampUp: u8, rampDown: u8)
    requires col < COLOR_PICKER_SECTION_WIDTH && RowProgress(before, out, row, col)
    requires value as int == 255 - row && rampUp as int == 6 * col && rampDown as int == 255 - 6 * col
    ensures RowProgress(before, WriteColumn(out, row, col, value, MultiplyColorChannels(rampUp, value),
                                            MultiplyColorChannels(rampDown, value)), row, col + 1)
  {
    ColumnWritten(out, row, col, value, rampUp, rampDown);
  }

  /** One step of the drawing loop: column `col` of all six sections of
      row `row`, left to right. */
  function WriteColumn(buffer: seq<u32>, row: nat, col: nat, value: u8, up: u8, down: u8): (r: seq<u32>)
    requires row < COLOR_PICKER_SIZE && col < COLOR_PICKER_SECTION_WIDTH && |buffer| == 252 * 252
    ensures |r| == |buffer|
  {
    var o := row * 252;
    buffer[o + col := FromLeBytes(SectionBytes(0, value, up, down))]
          [o + 42 + col := FromLeBytes(SectionBytes(1, value, up, down))]
          [o + 84 + col := FromLeBytes(SectionBytes(2, value, up, down))]
          [o + 126 + col := FromLeBytes(SectionBytes(3, value, up, down))]
          [o + 168 + col := FromLeBytes(SectionBytes(4, value, up, down))]
          [o + 210 + col := FromLeBytes(SectionBytes(5, value, up, down))]
  }

  /** A column step puts the picker's colour in column `col` of every
      section of row `row` and leaves every other pixel as it was. */
  lemma ColumnWritten(before: seq<u32>, row: nat, col: nat, value: u8, rampUp: u8, rampDown: u8)
    requires row < COLOR_PICKER_SIZE && col < COLOR_PICKER_SECTION_WIDTH && |before| == 252 * 252
    requires value as int == 255 - row && rampUp as int == 6 * col && rampDown as int == 255 - 6 * col
    ensures var after := WriteColumn(before, row, col, value, MultiplyColorChannels(rampUp, value),
                                     MultiplyColorChannels(rampDown, value));
            forall x: nat | x < COLOR_PICKER_SIZE && x % COLOR_PICKER_SECTION_WIDTH == col ::
              Pixel(after, x, row) == ArgbOf(PickerRgb(x, row), 255)
    ensures var after := WriteColumn(before, row, col, value, MultiplyColorChannels(rampUp, value),
                                     MultiplyColorChannels(rampDown, value));
            forall x: nat, y: nat | x < COLOR_PICKER_SIZE && y < COLOR_PICKER_SIZE &&
                                    !(y == row && x % COLOR_PICKER_SECTION_WIDTH == col) ::
              Pixel(after, x, y) == Pixel(before, x, y)
  {
    var up := MultiplyColorChannels(rampUp, value);
    var down := MultiplyColorChannels(rampDown, value);
    ColumnUntouched(before, row, col, value, up, down);
    forall x: nat | x < COLOR_PICKER_SIZE && x % COLOR_PICKER_SECTION_WIDTH == col
      ensures Pixel(WriteColumn(before, row, col, value, up, down), x, row) == ArgbOf(PickerRgb(x, row), 255)
    {
      ColumnPicker(before, row, col, value, rampUp, rampDown, x);
    }
  }

  /** The pixel a column step writes in column `x` is the picker's. */
  lemma ColumnPicker(before: seq<u32>, row: nat, col: nat, value: u8, rampUp: u8, rampDown: u8, x: nat)
    requires row < COLOR_PICKER_SIZE && col < COLOR_PICKER_SECTION_WIDTH && |before| == 252 * 252
    requires value as int == 255 - row && rampUp as int == 6 * col && rampDown as int == 255 - 6 * col
    requires x < COLOR_PICKER_SIZE && x % COLOR_PICKER_SECTION_WIDTH == col
    ensures var after := WriteColumn(before, row, col, value, MultiplyColorChannels(rampUp, value),
                                     MultiplyColorChannels(rampDown, value));
            Pixel(after, x, row) == ArgbOf(PickerRgb(x, row), 255)
  {
    var up := MultiplyColorChannels(rampUp, value);
    var down := MultiplyColorChannels(rampDown, value);
    var k := x / COLOR_PICKER_SECTION_WIDTH;
    assert x == COLOR_PICKER_SECTION_WIDTH * k + col;
    assert rampUp == (6 * col) as u8 && rampDown == (255 - 6 * col) as u8 && value == (255 - row) as u8;
    PickerRgbAt(k, col, row);
    assert PickerRgb(x, row) == SectionRgb(k, value, up, down);
    ColumnPixel(before, row, col, value, up, down, k);
    SectionPixel(k, value, up, down);
  }

  /** A column step writes nothing outside its six pixels. */
  lemma ColumnUntouched(before: seq<u32>, row: nat, col: nat, value: u8, up: u8, down: u8)
    requires row < COLOR_PICKER_SIZE && col < COLOR_PICKER_SECTION_WIDTH && |before| == 252 * 252
    ensures forall x: nat, y: nat | x < COLOR_PICKER_SIZE && y < COLOR_PICKER_SIZE &&
                                    !(y == row && x % COLOR_PICKER_SECTION_WIDTH == col) ::
      Pixel(WriteColumn(before, row, col, value, up, down), x, y) == Pixel(before, x, y)
  {
  }

  /** The pixel a column step writes in section `k`. */
  lemma ColumnPixel(before: seq<u32>, row: nat, col: nat, value: u8, up: u8, down: u8, k: nat)
    requires row < COLOR_PICKER_SIZE && col < COLOR_PICKER_SECTION_WIDTH && |before| == 252 * 252
    requires k < COLOR_PICKER_NUM_SECTIONS
    ensures Pixel(WriteColumn(before, row, col, value, up, down), COLOR_PICKER_SECTION_WIDTH * k + col, row)
         == FromLeBytes(SectionBytes(k, value, up, down))
  {
  }

  /** Each section's bytes are the picker colour of that section, opaque. */
  lemma SectionPixel(k: nat, value: u8, up: u8, down: u8)
    requires k < COLOR_PICKER_NUM_SECTIONS
    ensures FromLeBytes(SectionBytes(k, value, up, down)) == ArgbOf(SectionRgb(k, value, up, down), 255)
  {
  }

  /** Every pixel of the picker is opaque, the top-left and bottom-right
      ones included, so neither is zero. */
  lemma PickerOpaque(x: nat, y: nat)
    requires x < COLOR_PICKER_SIZE && y < COLOR_PICKER_SIZE
    ensures AlphaOf(ArgbOf(PickerRgb(x, y), 255)) == 255
    ensures ArgbOf(PickerRgb(x, y), 255) != 0
  {
    ArgbParts(PickerRgb(x, y), 255);
  }

  /** Inside the picker, the section tests by comparison are division by
      the section width. */
  lemma PickerSectionIsQuotient(x: u8)
    requires (x as int) < COLOR_PICKER_SIZE
    ensures PickerSection(x) == x as int / COLOR_PICKER_SECTION_WIDTH
  {
  }

  /** Scaling a saturated section colour by `value` gives the section
      colour whose peak is `value`. */
  lemma ScaledSection(k: nat, ramp: u8, value: u8)
    requires k < 6
    ensures Premultiplied(SectionRgb(k, 255, ramp, 255 - ramp), value)
         == SectionRgb(k, value, MultiplyColorChannels(ramp, value), MultiplyColorChannels(255 - ramp, value))
  {
    var full, up, down := MultiplyColorChannels(255, value), MultiplyColorChannels(ramp, value), MultiplyColorChannels(255 - ramp, value);
    assert full == value && MultiplyColorChannels(0, value) == 0;
    match k
    case 0 => assert Premultiplied(Rgb(255, ramp, 0), value) == Rgb(full, up, 0);
    case 1 => assert Premultiplied(Rgb(255 - ramp, 255, 0), value) == Rgb(down, full, 0);
    case 2 => assert Premultiplied(Rgb(0, 255, ramp), value) == Rgb(0, full, up);
    case 3 => assert Premultiplied(Rgb(0, 255 - ramp, 255), value) == Rgb(0, down, full);
    case 4 => assert Premultiplied(Rgb(ramp, 0, 255), value) == Rgb(up, 0, full);
    case 5 => assert Premultiplied(Rgb(255, 0, 255 - ramp), value) == Rgb(full, 0, down);
  }

  /** The colour picked at a point of the picker, once premultiplied by
      its alpha as Windows does, is exactly the colour drawn there. */
  lemma PickedColorIsDrawnColor(x: nat, y: nat)
    requires x < COLOR_PICKER_SIZE && y < COLOR_PICKER_SIZE
    ensures RgbOf(PremultiplyAlpha(Windows, XYToArgb252(x as u8, y as u8))) == PickerRgb(x, y)
    ensures Premultiplied(XYRgb(x as u8), (255 - y) as u8) == PickerRgb(x, y)
  {
    PickedRgbIsDrawnRgb(x, y);
    PickedPixelParts(x as u8, y as u8);
  }

  /** The picked pixel carries the column's colour and alpha `255 - y`. */
  lemma PickedPixelParts(x: u8, y: u8)
    ensures RgbOf(XYToArgb252(x, y)) == XYRgb(x)
    ensures RgbOf(PremultiplyAlpha(Windows, XYToArgb252(x, y))) == Premultiplied(XYRgb(x), 255 - y)
  {
    ArgbParts(XYRgb(x), 255 - y);
  }

  lemma PickedRgbIsDrawnRgb(x: nat, y: nat)
    requires x < COLOR_PICKER_SIZE && y < COLOR_PICKER_SIZE
    ensures Premultiplied(XYRgb(x as u8), (255 - y) as u8) == PickerRgb(x, y)
  {
    PickerSectionIsQuotient(x as u8);
    PickerRampExact(x as u8);
    ScaledSection(x / COLOR_PICKER_SECTION_WIDTH, PickerRamp(x as u8), (255 - y) as u8);
  }

  /** The first column of the second section is yellow at the row's
      brightness. */
  lemma PickerYellowAt42(y: nat)
    requires y < COLOR_PICKER_SIZE
    ensures PickerRgb(42, y) == Rgb((255 - y) as u8, (255 - y) as u8, 0)
  {
    PickerRgbAt(1, 0, y);
    MultiplyIdentities((255 - y) as u8, 255);
    MultiplyIdentities((255 - y) as u8, 0);
  }

  /** With the ramp taken from `6 * x` wrapped at 256, the colour picked at
      column 42 keeps at most 3 of red in every row (in the top row it is
      `(3, 255, 0)`, a nearly pure green), while the picker draws yellow
      there. */
  lemma PickedColorAsWrittenDiffers(y: nat)
    requires y < COLOR_PICKER_SIZE
    ensures var value := (255 - y) as u8;
            RgbOf(PremultiplyAlpha(Windows, XYToArgb252AsWritten(42, y as u8))) == Rgb(MultiplyColorChannels(3, value), value, 0)
    ensures RgbOf(PremultiplyAlpha(Windows, XYToArgb252AsWritten(42, y as u8))) != PickerRgb(42, y)
  {
    var value := (255 - y) as u8;
    XYAsWrittenJumps();
    ArgbParts(XYRgbAsWritten(42), value);
    assert RgbOf(XYToArgb252AsWritten(42, y as u8)) == Rgb(3, 255, 0);
    PickerYellowAt42(y);
  }
}
