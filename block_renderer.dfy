/**
 * BlockRenderer: every output row covers two pixel rows. In colour mode each
 * cell is an upper half block whose foreground is the top pixel and whose
 * background is the bottom pixel; without colour the cell is one of four
 * glyphs chosen by thresholding the two brightnesses.
 */
module BlockRenderer {
  import opened Strings
  import opened Imaging
  import opened Options
  import opened FileOutputHandler

  const UpperHalfBlock: char := '▀'
  const LowerHalfBlock: char := '▄'
  const FullBlock: char := '█'
  const Space: char := ' '

  /** A pixel is light when its brightness is strictly above one half. */
  const Threshold: real := 0.5

  /** Output rows: pixel rows paired, an odd last pixel row on its own. */
  function OutputHeight(height: int): int
  {
    (height + 1) / 2
  }

  /** Output row k draws pixel rows 2k and 2k + 1, and no other. */
  lemma OutputRowsPairUp(height: int, k: int)
    requires height >= 1
    ensures 0 <= k < OutputHeight(height) <==> 0 <= 2 * k < height
  {
  }

  /**
   * The pixels below the top row 2k of output row k; past the last pixel row
   * (odd heights) the top row stands in for them.
   */
  function BottomRow(img: Image, k: int): seq<Pixel>
    requires img.Valid() && 0 <= k && 2 * k < img.height
  {
    if 2 * k + 1 < img.height then img.rows[2 * k + 1] else img.rows[2 * k]
  }

  /** GetGrayscaleChar: Invert first flips both brightnesses, then the strict threshold decides. */
  function GrayscaleChar(topBright: real, bottomBright: real, invert: bool): (c: char)
    ensures c == Space || c == FullBlock || c == UpperHalfBlock || c == LowerHalfBlock
  {
    var t := if invert then 1.0 - topBright else topBright;
    var b := if invert then 1.0 - bottomBright else bottomBright;
    var topLight := t > Threshold;
    var bottomLight := b > Threshold;
    if topLight && bottomLight then Space
    else if !topLight && !bottomLight then FullBlock
    else if !topLight && bottomLight then UpperHalfBlock
    else LowerHalfBlock
  }

  /**
   * The glyph table without Invert, both ways: a space for two light halves, a
   * full block for two dark ones, the upper block for a dark top over a light
   * bottom, the lower block for a light top over a dark bottom.
   */
  lemma GrayscaleTable(t: real, b: real)
    ensures GrayscaleChar(t, b, false) == Space <==> t > 0.5 && b > 0.5
    ensures GrayscaleChar(t, b, false) == FullBlock <==> t <= 0.5 && b <= 0.5
    ensures GrayscaleChar(t, b, false) == UpperHalfBlock <==> t <= 0.5 && b > 0.5
    ensures GrayscaleChar(t, b, false) == LowerHalfBlock <==> t > 0.5 && b <= 0.5
  {
  }

  /** The glyph that shows the opposite halves lit. */
  function Complement(c: char): char
  {
    if c == Space then FullBlock
    else if c == FullBlock then Space
    else if c == UpperHalfBlock then LowerHalfBlock
    else if c == LowerHalfBlock then UpperHalfBlock
    else c
  }

  /**
   * Away from the threshold itself, Invert draws the complementary glyph: every
   * light half turns dark and every dark half light.
   */
  lemma InvertComplements(t: real, b: real)
    requires t != 0.5 && b != 0.5
    ensures GrayscaleChar(t, b, true) == Complement(GrayscaleChar(t, b, false))
    ensures Complement(Complement(GrayscaleChar(t, b, false))) == GrayscaleChar(t, b, false)
  {
  }

  /**
   * A brightness of exactly one half is dark, with or without Invert (1 - 0.5
   * is 0.5 again), so Invert does not complement there.
   */
  lemma HalfIsDark(t: real, b: real, invert: bool)
    ensures GrayscaleChar(0.5, b, invert) == FullBlock || GrayscaleChar(0.5, b, invert) == UpperHalfBlock
    ensures GrayscaleChar(t, 0.5, invert) == FullBlock || GrayscaleChar(t, 0.5, invert) == LowerHalfBlock
    ensures GrayscaleChar(0.5, 0.5, true) == GrayscaleChar(0.5, 0.5, false) == FullBlock
  {
  }

  /** Two halves of equal brightness draw a space or a full block, never a half block. */
  lemma EqualHalves(t: real, invert: bool)
    ensures GrayscaleChar(t, t, invert) == Space || GrayscaleChar(t, t, invert) == FullBlock
  {
  }

  /** On exact luminance: a pixel is light exactly when 2 × luminance exceeds 255000. */
  lemma LightByLuminance(p: Pixel)
    ensures Brightness(p) > Threshold <==> 2 * Luminance(p) > 255000
    ensures 1.0 - Brightness(p) > Threshold <==> 2 * Luminance(p) < 255000
  {
    var l := Luminance(p) as real;
    assert Brightness(p) == l / 255000.0;
    assert l / 255000.0 > 0.5 <==> l > 127500.0;
    assert 1.0 - l / 255000.0 > 0.5 <==> l < 127500.0;
  }

  /** What the renderer appends for a top pixel over a bottom pixel. */
  function Cell(top: Pixel, bottom: Pixel, noColor: bool, invert: bool): (s: string)
    ensures noColor ==> |s| == 1
    ensures !noColor ==> |s| >= 7 && s[0] == Esc && s[|s| - 1] == UpperHalfBlock
  {
    if noColor then [GrayscaleChar(Brightness(top), Brightness(bottom), invert)]
    else Foreground(top) + Background(bottom) + [UpperHalfBlock]
  }

  /** The cells of a pair of pixel rows, column by column. */
  function Cells(top: seq<Pixel>, bottom: seq<Pixel>, noColor: bool, invert: bool): (cs: seq<string>)
    requires |top| == |bottom|
    ensures |cs| == |top|
  {
    if |top| == 0 then []
    else Cells(top[..|top| - 1], bottom[..|top| - 1], noColor, invert) + [Cell(top[|top| - 1], bottom[|top| - 1], noColor, invert)]
  }

  lemma {:induction false} CellsIndex(top: seq<Pixel>, bottom: seq<Pixel>, noColor: bool, invert: bool, x: int)
    requires |top| == |bottom| && 0 <= x < |top|
    ensures Cells(top, bottom, noColor, invert)[x] == Cell(top[x], bottom[x], noColor, invert)
  {
    if x < |top| - 1 {
      CellsIndex(top[..|top| - 1], bottom[..|top| - 1], noColor, invert, x);
    }
  }

  /** Output row k: its cells, then a reset in colour mode. */
  function Line(img: Image, k: int, noColor: bool, invert: bool): string
    requires img.Valid() && 0 <= k && 2 * k < img.height
  {
    Concat(Cells(img.rows[2 * k], BottomRow(img, k), noColor, invert)) + ResetIf(noColor)
  }

  /** All output rows. */
  function Lines(img: Image, noColor: bool, invert: bool): seq<string>
    requires img.Valid()
  {
    seq(OutputHeight(img.height), k requires 0 <= k < OutputHeight(img.height) => Line(img, k, noColor, invert))
  }

  /** Output row k of all the rows is Line k. */
  lemma LinesIndex(img: Image, noColor: bool, invert: bool, k: int)
    requires img.Valid() && 0 <= k && 2 * k < img.height
    ensures 0 <= k < |Lines(img, noColor, invert)|
    ensures Lines(img, noColor, invert)[k] == Line(img, k, noColor, invert)
  {
  }

  /** The rendered text: output rows separated by line breaks, bracketed by resets in colour mode. */
  function Art(img: Image, noColor: bool, invert: bool): (a: string)
    requires img.Valid()
    ensures !noColor ==> |a| >= 8 && a[..4] == Reset && a[|a| - 4..] == Reset
  {
    Framed(Lines(img, noColor, invert), noColor)
  }

  /**
   * For an odd height the last output row pairs the last pixel row with
   * itself; for an even height every output row has a bottom row of its own.
   */
  lemma OddLastRow(img: Image)
    requires img.Valid()
    ensures img.height % 2 == 1 ==>
      2 * (OutputHeight(img.height) - 1) == img.height - 1 &&
      BottomRow(img, OutputHeight(img.height) - 1) == img.rows[img.height - 1]
    ensures img.height % 2 == 0 ==> forall k :: 0 <= k < OutputHeight(img.height) ==>
      BottomRow(img, k) == img.rows[2 * k + 1]
  {
  }

  /** Without colour the cells of two rows are one glyph per pixel column. */
  lemma PlainCells(top: seq<Pixel>, bottom: seq<Pixel>, invert: bool)
    requires |top| == |bottom|
    ensures |Concat(Cells(top, bottom, true, invert))| == |top|
    ensures forall x :: 0 <= x < |top| ==>
      Concat(Cells(top, bottom, true, invert))[x] == GrayscaleChar(Brightness(top[x]), Brightness(bottom[x]), invert)
  {
    var cells := Cells(top, bottom, true, invert);
    forall x | 0 <= x < |top|
      ensures |cells[x]| == 1 && cells[x][0] == GrayscaleChar(Brightness(top[x]), Brightness(bottom[x]), invert)
    {
      CellsIndex(top, bottom, true, invert, x);
    }
    ConcatSingles(cells);
  }

  /** Without colour an output row is exactly one glyph per pixel column. */
  lemma PlainLine(img: Image, k: int, invert: bool)
    requires img.Valid() && 0 <= k && 2 * k < img.height
    ensures |Line(img, k, true, invert)| == img.width
    ensures forall x :: 0 <= x < img.width ==>
      Line(img, k, true, invert)[x] ==
        GrayscaleChar(Brightness(img.rows[2 * k][x]), Brightness(BottomRow(img, k)[x]), invert)
  {
    var text := Concat(Cells(img.rows[2 * k], BottomRow(img, k), true, invert));
    PlainCells(img.rows[2 * k], BottomRow(img, k), invert);
    assert text + [] == text;
  }

  /** Without colour the last output row of an odd-height image holds only spaces and full blocks. */
  lemma OddLastRowPlain(img: Image, invert: bool)
    requires img.Valid() && img.height % 2 == 1
    ensures var line := Line(img, OutputHeight(img.height) - 1, true, invert);
      forall i :: 0 <= i < |line| ==> line[i] == Space || line[i] == FullBlock
  {
    var k := OutputHeight(img.height) - 1;
    var line := Line(img, k, true, invert);
    PlainLine(img, k, invert);
    OddLastRow(img);
    forall i | 0 <= i < |line|
      ensures line[i] == Space || line[i] == FullBlock
    {
      EqualHalves(Brightness(img.rows[2 * k][i]), invert);
    }
  }

  /**
   * Without colour the output is (height + 1) / 2 rows of width glyphs:
   * splitting it at the line breaks gives back the grid of glyphs.
   */
  lemma PlainShape(img: Image, invert: bool)
    requires img.Valid()
    ensures var rows := Split(Art(img, true, invert), LineBreak);
      |rows| == OutputHeight(img.height) &&
      (forall k :: 0 <= k < |rows| ==> |rows[k]| == img.width) &&
      (forall k, x :: 0 <= k < |rows| && 0 <= x < img.width ==>
        rows[k][x] == GrayscaleChar(Brightness(img.rows[2 * k][x]), Brightness(BottomRow(img, k)[x]), invert))
  {
    var lines := Lines(img, true, invert);
    forall k | 0 <= k < |lines|
      ensures |lines[k]| == img.width
      ensures forall x :: 0 <= x < img.width ==>
        lines[k][x] == GrayscaleChar(Brightness(img.rows[2 * k][x]), Brightness(BottomRow(img, k)[x]), invert)
      ensures LineBreak !in lines[k]
    {
      LinesIndex(img, true, invert, k);
      PlainLine(img, k, invert);
    }
    FramedPlain(lines);
  }

  /** A colour cell contains no line break and strips down to the half block alone. */
  lemma CellStrips(top: Pixel, bottom: Pixel, invert: bool)
    requires top.Valid() && bottom.Valid()
    ensures LineBreak !in Cell(top, bottom, false, invert)
    ensures Clean(Cell(top, bottom, false, invert))
    ensures StripAnsiCodes(Cell(top, bottom, false, invert)) == [UpperHalfBlock]
  {
    ForegroundStripped(top);
    BackgroundStripped(bottom);
    EscapesThenChar(Foreground(top), Background(bottom), UpperHalfBlock);
  }

  /** The colour cells of two rows strip to one upper half block per pixel column. */
  lemma {:induction false} CellsStrip(top: seq<Pixel>, bottom: seq<Pixel>, invert: bool)
    requires |top| == |bottom|
    requires forall x :: 0 <= x < |top| ==> top[x].Valid() && bottom[x].Valid()
    ensures LineBreak !in Concat(Cells(top, bottom, false, invert))
    ensures Clean(Concat(Cells(top, bottom, false, invert)))
    ensures StripAnsiCodes(Concat(Cells(top, bottom, false, invert))) == seq(|top|, _ => UpperHalfBlock)
  {
    var n := |top|;
    if n == 0 {
      assert Concat([]) == [];
    } else {
      var init := Cells(top[..n - 1], bottom[..n - 1], false, invert);
      var cell := Cell(top[n - 1], bottom[n - 1], false, invert);
      CellsStrip(top[..n - 1], bottom[..n - 1], invert);
      CellStrips(top[n - 1], bottom[n - 1], invert);
      ConcatSnoc(init, cell);
      StripsToRun(Concat(init), cell, UpperHalfBlock, n - 1);
    }
  }

  /** A colour output row strips to a row of upper half blocks, one per pixel column. */
  lemma LineStrips(img: Image, k: int, invert: bool)
    requires img.Valid() && img.Bytes() && 0 <= k && 2 * k < img.height
    ensures LineBreak !in Line(img, k, false, invert)
    ensures Clean(Line(img, k, false, invert))
    ensures StripAnsiCodes(Line(img, k, false, invert)) == seq(img.width, _ => UpperHalfBlock)
  {
    var top, bottom := img.rows[2 * k], BottomRow(img, k);
    var text := Concat(Cells(top, bottom, false, invert));
    CellsStrip(top, bottom, invert);
    ResetStripped();
    CleanAppend(text, Reset);
    StripAppend(text, Reset);
    assert StripAnsiCodes(text) + [] == StripAnsiCodes(text);
  }

  /**
   * Stripping the ANSI codes from colour output leaves (height + 1) / 2 rows of
   * width upper half blocks: all the picture is in the escapes.
   */
  lemma ColourStripsToBlocks(img: Image, invert: bool)
    requires img.Valid() && img.Bytes()
    ensures StripAnsiCodes(Art(img, false, invert)) ==
      Framed(seq(OutputHeight(img.height), _ => seq(img.width, _ => UpperHalfBlock)), true)
  {
    var colour := Lines(img, false, invert);
    var plain := seq(OutputHeight(img.height), _ => seq(img.width, _ => UpperHalfBlock));
    forall k | 0 <= k < |colour|
      ensures Clean(colour[k]) && StripAnsiCodes(colour[k]) == plain[k]
    {
      LinesIndex(img, false, invert, k);
      LineStrips(img, k, invert);
    }
    StripFramed(colour, plain);
  }

  /** Every output row but the last ends in a line break: (height + 1) / 2 - 1 breaks in all. */
  lemma ArtBreaks(img: Image, noColor: bool, invert: bool)
    requires img.Valid() && img.Bytes()
    ensures multiset(Art(img, noColor, invert))[LineBreak] == OutputHeight(img.height) - 1
  {
    var lines := Lines(img, noColor, invert);
    forall k | 0 <= k < |lines|
      ensures LineBreak !in lines[k]
    {
      LinesIndex(img, noColor, invert, k);
      if noColor {
        PlainLine(img, k, invert);
      } else {
        LineStrips(img, k, invert);
      }
    }
    FramedBreaks(lines, noColor);
  }

  /** Three appends in a row add their concatenation. */
  lemma AppendThree(s: string, a: string, b: string, c: string)
    ensures s + a + b + c == s + (a + b + c)
  {
  }

  /**
   * The body of Render's inner loop: the top pixel (x, 2k), the pixel below it
   * or the top pixel again past the last row, and the cell they make appended.
   */
  method RenderCell(output: string, img: Image, k: int, x: int, noColor: bool, invert: bool) returns (result: string)
    requires img.Valid() && 0 <= k && 2 * k < img.height && 0 <= x < img.width
    ensures result == output + Cells(img.rows[2 * k], BottomRow(img, k), noColor, invert)[x]
  {
    var pixelY1 := k * 2;
    var pixelY2 := k * 2 + 1;
    var topPixel := img.rows[pixelY1][x];
    var bottomPixel := if pixelY2 < img.height then img.rows[pixelY2][x] else topPixel;
    CellsIndex(img.rows[2 * k], BottomRow(img, k), noColor, invert, x);
    result := output;
    if noColor {
      var topBright := Brightness(topPixel);
      var bottomBright := Brightness(bottomPixel);
      result := result + [GrayscaleChar(topBright, bottomBright, invert)];
    } else {
      var fg := Foreground(topPixel);
      var bg := Background(bottomPixel);
      AppendThree(result, fg, bg, [UpperHalfBlock]);
      result := result + fg;
      result := result + bg;
      result := result + [UpperHalfBlock];
    }
  }

  /** The inner loop of Render: the cells of output row k, left to right. */
  method RenderRow(img: Image, k: int, noColor: bool, invert: bool) returns (output: string)
    requires img.Valid() && 0 <= k && 2 * k < img.height
    ensures output == Concat(Cells(img.rows[2 * k], BottomRow(img, k), noColor, invert))
  {
    ghost var cells := Cells(img.rows[2 * k], BottomRow(img, k), noColor, invert);
    output := [];
    var x := 0;
    while x < img.width
      invariant 0 <= x <= img.width
      invariant output == Concat(cells[..x])
    {
      ConcatExtend(cells, x, output, cells[x]);
      output := RenderCell(output, img, k, x, noColor, invert);
      x := x + 1;
    }
    assert cells[..img.width] == cells;
  }

  /** One pass of Render's outer loop before the break: output row k's cells, then its reset in colour mode. */
  method RenderLine(output: string, img: Image, k: int, noColor: bool, invert: bool) returns (result: string)
    requires img.Valid() && 0 <= k && 2 * k < img.height
    ensures result == output + Lines(img, noColor, invert)[k]
  {
    var cells := RenderRow(img, k, noColor, invert);
    LinesIndex(img, noColor, invert, k);
    result := output + cells;
    if !noColor {
      result := result + Reset;
    } else {
      assert result + [] == result;
    }
  }

  /**
   * The outer loop of Render: every output row, closed by a reset in colour
   * mode, each but the last followed by a line break.
   */
  method RenderRows(img: Image, noColor: bool, invert: bool, pre: string) returns (output: string)
    requires img.Valid()
    ensures output == RowsSoFar(pre, Lines(img, noColor, invert), OutputHeight(img.height))
  {
    ghost var lines := Lines(img, noColor, invert);
    assert |lines| == OutputHeight(img.height);
    output := pre;
    var charY := 0;
    while charY < OutputHeight(img.height)
      invariant 0 <= charY <= OutputHeight(img.height)
      invariant output == RowsSoFar(pre, Lines(img, noColor, invert), charY)
    {
      output := AppendRow(output, img, charY, noColor, invert, pre);
      charY := charY + 1;
    }
  }

  /** One pass of the row loop: row charY, then a line break unless it is the last row. */
  method AppendRow(output: string, img: Image, charY: int, noColor: bool, invert: bool, ghost pre: string) returns (next: string)
    requires img.Valid() && 0 <= charY < OutputHeight(img.height)
    requires output == RowsSoFar(pre, Lines(img, noColor, invert), charY)
    ensures next == RowsSoFar(pre, Lines(img, noColor, invert), charY + 1)
  {
    ghost var lines := Lines(img, noColor, invert);
    var outputHeight := (img.height + 1) / 2;
    OutputRowsPairUp(img.height, charY);
    next := RenderLine(output, img, charY, noColor, invert);
    var sep: string := if charY < outputHeight - 1 then [LineBreak] else [];
    RowsSoFarAppend(pre, lines, charY, output, lines[charY], sep);
    next := next + sep;
  }

  /** Render: output rows separated by line breaks, the whole bracketed by resets in colour mode. */
  method Render(img: Image, options: RenderOptions) returns (output: string)
    requires img.Valid()
    ensures output == Art(img, options.noColor, options.invert)
  {
    ghost var lines := Lines(img, options.noColor, options.invert);
    assert |lines| == OutputHeight(img.height) >= 1;
    output := [];
    if !options.noColor {
      output := output + Reset;
    }
    assert output == ResetIf(options.noColor);
    output := RenderRows(img, options.noColor, options.invert, output);
    RowsMakeFramed(lines, options.noColor);
    if !options.noColor {
      output := output + Reset;
    } else {
      assert output + [] == output;
    }
  }
}
