/**
 * ClassicAsciiRenderer: one glyph per pixel. The glyph comes from the ramp the
 * options select (already reversed when Invert is set), at position
 * len - 1 - index with index = (int)(brightness × (len - 1)) clamped to the ramp.
 */
module ClassicAsciiRenderer {
  import opened Wrappers
  import opened Strings
  import opened Imaging
  import opened Options
  import opened FileOutputHandler

  /**
   * l × k for k >= 0, written as k repeated additions so that the verifier
   * meets no product of two unknowns unless a proof asks for one.
   */
  function Times(l: int, k: nat): int
  {
    if k == 0 then 0 else Times(l, k - 1) + l
  }

  lemma {:induction false} TimesIsProduct(l: int, k: nat)
    ensures Times(l, k) == l * k
  {
    if k > 0 {
      TimesIsProduct(l, k - 1);
    }
  }

  /**
   * (int)(brightness × (len - 1)) before the clamp, for a non-empty ramp,
   * computed exactly: 1000 × luminance × (len - 1), divided by 255000.
   * RawIndexExact shows it is the truncated real product.
   */
  function RawIndex(p: Pixel, len: int): int
    requires len >= 1
  {
    Times(Luminance(p), len - 1) / 255000
  }

  /** Math.Clamp, for min <= max (it throws otherwise). */
  function Clamp(v: int, lo: int, hi: int): (c: int)
    requires lo <= hi
    ensures lo <= c <= hi
    ensures lo <= v <= hi ==> c == v
  {
    if v < lo then lo else if v > hi then hi else v
  }

  /** The glyph drawn for a pixel. */
  function GlyphFor(p: Pixel, ramp: string): (c: char)
    requires |ramp| >= 1
    ensures c in ramp
  {
    ramp[|ramp| - 1 - Clamp(RawIndex(p, |ramp|), 0, |ramp| - 1)]
  }

  /** The index is `(int)(brightness * (len - 1))` of ClassicAsciiRenderer.cs:31. */
  lemma RawIndexExact(p: Pixel, len: int)
    requires 0 <= Luminance(p) && len >= 1
    ensures RawIndex(p, len) == Trunc(Brightness(p) * (len - 1) as real)
  {
    TruncQuotient(Luminance(p), len - 1);
  }

  lemma TruncQuotient(l: int, k: nat)
    requires 0 <= l
    ensures Trunc((l as real / 255000.0) * k as real) == Times(l, k) / 255000
  {
    TimesIsProduct(l, k);
    assert (l as real / 255000.0) * k as real == (l * k) as real / 255000.0;
    assert l * k >= 0;
    FloorDiv(l * k, 255000);
  }

  lemma DivCancel(k: int)
    requires k >= 0
    ensures 255000 * k / 255000 == k
  {
  }

  /** The index already lies in the ramp, so the clamp never changes it. */
  lemma RawIndexInRange(p: Pixel, len: int)
    requires 0 <= Luminance(p) <= 255000 && len >= 1
    ensures 0 <= RawIndex(p, len) <= len - 1
  {
    TimesIsProduct(Luminance(p), len - 1);
    QuotientBounds(Luminance(p), len - 1);
  }

  lemma QuotientBounds(l: int, k: int)
    requires 0 <= l <= 255000 && 0 <= k
    ensures 0 <= l * k / 255000 <= k
  {
    MulMonotone(l, 255000, k);
    DivCancel(k);
  }

  lemma QuotientMonotone(a: int, b: int, k: int)
    requires 0 <= a <= b && 0 <= k
    ensures a * k / 255000 <= b * k / 255000
  {
    MulMonotone(a, b, k);
  }

  /** A brighter pixel never gets a smaller index, that is, never a glyph further along the ramp. */
  lemma RawIndexMonotone(p: Pixel, q: Pixel, len: int)
    requires 0 <= Luminance(p) <= Luminance(q) && len >= 1
    ensures RawIndex(p, len) <= RawIndex(q, len)
  {
    TimesIsProduct(Luminance(p), len - 1);
    TimesIsProduct(Luminance(q), len - 1);
    QuotientMonotone(Luminance(p), Luminance(q), len - 1);
  }

  lemma {:induction false} TimesExtremes(k: nat)
    ensures Times(0, k) == 0 && Times(255000, k) == 255000 * k
  {
    if k > 0 {
      TimesExtremes(k - 1);
    }
  }

  /**
   * Black, the only pixel of luminance 0, gets the last ramp glyph; white, the
   * only one of full luminance, gets the first (the densest for every preset).
   */
  lemma GlyphExtremes(p: Pixel, ramp: string)
    requires |ramp| >= 1
    ensures Luminance(p) == 0 ==> GlyphFor(p, ramp) == ramp[|ramp| - 1]
    ensures Luminance(p) == 255000 ==> GlyphFor(p, ramp) == ramp[0]
  {
    var k := |ramp| - 1;
    if Luminance(p) == 0 {
      TimesExtremes(k);
      assert RawIndex(p, |ramp|) == 0;
    } else if Luminance(p) == 255000 {
      TimesExtremes(k);
      DivCancel(k);
      assert RawIndex(p, |ramp|) == k;
    }
  }

  /** With an inverted ramp the two ends swap: black gets the selected ramp's first glyph and white its last. */
  lemma InvertedExtremes(p: Pixel, o: RenderOptions)
    requires o.invert && |GetCharacterRamp(o)| >= 1
    ensures var sel := SelectedRamp(o.characterSet, o.customCharacters);
      (Luminance(p) == 0 ==> GlyphFor(p, GetCharacterRamp(o)) == sel[0]) &&
      (Luminance(p) == 255000 ==> GlyphFor(p, GetCharacterRamp(o)) == sel[|sel| - 1])
  {
    GlyphExtremes(p, GetCharacterRamp(o));
  }

  /** A one-glyph ramp draws every pixel with that glyph. */
  lemma SingleGlyphRamp(p: Pixel, ramp: string)
    requires |ramp| == 1
    ensures GlyphFor(p, ramp) == ramp[0]
  {
  }

  /**
   * The index is truncated, not rounded: the gray pixel of brightness 0.6 on a
   * two-glyph ramp has index 0 where rounding would give 1.
   */
  lemma IndexTruncates()
    ensures Brightness(Pixel(153, 153, 153)) == 0.6
    ensures RawIndex(Pixel(153, 153, 153), 2) == 0
  {
    assert Luminance(Pixel(153, 153, 153)) == 153000;
    assert Brightness(Pixel(153, 153, 153)) == 153000.0 / 255000.0;
    assert Times(153000, 1) == 153000;
  }

  /** What the renderer appends for one pixel. */
  function Cell(p: Pixel, ramp: string, noColor: bool): (s: string)
    requires |ramp| >= 1
    ensures |s| >= 1 && s[|s| - 1] in ramp
    ensures noColor ==> |s| == 1
    ensures !noColor ==> |s| >= 4 && s[0] == Esc
  {
    if noColor then [GlyphFor(p, ramp)] else Foreground(p) + [GlyphFor(p, ramp)]
  }

  /** The cells of one pixel row, pixel by pixel. */
  function Cells(row: seq<Pixel>, ramp: string, noColor: bool): seq<string>
    requires |ramp| >= 1
  {
    seq(|row|, x requires 0 <= x < |row| => Cell(row[x], ramp, noColor))
  }

  /** One output row: its cells, then a reset in colour mode. */
  function Line(row: seq<Pixel>, ramp: string, noColor: bool): string
    requires |ramp| >= 1
  {
    Concat(Cells(row, ramp, noColor)) + ResetIf(noColor)
  }

  /** All output rows, one per pixel row. */
  function Lines(img: Image, ramp: string, noColor: bool): seq<string>
    requires img.Valid() && |ramp| >= 1
  {
    seq(img.height, y requires 0 <= y < img.height => Line(img.rows[y], ramp, noColor))
  }

  /** The rendered text: rows separated by line breaks, bracketed by resets in colour mode. */
  function Art(img: Image, ramp: string, noColor: bool): (a: string)
    requires img.Valid() && |ramp| >= 1
    ensures !noColor ==> |a| >= 8 && a[..4] == Reset && a[|a| - 4..] == Reset
  {
    Framed(Lines(img, ramp, noColor), noColor)
  }

  /** Without colour a row is exactly its pixels' glyphs, one per pixel. */
  lemma PlainLine(row: seq<Pixel>, ramp: string)
    requires |ramp| >= 1
    ensures |Line(row, ramp, true)| == |row|
    ensures forall x :: 0 <= x < |row| ==> Line(row, ramp, true)[x] == GlyphFor(row[x], ramp)
  {
    var cells := Cells(row, ramp, true);
    ConcatSingles(cells);
    assert Concat(cells) + [] == Concat(cells);
  }

  /**
   * Without colour the output is height rows of width glyphs: splitting it at
   * the line breaks gives back the grid of glyphs, provided the ramp holds no
   * line break.
   */
  lemma PlainShape(img: Image, ramp: string)
    requires img.Valid() && |ramp| >= 1 && LineBreak !in ramp
    ensures var rows := Split(Art(img, ramp, true), LineBreak);
      |rows| == img.height &&
      (forall y :: 0 <= y < |rows| ==> |rows[y]| == img.width) &&
      (forall y, x :: 0 <= y < |rows| && 0 <= x < img.width ==> rows[y][x] == GlyphFor(img.rows[y][x], ramp))
  {
    var lines := Lines(img, ramp, true);
    forall y | 0 <= y < img.height
      ensures |lines[y]| == img.width
      ensures forall x :: 0 <= x < img.width ==> lines[y][x] == GlyphFor(img.rows[y][x], ramp)
      ensures LineBreak !in lines[y]
    {
      PlainLine(img.rows[y], ramp);
    }
    FramedPlain(lines);
  }

  /** Without colour the output holds only ramp glyphs and line breaks: no escape at all. */
  lemma PlainGlyphsOnly(img: Image, ramp: string)
    requires img.Valid() && |ramp| >= 1
    ensures forall c :: c in Art(img, ramp, true) ==> c in ramp || c == LineBreak
  {
    var lines := Lines(img, ramp, true);
    forall y | 0 <= y < img.height
      ensures forall c :: c in lines[y] ==> c in ramp
    {
      PlainLine(img.rows[y], ramp);
    }
    JoinMembers(lines, LineBreak);
    var j := Join(lines, LineBreak);
    assert [] + j + [] == j;
  }

  /** Every row but the last ends in a line break: height - 1 breaks in all. */
  lemma ArtBreaks(img: Image, ramp: string, noColor: bool)
    requires img.Valid() && img.Bytes() && |ramp| >= 1 && LineBreak !in ramp
    ensures multiset(Art(img, ramp, noColor))[LineBreak] == img.height - 1
  {
    var lines := Lines(img, ramp, noColor);
    forall y | 0 <= y < img.height
      ensures LineBreak !in lines[y]
    {
      var cells := Cells(img.rows[y], ramp, noColor);
      forall x | 0 <= x < |cells|
        ensures LineBreak !in cells[x]
      {
        var p := img.rows[y][x];
        ColorParams(p);
        SgrShape(["38", "2", IntToString(p.r), IntToString(p.g), IntToString(p.b)]);
      }
      ConcatExcludes(cells, LineBreak);
    }
    FramedBreaks(lines, noColor);
  }

  /** A colour row strips to the plain row: each escape goes, each glyph stays. */
  lemma LineStrips(row: seq<Pixel>, ramp: string)
    requires |ramp| >= 1 && Esc !in ramp
    requires forall x :: 0 <= x < |row| ==> row[x].Valid()
    ensures Clean(Line(row, ramp, false))
    ensures StripAnsiCodes(Line(row, ramp, false)) == Line(row, ramp, true)
  {
    var colour := Cells(row, ramp, false);
    var plain := Cells(row, ramp, true);
    forall x | 0 <= x < |row|
      ensures Clean(colour[x]) && StripAnsiCodes(colour[x]) == plain[x]
    {
      var p := row[x];
      var g := GlyphFor(p, ramp);
      ColorParams(p);
      SgrStripped(["38", "2", IntToString(p.r), IntToString(p.g), IntToString(p.b)]);
      PlainChar(g);
      CleanAppend(Foreground(p), [g]);
      StripAppend(Foreground(p), [g]);
    }
    StripConcat(colour);
    assert StripEach(colour) == plain;
    ResetStripped();
    CleanAppend(Concat(colour), Reset);
    StripAppend(Concat(colour), Reset);
    assert Concat(plain) + [] == Concat(plain);
  }

  /**
   * Stripping the ANSI codes from colour output (what a text file gets without
   * the preserve switch) gives exactly the no-colour output.
   */
  lemma ColourStripsToPlain(img: Image, ramp: string)
    requires img.Valid() && img.Bytes() && |ramp| >= 1 && Esc !in ramp
    ensures StripAnsiCodes(Art(img, ramp, false)) == Art(img, ramp, true)
  {
    var colour := Lines(img, ramp, false);
    var plain := Lines(img, ramp, true);
    forall y | 0 <= y < img.height
      ensures Clean(colour[y]) && StripAnsiCodes(colour[y]) == plain[y]
    {
      LineStrips(img.rows[y], ramp);
    }
    StripFramed(colour, plain);
  }

  /** One pass of the inner loop: the clamped index, then the pixel's escape in colour mode and its glyph. */
  method AppendCell(output: string, row: seq<Pixel>, x: int, ramp: string, noColor: bool) returns (result: string)
    requires |ramp| >= 1 && 0 <= x < |row|
    requires output == Concat(Cells(row, ramp, noColor)[..x])
    ensures result == Concat(Cells(row, ramp, noColor)[..x + 1])
  {
    var pixel := row[x];
    var charIndex := RawIndex(pixel, |ramp|);
    charIndex := Clamp(charIndex, 0, |ramp| - 1);
    var asciiChar := ramp[|ramp| - 1 - charIndex];
    if noColor {
      result := output + [asciiChar];
    } else {
      result := output + (Foreground(pixel) + [asciiChar]);
    }
    ConcatPrefixStep(Cells(row, ramp, noColor), x);
  }

  /**
   * The inner loop of Render: the cells of one image row, then the row's
   * closing reset in colour mode. An empty ramp makes Math.Clamp(index, 0, -1)
   * throw at the row's first pixel.
   */
  method RenderRow(row: seq<Pixel>, ramp: string, noColor: bool) returns (r: Result<string>)
    ensures |ramp| == 0 && |row| > 0 ==> r == Err(EmptyRamp)
    ensures |ramp| >= 1 ==> r == Ok(Line(row, ramp, noColor))
  {
    ghost var cells := if |ramp| >= 1 then Cells(row, ramp, noColor) else [];
    var output: string := [];
    var x := 0;
    while x < |row|
      invariant 0 <= x <= |row|
      invariant |ramp| >= 1 || x == 0
      invariant output == Concat(cells[..x])
    {
      if |ramp| - 1 < 0 {
        return Err(EmptyRamp);
      }
      output := AppendCell(output, row, x, ramp, noColor);
      x := x + 1;
    }
    if |ramp| == 0 {
      return Ok(ResetIf(noColor));
    }
    assert cells[..|row|] == cells;
    if !noColor {
      output := output + Reset;
    } else {
      assert output + [] == output;
    }
    return Ok(output);
  }

  /**
   * The outer loop of Render: every row in turn, each but the last followed by
   * a line break, appended to the text already emitted.
   */
  method RenderRows(img: Image, ramp: string, noColor: bool, pre: string) returns (output: string)
    requires img.Valid() && |ramp| >= 1
    ensures output == RowsSoFar(pre, Lines(img, ramp, noColor), img.height)
  {
    ghost var lines := Lines(img, ramp, noColor);
    output := pre;
    var y := 0;
    while y < img.height
      invariant 0 <= y <= img.height
      invariant output == RowsSoFar(pre, lines, y)
    {
      var line := RenderRow(img.rows[y], ramp, noColor);
      assert line == Ok(lines[y]);
      var sep: string := if y < img.height - 1 then [LineBreak] else [];
      RowsSoFarStep(pre, lines, y);
      output := output + line.value + sep;
      y := y + 1;
    }
    assert y == img.height;
  }

  /**
   * Render: the rows separated by line breaks, the whole bracketed by resets in
   * colour mode. The ramp comes only from the options (this is where Invert acts).
   */
  method Render(img: Image, options: RenderOptions) returns (r: Result<string>)
    requires img.Valid()
    ensures GetCharacterRamp(options) == [] ==> r == Err(EmptyRamp)
    ensures GetCharacterRamp(options) != [] ==>
      r == Ok(Art(img, GetCharacterRamp(options), options.noColor))
  {
    var ramp := GetCharacterRamp(options);
    var output: string := [];
    if !options.noColor {
      output := output + Reset;
    }
    assert output == ResetIf(options.noColor);
    if |ramp| == 0 {
      // the first pixel of the first row already fails
      var first := RenderRow(img.rows[0], ramp, options.noColor);
      return first;
    }
    output := RenderRows(img, ramp, options.noColor, output);
    RowsMakeFramed(Lines(img, ramp, options.noColor), options.noColor);
    if !options.noColor {
      output := output + Reset;
    } else {
      assert output + [] == output;
    }
    return Ok(output);
  }
}
