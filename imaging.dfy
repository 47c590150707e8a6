/**
 * What both renderers share: the resized pixel grid, the luminance-based
 * brightness (CalculateBrightness, written identically in both renderers) and
 * the 24-bit SGR escapes they emit.
 */
module Imaging {
  import opened Strings

  /**
   * An Rgba32 pixel; the renderers never read its alpha channel. The channels
   * are bytes: Valid() bounds them.
   */
  datatype Pixel = Pixel(r: int, g: int, b: int) {
    predicate Valid() {
      0 <= r < 256 && 0 <= g < 256 && 0 <= b < 256
    }
  }

  /**
   * The image after Resize: width × height pixels, rows top to bottom, each row
   * left to right, so image[x, y] is rows[y][x]. ImageSharp images are never empty.
   */
  datatype Image = Image(width: int, height: int, rows: seq<seq<Pixel>>) {
    predicate Valid() {
      1 <= width && 1 <= height && |rows| == height &&
      forall y :: 0 <= y < |rows| ==> |rows[y]| == width
    }

    /** Every pixel holds byte channels. */
    predicate Bytes() {
      forall y, x :: 0 <= y < |rows| && 0 <= x < |rows[y]| ==> rows[y][x].Valid()
    }
  }

  const Black := Pixel(0, 0, 0)
  const White := Pixel(255, 255, 255)

  /** 1000 × (0.299 R + 0.587 G + 0.114 B), an exact integer. */
  function Luminance(p: Pixel): (l: int)
    ensures p.Valid() ==> 0 <= l <= 255000
  {
    299 * p.r + 587 * p.g + 114 * p.b
  }

  /** CalculateBrightness, (0.299 R + 0.587 G + 0.114 B) / 255, over exact rationals. */
  function Brightness(p: Pixel): (b: real)
    ensures p.Valid() ==> 0.0 <= b <= 1.0
  {
    Luminance(p) as real / 255000.0
  }

  /** Black is the only pixel of luminance 0 and white the only one of full luminance. */
  lemma LuminanceExtremes(p: Pixel)
    requires p.Valid()
    ensures Luminance(p) == 0 <==> p == Black
    ensures Luminance(p) == 255000 <==> p == White
  {
  }

  /** Brightness is 0 for black only and 1 for white only. */
  lemma BrightnessExtremes(p: Pixel)
    requires p.Valid()
    ensures Brightness(p) == 0.0 <==> p == Black
    ensures Brightness(p) == 1.0 <==> p == White
  {
    LuminanceExtremes(p);
    var l := Luminance(p);
    assert Brightness(p) == l as real / 255000.0;
    assert l as real / 255000.0 == 0.0 <==> l == 0;
    assert l as real / 255000.0 == 1.0 <==> l == 255000;
  }

  /** Brightness grows with every channel. */
  lemma BrightnessMonotone(p: Pixel, q: Pixel)
    requires p.r <= q.r && p.g <= q.g && p.b <= q.b
    ensures Brightness(p) <= Brightness(q)
  {
    var a, b := Luminance(p) as real, Luminance(q) as real;
    assert a <= b;
    assert a / 255000.0 <= b / 255000.0;
  }

  /** The C# (int) cast of a double: truncation toward zero. */
  function Trunc(x: real): (n: int)
    ensures x >= 0.0 ==> 0 <= n && n as real <= x < n as real + 1.0
    ensures x < 0.0 ==> n <= 0 && n as real - 1.0 < x <= n as real
  {
    if x >= 0.0 then x.Floor else -((-x).Floor)
  }

  /** Multiplying by a non-negative factor keeps the order. */
  lemma MulMonotone(a: int, b: int, k: int)
    requires a <= b && 0 <= k
    ensures a * k <= b * k
  {
    assert (b - a) * k >= 0;
  }

  /** Flooring an exact quotient is integer division. */
  lemma FloorDiv(a: int, d: int)
    requires d > 0
    ensures (a as real / d as real).Floor == a / d
  {
    var q, r := a / d, a % d;
    assert a == q * d + r;
    assert a as real == q as real * d as real + r as real;
    assert a as real / d as real == q as real + r as real / d as real;
    assert 0.0 <= r as real / d as real < 1.0;
  }

  const Esc: char := '\U{1B}'

  predicate IsParamChar(c: char) { IsDigit(c) || c == ';' }

  /** A Select Graphic Rendition escape: ESC [ parameters separated by ';' m. */
  function Sgr(params: seq<string>): string
  {
    [Esc, '['] + Join(params, ';') + "m"
  }

  /** A complete control sequence: ESC, '[', the parameters, then the final 'm'. */
  predicate IsControlSequence(e: string)
  {
    |e| >= 3 && e[0] == Esc && e[1] == '[' && e[|e| - 1] == 'm'
  }

  /** ESC[0m: reset all attributes. */
  const Reset: string := [Esc, '[', '0', 'm']

  lemma ResetIsSgr()
    ensures Reset == Sgr(["0"])
  {
    assert Join(["0"], ';') == "0";
  }

  /** The reset emitted at the start, at the end of every row and at the very end, in colour mode. */
  function ResetIf(noColor: bool): string
  {
    if noColor then [] else Reset
  }

  /**
   * The text a renderer produces from its output rows: the rows separated by
   * line breaks, with no break after the last, bracketed by resets in colour mode.
   */
  function Framed(lines: seq<string>, noColor: bool): string
  {
    ResetIf(noColor) + Join(lines, LineBreak) + ResetIf(noColor)
  }

  /**
   * What a renderer's row loop has produced after its first y rows: the text
   * before the loop, the rows so far, and a line break after every row that
   * is not the last.
   */
  function RowsSoFar(pre: string, lines: seq<string>, y: nat): string
    requires y <= |lines|
  {
    if y == 0 then pre
    else RowsSoFar(pre, lines, y - 1) + lines[y - 1] + (if y < |lines| then [LineBreak] else [])
  }

  lemma RowsSoFarStep(pre: string, lines: seq<string>, y: nat)
    requires y < |lines|
    ensures RowsSoFar(pre, lines, y + 1) ==
      RowsSoFar(pre, lines, y) + lines[y] + (if y < |lines| - 1 then [LineBreak] else [])
  {
  }

  /** Appending row y, then a break unless it is the last row, to the rows so far. */
  lemma RowsSoFarAppend(pre: string, lines: seq<string>, y: nat, sofar: string, row: string, sep: string)
    requires y < |lines| && sofar == RowsSoFar(pre, lines, y) && row == lines[y]
    requires sep == if y < |lines| - 1 then [LineBreak] else []
    ensures sofar + row + sep == RowsSoFar(pre, lines, y + 1)
  {
  }

  /** Regrouping one more row, after a line break, onto text already emitted. */
  lemma Regroup(pre: string, joined: string, line: string, tail: string)
    ensures pre + joined + [LineBreak] + line + tail == pre + (joined + [LineBreak] + line) + tail
  {
  }

  lemma {:induction false} RowsSoFarJoin(pre: string, lines: seq<string>, y: nat)
    requires 1 <= y <= |lines|
    ensures RowsSoFar(pre, lines, y) ==
      pre + Join(lines[..y], LineBreak) + (if y < |lines| then [LineBreak] else [])
  {
    if y == 1 {
      assert lines[..1] == [lines[0]];
    } else {
      RowsSoFarJoin(pre, lines, y - 1);
      JoinPrefixStep(lines, LineBreak, y - 1);
      Regroup(pre, Join(lines[..y - 1], LineBreak), lines[y - 1], if y < |lines| then [LineBreak] else []);
    }
  }

  /** All rows, then the closing reset in colour mode, make the framed text. */
  lemma RowsMakeFramed(lines: seq<string>, noColor: bool)
    requires |lines| >= 1
    ensures RowsSoFar(ResetIf(noColor), lines, |lines|) + ResetIf(noColor) == Framed(lines, noColor)
  {
    RowsSoFarJoin(ResetIf(noColor), lines, |lines|);
    assert lines[..|lines|] == lines;
    var body := ResetIf(noColor) + Join(lines, LineBreak);
    assert body + [] == body;
  }

  /** Framed rows hold one line break fewer than there are rows. */
  lemma FramedBreaks(lines: seq<string>, noColor: bool)
    requires |lines| >= 1
    requires forall k :: 0 <= k < |lines| ==> LineBreak !in lines[k]
    ensures multiset(Framed(lines, noColor))[LineBreak] == |lines| - 1
  {
    JoinBreaks(lines);
    assert LineBreak !in ResetIf(noColor);
  }

  /** Without colour the frame is empty: the text is just the joined rows. */
  lemma FramedPlain(lines: seq<string>)
    requires |lines| >= 1
    requires forall k :: 0 <= k < |lines| ==> LineBreak !in lines[k]
    ensures Framed(lines, true) == Join(lines, LineBreak)
    ensures Split(Framed(lines, true), LineBreak) == lines
  {
    var j := Join(lines, LineBreak);
    assert [] + j + [] == j;
    SplitJoin(lines, LineBreak);
  }

  /** ESC[38;2;R;G;Bm: true-colour foreground. */
  function Foreground(p: Pixel): (e: string)
    ensures IsControlSequence(e)
  {
    Sgr(["38", "2", IntToString(p.r), IntToString(p.g), IntToString(p.b)])
  }

  /** ESC[48;2;R;G;Bm: true-colour background. */
  function Background(p: Pixel): (e: string)
    ensures IsControlSequence(e)
  {
    Sgr(["48", "2", IntToString(p.r), IntToString(p.g), IntToString(p.b)])
  }

  lemma {:induction false} JoinParamChars(parts: seq<string>)
    requires forall k :: 0 <= k < |parts| ==> AllDigits(parts[k])
    ensures forall k :: 0 <= k < |Join(parts, ';')| ==> IsParamChar(Join(parts, ';')[k])
  {
    if |parts| > 1 {
      JoinParamChars(parts[..|parts| - 1]);
    }
  }

  /** An escape with numeric parameters: ESC, '[', then only digits and ';', then 'm'. */
  lemma SgrShape(params: seq<string>)
    requires forall k :: 0 <= k < |params| ==> AllDigits(params[k])
    ensures var s := Sgr(params);
      |s| >= 3 && s[0] == Esc && s[1] == '[' && s[|s| - 1] == 'm' &&
      (forall k :: 2 <= k < |s| - 1 ==> IsParamChar(s[k])) &&
      multiset(s)[Esc] == 1 && LineBreak !in s
  {
    var s := Sgr(params);
    var body := Join(params, ';');
    JoinParamChars(params);
    assert forall k :: 2 <= k < |s| - 1 ==> s[k] == body[k - 2];
    assert Esc !in body;
    assert s == [Esc] + (['['] + body + "m");
  }

  /** The colour escapes carry decimal channel values. */
  lemma ColorParams(p: Pixel)
    requires p.Valid()
    ensures forall k :: 0 <= k < 5 ==> AllDigits(["38", "2", IntToString(p.r), IntToString(p.g), IntToString(p.b)][k])
    ensures forall k :: 0 <= k < 5 ==> AllDigits(["48", "2", IntToString(p.r), IntToString(p.g), IntToString(p.b)][k])
  {
  }
}
