# ImageAsciiArt in Dafny

A model of the ImageAsciiArt command-line converter, which turns a raster image into coloured
text art. The model covers every step after the image is decoded:

- the render options and their character ramps;
- the target-size computation, which keeps the aspect ratio for characters about twice as tall as
  they are wide;
- the two renderers:
  - the classic ASCII renderer, which draws one ramp glyph per pixel in a 24-bit foreground colour;
  - the half-block renderer, which draws two pixel rows per character row with the upper half
    block `▀`;
- the three output handlers:
  - console;
  - plain text, which strips the ANSI escapes by default;
  - HTML, which turns the escapes into `<span style=…>` elements;
- the `Process` pipeline, which validates, loads, resizes, renders and writes;
- the command-line entry point, with its watch loop that re-renders when the console is resized.

Each source file is one module:

| module | file | what it holds |
|---|---|---|
| `Options` | options.dfy | `RenderMode`, `OutputFormat`, `CharacterSet`, the `RenderOptions` record, `GetCharacterRamp` |
| `Imaging` | imaging.dfy | pixels and images, the brightness formula, the SGR escapes and the row framing that both renderers share |
| `ClassicAsciiRenderer` | classic_renderer.dfy | the ramp renderer: a spec function `Art` and the nested-loop `Render` method proved against it |
| `BlockRenderer` | block_renderer.dfy | the half-block renderer, again as a spec function and loop methods |
| `FileOutputHandler` | file_output.dfy | the text handler and `StripAnsiCodes` (one left-to-right pass of the escape regex) |
| `HtmlOutputHandler` | html_output.dfy | `HtmlEncode`, the scanner behind `ConvertAnsiToHtml` (a spec function `Scan` and the loop method), `GenerateHtml` and `Write` |
| `HtmlOutputProperties` | html_properties.dfy | what the converter guarantees: balanced spans, the visible text, the colours read back, the error cases |
| `ImageProcessor` | image_processor.dfy | validation, target dimensions, `CalculateTargetSize`, renderer and handler dispatch, the `Process` pipeline |
| `Program` | program.dfy | option derivation from the command line, exit codes, the watch loop |

`Wrappers` defines `Option`, `Result`, the error kinds and what a run writes. `Strings` holds
`Split`, `Join`, integer formatting and `int.Parse`.

Exceptions are modelled as `Err` results and null as `None`. The outside world enters as
parameters:

- whether the file exists, its extension and its file name;
- the console size, which is `None` when reading it throws;
- the decoder's result;
- the resampler, as a function from a requested size to a pixel grid;
- in watch mode, the sequence of sizes the loop polls.

The enum value is named `Block` in `RenderMode.cs` and `HalfBlock` in the option defaults. The
two names are one variant here.

Two behaviours of the code that are easy to miss:

- The half-block threshold is strict (`topBright > threshold`, BlockRenderer.cs:122), so a
  brightness of exactly 0.5 is dark with and without `--invert` (`BlockRenderer.HalfIsDark`).
- In watch mode, a failed size query gives a 119 × 39 character bound, not the 120 × 40 of a single
  run: the loop falls back to 120 × 40 (Program.cs:189-193) and the watch render then subtracts one
  on each axis (Program.cs:210-211; `Program.FallbackBounds`).

## Model

| member | source | states |
|---|---|---|
| Strings.Split | ImageAsciiArt/Output/HtmlOutputHandler.cs:113 | `String.Split` always returns at least one piece |
| Strings.SplitJoin | ImageAsciiArt/Output/HtmlOutputHandler.cs:113 | splitting a string that was joined with a separator the parts lack gives the parts back |
| Strings.JoinSplit | ImageAsciiArt/Output/HtmlOutputHandler.cs:113 | joining the pieces of a split with the same separator gives the string back |
| Strings.JoinMembers | ImageAsciiArt/Rendering/ClassicAsciiRenderer.cs:53-56 | joined rows hold only characters of the rows and the separator |
| Strings.JoinBreaks | ImageAsciiArt/Rendering/ClassicAsciiRenderer.cs:53-56 | n rows without breaks, joined by line breaks, hold exactly n - 1 breaks |
| Strings.Reverse | ImageAsciiArt/Options/RenderOptions.cs:84 | the reversed ramp has the same length, and position i holds the element at the mirrored position |
| Strings.ReverseInvolutive | ImageAsciiArt/Options/RenderOptions.cs:84 | reversing twice is the identity |
| Strings.NatToString | ImageAsciiArt/Rendering/ClassicAsciiRenderer.cs:44 | the decimal form of a number is all digits and non-empty |
| Strings.DigitsRoundTrip | ImageAsciiArt/Rendering/ClassicAsciiRenderer.cs:44 | the value of a number's decimal digits is the number |
| Strings.ParseInt | ImageAsciiArt/Output/HtmlOutputHandler.cs:117-119 | a value `int.Parse` accepts lies within the 32-bit range |
| Strings.ParseIntRoundTrip | ImageAsciiArt/Output/HtmlOutputHandler.cs:117-119 | parsing the decimal form of a 32-bit integer gives it back |
| Strings.ReplaceChar | ImageAsciiArt/Output/HtmlOutputHandler.cs:201-205 | replacing a character by a non-empty string never shortens the text, and a text without that character comes back unchanged |
| Strings.ReplaceCharAppend | ImageAsciiArt/Output/HtmlOutputHandler.cs:201-205 | the replacement works character by character: replacing in a concatenation is the concatenation of the replaced parts |
| Imaging.Luminance | ImageAsciiArt/Rendering/ClassicAsciiRenderer.cs:70 | the weighted channel sum, scaled to an exact integer, lies between 0 and 255000 for byte channels |
| Imaging.Brightness | ImageAsciiArt/Rendering/ClassicAsciiRenderer.cs:70 | the brightness of a byte pixel lies in [0, 1] |
| Imaging.LuminanceExtremes | ImageAsciiArt/Rendering/ClassicAsciiRenderer.cs:70 | black is the only pixel of luminance 0 and white the only one of full luminance |
| Imaging.BrightnessExtremes | ImageAsciiArt/Rendering/BlockRenderer.cs:103-106 | brightness is 0 exactly for black and 1 exactly for white |
| Imaging.BrightnessMonotone | ImageAsciiArt/Rendering/BlockRenderer.cs:103-106 | raising any channel never lowers the brightness |
| Imaging.Trunc | ImageAsciiArt/Rendering/ClassicAsciiRenderer.cs:31 | the `(int)` cast truncates toward zero: for a non-negative value the result is the largest integer not above it, for a negative value the smallest integer not below it |
| Imaging.FloorDiv | ImageAsciiArt/ImageProcessor.cs:122 | flooring an exact quotient is integer division |
| Imaging.ResetIsSgr | ImageAsciiArt/Rendering/ClassicAsciiRenderer.cs:22 | the reset is the SGR escape with the single parameter 0 |
| Imaging.RowsMakeFramed | ImageAsciiArt/Rendering/ClassicAsciiRenderer.cs:19-62 | the row loop's text, plus the final reset in colour mode, is `Framed` (imaging.dfy): the rows joined by line breaks with none after the last, bracketed by resets in colour mode |
| Imaging.FramedBreaks | ImageAsciiArt/Rendering/ClassicAsciiRenderer.cs:53-56 | framed rows without breaks hold one line break fewer than there are rows |
| Imaging.FramedPlain | ImageAsciiArt/Rendering/ClassicAsciiRenderer.cs:20-23 | without colour the frame adds nothing: the text is the joined rows, and splitting it at line breaks gives the rows back |
| Imaging.SgrShape | ImageAsciiArt/Rendering/ClassicAsciiRenderer.cs:44 | an escape with numeric parameters is ESC, `[`, digits and `;` only, then `m` |
| Imaging.ColorParams | ImageAsciiArt/Rendering/BlockRenderer.cs:74-75 | each of the five parameters of a byte pixel's colour escapes is all digits |
| Imaging.Foreground | ImageAsciiArt/Rendering/ClassicAsciiRenderer.cs:44 | the foreground escape is a complete control sequence: ESC, `[`, parameters, final `m` |
| Imaging.Background | ImageAsciiArt/Rendering/BlockRenderer.cs:74-75 | the background escape is a complete control sequence: ESC, `[`, parameters, final `m` |
| Options.DefaultOptions | ImageAsciiArt/Options/RenderOptions.cs:11-67 | a record with only the image path set has the initialisers' values: half-block, extended ramp, console, no overrides, every switch off |
| Options.SelectedRamp | ImageAsciiArt/Options/RenderOptions.cs:74-82 | every preset ramp has at least five characters, and the ramp is empty only for the custom set with an empty custom string |
| Options.GetCharacterRamp | ImageAsciiArt/Options/RenderOptions.cs:72-85 | the ramp has the length of the selected set's ramp and is that ramp, or its reversal position by position under Invert |
| Options.PresetRamps | ImageAsciiArt/Options/RenderOptions.cs:74-79 | the preset ramps have 10, 70, 5 and 5 glyphs; the block ramp is `█▓▒░ ` |
| Options.CustomRamp | ImageAsciiArt/Options/RenderOptions.cs:80 | Custom gives the user's string whenever one is given, even an empty one, and the standard ramp only for null |
| Options.OnlyCustomReadsUserString | ImageAsciiArt/Options/RenderOptions.cs:74-82 | every other set ignores the custom string |
| Options.InvertTwice | ImageAsciiArt/Options/RenderOptions.cs:84 | the inverted ramp is the reversal of the plain one, and the reverse also holds |
| Options.RampNonEmpty | ImageAsciiArt/Options/RenderOptions.cs:74-84 | the ramp is empty if and only if the set is Custom with an empty string |
| ClassicAsciiRenderer.Clamp | ImageAsciiArt/Rendering/ClassicAsciiRenderer.cs:32 | `Math.Clamp` lies within the bounds and keeps a value already inside them |
| ClassicAsciiRenderer.GlyphFor | ImageAsciiArt/Rendering/ClassicAsciiRenderer.cs:29-35 | the glyph is a ramp element |
| ClassicAsciiRenderer.RawIndexExact | ImageAsciiArt/Rendering/ClassicAsciiRenderer.cs:30-31 | `RawIndex`, the index computed in integers as 1000 × luminance × (length − 1) divided by 255000, equals the truncated product of brightness and ramp length minus one |
| ClassicAsciiRenderer.RawIndexInRange | ImageAsciiArt/Rendering/ClassicAsciiRenderer.cs:31-32 | the index already lies in the ramp, so the clamp never changes it |
| ClassicAsciiRenderer.RawIndexMonotone | ImageAsciiArt/Rendering/ClassicAsciiRenderer.cs:30-35 | a brighter pixel never gets a smaller index |
| ClassicAsciiRenderer.GlyphExtremes | ImageAsciiArt/Rendering/ClassicAsciiRenderer.cs:34-35 | black gets the last ramp glyph and white the first |
| ClassicAsciiRenderer.InvertedExtremes | ImageAsciiArt/Rendering/ClassicAsciiRenderer.cs:16-35 | under Invert black gets the selected ramp's first glyph and white its last |
| ClassicAsciiRenderer.SingleGlyphRamp | ImageAsciiArt/Rendering/ClassicAsciiRenderer.cs:31-35 | a one-glyph ramp draws every pixel with that glyph |
| ClassicAsciiRenderer.IndexTruncates | ImageAsciiArt/Rendering/ClassicAsciiRenderer.cs:31 | the index is truncated, not rounded: a gray of brightness 0.6 on a two-glyph ramp has index 0 |
| ClassicAsciiRenderer.PlainLine | ImageAsciiArt/Rendering/ClassicAsciiRenderer.cs:37-40 | without colour a row is exactly one glyph per pixel |
| ClassicAsciiRenderer.PlainShape | ImageAsciiArt/Rendering/ClassicAsciiRenderer.cs:25-57 | without colour, splitting the output at line breaks gives the grid of glyphs, height rows of width each; `Cells` (one cell per pixel, lines 29-45), `Line` (the cells and the row's reset, lines 29-51) and `Lines` (one line per pixel row, lines 25-57) build that output |
| ClassicAsciiRenderer.PlainGlyphsOnly | ImageAsciiArt/Rendering/ClassicAsciiRenderer.cs:37-40 | without colour the output holds only ramp glyphs and line breaks |
| ClassicAsciiRenderer.ArtBreaks | ImageAsciiArt/Rendering/ClassicAsciiRenderer.cs:53-56 | the output holds height - 1 line breaks when the ramp has none |
| ClassicAsciiRenderer.LineStrips | ImageAsciiArt/Rendering/ClassicAsciiRenderer.cs:43-51 | a colour row is clean for the strip pass and strips to the plain row |
| ClassicAsciiRenderer.ColourStripsToPlain | ImageAsciiArt/Rendering/ClassicAsciiRenderer.cs:14-65 | stripping the escapes from colour output gives exactly the no-colour output |
| ClassicAsciiRenderer.Cell | ImageAsciiArt/Rendering/ClassicAsciiRenderer.cs:29-45 | a cell ends with a glyph of the ramp; without colour it is that glyph alone, with colour it starts with an escape |
| ClassicAsciiRenderer.Art | ImageAsciiArt/Rendering/ClassicAsciiRenderer.cs:14-65 | coloured art starts and ends with the reset sequence |
| ClassicAsciiRenderer.AppendCell | ImageAsciiArt/Rendering/ClassicAsciiRenderer.cs:29-45 | one step of the inner loop appends exactly the next pixel's cell to the row built so far |
| ClassicAsciiRenderer.RenderRow | ImageAsciiArt/Rendering/ClassicAsciiRenderer.cs:27-51 | the inner loop yields the row's cells and reset for a non-empty ramp, and fails on a non-empty row when the ramp is empty |
| ClassicAsciiRenderer.RenderRows | ImageAsciiArt/Rendering/ClassicAsciiRenderer.cs:25-57 | the outer loop appends every row, each but the last followed by a line break |
| ClassicAsciiRenderer.Render | ImageAsciiArt/Rendering/ClassicAsciiRenderer.cs:14-65 | the result is the framed rows of glyphs for the options' ramp, or the empty-ramp error |
| BlockRenderer.OutputRowsPairUp | ImageAsciiArt/Rendering/BlockRenderer.cs:38-50 | output row k exists exactly when its top pixel row 2k lies inside the image, so `OutputHeight` ((height + 1) / 2, line 38) counts the pairs |
| BlockRenderer.GrayscaleTable | ImageAsciiArt/Rendering/BlockRenderer.cs:111-132 | without Invert, in both directions: a space for two light halves, a full block for two dark ones, an upper or lower block for mixed halves |
| BlockRenderer.GrayscaleChar | ImageAsciiArt/Rendering/BlockRenderer.cs:111-132 | the grayscale glyph is always one of space, full block, upper half block or lower half block |
| BlockRenderer.InvertComplements | ImageAsciiArt/Rendering/BlockRenderer.cs:113-117 | away from the threshold itself, Invert draws the complementary glyph |
| BlockRenderer.HalfIsDark | ImageAsciiArt/Rendering/BlockRenderer.cs:113-123 | a brightness of exactly 0.5 is dark with and without Invert |
| BlockRenderer.EqualHalves | ImageAsciiArt/Rendering/BlockRenderer.cs:122-131 | two equal brightnesses give a space or a full block, never a half block |
| BlockRenderer.LightByLuminance | ImageAsciiArt/Rendering/BlockRenderer.cs:103-123 | a pixel is light exactly when twice its luminance exceeds 255000 |
| BlockRenderer.OddLastRow | ImageAsciiArt/Rendering/BlockRenderer.cs:56-59 | `BottomRow` (the `pixelY2 < height` choice of lines 56-59): for an odd height the last output row pairs the last pixel row with itself; for an even height every output row has its own bottom row |
| BlockRenderer.PlainLine | ImageAsciiArt/Rendering/BlockRenderer.cs:61-67 | without colour an output row is one grayscale glyph per pixel column |
| BlockRenderer.OddLastRowPlain | ImageAsciiArt/Rendering/BlockRenderer.cs:56-67 | without colour the last row of an odd-height image holds only spaces and full blocks |
| BlockRenderer.PlainShape | ImageAsciiArt/Rendering/BlockRenderer.cs:35-98 | without colour, splitting the output at line breaks gives (height + 1) / 2 rows of width glyphs; `Line` (one output row's cells and reset, lines 52-84) and `Lines` (every output row, lines 47-90) build that output |
| BlockRenderer.CellStrips | ImageAsciiArt/Rendering/BlockRenderer.cs:74-76 | a colour cell has no line break and strips to the half block alone |
| BlockRenderer.LineStrips | ImageAsciiArt/Rendering/BlockRenderer.cs:52-84 | a colour row strips to one upper half block per pixel column |
| BlockRenderer.ColourStripsToBlocks | ImageAsciiArt/Rendering/BlockRenderer.cs:35-98 | stripped colour output is (height + 1) / 2 rows of width upper half blocks |
| BlockRenderer.ArtBreaks | ImageAsciiArt/Rendering/BlockRenderer.cs:86-89 | the output holds (height + 1) / 2 - 1 line breaks |
| BlockRenderer.Cells | ImageAsciiArt/Rendering/BlockRenderer.cs:54-77 | one cell per column of the pixel-row pair; `CellsIndex` pins column x to the cell of the two pixels in that column |
| BlockRenderer.Cell | ImageAsciiArt/Rendering/BlockRenderer.cs:54-77 | a grayscale cell is one character; a coloured cell starts with an escape and ends with the upper half block |
| BlockRenderer.Art | ImageAsciiArt/Rendering/BlockRenderer.cs:35-98 | coloured art starts and ends with the reset sequence |
| BlockRenderer.RenderCell | ImageAsciiArt/Rendering/BlockRenderer.cs:54-77 | one inner-loop pass appends the cell of the top pixel and the pixel below, or the top pixel again past the last row |
| BlockRenderer.RenderRow | ImageAsciiArt/Rendering/BlockRenderer.cs:52-78 | the inner loop appends the cells of output row k |
| BlockRenderer.RenderLine | ImageAsciiArt/Rendering/BlockRenderer.cs:52-84 | a row's cells and then its reset in colour mode |
| BlockRenderer.AppendRow | ImageAsciiArt/Rendering/BlockRenderer.cs:86-89 | one outer-loop pass appends the row, then a break unless it is the last |
| BlockRenderer.RenderRows | ImageAsciiArt/Rendering/BlockRenderer.cs:47-90 | the outer loop appends every output row, each but the last followed by a line break |
| BlockRenderer.Render | ImageAsciiArt/Rendering/BlockRenderer.cs:35-98 | the result is the framed half-block rows |
| FileOutputHandler.ParamRun | ImageAsciiArt/Output/FileOutputHandler.cs:34-35 | the greedy `[0-9;]*` run ends at the first other character |
| FileOutputHandler.MatchLen | ImageAsciiArt/Output/FileOutputHandler.cs:34-35 | a match is at least three characters long: ESC, `[`, only digits and `;`, then `m` |
| FileOutputHandler.StripAnsiCodes | ImageAsciiArt/Output/FileOutputHandler.cs:29-35 | stripping never lengthens the text, and a text without ESC comes back unchanged |
| FileOutputHandler.Write | ImageAsciiArt/Output/FileOutputHandler.cs:11-24 | it fails if and only if the path is null or empty; otherwise it writes the content, stripped unless the preserve switch is on |
| FileOutputHandler.StripShrinks | ImageAsciiArt/Output/FileOutputHandler.cs:29-35 | stripping never lengthens the text and leaves text without ESC unchanged |
| FileOutputHandler.StripKeepsCharacters | ImageAsciiArt/Output/FileOutputHandler.cs:29-32 | the output holds only characters of the input |
| FileOutputHandler.SinglePassCanLeaveEscape | ImageAsciiArt/Output/FileOutputHandler.cs:29-35 | one pass over ESC ESC`[m[m` leaves the escape ESC`[m`: the output is not free of escapes |
| FileOutputHandler.StripAppend | ImageAsciiArt/Output/FileOutputHandler.cs:29-32 | stripping distributes over a concatenation whose left part is clean |
| FileOutputHandler.SgrStripped | ImageAsciiArt/Output/FileOutputHandler.cs:34-35 | every numeric SGR escape is one whole match and is removed |
| FileOutputHandler.ForegroundStripped | ImageAsciiArt/Output/FileOutputHandler.cs:34-35 | the foreground escape of a byte pixel is removed entirely |
| FileOutputHandler.BackgroundStripped | ImageAsciiArt/Output/FileOutputHandler.cs:34-35 | the background escape of a byte pixel is removed entirely |
| FileOutputHandler.ResetStripped | ImageAsciiArt/Output/FileOutputHandler.cs:34-35 | the reset is removed entirely |
| FileOutputHandler.StripConcat | ImageAsciiArt/Output/FileOutputHandler.cs:29-32 | clean parts concatenated stay clean and strip part by part |
| FileOutputHandler.StripJoin | ImageAsciiArt/Output/FileOutputHandler.cs:29-32 | clean rows joined by line breaks strip row by row |
| FileOutputHandler.StripFramed | ImageAsciiArt/Output/FileOutputHandler.cs:29-32 | framed colour rows that each strip to a plain row strip to the plain rows framed without colour |
| HtmlOutputHandler.HtmlEncode | ImageAsciiArt/Output/HtmlOutputHandler.cs:199-206 | encoding never shortens the text, and a text with none of `&`, `<`, `>`, `"` comes back unchanged |
| HtmlOutputHandler.HtmlEncodeIsPerChar | ImageAsciiArt/Output/HtmlOutputHandler.cs:199-206 | the chain of four replacements, ampersand first, equals escaping each character on its own with `EncodeChar` (`<`, `>`, `&`, `"` to their entities, any other character kept) |
| HtmlOutputHandler.EntitiesClean | ImageAsciiArt/Output/HtmlOutputHandler.cs:201-205 | the entities written by earlier replacements pass the later ones unchanged |
| HtmlOutputHandler.HtmlEncodeEscapes | ImageAsciiArt/Output/HtmlOutputHandler.cs:199-206 | the result holds no raw `<`, `>` or `"`, and every `&` starts one of the four entities |
| HtmlOutputHandler.UnescapeEncode | ImageAsciiArt/Output/HtmlOutputHandler.cs:199-206 | reading the entities back gives the input |
| HtmlOutputHandler.IndexOf | ImageAsciiArt/Output/HtmlOutputHandler.cs:94 | `IndexOf` gives the first position at or after the start that holds the character, or -1 when there is none |
| HtmlOutputHandler.ApplySequence | ImageAsciiArt/Output/HtmlOutputHandler.cs:99-137 | applying an escape's parameters fails only on a colour number, emits at most a closing tag, and only when a span was open and is now closed; it never opens a span |
| HtmlOutputHandler.CharStep | ImageAsciiArt/Output/HtmlOutputHandler.cs:144-185 | a character ends its markup with itself (a line break for a newline); afterwards a span is open exactly when the character is not a newline and a span was open or a colour is set; the colours are untouched |
| HtmlOutputHandler.Scan | ImageAsciiArt/Output/HtmlOutputHandler.cs:89-191 | the scan's only error is a colour component that `int.Parse` rejects |
| HtmlOutputHandler.AnsiToHtml | ImageAsciiArt/Output/HtmlOutputHandler.cs:79-194 | the conversion's only error is a colour component that `int.Parse` rejects |
| HtmlOutputHandler.ScanEscape | ImageAsciiArt/Output/HtmlOutputHandler.cs:92-141 | an ESC `[` with a later `m` applies the parameters up to the first `m` and resumes after it |
| HtmlOutputHandler.ScanChar | ImageAsciiArt/Output/HtmlOutputHandler.cs:144-185 | any other character is one character step |
| HtmlOutputHandler.NewlineMarkup | ImageAsciiArt/Output/HtmlOutputHandler.cs:147-155 | a line break closes an open span and is copied |
| HtmlOutputHandler.OpenMarkup | ImageAsciiArt/Output/HtmlOutputHandler.cs:159-172 | `Markup` of `OpenFor` (the span for the colours set, lines 159-172) is the opening tag with the foreground style, then the background style, each only when that colour is set |
| HtmlOutputHandler.GlyphMarkup | ImageAsciiArt/Output/HtmlOutputHandler.cs:158-182 | another character is copied encoded, after an opening tag when a colour is set and no span is open |
| HtmlOutputHandler.ApplyEscape | ImageAsciiArt/Output/HtmlOutputHandler.cs:99-137 | the escape branch updates the colour and span locals and appends what the parameters call for |
| HtmlOutputHandler.ApplyEscapeAt | ImageAsciiArt/Output/HtmlOutputHandler.cs:92-141 | the escape at i moves the scan past its `m` |
| HtmlOutputHandler.WriteOpenTag | ImageAsciiArt/Output/HtmlOutputHandler.cs:161-170 | the four appends write the opening tag |
| HtmlOutputHandler.EmitChar | ImageAsciiArt/Output/HtmlOutputHandler.cs:145-183 | one ordinary character is one character step |
| HtmlOutputHandler.ScanStep | ImageAsciiArt/Output/HtmlOutputHandler.cs:89-186 | one pass of the loop advances the scan and appends its pieces, or stops with the parse error |
| HtmlOutputHandler.ConvertAnsiToHtml | ImageAsciiArt/Output/HtmlOutputHandler.cs:79-194 | the loop's result is the scan's markup, with the final closing tag |
| HtmlOutputHandler.DocumentParts | ImageAsciiArt/Output/HtmlOutputHandler.cs:27-74 | the document fails exactly when conversion fails; otherwise it is the template around a title that reads back as the file name and holds no raw markup, and around the converted art |
| HtmlOutputHandler.GenerateHtml | ImageAsciiArt/Output/HtmlOutputHandler.cs:27-74 | the document fails exactly when the conversion does, with the same error; otherwise it holds at least the head, the title, the separator and the tail |
| HtmlOutputHandler.Write | ImageAsciiArt/Output/HtmlOutputHandler.cs:12-22 | a null or empty path fails first; otherwise the generated document, or its error, goes to that path |
| HtmlOutputProperties.CharStepNests | ImageAsciiArt/Output/HtmlOutputHandler.cs:145-185 | a character's pieces are well placed and lead to the position of the new locals |
| HtmlOutputProperties.ApplySequenceNests | ImageAsciiArt/Output/HtmlOutputHandler.cs:99-137 | an escape's pieces are well placed and lead to the position of the new locals |
| HtmlOutputProperties.ScanNests | ImageAsciiArt/Output/HtmlOutputHandler.cs:89-191 | from any position the scan's pieces are well placed and end outside every span |
| HtmlOutputProperties.ConvertBalanced | ImageAsciiArt/Output/HtmlOutputHandler.cs:79-194 | every span is closed, holds at least one character, holds no line break and has a colour, and no span opens inside another |
| HtmlOutputProperties.ScanText | ImageAsciiArt/Output/HtmlOutputHandler.cs:89-186 | the characters shown are the input's, in order, with the escapes removed |
| HtmlOutputProperties.PlainChar | ImageAsciiArt/Output/HtmlOutputHandler.cs:156-183 | with no colour set a character is written encoded and the locals stay |
| HtmlOutputProperties.ScanPlain | ImageAsciiArt/Output/HtmlOutputHandler.cs:89-186 | without a complete escape the locals never change and each character is encoded on its own |
| HtmlOutputProperties.PlainIsEncoded | ImageAsciiArt/Output/HtmlOutputHandler.cs:79-194 | text without escapes converts to exactly its HtmlEncode |
| HtmlOutputProperties.UnterminatedIsText | ImageAsciiArt/Output/HtmlOutputHandler.cs:92-96 | an ESC `[` with no later `m` is copied as text |
| HtmlOutputProperties.OtherEscapeDropped | ImageAsciiArt/Output/HtmlOutputHandler.cs:99-140 | an escape that is neither the reset nor a five-part colour is consumed without a trace |
| HtmlOutputProperties.SgrAt | ImageAsciiArt/Output/HtmlOutputHandler.cs:92-97 | a numeric SGR escape's `m` is the first `m` after it, and its parameters are the substring between |
| HtmlOutputProperties.ScanSgr | ImageAsciiArt/Output/HtmlOutputHandler.cs:92-141 | any numeric SGR escape is one escape step |
| HtmlOutputProperties.ColorParsesBack | ImageAsciiArt/Output/HtmlOutputHandler.cs:113-120 | the channels of a renderer's colour escape split and parse back, through `ParseColor` (the three `int.Parse` calls of lines 116-120), to the pixel's values |
| HtmlOutputProperties.ColorSequence | ImageAsciiArt/Output/HtmlOutputHandler.cs:110-114 | a colour escape starts with the selector and 2 and has at least five parts |
| HtmlOutputProperties.SetsForeground | ImageAsciiArt/Output/HtmlOutputHandler.cs:110-123 | a parsed foreground escape sets the foreground and emits nothing |
| HtmlOutputProperties.SetsBackground | ImageAsciiArt/Output/HtmlOutputHandler.cs:124-137 | a parsed background escape sets the background and emits nothing |
| HtmlOutputProperties.ForegroundApplies | ImageAsciiArt/Output/HtmlOutputHandler.cs:110-123 | a renderer's foreground escape sets exactly the pixel's colour |
| HtmlOutputProperties.BackgroundApplies | ImageAsciiArt/Output/HtmlOutputHandler.cs:124-137 | a renderer's background escape sets exactly the pixel's colour |
| HtmlOutputProperties.ScanSilentEscape | ImageAsciiArt/Output/HtmlOutputHandler.cs:92-141 | a whole escape that emits nothing only changes the locals |
| HtmlOutputProperties.ForegroundEscape | ImageAsciiArt/Output/HtmlOutputHandler.cs:110-123 | a renderer's foreground escape is a whole escape that sets the pixel's colour |
| HtmlOutputProperties.BackgroundEscape | ImageAsciiArt/Output/HtmlOutputHandler.cs:124-137 | a renderer's background escape is a whole escape that sets the pixel's colour |
| HtmlOutputProperties.ScanForeground | ImageAsciiArt/Output/HtmlOutputHandler.cs:110-123 | a foreground escape in the input only records the colour |
| HtmlOutputProperties.ScanBackground | ImageAsciiArt/Output/HtmlOutputHandler.cs:124-137 | a background escape in the input only records the colour |
| HtmlOutputProperties.ScanReset | ImageAsciiArt/Output/HtmlOutputHandler.cs:99-109 | the reset closes an open span and forgets both colours |
| HtmlOutputProperties.ScanGlyph | ImageAsciiArt/Output/HtmlOutputHandler.cs:156-183 | a character that is neither ESC nor a line break is one character step |
| HtmlOutputProperties.ScanColouredGlyph | ImageAsciiArt/Output/HtmlOutputHandler.cs:158-182 | a classic colour cell opens a span in the pixel's colour outside a span, and joins the open span otherwise |
| HtmlOutputProperties.ColourCellScans | ImageAsciiArt/Output/HtmlOutputHandler.cs:158-172 | a half-block colour cell opens a span with both colours outside a span, and joins the open span otherwise |
| HtmlOutputProperties.SkipTwoThenGlyph | ImageAsciiArt/Output/HtmlOutputHandler.cs:92-182 | two escapes that only record colours, then a glyph, open a span in the recorded colours or join the open one |
| HtmlOutputProperties.GlyphAfter | ImageAsciiArt/Output/HtmlOutputHandler.cs:158-172 | a glyph after a colour was recorded opens a span unless one is open |
| HtmlOutputProperties.SpanKeepsFirstColour | ImageAsciiArt/Output/HtmlOutputHandler.cs:159 | once a span is open, a new colour does not show until the span closes: two differently coloured glyphs share the first glyph's span |
| HtmlOutputProperties.GlyphsShareSpan | ImageAsciiArt/Output/HtmlOutputHandler.cs:159 | whenever a foreground escape is followed by a glyph, a second foreground escape and a glyph, the converter opens one span in the first colour, puts both glyphs in it and closes it at the end; the second colour is never shown |
| HtmlOutputProperties.ResetClosesColouredGlyph | ImageAsciiArt/Output/HtmlOutputHandler.cs:99-109 | a glyph between a foreground escape and a reset is wrapped in one span of that colour |
| HtmlOutputProperties.ResetClosesSpan | ImageAsciiArt/Output/HtmlOutputHandler.cs:99-109 | whenever a foreground escape is followed by a glyph and a reset, the converter gives a span in that colour holding the glyph, closed by the reset, and no further closing tag at the end |
| HtmlOutputProperties.WorkedExample | ImageAsciiArt/Output/HtmlOutputHandler.cs:79-194 | the foreground escape for (10, 20, 30), the background escape for (40, 50, 60), `X` and the reset convert to one span whose style holds the colour, then the background colour, around `X`, closed by the reset |
| HtmlOutputProperties.CellResetClosesSpan | ImageAsciiArt/Output/HtmlOutputHandler.cs:99-172 | for any half-block cell that opens a span from the initial state, the cell's glyph followed by the reset gives that span around the glyph and its closing tag, with nothing more at the end |
| ImageProcessor.ToLower | ImageAsciiArt/ImageProcessor.cs:71 | the lower-cased extension has the same length and lower-cases each letter |
| ImageProcessor.ValidateInput | ImageAsciiArt/ImageProcessor.cs:64-77 | validation passes if and only if the file exists and its lower-cased extension is on the whitelist; a missing file is reported before a bad extension, and the bad extension is reported lower-cased |
| ImageProcessor.ValidationIgnoresCase | ImageAsciiArt/ImageProcessor.cs:71-72 | extensions that differ only in letter case are judged alike |
| ImageProcessor.ValidationExamples | ImageAsciiArt/ImageProcessor.cs:15 | `.PNG` and `.Tif` pass; no extension and `.txt` are unsupported; a missing file is not found |
| ImageProcessor.GetTargetDimensions | ImageAsciiArt/ImageProcessor.cs:35-59 | each override gives its own axis; a missing override takes the window size minus one, or 120 × 40 when the size query fails |
| ImageProcessor.BothOverridesWin | ImageAsciiArt/ImageProcessor.cs:39-42 | with both overrides the console is never consulted |
| ImageProcessor.TerminalBounds | ImageAsciiArt/ImageProcessor.cs:44-53 | without overrides the bounds are the window less one, or 120 × 40 when it cannot be read |
| ImageProcessor.OverridesPerAxis | ImageAsciiArt/ImageProcessor.cs:55-58 | each override replaces its own axis and leaves the other axis alone |
| ImageProcessor.CalculateTargetSize | ImageAsciiArt/ImageProcessor.cs:104-132 | both dimensions are at least 1 |
| ImageProcessor.HeightForWidth | ImageAsciiArt/ImageProcessor.cs:121-122 | the height derived from a width is maxWidth × imageHeight / (2 × imageWidth), rounded down |
| ImageProcessor.WidthForHeight | ImageAsciiArt/ImageProcessor.cs:127-128 | the width derived from a height is 2 × maxHeight × imageWidth / imageHeight, rounded down |
| ImageProcessor.WidthFirstFit | ImageAsciiArt/ImageProcessor.cs:120-122 | when the derived height fits, the size is the width bound and that height |
| ImageProcessor.HeightLimitedFit | ImageAsciiArt/ImageProcessor.cs:125-129 | otherwise the size is the derived width and the height bound |
| ImageProcessor.FitsWithinBounds | ImageAsciiArt/ImageProcessor.cs:104-132 | with bounds of at least 1 the size fits both bounds and meets one of them |
| ImageProcessor.SameCharacterRows | ImageAsciiArt/ImageProcessor.cs:87-88 | the block mode's doubled pixel height pairs back up into the requested character rows |
| ImageProcessor.PixelHeight | ImageAsciiArt/ImageProcessor.cs:87-88 | the resize height is at least the character height, and even in half-block mode |
| ImageProcessor.CreateRenderer | ImageAsciiArt/ImageProcessor.cs:137-142 | the half-block renderer if and only if the mode is Block |
| ImageProcessor.RenderWith | ImageAsciiArt/ImageProcessor.cs:28 | rendering fails exactly when the classic renderer gets an empty ramp, and then with `EmptyRamp`; the half-block renderer never fails |
| ImageProcessor.CreateOutputHandler | ImageAsciiArt/ImageProcessor.cs:147-153 | console, file and HTML handlers for the console, text and HTML formats |
| ImageProcessor.LoadAndResize | ImageAsciiArt/ImageProcessor.cs:82-98 | the image is valid and holds byte pixels; it fails if and only if decoding fails |
| ImageProcessor.Process | ImageAsciiArt/ImageProcessor.cs:20-30 | the method's result is the pipeline: validate, load, render, write, with the first error winning |
| ImageProcessor.Pipeline | ImageAsciiArt/ImageProcessor.cs:20-30 | a successful run writes to the console exactly when the format is console, and a file write goes to the given non-empty path |
| ImageProcessor.WriteWith | ImageAsciiArt/ImageProcessor.cs:29 | a successful write goes to the console exactly with the console handler, and a file write goes to the given non-empty path |
| ImageProcessor.ResizedSize | ImageAsciiArt/ImageProcessor.cs:85-95 | the grid is the target width by the mode's pixel height, and the target size does not depend on the mode |
| ImageProcessor.PipelineErrors | ImageAsciiArt/ImageProcessor.cs:20-30 | the errors in order: file not found, unsupported format, decode failure, empty ramp, missing path; a parse error only comes from HTML |
| ImageProcessor.ConsoleWrites | ImageAsciiArt/Output/ConsoleOutputHandler.cs:11-15 | console output is the mode's rendered text and one line break |
| ImageProcessor.ConsoleRowsMatchTarget | ImageAsciiArt/ImageProcessor.cs:100-103 | in both modes the console output holds exactly as many line breaks as the target height |
| ImageProcessor.ArtRows | ImageAsciiArt/ImageProcessor.cs:87-88 | either renderer draws rows - 1 line breaks on a grid sized for that many character rows |
| ImageProcessor.SameBoundsSameResult | ImageAsciiArt/ImageProcessor.cs:35-59 | the window and the size overrides reach the result only through the target dimensions |
| ImageProcessor.SameRender | ImageAsciiArt/ImageProcessor.cs:28 | rendering reads only the colour, inversion and ramp options |
| ImageProcessor.SameWrite | ImageAsciiArt/ImageProcessor.cs:29 | writing reads only the output path and the preserve switch |
| Program.DeriveFormat | ImageAsciiArt/Program.cs:95-99 | console if and only if the path is null or empty; otherwise HTML under `--html` and text without it |
| Program.EffectiveCharset | ImageAsciiArt/Program.cs:110-113 | a non-empty `--chars` forces Custom; otherwise `--charset` stands |
| Program.Configure | ImageAsciiArt/Program.cs:101-129 | no options, and so no processing, if and only if `--html` is given without a path |
| Program.ConfigureCopies | ImageAsciiArt/Program.cs:115-129 | the options copy every argument they take one to one |
| Program.ConfigureDefaults | ImageAsciiArt/Program.cs:12-62 | the command line's defaults give exactly the record's initialisers |
| Program.CustomCharsWin | ImageAsciiArt/Program.cs:110-113 | with a non-empty `--chars`, that string is the ramp whatever `--charset` says |
| Program.ConfiguredHasPath | ImageAsciiArt/Program.cs:95-107 | a file or HTML format always has a path, so the handlers' missing-path error cannot occur |
| Program.HtmlWriteErrors | ImageAsciiArt/Output/HtmlOutputHandler.cs:12-22 | with a path the HTML handler fails only on a colour component that does not parse |
| Program.Resolve | ImageAsciiArt/Program.cs:184-193 | a poll gives the window size, or 120 × 40 when the query throws |
| Program.WatchOptions | ImageAsciiArt/Program.cs:204-218 | width and height are the window less one, and every other option is copied |
| Program.WatchStep | ImageAsciiArt/Program.cs:179-225 | a poll changes the state exactly when the loop has not failed and the size differs from the last one; then it records the size as last and rendered, and either appends what the render wrote or marks the loop failed; after a failure nothing changes |
| Program.Watch | ImageAsciiArt/Program.cs:168-236 | the loop renders no more sizes than it polls; every render but a failed last one wrote an output, and output k is what the pipeline writes at rendered size k |
| Program.RunWatchMode | ImageAsciiArt/Program.cs:168-236 | the loop's final state is the fold of the polls: it renders on a size change and stops at the first failure |
| Program.FailureIsFinal | ImageAsciiArt/Program.cs:179-225 | once a render has thrown, later polls change nothing |
| Program.WatchInvariant | ImageAsciiArt/Program.cs:170-199 | the last size is (0, 0) before any render and the last rendered size after; no two consecutive renders share a size; every render but a failed last one wrote output |
| Program.WatchRendersOnChange | ImageAsciiArt/Program.cs:195-220 | from a state that has not failed, a poll whose size differs from the last one renders at that size, makes it the last size, and appends the render's output or fails |
| Program.SteadySizeRendersOnce | ImageAsciiArt/Program.cs:195-199 | polls that report one size render exactly once |
| Program.WatchRenderSize | ImageAsciiArt/Program.cs:204-220 | a watch render uses the window less one whatever the console and `--width`/`--height`, and without overrides equals a single run on a console of that size |
| Program.FallbackBounds | ImageAsciiArt/Program.cs:189-193 | with an unreadable window a single run is bounded by 120 × 40 but a watch render by 119 × 39 |
| Program.Run | ImageAsciiArt/Program.cs:80-161 | the handler's exit code and output are the outcome of configuring, then watching or processing once |
| Program.ExitCodes | ImageAsciiArt/Program.cs:131-160 | the exit code is 0 or 1; it is 1 for `--html` without a path, for a failed single run and for a failed watch render; a single run writes once on success and nothing on failure |
| Program.Outcome | ImageAsciiArt/Program.cs:131-160 | the exit code is 0 or 1; the run writes at most one output, or at most one per polled size in watch mode |
| Program.WatchOnlyOnConsole | ImageAsciiArt/Program.cs:135-142 | with an output path `--watch` is ignored: the polls do not matter and the pipeline runs once |

## Left out

- Decoding and resampling. ImageSharp's `Image.Load` and the Lanczos3 resize are inputs to the model:
  - the decoder's result is an optional size;
  - the resampler is a function that returns a grid of exactly the requested size.

  The Lanczos filter itself is not modelled.
- File system and console I/O: `File.Exists`, `File.WriteAllText`, the "saved to" messages, and
  `Console.Write` and `Console.WriteLine`. Each output is a `Written` value naming the path and the
  text.
- `Path.GetExtension` and `Path.GetFileName` are inputs, as the extension and the file name.
- `Console.WindowWidth` and `Console.WindowHeight` are inputs, as an optional window size.
- Doubles are exact rationals: brightness, the aspect ratio and the `(int)` casts. Rounding of the
  products in the source's floating point is not modelled, and the two can disagree where an exact
  value sits on a boundary. Three instances, worked out in IEEE double arithmetic:
  - the colour (0, 204, 68) has exact brightness 0.5, so on a three-glyph ramp the model's index is
    1; in doubles the brightness is 0.49999999999999994 and the index is 0
    (Rendering/ClassicAsciiRenderer.cs:31, Rendering/ClassicAsciiRenderer.cs:70);
  - the colour (218, 58, 248) has luminance exactly 127500, so the model calls it dark
    (`BlockRenderer.LightByLuminance`); in doubles its brightness is 0.5000000000000001, which is
    light (Rendering/BlockRenderer.cs:105, Rendering/BlockRenderer.cs:122);
  - an 800 × 768 image with bounds 125 × 60 gets 125 × 60 in the model, since the exact height
    125 × 768 / 1600 is 60; in doubles `charWidth / imageAspect / charAspectRatio` falls just
    below 60 and truncates to 59 (ImageProcessor.cs:110-122).
- ImageProcessor.ToLower: `ToLowerInvariant` is modelled on ASCII letters only. Other characters
  are kept as they are.
- `int.Parse` accepts an optional sign and digits, within 32 bits. Leading and trailing white space,
  which .NET also accepts, is not modelled.
- Integer overflow: the sizes and the products in `CalculateTargetSize` are unbounded integers. The
  source's 32-bit wrap-around of `targetHeight * 2` for huge overrides is not modelled.
- `Environment.NewLine` is `'\n'`.
- The CSS rules inside the HTML template's `<style>` element are not modelled. The template is kept
  as its fixed head, title, `<pre>` and tail texts.
- The unreachable default arms of the `CreateRenderer`, `CreateOutputHandler` and
  `GetCharacterRamp` switches: the enums have no other values.
- System.CommandLine parsing and its help output (Program.cs:1-77, 163). The model starts from the
  parsed arguments.
- Watch-loop timing:
  - `Task.Delay`;
  - the cancellation token, modelled as the end of the poll sequence;
  - `Console.Clear`, `SetCursorPosition` and cursor visibility;
  - the banner lines.

  A cancellation during the initial 1.5 s delay, which escapes the loop's `try` and gives exit
  code 1, is not modelled.
- Error messages on standard error: only the kind of error is kept.
- HtmlOutputProperties.ColourCellScans states the half-block cell at the level of a predicate over
  every input and position (`CellScans`), not as a standalone equation about one string.
- Text encoding. .NET strings index UTF-16 code units, and a Dafny `char` here is a whole code
  point. A ramp with characters outside the Basic Multilingual Plane (for example `--chars "😀😃"`)
  has length 4 in the source and 2 in the model. The source then draws lone surrogate halves
  (Rendering/ClassicAsciiRenderer.cs:31-35), and the inverted ramp splits surrogate pairs
  (Options/RenderOptions.cs:84). The model gives each such character whole.
- Culture. `StartsWith("38;2;")` and `StartsWith("48;2;")` (Output/HtmlOutputHandler.cs:110,124)
  compare under the current culture, `int.Parse` (Output/HtmlOutputHandler.cs:117-119,131-133)
  reads its sign under the current culture, and the colour numbers in the style attribute
  (Output/HtmlOutputHandler.cs:164,168) are formatted under it. The model is culture-invariant:
  ordinal comparison, an ASCII `-` sign and plain decimal digits.
