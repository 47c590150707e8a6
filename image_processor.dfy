/**
 * ImageProcessor: input validation, the terminal-bounded target size, the
 * pixel height each render mode asks the resampler for, the choice of
 * renderer and output handler, and Process, which runs those steps in order.
 * The file system, the decoder and the resampler are inputs (Env).
 */
module ImageProcessor {
  import opened Wrappers
  import opened Strings
  import opened Imaging
  import opened Options
  import ClassicAsciiRenderer
  import BlockRenderer
  import FileOutputHandler
  import HtmlOutputHandler

  /** The whitelist, lower case, with the leading dot that Path.GetExtension keeps. */
  const SupportedExtensions: seq<string> := [".jpg", ".jpeg", ".png", ".gif", ".bmp", ".webp", ".tiff", ".tif"]

  /** ToLowerInvariant on the ASCII letters; every other character is kept. */
  function LowerChar(c: char): char
  {
    if 'A' <= c <= 'Z' then (c as int - 'A' as int + 'a' as int) as char else c
  }

  function ToLower(s: string): (r: string)
    ensures |r| == |s| && forall k :: 0 <= k < |s| ==> r[k] == LowerChar(s[k])
  {
    if s == [] then [] else ToLower(s[..|s| - 1]) + [LowerChar(s[|s| - 1])]
  }

  /**
   * ValidateInput: a missing file is reported first; otherwise the lower-cased
   * extension must be on the whitelist. The file test and the extension are
   * what File.Exists and Path.GetExtension return.
   */
  function ValidateInput(fileExists: bool, extension: string): (r: Result<()>)
    ensures r.Ok? <==> fileExists && ToLower(extension) in SupportedExtensions
    ensures !fileExists ==> r == Err(FileNotFound)
    ensures fileExists && ToLower(extension) !in SupportedExtensions ==> r == Err(UnsupportedFormat(ToLower(extension)))
  {
    if !fileExists then Err(FileNotFound)
    else if ToLower(extension) !in SupportedExtensions then Err(UnsupportedFormat(ToLower(extension)))
    else Ok(())
  }

  /** Two extensions that differ only in letter case are judged alike. */
  lemma ValidationIgnoresCase(fileExists: bool, a: string, b: string)
    requires |a| == |b| && forall k :: 0 <= k < |a| ==> LowerChar(a[k]) == LowerChar(b[k])
    ensures ValidateInput(fileExists, a) == ValidateInput(fileExists, b)
  {
    assert ToLower(a) == ToLower(b);
  }

  /** An upper-case extension is accepted and a file without an extension is not. */
  lemma ValidationExamples()
    ensures ValidateInput(true, ".PNG") == Ok(())
    ensures ValidateInput(true, ".Tif") == Ok(())
    ensures ValidateInput(true, "") == Err(UnsupportedFormat(""))
    ensures ValidateInput(true, ".txt") == Err(UnsupportedFormat(".txt"))
    ensures ValidateInput(false, ".png") == Err(FileNotFound)
  {
    assert ToLower(".PNG") == ".png";
    assert ToLower(".Tif") == ".tif";
    assert ToLower(".txt") == ".txt";
    assert ".txt" != ".tif" && ".txt" != ".tiff";
  }

  /** The bounds used when the console cannot report its size. */
  const FallbackWidth := 120
  const FallbackHeight := 40

  /**
   * GetTargetDimensions. The window is what Console.WindowWidth/WindowHeight
   * report, None when reading them throws.
   */
  function GetTargetDimensions(o: RenderOptions, window: Option<(int, int)>): (d: (int, int))
    ensures o.width.Some? ==> d.0 == o.width.value
    ensures o.height.Some? ==> d.1 == o.height.value
    ensures o.width.None? ==> d.0 == if window.Some? then window.value.0 - 1 else FallbackWidth
    ensures o.height.None? ==> d.1 == if window.Some? then window.value.1 - 1 else FallbackHeight
  {
    if o.width.Some? && o.height.Some? then (o.width.value, o.height.value)
    else
      var bounds := match window
        case Some(size) => (size.0 - 1, size.1 - 1)
        case None => (FallbackWidth, FallbackHeight);
      (o.width.GetOr(bounds.0), o.height.GetOr(bounds.1))
  }

  /** With both overrides the console is never consulted. */
  lemma BothOverridesWin(o: RenderOptions, w1: Option<(int, int)>, w2: Option<(int, int)>)
    requires o.width.Some? && o.height.Some?
    ensures GetTargetDimensions(o, w1) == GetTargetDimensions(o, w2) == (o.width.value, o.height.value)
  {
  }

  /** Without overrides the bounds are one less than the window, or 120 × 40 when it cannot be read. */
  lemma TerminalBounds(o: RenderOptions, cols: int, rows: int)
    requires o.width.None? && o.height.None?
    ensures GetTargetDimensions(o, Some((cols, rows))) == (cols - 1, rows - 1)
    ensures GetTargetDimensions(o, None) == (120, 40)
  {
  }

  /** Each override replaces its own axis only: the width does not depend on the height override, nor the reverse. */
  lemma OverridesPerAxis(o: RenderOptions, window: Option<(int, int)>, w: Option<int>, h: Option<int>)
    ensures o.width.Some? ==> GetTargetDimensions(o, window).0 == o.width.value
    ensures o.height.Some? ==> GetTargetDimensions(o, window).1 == o.height.value
    ensures o.width.None? && h.None? ==>
      GetTargetDimensions(o, window).0 == GetTargetDimensions(o.(height := h), window).0
    ensures o.height.None? && w.None? ==>
      GetTargetDimensions(o, window).1 == GetTargetDimensions(o.(width := w), window).1
  {
  }

  /** Characters are about twice as tall as they are wide. */
  const CharAspectRatio: real := 2.0

  function Max(a: int, b: int): int
  {
    if a >= b then a else b
  }

  /**
   * CalculateTargetSize: fit the width first; when the height that gives is
   * over the bound, fit the height and derive the width. Exact reals stand
   * for the doubles; the casts truncate toward zero.
   */
  function CalculateTargetSize(imageWidth: int, imageHeight: int, maxWidth: int, maxHeight: int): (size: (int, int))
    requires imageWidth >= 1 && imageHeight >= 1
    ensures size.0 >= 1 && size.1 >= 1
  {
    var imageAspect := imageWidth as real / imageHeight as real;
    var fitHeight := Trunc(maxWidth as real / imageAspect / CharAspectRatio);
    var fit :=
      if fitHeight > maxHeight then (Trunc(maxHeight as real * imageAspect * CharAspectRatio), maxHeight)
      else (maxWidth, fitHeight);
    (Max(1, fit.0), Max(1, fit.1))
  }

  /** The height that fits the width, in integers: maxWidth × imageHeight / (2 × imageWidth), rounded down. */
  lemma HeightForWidth(imageWidth: int, imageHeight: int, maxWidth: int)
    requires imageWidth >= 1 && imageHeight >= 1 && maxWidth >= 0
    ensures Trunc(maxWidth as real / (imageWidth as real / imageHeight as real) / CharAspectRatio) ==
      (maxWidth * imageHeight) / (2 * imageWidth)
  {
    var x := maxWidth as real / (imageWidth as real / imageHeight as real) / CharAspectRatio;
    assert x == (maxWidth * imageHeight) as real / (2 * imageWidth) as real;
    assert x >= 0.0;
    FloorDiv(maxWidth * imageHeight, 2 * imageWidth);
  }

  /** The width that fits the height, in integers: 2 × maxHeight × imageWidth / imageHeight, rounded down. */
  lemma WidthForHeight(imageWidth: int, imageHeight: int, maxHeight: int)
    requires imageWidth >= 1 && imageHeight >= 1 && maxHeight >= 0
    ensures Trunc(maxHeight as real * (imageWidth as real / imageHeight as real) * CharAspectRatio) ==
      (2 * maxHeight * imageWidth) / imageHeight
  {
    var x := maxHeight as real * (imageWidth as real / imageHeight as real) * CharAspectRatio;
    assert x == (2 * maxHeight * imageWidth) as real / imageHeight as real;
    assert x >= 0.0;
    FloorDiv(2 * maxHeight * imageWidth, imageHeight);
  }

  /** Width-first fit: when the derived height is within bounds, the width is the bound and the height is derived. */
  lemma WidthFirstFit(imageWidth: int, imageHeight: int, maxWidth: int, maxHeight: int)
    requires imageWidth >= 1 && imageHeight >= 1 && maxWidth >= 0
    requires (maxWidth * imageHeight) / (2 * imageWidth) <= maxHeight
    ensures CalculateTargetSize(imageWidth, imageHeight, maxWidth, maxHeight) ==
      (Max(1, maxWidth), Max(1, (maxWidth * imageHeight) / (2 * imageWidth)))
  {
    HeightForWidth(imageWidth, imageHeight, maxWidth);
  }

  /** Height-limited fit: otherwise the height is the bound and the width is derived from it. */
  lemma HeightLimitedFit(imageWidth: int, imageHeight: int, maxWidth: int, maxHeight: int)
    requires imageWidth >= 1 && imageHeight >= 1 && maxWidth >= 0 && maxHeight >= 0
    requires (maxWidth * imageHeight) / (2 * imageWidth) > maxHeight
    ensures CalculateTargetSize(imageWidth, imageHeight, maxWidth, maxHeight) ==
      (Max(1, (2 * maxHeight * imageWidth) / imageHeight), Max(1, maxHeight))
  {
    HeightForWidth(imageWidth, imageHeight, maxWidth);
    WidthForHeight(imageWidth, imageHeight, maxHeight);
  }

  /** q > m for q = a / d means a >= (m + 1) × d. */
  lemma QuotientAbove(a: int, d: int, m: int)
    requires d >= 1 && a / d > m
    ensures a >= (m + 1) * d
  {
    var q := a / d;
    assert a == q * d + a % d;
    MulMonotone(m + 1, q, d);
  }

  /** a < b × d means a / d < b. */
  lemma QuotientBelow(a: int, b: int, d: int)
    requires d >= 1 && a >= 0 && a < b * d
    ensures a / d < b
  {
    var q := a / d;
    assert a == q * d + a % d;
    if q >= b {
      MulMonotone(b, q, d);
    }
  }

  /**
   * With bounds of at least one cell the result fits both bounds and meets one
   * of them: the width in a width-first fit, the height in a height-limited one.
   */
  lemma FitsWithinBounds(imageWidth: int, imageHeight: int, maxWidth: int, maxHeight: int)
    requires imageWidth >= 1 && imageHeight >= 1 && maxWidth >= 1 && maxHeight >= 1
    ensures var size := CalculateTargetSize(imageWidth, imageHeight, maxWidth, maxHeight);
      size.0 <= maxWidth && size.1 <= maxHeight && (size.0 == maxWidth || size.1 == maxHeight)
  {
    var q := (maxWidth * imageHeight) / (2 * imageWidth);
    if q <= maxHeight {
      WidthFirstFit(imageWidth, imageHeight, maxWidth, maxHeight);
    } else {
      HeightLimitedFit(imageWidth, imageHeight, maxWidth, maxHeight);
      QuotientAbove(maxWidth * imageHeight, 2 * imageWidth, maxHeight);
      assert maxWidth * imageHeight >= 2 * maxHeight * imageWidth + 2 * imageWidth;
      QuotientBelow(2 * maxHeight * imageWidth, maxWidth, imageHeight);
    }
  }

  /**
   * LoadAndResizeImage's pixel height: each block character draws two pixel
   * rows, so the block mode asks for twice the character height.
   */
  function PixelHeight(mode: RenderMode, charHeight: int): (h: int)
    ensures charHeight >= 1 ==> h >= charHeight
    ensures mode == Block ==> h % 2 == 0
  {
    if mode == Block then charHeight * 2 else charHeight
  }

  /** Both modes give the same number of character rows: the block renderer pairs the doubled rows back up. */
  lemma SameCharacterRows(charHeight: int)
    requires charHeight >= 1
    ensures BlockRenderer.OutputHeight(PixelHeight(Block, charHeight)) == charHeight
    ensures PixelHeight(Classic, charHeight) == charHeight
  {
  }

  /** The renderers behind IRenderer. */
  datatype Renderer = ClassicAscii | HalfBlock

  /** The output handlers behind IOutputHandler. */
  datatype OutputHandler = ConsoleOutput | FileOutput | HtmlOutput

  /** CreateRenderer: one renderer per mode (the switch's default arm is unreachable for a two-value enum). */
  function CreateRenderer(o: RenderOptions): (r: Renderer)
    ensures r == HalfBlock <==> o.mode == Block
  {
    match o.mode
    case Block => HalfBlock
    case Classic => ClassicAscii
  }

  /** CreateOutputHandler: one handler per output format. */
  function CreateOutputHandler(o: RenderOptions): (h: OutputHandler)
    ensures h == ConsoleOutput <==> o.outputFormat == Console
    ensures h == FileOutput <==> o.outputFormat == Text
    ensures h == HtmlOutput <==> o.outputFormat == Html
  {
    match o.outputFormat
    case Console => ConsoleOutput
    case Text => FileOutput
    case Html => HtmlOutput
  }

  /** The decoded image's size, as Image.Load reports it. */
  datatype Dims = Dims(width: int, height: int)

  /**
   * What Process reads from outside: whether the file exists, its extension
   * and file name (Path.GetExtension / Path.GetFileName), the console size,
   * the decoder's result (None when Image.Load throws) and the resampler,
   * which maps a requested size to the resized pixel grid.
   */
  datatype Env = Env(
    fileExists: bool,
    extension: string,
    fileName: string,
    window: Option<(int, int)>,
    decoded: Option<Dims>,
    resize: (int, int) -> Image)
  {
    /** A decoded image is never empty, and Resize with Stretch yields exactly the requested size in byte pixels. */
    ghost predicate Valid()
    {
      (decoded.Some? ==> decoded.value.width >= 1 && decoded.value.height >= 1) &&
      forall w: int, h: int :: w >= 1 && h >= 1 ==>
        var img := resize(w, h);
        img.Valid() && img.Bytes() && img.width == w && img.height == h
    }
  }

  /** The character size for a decoded image under the options. */
  function TargetSize(o: RenderOptions, env: Env, d: Dims): (int, int)
    requires d.width >= 1 && d.height >= 1
  {
    var bounds := GetTargetDimensions(o, env.window);
    CalculateTargetSize(d.width, d.height, bounds.0, bounds.1)
  }

  /** LoadAndResizeImage: decode, size, then resample to the target width and the mode's pixel height. */
  function LoadAndResize(o: RenderOptions, env: Env): (r: Result<Image>)
    requires env.Valid()
    ensures r.Ok? ==> r.value.Valid() && r.value.Bytes()
    ensures r.Err? <==> env.decoded.None?
    ensures r.Err? ==> r.error == DecodeFailed
  {
    match env.decoded
    case None => Err(DecodeFailed)
    case Some(d) =>
      var size := TargetSize(o, env, d);
      var img := env.resize(size.0, PixelHeight(o.mode, size.1));
      Ok(img)
  }

  /** renderer.Render(image, options). */
  function RenderWith(r: Renderer, img: Image, o: RenderOptions): (res: Result<string>)
    requires img.Valid()
    ensures res.Err? <==> r == ClassicAscii && GetCharacterRamp(o) == []
    ensures res.Err? ==> res.error == EmptyRamp
  {
    match r
    case HalfBlock => Ok(BlockRenderer.Art(img, o.noColor, o.invert))
    case ClassicAscii =>
      var ramp := GetCharacterRamp(o);
      if ramp == [] then Err(EmptyRamp) else Ok(ClassicAsciiRenderer.Art(img, ramp, o.noColor))
  }

  /** output.Write(content, options): Console.Write then WriteLine, or a file. */
  function WriteWith(h: OutputHandler, content: string, o: RenderOptions, fileName: string): (r: Result<Written>)
    ensures r.Ok? ==> (r.value.ConsoleText? <==> h == ConsoleOutput)
    ensures r.Ok? && r.value.FileText? ==> o.outputPath.Some? && r.value.path == o.outputPath.value && r.value.path != []
  {
    match h
    case ConsoleOutput => Ok(ConsoleText(content + [LineBreak]))
    case FileOutput => FileOutputHandler.Write(content, o)
    case HtmlOutput => HtmlOutputHandler.Write(content, o, fileName)
  }

  /** What Process does, step by step; the first step that throws decides the result. */
  function Pipeline(o: RenderOptions, env: Env): (r: Result<Written>)
    requires env.Valid()
    ensures r.Ok? ==> (r.value.ConsoleText? <==> o.outputFormat == Console)
    ensures r.Ok? && r.value.FileText? ==> o.outputPath == Some(r.value.path) && r.value.path != []
  {
    match ValidateInput(env.fileExists, env.extension)
    case Err(e) => Err(e)
    case Ok(_) =>
      match LoadAndResize(o, env)
      case Err(e) => Err(e)
      case Ok(img) =>
        match RenderWith(CreateRenderer(o), img, o)
        case Err(e) => Err(e)
        case Ok(art) => WriteWith(CreateOutputHandler(o), art, o, env.fileName)
  }

  /** Process: validate, load and resize, pick the renderer and the handler, render, write. */
  method Process(o: RenderOptions, env: Env) returns (r: Result<Written>)
    requires env.Valid()
    ensures r == Pipeline(o, env)
  {
    var valid := ValidateInput(env.fileExists, env.extension);
    if valid.Err? {
      return Err(valid.error);
    }
    var loaded := LoadAndResize(o, env);
    if loaded.Err? {
      return Err(loaded.error);
    }
    var image := loaded.value;
    var renderer := CreateRenderer(o);
    var output := CreateOutputHandler(o);
    var art: string;
    if renderer == HalfBlock {
      art := BlockRenderer.Render(image, o);
    } else {
      var rendered := ClassicAsciiRenderer.Render(image, o);
      if rendered.Err? {
        return Err(rendered.error);
      }
      art := rendered.value;
    }
    r := WriteWith(output, art, o, env.fileName);
  }

  /** The resized grid is the target width by the mode's pixel height, whatever the mode asks of the console. */
  lemma ResizedSize(o: RenderOptions, env: Env)
    requires env.Valid() && env.decoded.Some?
    ensures var size := TargetSize(o, env, env.decoded.value);
      LoadAndResize(o, env).Ok? &&
      LoadAndResize(o, env).value.width == size.0 &&
      LoadAndResize(o, env).value.height == PixelHeight(o.mode, size.1)
    ensures TargetSize(o, env, env.decoded.value) == TargetSize(o.(mode := Classic), env, env.decoded.value)
    ensures TargetSize(o, env, env.decoded.value) == TargetSize(o.(mode := Block), env, env.decoded.value)
  {
    var size := TargetSize(o, env, env.decoded.value);
    assert size.0 >= 1 && PixelHeight(o.mode, size.1) >= 1;
  }

  /**
   * The first failing step decides the error: a missing file, then the
   * extension, then the decoder, then an empty ramp (classic mode only),
   * then the handler's own checks.
   */
  lemma PipelineErrors(o: RenderOptions, env: Env)
    requires env.Valid()
    ensures !env.fileExists ==> Pipeline(o, env) == Err(FileNotFound)
    ensures env.fileExists && ToLower(env.extension) !in SupportedExtensions ==>
      Pipeline(o, env) == Err(UnsupportedFormat(ToLower(env.extension)))
    ensures ValidateInput(env.fileExists, env.extension).Ok? && env.decoded.None? ==>
      Pipeline(o, env) == Err(DecodeFailed)
    ensures (ValidateInput(env.fileExists, env.extension).Ok? && env.decoded.Some? &&
             o.mode == Classic && GetCharacterRamp(o) == []) ==>
      Pipeline(o, env) == Err(EmptyRamp)
    ensures (ValidateInput(env.fileExists, env.extension).Ok? && env.decoded.Some? && o.mode == Block &&
             o.outputFormat != Console && (o.outputPath.None? || o.outputPath.value == [])) ==>
      Pipeline(o, env) == Err(MissingOutputPath)
    ensures Pipeline(o, env).Err? && Pipeline(o, env).error == BadNumber ==> o.outputFormat == Html
  {
  }

  /** Console output is the rendered text and one line break, from whichever renderer the mode picks. */
  lemma ConsoleWrites(o: RenderOptions, env: Env)
    requires env.Valid() && o.outputFormat == Console
    requires ValidateInput(env.fileExists, env.extension).Ok? && env.decoded.Some?
    ensures var img := LoadAndResize(o, env).value;
      (o.mode == Block ==> Pipeline(o, env) == Ok(ConsoleText(BlockRenderer.Art(img, o.noColor, o.invert) + [LineBreak]))) &&
      (o.mode == Classic && GetCharacterRamp(o) != [] ==>
         Pipeline(o, env) == Ok(ConsoleText(ClassicAsciiRenderer.Art(img, GetCharacterRamp(o), o.noColor) + [LineBreak])))
  {
  }

  /**
   * Both modes show the same number of character rows: on the console the
   * output holds exactly as many line breaks as the target height.
   */
  lemma ConsoleRowsMatchTarget(o: RenderOptions, env: Env)
    requires env.Valid() && o.outputFormat == Console
    requires ValidateInput(env.fileExists, env.extension).Ok? && env.decoded.Some?
    requires o.mode == Classic ==> GetCharacterRamp(o) != [] && LineBreak !in GetCharacterRamp(o)
    ensures Pipeline(o, env).Ok?
    ensures multiset(Pipeline(o, env).value.text)[LineBreak] == TargetSize(o, env, env.decoded.value).1
  {
    var img := LoadAndResize(o, env).value;
    var rows := TargetSize(o, env, env.decoded.value).1;
    ResizedSize(o, env);
    ArtRows(o, img, rows);
    var art := RenderWith(CreateRenderer(o), img, o).value;
    ConsolePipeline(o, env, img, art);
    LineBreakAppended(art);
  }

  /** Either renderer draws rows - 1 line breaks on a grid sized for rows character rows. */
  lemma ArtRows(o: RenderOptions, img: Image, rows: int)
    requires img.Valid() && img.Bytes() && img.height == PixelHeight(o.mode, rows)
    requires o.mode == Classic ==> GetCharacterRamp(o) != [] && LineBreak !in GetCharacterRamp(o)
    ensures RenderWith(CreateRenderer(o), img, o).Ok?
    ensures multiset(RenderWith(CreateRenderer(o), img, o).value)[LineBreak] == rows - 1
  {
    if o.mode == Block {
      BlockRenderer.ArtBreaks(img, o.noColor, o.invert);
      SameCharacterRows(rows);
    } else {
      ClassicAsciiRenderer.ArtBreaks(img, GetCharacterRamp(o), o.noColor);
    }
  }

  /** On the console, a run that gets past validation, decoding and rendering writes the art and a line break. */
  lemma ConsolePipeline(o: RenderOptions, env: Env, img: Image, art: string)
    requires env.Valid() && o.outputFormat == Console
    requires ValidateInput(env.fileExists, env.extension).Ok? && LoadAndResize(o, env) == Ok(img)
    requires RenderWith(CreateRenderer(o), img, o) == Ok(art)
    ensures Pipeline(o, env) == Ok(ConsoleText(art + [LineBreak]))
  {
    assert CreateOutputHandler(o) == ConsoleOutput;
  }

  /** Writing the line break adds one to the count. */
  lemma LineBreakAppended(art: string)
    ensures multiset(art + [LineBreak])[LineBreak] == multiset(art)[LineBreak] + 1
  {
    assert multiset(art + [LineBreak]) == multiset(art) + multiset{LineBreak};
  }

  /**
   * The console and the width and height options reach the result only
   * through the target dimensions: two runs that agree on everything else
   * and on those dimensions give the same result.
   */
  lemma SameBoundsSameResult(o1: RenderOptions, env1: Env, o2: RenderOptions, env2: Env)
    requires env1.Valid() && env2.Valid()
    requires o1.(width := None, height := None) == o2.(width := None, height := None)
    requires env1.(window := None) == env2.(window := None)
    requires GetTargetDimensions(o1, env1.window) == GetTargetDimensions(o2, env2.window)
    ensures Pipeline(o1, env1) == Pipeline(o2, env2)
  {
    assert o1.(width := None, height := None).mode == o2.(width := None, height := None).mode;
    assert env1.(window := None).fileExists == env2.(window := None).fileExists;
    assert env1.(window := None).extension == env2.(window := None).extension;
    assert env1.(window := None).fileName == env2.(window := None).fileName;
    SameLoad(o1, env1, o2, env2);
    var r1, r2 := CreateRenderer(o1), CreateRenderer(o2);
    var h1, h2 := CreateOutputHandler(o1), CreateOutputHandler(o2);
    assert r1 == r2 && h1 == h2;
    if LoadAndResize(o1, env1).Ok? {
      var img := LoadAndResize(o1, env1).value;
      SameRender(r1, img, o1, o2);
      var rendered := RenderWith(r1, img, o1);
      if rendered.Ok? {
        SameWrite(h1, rendered.value, o1, o2, env1.fileName);
      }
    }
  }

  /** Decoding and resizing read the mode, the decoder, the resampler and the target size only. */
  lemma SameLoad(o1: RenderOptions, env1: Env, o2: RenderOptions, env2: Env)
    requires env1.Valid() && env2.Valid() && o1.mode == o2.mode
    requires env1.(window := None) == env2.(window := None)
    requires GetTargetDimensions(o1, env1.window) == GetTargetDimensions(o2, env2.window)
    ensures LoadAndResize(o1, env1) == LoadAndResize(o2, env2)
  {
    assert env1.(window := None).decoded == env2.(window := None).decoded;
    assert env1.(window := None).resize == env2.(window := None).resize;
  }

  /** Rendering reads the colour, inversion and ramp options only. */
  lemma SameRender(r: Renderer, img: Image, o1: RenderOptions, o2: RenderOptions)
    requires img.Valid()
    requires o1.(width := None, height := None) == o2.(width := None, height := None)
    ensures RenderWith(r, img, o1) == RenderWith(r, img, o2)
  {
    var b1, b2 := o1.(width := None, height := None), o2.(width := None, height := None);
    assert o1.noColor == b1.noColor == b2.noColor == o2.noColor;
    assert o1.invert == b1.invert == b2.invert == o2.invert;
    assert o1.characterSet == b1.characterSet == b2.characterSet == o2.characterSet;
    assert o1.customCharacters == b1.customCharacters == b2.customCharacters == o2.customCharacters;
    assert GetCharacterRamp(o1) == GetCharacterRamp(o2);
  }

  /** Writing reads the output path and the ANSI-preservation flag only. */
  lemma SameWrite(h: OutputHandler, content: string, o1: RenderOptions, o2: RenderOptions, fileName: string)
    requires o1.(width := None, height := None) == o2.(width := None, height := None)
    ensures WriteWith(h, content, o1, fileName) == WriteWith(h, content, o2, fileName)
  {
    var b1, b2 := o1.(width := None, height := None), o2.(width := None, height := None);
    assert o1.outputPath == b1.outputPath == b2.outputPath == o2.outputPath;
    assert o1.preserveAnsiInTextOutput == b1.preserveAnsiInTextOutput == b2.preserveAnsiInTextOutput == o2.preserveAnsiInTextOutput;
    assert FileOutputHandler.Write(content, o1) == FileOutputHandler.Write(content, o2);
    assert HtmlOutputHandler.Write(content, o1, fileName) == HtmlOutputHandler.Write(content, o2, fileName);
  }
}
