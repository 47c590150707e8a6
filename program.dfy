/**
 * The command-line entry point: how the parsed arguments become a
 * RenderOptions record, which exit code each outcome gives, and the watch
 * loop that re-renders whenever the polled console size changes.
 */
module Program {
  import opened Wrappers
  import opened Options
  import opened ImageProcessor
  import HtmlOutputHandler

  /** The parsed command line, null options modelled as None. */
  datatype Args = Args(
    image: string,
    mode: RenderMode,
    charset: CharacterSet,
    customChars: Option<string>,
    width: Option<int>,
    height: Option<int>,
    output: Option<string>,
    html: bool,
    noColor: bool,
    invert: bool,
    watch: bool,
    preserveAnsi: bool)

  /** string.IsNullOrEmpty. */
  predicate NullOrEmpty(s: Option<string>)
  {
    s.None? || s.value == []
  }

  /** The output format: the console unless a path is given, then HTML or text by the --html flag. */
  function DeriveFormat(output: Option<string>, html: bool): (f: OutputFormat)
    ensures f == Console <==> NullOrEmpty(output)
    ensures f == Html <==> !NullOrEmpty(output) && html
    ensures f == Text <==> !NullOrEmpty(output) && !html
  {
    if !NullOrEmpty(output) then (if html then Html else Text) else Console
  }

  /** A non-empty --chars forces the custom set whatever --charset says. */
  function EffectiveCharset(charset: CharacterSet, customChars: Option<string>): (cs: CharacterSet)
    ensures !NullOrEmpty(customChars) ==> cs == Custom
    ensures NullOrEmpty(customChars) ==> cs == charset
  {
    if !NullOrEmpty(customChars) then Custom else charset
  }

  /** The options record for the arguments, or None when --html is given without --output. */
  function Configure(a: Args): (r: Option<RenderOptions>)
    ensures r.None? <==> a.html && NullOrEmpty(a.output)
  {
    if a.html && NullOrEmpty(a.output) then None
    else
      Some(RenderOptions(
        a.image, a.mode, EffectiveCharset(a.charset, a.customChars), a.customChars,
        a.width, a.height, DeriveFormat(a.output, a.html), a.output,
        a.noColor, a.invert, a.watch, a.preserveAnsi))
  }

  /** The fields the arguments set one to one are copied unchanged. */
  lemma ConfigureCopies(a: Args)
    requires Configure(a).Some?
    ensures var o := Configure(a).value;
      o.imagePath == a.image && o.mode == a.mode && o.customCharacters == a.customChars &&
      o.width == a.width && o.height == a.height && o.outputPath == a.output &&
      o.noColor == a.noColor && o.invert == a.invert && o.watch == a.watch &&
      o.preserveAnsiInTextOutput == a.preserveAnsi
  {
  }

  /** The command line's defaults give exactly the record's initialisers. */
  lemma ConfigureDefaults(image: string)
    ensures Configure(Args(image, Block, Extended, None, None, None, None, false, false, false, false, false))
      == Some(DefaultOptions(image))
  {
  }

  /**
   * A configured record with a non-empty custom string renders with that
   * string (reversed under --invert), never with the preset --charset names.
   */
  lemma CustomCharsWin(a: Args, cs: CharacterSet)
    requires Configure(a).Some? && !NullOrEmpty(a.customChars) && !a.invert
    ensures GetCharacterRamp(Configure(a).value) == a.customChars.value
    ensures Configure(a.(charset := cs)) == Configure(a)
  {
  }

  /**
   * A configured record never reaches a file or HTML handler without a path:
   * the handlers' missing-path error cannot happen from the command line.
   */
  lemma ConfiguredHasPath(a: Args, env: Env)
    requires env.Valid() && Configure(a).Some?
    ensures Configure(a).value.outputFormat != Console ==> !NullOrEmpty(Configure(a).value.outputPath)
    ensures Pipeline(Configure(a).value, env) != Err(MissingOutputPath)
  {
    var o := Configure(a).value;
    if o.outputFormat == Console {
      assert CreateOutputHandler(o) == ConsoleOutput;
    } else if o.outputFormat == Html {
      forall content: string
        ensures HtmlOutputHandler.Write(content, o, env.fileName) != Err(MissingOutputPath)
      {
        HtmlWriteErrors(content, o, env.fileName);
      }
    }
  }

  /** With a path, the HTML handler can only fail on a colour component it cannot parse. */
  lemma HtmlWriteErrors(content: string, o: RenderOptions, imageName: string)
    requires !NullOrEmpty(o.outputPath)
    ensures HtmlOutputHandler.Write(content, o, imageName).Err? ==>
      HtmlOutputHandler.Write(content, o, imageName).error == BadNumber
  {
  }

  /** The size a poll reports, 120 × 40 when reading the window throws. */
  function Resolve(poll: Option<(int, int)>): (size: (int, int))
    ensures poll.Some? ==> size == poll.value
    ensures poll.None? ==> size == (FallbackWidth, FallbackHeight)
  {
    poll.GetOr((FallbackWidth, FallbackHeight))
  }

  /** The options of a watch re-render: explicit width and height one less than the window, all else copied. */
  function WatchOptions(o: RenderOptions, size: (int, int)): (w: RenderOptions)
    ensures w.width == Some(size.0 - 1) && w.height == Some(size.1 - 1)
    ensures w.(width := o.width, height := o.height) == o
  {
    o.(width := Some(size.0 - 1), height := Some(size.1 - 1))
  }

  /**
   * The watch loop's variables after some polls: the last size seen, the
   * sizes it rendered at, what each successful render wrote, and whether a
   * render threw (which ends the loop).
   */
  datatype WatchState = WatchState(last: (int, int), rendered: seq<(int, int)>, outputs: seq<Written>, failed: bool)

  /** The state before the first poll: the last size starts at (0, 0). */
  const WatchStart := WatchState((0, 0), [], [], false)

  /** One poll: render only when the size differs from the last one; a failed render stops the loop. */
  function WatchStep(o: RenderOptions, env: Env, st: WatchState, poll: Option<(int, int)>): (r: WatchState)
    requires env.Valid()
    ensures st.failed ==> r == st
    ensures r.rendered == st.rendered || r.rendered == st.rendered + [Resolve(poll)]
    ensures st.outputs <= r.outputs && |r.outputs| <= |st.outputs| + 1
    ensures |r.outputs| > |st.outputs| ==> !r.failed && |r.rendered| > |st.rendered|
    ensures r != st <==> !st.failed && Resolve(poll) != st.last
    ensures r != st ==>
      r.last == Resolve(poll) && r.rendered == st.rendered + [Resolve(poll)] &&
      (r.failed <==> Pipeline(WatchOptions(o, r.last), env).Err?) &&
      (r.failed ==> r.outputs == st.outputs) &&
      (!r.failed ==> r.outputs == st.outputs + [Pipeline(WatchOptions(o, r.last), env).value])
  {
    if st.failed then st
    else
      var size := Resolve(poll);
      if size == st.last then st
      else
        match Pipeline(WatchOptions(o, size), env)
        case Ok(w) => st.(last := size, rendered := st.rendered + [size], outputs := st.outputs + [w])
        case Err(_) => st.(last := size, rendered := st.rendered + [size], failed := true)
  }

  /** The watch loop as a fold over the polled sizes, from the first poll to the last. */
  function Watch(o: RenderOptions, env: Env, polls: seq<Option<(int, int)>>): (st: WatchState)
    requires env.Valid()
    ensures |st.outputs| <= |st.rendered| <= |polls|
    ensures |st.outputs| == |st.rendered| - (if st.failed then 1 else 0)
    ensures forall k :: 0 <= k < |st.outputs| ==> Pipeline(WatchOptions(o, st.rendered[k]), env) == Ok(st.outputs[k])
  {
    if polls == [] then WatchStart
    else WatchStep(o, env, Watch(o, env, polls[..|polls| - 1]), polls[|polls| - 1])
  }

  /**
   * RunWatchMode: poll, compare with the last size, re-render on a change.
   * The loop ends when the polls run out (cancellation) or a render throws.
   */
  method RunWatchMode(o: RenderOptions, env: Env, polls: seq<Option<(int, int)>>) returns (st: WatchState)
    requires env.Valid()
    ensures st == Watch(o, env, polls)
  {
    st := WatchStart;
    var i := 0;
    while i < |polls| && !st.failed
      invariant 0 <= i <= |polls|
      invariant st == Watch(o, env, polls[..i])
    {
      assert polls[..i + 1][..i] == polls[..i];
      var size := Resolve(polls[i]);
      if size != st.last {
        var r := Process(WatchOptions(o, size), env);
        if r.Ok? {
          st := st.(last := size, rendered := st.rendered + [size], outputs := st.outputs + [r.value]);
        } else {
          st := st.(last := size, rendered := st.rendered + [size], failed := true);
        }
      }
      i := i + 1;
    }
    if i < |polls| {
      FailureIsFinal(o, env, polls, i);
    } else {
      assert polls[..i] == polls;
    }
  }

  /** Once a render has failed, further polls change nothing. */
  lemma {:induction false} FailureIsFinal(o: RenderOptions, env: Env, polls: seq<Option<(int, int)>>, i: nat)
    requires env.Valid() && i <= |polls| && Watch(o, env, polls[..i]).failed
    ensures Watch(o, env, polls) == Watch(o, env, polls[..i])
    decreases |polls| - i
  {
    if i < |polls| {
      assert polls[..i + 1][..i] == polls[..i];
      FailureIsFinal(o, env, polls, i + 1);
    } else {
      assert polls[..i] == polls;
    }
  }

  /**
   * What the watch state records: the last size is (0, 0) before any render
   * and the last rendered size after; no two consecutive renders are at the
   * same size; every render but a failed last one wrote an output.
   */
  lemma {:induction false} WatchInvariant(o: RenderOptions, env: Env, polls: seq<Option<(int, int)>>)
    requires env.Valid()
    ensures var st := Watch(o, env, polls);
      (st.rendered == [] ==> st.last == (0, 0)) &&
      (st.rendered != [] ==> st.last == st.rendered[|st.rendered| - 1] && st.rendered[0] != (0, 0)) &&
      (forall k :: 0 <= k < |st.rendered| - 1 ==> st.rendered[k] != st.rendered[k + 1]) &&
      |st.outputs| == |st.rendered| - (if st.failed then 1 else 0) &&
      |st.rendered| <= |polls|
  {
    if polls != [] {
      var init := polls[..|polls| - 1];
      WatchInvariant(o, env, init);
      var st := Watch(o, env, init);
      var st' := Watch(o, env, polls);
      assert st' == WatchStep(o, env, st, polls[|polls| - 1]);
      if !st.failed && Resolve(polls[|polls| - 1]) != st.last {
        assert st'.rendered == st.rendered + [Resolve(polls[|polls| - 1])];
        forall k | 0 <= k < |st'.rendered| - 1
          ensures st'.rendered[k] != st'.rendered[k + 1]
        {
          if k + 1 < |st.rendered| {
            assert st'.rendered[k] == st.rendered[k] && st'.rendered[k + 1] == st.rendered[k + 1];
          }
        }
      }
    }
  }

  /**
   * From a state that has not failed, a poll whose size differs from the
   * last one renders at that size and writes what the render produced.
   */
  lemma WatchRendersOnChange(o: RenderOptions, env: Env, polls: seq<Option<(int, int)>>, p: Option<(int, int)>)
    requires env.Valid()
    ensures var st := Watch(o, env, polls); var st' := Watch(o, env, polls + [p]);
      var result := Pipeline(WatchOptions(o, Resolve(p)), env);
      !st.failed && Resolve(p) != st.last ==>
        st'.rendered == st.rendered + [Resolve(p)] && st'.last == Resolve(p) &&
        (result.Ok? ==> st'.outputs == st.outputs + [result.value]) &&
        (result.Err? ==> st'.failed && st'.outputs == st.outputs)
  {
    assert (polls + [p])[..|polls + [p]| - 1] == polls;
  }

  /** Polls that keep reporting one size render exactly once. */
  lemma {:induction false} SteadySizeRendersOnce(o: RenderOptions, env: Env, polls: seq<Option<(int, int)>>)
    requires env.Valid() && |polls| >= 1
    requires forall k :: 0 <= k < |polls| ==> Resolve(polls[k]) == Resolve(polls[0])
    requires Resolve(polls[0]) != (0, 0)
    ensures Watch(o, env, polls).rendered == [Resolve(polls[0])]
  {
    if |polls| == 1 {
      assert polls[..0] == [];
    } else {
      var init := polls[..|polls| - 1];
      SteadySizeRendersOnce(o, env, init);
      WatchInvariant(o, env, init);
    }
  }

  /**
   * A watch render at a size uses that size less one on both axes, whatever
   * the window and whatever --width/--height said, and with no overrides it
   * is the single run a console of that size would give.
   */
  lemma WatchRenderSize(o: RenderOptions, env: Env, size: (int, int), window: Option<(int, int)>)
    requires env.Valid()
    ensures GetTargetDimensions(WatchOptions(o, size), window) == (size.0 - 1, size.1 - 1)
    ensures Pipeline(WatchOptions(o, size), env) == Pipeline(WatchOptions(o.(width := None, height := None), size), env)
    ensures o.width.None? && o.height.None? ==>
      Pipeline(WatchOptions(o, size), env) == Pipeline(o, env.(window := Some(size)))
  {
    BothOverridesWin(WatchOptions(o, size), window, env.window);
    assert WatchOptions(o, size) == WatchOptions(o.(width := None, height := None), size);
    if o.width.None? && o.height.None? {
      var env' := env.(window := Some(size));
      assert env'.Valid();
      TerminalBounds(o, size.0, size.1);
      SameBoundsSameResult(WatchOptions(o, size), env, o, env');
    }
  }

  /**
   * When the window cannot be read, a single run sizes to 120 × 40 but a
   * watch render to 119 × 39: the watch loop subtracts one from the fallback.
   */
  lemma FallbackBounds(o: RenderOptions)
    requires o.width.None? && o.height.None?
    ensures GetTargetDimensions(o, None) == (120, 40)
    ensures GetTargetDimensions(WatchOptions(o, Resolve(None)), None) == (119, 39)
  {
  }

  /** The process exit code and everything written, for the arguments, environment and watch polls. */
  function Outcome(a: Args, env: Env, polls: seq<Option<(int, int)>>): (r: (int, seq<Written>))
    requires env.Valid()
    ensures r.0 == 0 || r.0 == 1
    ensures |r.1| <= 1 || |r.1| <= |polls|
  {
    match Configure(a)
    case None => (1, [])
    case Some(o) =>
      if a.watch && o.outputFormat == Console then
        var st := Watch(o, env, polls);
        (if st.failed then 1 else 0, st.outputs)
      else
        match Pipeline(o, env)
        case Ok(w) => (0, [w])
        case Err(_) => (1, [])
  }

  /** The root command's handler: configure, then watch or process once, and map the outcome to an exit code. */
  method Run(a: Args, env: Env, polls: seq<Option<(int, int)>>) returns (exitCode: int, outputs: seq<Written>)
    requires env.Valid()
    ensures (exitCode, outputs) == Outcome(a, env, polls)
  {
    var configured := Configure(a);
    if configured.None? {
      return 1, [];
    }
    var o := configured.value;
    if a.watch && o.outputFormat == Console {
      var st := RunWatchMode(o, env, polls);
      exitCode := if st.failed then 1 else 0;
      outputs := st.outputs;
    } else {
      var r := Process(o, env);
      if r.Ok? {
        exitCode, outputs := 0, [r.value];
      } else {
        exitCode, outputs := 1, [];
      }
    }
  }

  /**
   * The exit code is 0 or 1: 1 exactly when --html lacks --output, a single
   * run fails, or a watch render fails; any error of the pipeline gives 1.
   */
  lemma ExitCodes(a: Args, env: Env, polls: seq<Option<(int, int)>>)
    requires env.Valid()
    ensures var (code, outputs) := Outcome(a, env, polls);
      (code == 0 || code == 1) &&
      (a.html && NullOrEmpty(a.output) ==> code == 1 && outputs == []) &&
      (Configure(a).Some? && !(a.watch && Configure(a).value.outputFormat == Console) ==>
         (code == 0 <==> Pipeline(Configure(a).value, env).Ok?) &&
         (code == 0 ==> outputs == [Pipeline(Configure(a).value, env).value]) &&
         (code == 1 ==> outputs == [])) &&
      (Configure(a).Some? && a.watch && Configure(a).value.outputFormat == Console ==>
         (code == 1 <==> Watch(Configure(a).value, env, polls).failed))
  {
  }

  /** Watch mode needs the console: with an output path the pipeline runs once even under --watch. */
  lemma WatchOnlyOnConsole(a: Args, env: Env, polls: seq<Option<(int, int)>>, polls': seq<Option<(int, int)>>)
    requires env.Valid() && !NullOrEmpty(a.output)
    ensures Outcome(a, env, polls) == Outcome(a, env, polls')
    ensures |Outcome(a, env, polls).1| <= 1
  {
  }
}
