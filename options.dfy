/**
 * The option enums (RenderMode, OutputFormat, CharacterSet) and the immutable
 * RenderOptions record with its defaults and its character-ramp selection.
 */
module Options {
  import opened Wrappers
  import opened Strings

  /** RenderMode.cs. Block is the half-block renderer, also called HalfBlock. */
  datatype RenderMode = Classic | Block

  /** OutputFormat.cs. */
  datatype OutputFormat = Console | Text | Html

  /** CharacterSet.cs. */
  datatype CharacterSet = Standard | Extended | Simple | Blocks | Custom

  /** The preset ramps, densest glyph first. */
  const StandardRamp: string := "@%#*+=-:. "
  const ExtendedRamp: string := "$@B%8&WM#*oahkbdpqwmZO0QLCJUYXzcvunxrjft/\\|()1{}[]?-_+~<>i!lI;:,\"^`'. "
  const SimpleRamp: string := "@#:. "
  const BlocksRamp: string := "█▓▒░ "

  /**
   * RenderOptions: every init-only property, with null modelled as None.
   * The image path is the full path of the image argument.
   */
  datatype RenderOptions = RenderOptions(
    imagePath: string,
    mode: RenderMode,
    characterSet: CharacterSet,
    customCharacters: Option<string>,
    width: Option<int>,
    height: Option<int>,
    outputFormat: OutputFormat,
    outputPath: Option<string>,
    noColor: bool,
    invert: bool,
    watch: bool,
    preserveAnsiInTextOutput: bool)

  /** A record built with only the required ImagePath set: every other property keeps its initializer. */
  function DefaultOptions(imagePath: string): (o: RenderOptions)
    ensures o.imagePath == imagePath
    ensures o.mode == Block && o.characterSet == Extended && o.outputFormat == Console
    ensures o.customCharacters.None? && o.width.None? && o.height.None? && o.outputPath.None?
    ensures !o.noColor && !o.invert && !o.watch && !o.preserveAnsiInTextOutput
  {
    RenderOptions(imagePath, Block, Extended, None, None, None, Console, None, false, false, false, false)
  }

  /** The ramp a character set selects, before inversion. */
  function SelectedRamp(cs: CharacterSet, custom: Option<string>): (r: string)
    ensures cs != Custom ==> |r| >= 5
    ensures r == [] <==> cs == Custom && custom == Some([])
  {
    match cs
    case Standard => StandardRamp
    case Extended => ExtendedRamp
    case Simple => SimpleRamp
    case Blocks => BlocksRamp
    case Custom => custom.GetOr(StandardRamp)
  }

  /** GetCharacterRamp: the selected ramp, reversed when Invert is set. */
  function GetCharacterRamp(o: RenderOptions): (ramp: string)
    ensures |ramp| == |SelectedRamp(o.characterSet, o.customCharacters)|
    ensures !o.invert ==> ramp == SelectedRamp(o.characterSet, o.customCharacters)
    ensures o.invert ==> forall i :: 0 <= i < |ramp| ==>
      ramp[i] == SelectedRamp(o.characterSet, o.customCharacters)[|ramp| - 1 - i]
  {
    var ramp := SelectedRamp(o.characterSet, o.customCharacters);
    if o.invert then Reverse(ramp) else ramp
  }

  /** The documented sizes and contents of the preset ramps. */
  lemma PresetRamps()
    ensures |StandardRamp| == 10 && |ExtendedRamp| == 70 && |SimpleRamp| == 5 && |BlocksRamp| == 5
    ensures BlocksRamp == ['█', '▓', '▒', '░', ' ']
  {
  }

  /** Custom yields the user's string whenever one is given, even an empty one; Standard only for null. */
  lemma CustomRamp(o: RenderOptions)
    requires o.characterSet == Custom && !o.invert
    ensures o.customCharacters.Some? ==> GetCharacterRamp(o) == o.customCharacters.value
    ensures o.customCharacters.None? ==> GetCharacterRamp(o) == StandardRamp
  {
  }

  /** Custom is the only character set whose ramp depends on the user's string. */
  lemma OnlyCustomReadsUserString(cs: CharacterSet, a: Option<string>, b: Option<string>)
    requires cs != Custom
    ensures SelectedRamp(cs, a) == SelectedRamp(cs, b)
  {
  }

  /** Inverting twice gives back the selected ramp. */
  lemma {:induction false} InvertTwice(o: RenderOptions)
    ensures GetCharacterRamp(o.(invert := true)) == Reverse(GetCharacterRamp(o.(invert := false)))
    ensures Reverse(GetCharacterRamp(o.(invert := true))) == GetCharacterRamp(o.(invert := false))
  {
    ReverseInvolutive(SelectedRamp(o.characterSet, o.customCharacters));
  }

  /** The ramp is empty only for Custom with an empty string. */
  lemma RampNonEmpty(o: RenderOptions)
    ensures GetCharacterRamp(o) == [] <==> o.characterSet == Custom && o.customCharacters == Some([])
  {
  }
}
