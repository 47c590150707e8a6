/** Option and Result, used where the C# code has nullable values or throws, and the output effects. */
module Wrappers {

  datatype Option<+T> = None | Some(value: T) {
    function GetOr(default: T): T {
      match this
      case Some(v) => v
      case None => default
    }
  }

  /** The exceptions the pipeline can raise; each ends the run with exit code 1. */
  datatype Error =
    | FileNotFound                 // ValidateInput: the image path does not exist
    | UnsupportedFormat(ext: string) // ValidateInput: extension not in the whitelist
    | DecodeFailed                 // Image.Load could not read the file
    | MissingOutputPath            // a file or HTML handler was given no path
    | EmptyRamp                    // Math.Clamp with min > max (empty custom ramp)
    | BadNumber                    // int.Parse of a colour component failed

  datatype Result<+T> = Ok(value: T) | Err(error: Error)

  /** What an output handler leaves behind: text on the console, or a file written at a path. */
  datatype Written = ConsoleText(text: string) | FileText(path: string, text: string)
}
