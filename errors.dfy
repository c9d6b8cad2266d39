/** The three exceptions the uploader raises on bad input, and the exit status each one ends the process with. */
module Errors {

  datatype UploadError =
    | MissingArgument    // a mandatory option is absent
    | InvalidPath        // the file does not exist, or the URL's scheme or hostname is refused
    | MalformedArgument  // the URL has no "://"

  /** The status `sys.exit` is given when the error reaches the top level. */
  function ExitCode(e: UploadError): (code: nat)
    ensures 1 <= code <= 3
    ensures e.MissingArgument? <==> code == 1
    ensures e.InvalidPath? <==> code == 2
    ensures e.MalformedArgument? <==> code == 3
  {
    match e
    case MissingArgument => 1
    case InvalidPath => 2
    case MalformedArgument => 3
  }
}
