/** The exceptions the modelled code raises. The four classes of
    utils/exceptions.py appear by name; the built-in Python exceptions that the
    modelled code can raise on malformed input (a failed tuple unpacking, a
    lookup of a missing key, subscripting `None`, `SystemExit`) are listed too,
    so that every error path is a value rather than a crash. */
module Errors {

  /** Why a test script was rejected as malformed. */
  datatype ScriptFault =
    | BadGroupLine(line: string)   // a `#group-` line that does not match the directive pattern
    | RepeatedParallel             // more than one `#parallel` line

  /** Why the command-line selection was rejected. */
  datatype ArgumentFault =
    | NoSelection                  // neither `--test` nor `--group`
    | BothSelections               // `--test` together with `--group`

  datatype Error =
    | MalformedScript(path: string, fault: ScriptFault)   // MalformedScriptError
    | InvalidArgument(reason: ArgumentFault)              // InvalidArgumentError
    | SessionBroken(request: string)                      // SessionBrokenError
    | IllegalResult(script: string, status: string)       // IllegalResultError
    | UsageExit                                           // SystemExit from argument checking
    | Unpack(line: string)                                // ValueError: a line is not `key value`
    | NotAMessage                                         // TypeError: the frame decoded to None
    | MissingField(key: string)                           // KeyError on a decoded frame
    | NoAttribute(name: string)                           // AttributeError: a method that does not exist
}
