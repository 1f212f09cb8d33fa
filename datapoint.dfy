/**
 * The records of a unified/tokenized datapoint: a diagnostic occurrence and the
 * parsed diff action, one constructor per `ActionType`. Line numbers start at 1.
 */
module Datapoint {

  /** A diff action with its `Action` fields; `tokenizedTargetLines` is filled in by tokenization. */
  datatype Action =
    | Add(previousSourceLocation: int, targetLines: seq<string>, tokenizedTargetLines: seq<string>)
    | Remove(sourceLocationStart: int, sourceLocationEnd: int)
    | Replace(sourceLocations: seq<int>, targetLines: seq<string>, tokenizedTargetLines: seq<string>)

  /** An entry of `DiagnosticOccurances`. */
  datatype Diagnostic = Diagnostic(message: string, line: int, character: int, tokenizedMessage: seq<string>)
}
