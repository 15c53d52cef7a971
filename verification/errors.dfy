/**
  The exceptions the tool raises, as one closed datatype, the `Result`
  that carries either a value or the exception that ended the computation,
  and the `Option` of a value that may be absent (an omitted argument, a
  string `int()` rejects).
 */
module Errors {

  datatype Option<+T> = None | Some(value: T)

  /** The two flags that may appear at most once. */
  datatype KeyFlag = InputKey | OutputKey

  /** Why no output format could be derived from the `-o` value. */
  datatype ExtensionProblem =
    | NoExtension                       // neither ':' nor '.' in the value
    | UnacceptedExtension(format: string)

  datatype Error =
      // raised while translating the command line
    | InvalidNumberOfArguments
    | KeyFlagInvokedMoreThanOnce(flag: KeyFlag)
    | InvalidCommandEvoked(command: string)
    | InvalidPILImageCreated
    | InvalidOutputFileExtensionProvided(problem: ExtensionProblem)
    | OutputFlagEvokedWithoutValue
      // raised by a filter's own parameter checks; they abort the whole run
    | InvalidFlipDirection(direction: string)
    | InvalidParameter(filter: string, value: string)   // a `ValueError` from int() or float()
    | ZeroDivision                                      // resize of a zero-width image
    | FileNotFound(path: string)
    | OverlayImageUnreadable
    | ImageWithoutTransparency
    | InvalidOverlayCoordinates(coordinates: string)

  datatype Result<+T> = Ok(value: T) | Err(error: Error) {

    predicate IsFailure() {
      Err?
    }

    function PropagateFailure<U>(): Result<U>
      requires Err?
    {
      Err(error)
    }

    function Extract(): T
      requires Ok?
    {
      value
    }
  }
}
