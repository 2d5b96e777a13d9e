/** Failure-compatible wrappers used throughout the model: an optional value
    (for JavaScript's `undefined`) and a result that carries the error which
    would have been thrown. */
module Wrappers {

  datatype Option<+T> = None | Some(value: T) {
    function GetOr(default: T): T {
      match this
      case Some(v) => v
      case None => default
    }
  }

  /** The ways a build step can fail instead of returning. */
  datatype Error =
    | MissingFile(path: seq<string>)   // util.readFile on a file that does not exist
    | OutOfFuel                        // the source would keep recursing past the fuel given
    | InvalidPattern                   // minimatch called with a non-string pattern
    | UndefinedPath                    // path.join called with `undefined`
    | InvalidEnv                       // errorExit on an unknown environment name

  datatype Result<+R> = Ok(value: R) | Err(error: Error) {
    predicate IsFailure() {
      Err?
    }

    function PropagateFailure<U>(): Result<U>
      requires Err?
    {
      Err(error)
    }

    function Extract(): R
      requires Ok?
    {
      value
    }
  }
}
