/** Optional values, the library's error kinds, and a failure-compatible Result
    so that the Python exceptions of the model can be threaded with `:-`. */
module Outcomes {

  datatype Option<+T> = None | Some(value: T)

  /** The exceptions the modelled code raises, one constructor per cause. */
  datatype Error =
    | MissingFilename            // ValueError: raw bytes logged without a filename
    | UnsupportedFigure          // Exception: log_figure given an unknown object
    | UnboundData                // UnboundLocalError: log_text given bytes
    | AlreadyExists(path: string) // FileExistsError: run metadata already present
    | NotFound(path: string)     // FileNotFoundError: a file to read is missing
    | Malformed(path: string)    // JSON or schema validation failure on load
    | NoRuns                     // IndexError: latest run of a variant with no runs
    | IndexOutOfRange            // IndexError: parallel lists of unequal length
    | BadFigure(artifactId: string) // a plotly artifact that is not UTF-8 or not a figure

  datatype Result<+T> = Ok(value: T) | Err(error: Error) {
    predicate IsFailure() {
      Err?
    }

    function PropagateFailure<U>(): Result<U>
      requires Err?
    {
      Err(error)
    }

    function Extract(): T
      requires Ok?
    {
      value
    }
  }
}
