/**
 * Option and Result types for the model, and the error kinds the Python
 * code raises on the paths the model keeps (exceptions become values).
 */
module Outcomes {

  datatype Option<+T> = None | Some(value: T)

  /** The exceptions that the modelled code can raise. */
  datatype Error =
    | SequenceError(message: string)   // a non-member offered to a checked mutator
    | FormatError(message: string)     // an unknown format directive
    | TypeError                        // e.g. comparing None with an int
    | ValueError                       // e.g. int() of a non-number, min() of an empty list
    | IndexError                       // e.g. indexing an empty list or an empty range
    | KeyError                         // a mapping key that is not there
    | PatternError                     // the uncompress regular expression does not compile
    | Unsupported(what: string)        // a feature outside the model (disk usage, eval)

  datatype Result<+T> = Ok(value: T) | Err(error: Error) {

    predicate IsFailure() {
      Err?
    }

    function PropagateFailure<U>(): Result<U>
      requires Err?
    {
      Err(error)
    }

    function Extract(): T
      requires Ok?
    {
      value
    }
  }
}
