/** Results of the file model's operations: an optional value for the one
    search that returns a string or null, and the two ways a .NET method can
    end, returning a value or throwing. */
module Outcomes {

  datatype Option<T> = None | Some(value: T)

  /** The exceptions the bracket scan can raise. */
  datatype Exception =
    | ArgumentException            // the match text does not end with the open bracket
    | ArgumentOutOfRangeException  // `Substring` past the end of the raw line

  datatype Outcome<T> = Returned(value: T) | Threw(error: Exception)
}
