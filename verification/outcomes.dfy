/** Small failure-carrying datatypes shared by the model. */
module Outcomes {

  /** A value that may be absent; used for a spreadsheet read that raised. */
  datatype Option<T> = None | Some(value: T)

  /** The outcome of a conversion that may raise Python's ValueError;
      the error carries the literal that could not be converted. */
  datatype Result<T> = Ok(value: T) | ValueError(literal: string)
}
