/** The exceptions the engine raises, as values. */
module Outcomes {

  datatype Error =
    | XOutOfRange       // ArgumentOutOfRangeException("x") of WriteCharToPosition
    | YOutOfRange       // ArgumentOutOfRangeException("y") of WriteCharToPosition
    | WidthTooLarge     // ArgumentOutOfRangeException for a grid wider than the engine
    | HeightTooLarge    // ArgumentOutOfRangeException for a grid taller than the engine
    | LengthMismatch    // ArgumentOutOfRangeException of CopyBufferArray
    | IndexOutOfRange   // IndexOutOfRangeException raised by an array access
    | NegativeSize      // OverflowException of allocating an array with a negative length
    | EndlessSkip       // the loader's newline skip runs past the end and never returns

  /** The result of an operation that returns nothing or throws. */
  datatype Outcome = Pass | Fail(error: Error)

  /** The result of an operation that returns a value or throws. */
  datatype Result<T> = Ok(value: T) | Err(error: Error)

  datatype Option<T> = None | Some(value: T)
}
