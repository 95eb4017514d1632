/** Failure-carrying wrappers and the error taxonomy of the header utilities. */
module Outcomes {

  /** An optional value: `None` stands for the source's `null`. */
  datatype Option<+T> = None | Some(value: T)

  /** The exceptions that the validators, the quality setter and `TryParseTimeSpan` raise. */
  datatype HeaderError =
    | ArgumentError   // ArgumentException: a required string is null or empty
    | FormatError     // FormatException: the input does not match the grammar
    | RangeError      // ArgumentOutOfRangeException: a quality outside [0, 1]
    | OverflowError   // OverflowException: a number of seconds beyond the range of TimeSpan

  /** The result of a validator: it either returns normally or raises. */
  datatype Outcome = Pass | Fail(error: HeaderError)

  /** The result of an operation that computes a value or raises. */
  datatype Result<+T> = Success(value: T) | Failure(error: HeaderError)
}
