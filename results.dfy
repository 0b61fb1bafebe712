/**
 * How the exercises report failure. The source throws .NET exceptions; here
 * each exception kind is a variant of `Error`, and an operation that can
 * throw returns a `Result` (or an `Outcome` when it has no value to return).
 */
module Results {

  /** The exception kinds the exercises throw. */
  datatype Error =
    | InvalidArgument   // ArgumentException: inverted range bounds, non-positive capacity
    | ListFull          // InvalidOperationException: Add on a full FixedSizeList
    | IndexOutOfRange   // IndexOutOfRangeException: Get outside [0, Count)

  /** A value that may be absent; stands for a C# reference that may be null. */
  datatype Option<+T> = None | Some(value: T)

  /** The value an operation returns, or the exception it throws. */
  datatype Result<+T> = Ok(value: T) | Err(error: Error)

  /** Completion of an operation that returns nothing (a C# `void` method). */
  datatype Outcome = Pass | Fail(error: Error)
}
