/** The exceptions the C# core can raise, as values. */
module Results {

  /** Which .NET exception an operation would throw. */
  datatype Error =
    | InvalidArgument      // System.ArgumentException, thrown explicitly by the Hex code
    | ArgumentOutOfRange   // System.ArgumentOutOfRangeException from Enumerable.Range
    | IndexOutOfRange      // System.IndexOutOfRangeException from indexing a C# array
    | DivideByZero         // System.DivideByZeroException from integer `/`

  /** Either the value an operation returns or the exception it throws. */
  datatype Result<+T> = Ok(value: T) | Err(error: Error)
}
