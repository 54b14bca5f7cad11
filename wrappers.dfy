/** Option and Result, the failure-carrying values the conversions return. */
module Wrappers {

  /** `None` stands for a missing value; for strings, for C#'s `null`. */
  datatype Option<+T> = None | Some(value: T)

  /** `Err` carries the exception the .NET code would have thrown. */
  datatype Result<+T, +E> = Ok(value: T) | Err(error: E)

  /** A C# string reference, which may be null. */
  type NullableString = Option<string>
}

/** The .NET exceptions raised by the string conversions. */
module Errors {

  datatype Exception =
    | ArgumentException          // a ratio with an unparsable part, a size without two parts
    | NotSupportedException      // a number that is neither plain nor a ratio
    | ArgumentNullException      // bool.Parse(null)
    | NullReferenceException     // a method called on a null string
    | FormatException            // bool.Parse and int.Parse on text outside their grammar
    | OverflowException          // int.Parse on a value outside the 32-bit range
    | ArgumentOutOfRangeException // new Version(major, 0) with a negative major
}
