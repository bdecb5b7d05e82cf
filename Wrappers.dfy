/**
  Values shared by every part of the model: C#'s null reference and the
  exceptions the extension methods let escape.
 */
module Wrappers {

  /** A C# reference that may be null: `None` is `null`. */
  datatype Option<+T> = None | Some(value: T)

  /** The .NET exception types the library throws or lets escape. The
      parameter name is the one passed to the exception's constructor
      (`nameof(...)`). */
  datatype Exception =
    | ArgumentNull(paramName: string)        // System.ArgumentNullException
    | Argument(paramName: string)            // System.ArgumentException
    | ArgumentOutOfRange                     // System.ArgumentOutOfRangeException
    | IndexOutOfRange                        // System.IndexOutOfRangeException
    | Overflow                               // System.OverflowException
    | Format                                 // System.FormatException
    | Cryptographic                          // System.Security.Cryptography.CryptographicException

  /** The outcome of a call: a returned value or a thrown exception. */
  datatype Result<+T> = Ok(value: T) | Throws(error: Exception)
}
