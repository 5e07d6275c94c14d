/** Plain datatypes shared by the whole model: an optional value (the
    source's nullable references), the exceptions the token provider can
    observe, and the outcome of a call that either returns or raises. */
module Outcomes {

  /** A nullable reference: `None` stands for `null`. */
  datatype Option<+T> = None | Some(value: T)

  /** The exception classes the token provider distinguishes or raises. */
  datatype Exn =
    | Cryptographic                 // System.Security.Cryptography.CryptographicException
    | NullReference                 // dereferencing null, including `throw null`
    | NoMatchingElement             // Enumerable.First with no matching element
    | UserNotFound(userId: string)  // the "no found user by userId:" failure of Refresh
    | OtherFault(name: string)      // any other exception type

  /** Either a value or the exception a call raised. */
  datatype Attempt<+T> = Ok(value: T) | Raised(exn: Exn)
}
