/**
 Outcomes of the operations that can raise in Python: a value, or the
 exception that escapes, which the model reports as a `Failure`.
 */
module Results {

  datatype Option<+T> = None | Some(value: T)

  datatype Result<+T, +E> = Success(value: T) | Failure(error: E)

  /** The Python exceptions that escape the rewriting of a configuration. */
  datatype Raised =
    | TooFewValues(line: string)   // unpacking the line split on `=` into two names, when it has no `=`
    | TooManyValues(line: string)  // the same on a line with more than one `=`
    | InvalidNetmask(token: string) // `NetmaskValueError` from `IPv4Network(token)`
    | HostBitsSet(token: string)   // `ValueError` from `IPv4Network(token)`: host bits set
    | InvalidV6(token: string)     // any exception other than `AddressValueError` from `IPv6Network(token)`
    | InvalidExclusion(text: string) // any exception from `IPv4Network` on the network to exclude
}
