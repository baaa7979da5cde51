/** The I/O error and result types the bridges and the I/O timeout report. */
module Io {

  /** A byte of a read or write buffer. */
  newtype byte = x: int | 0 <= x < 256

  /** The error kinds this model distinguishes: the I/O timeout produces
      `TimedOut`; host errors are opaque, so every other kind is `Other`. */
  datatype ErrorKind = TimedOut | Other

  /** An I/O error: a kind and a message. Errors coming from the host's
      synchronous calls are opaque values passed through unchanged. */
  datatype Error = Error(kind: ErrorKind, message: string)

  /** `io::Result<T>`. */
  datatype Result<+T> = Ok(value: T) | Err(error: Error)
}
