/**
 * Option and Result values standing in for Java's `null` returns and
 * thrown exceptions.
 */
module Outcomes {

  datatype Option<T> = None | Some(value: T)

  /** A computation that either returns a value or throws `error`. */
  datatype Result<T, E> = Ok(value: T) | Err(error: E)

  /** The Java exceptions the modelled code can throw. */
  datatype Fault =
    | Closed               // the connection's read failed: IOException / SocketException
    | PendingOverflow      // ArrayIndexOutOfBoundsException on the 1024-slot key store
    | NullPointer          // NullPointerException
    | IndexOutOfBounds     // StringIndexOutOfBoundsException / ArrayIndexOutOfBoundsException
    | BufferOverflow       // the toolkit's BufferOverflowException: a character buffer is full

}
