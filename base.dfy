/** Shared vocabulary of the replication connection: optional values,
    results, and the error values the connection layer can report. */
module Base {

  datatype Option<+T> = None | Some(value: T)

  datatype Result<+T, +E> = Ok(value: T) | Err(error: E)

  /** The error values that reach a caller of the connection layer.
      Each stands for a Go error value of the original program. */
  datatype Error =
    | JsonError          // encoding/json refused the value or the payload
    | EOF                // io.EOF: the stream ended before the first byte of a full read
    | UnexpectedEOF      // io.ErrUnexpectedEOF: the stream ended in the middle of a full read
    | ClosedConnection   // a read or write on a transport that was already closed
    | WriteFailed        // the transport stopped accepting bytes (reset, deadline expired)
    | RequestError       // http.NewRequest refused the target URL
    | DialError          // the TCP dial failed
    | ExchangeError      // the handshake request/response exchange failed
    | Unmounted          // RepUnmountedError: the peer answered the handshake with a non-2xx status
}
