/** Failure values shared by the codec and the server.  Each `Error` names the
    Python exception that the modelled code raises at that point. */
module Results {

  datatype Error =
    | StreamClosed     // recv_msg: the peer closed before the requested bytes arrived
    | Overflow         // int.to_bytes: the value is negative or does not fit the width
    | NotLatin1        // str -> bytes with 'latin1': a character above U+00FF
    | NotUtf8          // bytes.decode(): the bytes are not (ASCII) text
    | IndexOutOfRange  // parse_msg: a bet string with fewer than five fields
    | AcceptFailed     // accept() on a listening socket that was closed

  /** A value or the exception that replaced it; usable with `:-`. */
  datatype Result<+T> = Ok(value: T) | Err(error: Error) {
    predicate IsFailure() { Err? }

    function PropagateFailure<U>(): Result<U>
      requires Err?
    {
      Err(error)
    }

    function Extract(): T
      requires Ok?
    {
      value
    }
  }

  datatype Option<+T> = None | Some(value: T)
}
