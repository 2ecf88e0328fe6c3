/** The exported error sentinels of errors.go. An error is the set of sentinels it wraps, which is
    what errors.Is can observe; message text is not modelled. */
module Errors {
  datatype Sentinel =
    | ErrInvalidInput
    | ErrEmptySessionID
    | ErrRandomness
    | ErrMessage
    | ErrStateUsed
    | ErrSessionClosed
    | ErrAbort
    | ErrPeerShareEncoding
    | ErrPeerShareIdentity
    | ErrConfirmationFailed

  type Error = set<Sentinel>

  datatype Result<+T> = Ok(value: T) | Err(error: Error)
}
