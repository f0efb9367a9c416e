/** Status words: a layer and a code. A layer matters to callers only where
    two errors share a code, but equality with OK compares both. */
module Statuses {

  datatype Layer = General | System | Io | Protocol | User

  datatype Code =
    | Okay | Unknown | InvalidArg | NotInitialized | OutOfMemory | BufferTooSmall
    | NotSupported | StateInvalid | WouldBlock | Internal | Closed | IoFailure
    | Timeout | ConnectFailed | ProtocolViolation | Malformed | Unsupported
    | Unexpected | Unavailable

  datatype Status = Status(layer: Layer, code: Code)

  const OK := Status(General, Okay)
  const TOO_SMALL := Status(Protocol, BufferTooSmall)
  const VIOLATION := Status(Protocol, ProtocolViolation)
  const BUSY := Status(Io, WouldBlock)

  /** A transport answer that the client passes on to its caller: neither OK nor
      a request to try again. */
  predicate Hard(status: Status) {
    status != OK && status.code != WouldBlock
  }

  /** What a decoder hands back: a value, or the status it fails with. */
  datatype Decoded<+T> = Got(value: T) | Fail(status: Status)
}
