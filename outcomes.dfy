/** Error conditions and result wrappers shared by the payload encoders and the session. */
module Outcomes {

  /** The ways an operation of the serial framing layer can fail. */
  datatype Error =
    | NotConnected          // `wr` asserts that the handshake has completed
    | InvalidPayloadLength  // `wr` asserts that the payload is exactly 35 bytes
    | OutOfRange            // an encoder's argument is outside its asserted range
    | HandshakeRejected     // the handshake reply byte is not 0x86
    | NoReply               // the handshake read returned no byte at all

  datatype Option<T> = None | Some(value: T)

  datatype Result<T> = Success(value: T) | Failure(error: Error)

  datatype Outcome = Pass | Fail(error: Error)
}
