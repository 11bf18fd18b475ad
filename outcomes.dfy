/** Failure-carrying results and the exceptions the RCON client raises. */
module Outcomes {

  datatype Option<+T> = None | Some(value: T)

  /** The Python exception classes that escape from the client's operations. */
  datatype Error =
    | ConnectionError(message: string)  // a transport failure or a damaged packet
    | TimeoutError(message: string)     // connect or a readiness wait ran out of time
    | ValueError(message: string)       // the server rejected the password
    | GenericException(message: string) // a bare `Exception`
    | StructError(message: string)      // struct.pack on a value outside int32
    | UnicodeDecodeError                // response body bytes that are not UTF-8
    | OSError                           // send on a socket that is not connected (OSError or a subclass)
    | ConnectionResetError              // recv after the server reset the connection
    | OverflowError                     // connect to a port outside 0-65535 or beyond a C int

  datatype Result<+T> = Ok(value: T) | Err(error: Error)

  const ConnectTimeoutMessage: string := "Connection timed out!"
  const ConnectErrorPrefix: string := "Connection error: "
  const DamagedPacketMessage: string := "An incomplete or damaged package was received from the server."
  const NoResponseMessage: string :=
    "A response from the server was not received within 10 seconds and the connection was terminated."
  const IncorrectPasswordMessage: string := "Incorrect password"
  const NotRespondingMessage: string := "Server is not responding properly."
  const AuthenticationFailedMessage: string := "Authentication failed!"
  const PackRangeMessage: string := "'i' format requires -2147483648 <= number <= 2147483647"
}
