/** The exceptions the browser client can raise, one constructor per .NET exception type.
    Exception messages are kept where the source inspects or sets them. */
module Errors {

  /** The SocketError codes the client distinguishes; every other code is `OtherSocketError`. */
  datatype SocketError = TimedOut | OtherSocketError(code: int)

  datatype Error =
    | ArgumentException(message: string)
    | ArgumentOutOfRangeException(message: string)
    | ArgumentNullException(paramName: string)
    | IndexOutOfRangeException
    | FormatException
    | OverflowException
    | InvalidDataException(message: string)
    | InvalidOperationException(message: string)
    | SocketException(socketError: SocketError)
}
