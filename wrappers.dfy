/** Shared result types: C#'s null becomes Option.None, a thrown exception becomes Result.Err. */
module Wrappers {

  datatype Option<+T> = None | Some(value: T)

  /** The exceptions the client lets escape, by kind. */
  datatype Error =
    | NotConnected     // WebSocketException "Not currently connected." from CheckConnection
    | NotImplemented   // NotImplementedException from Binary, Stream and Fence
    | NullReference    // NullReferenceException (a null reply, a null Results list, a disposed token source)
    | ArgumentNull     // ArgumentNullException from FirstOrDefault on a null Results list
    | ArgumentOutOfRange // ArgumentOutOfRangeException from the List<T> indexer in List on an odd result count
    | InvalidUri       // UriFormatException: the port does not make a valid ws:// address
    | CloseFailed      // CloseAsync threw on the socket a failed ConnectAsync had disposed

  datatype Result<+T> = Ok(value: T) | Err(error: Error)
}
