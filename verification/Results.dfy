/** Result types shared by the model, and the error codes the driver answers with. */
module Results {

  datatype Option<+T> = None | Some(value: T)

  /** The gRPC status codes and API errors returned by the driver's RPC handlers; Unknown is what a
      plain Go error turns into. */
  datatype Error = InvalidArgument | NotFound | Unavailable | OutOfRange | BadRequest | Internal | Unknown

  datatype Result<+T> = Success(value: T) | Failure(error: Error)
}
