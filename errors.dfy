/** Failure values shared by the frame codec and the archive pipeline. */
module Errors {

  /** Why an encoding or a checked decoding step gave up. */
  datatype Error =
    | Overflow          // `int.to_bytes` refuses a value that does not fit the requested width
    | TruncatedHeader   // fewer than eight bytes are left where a frame header must start
    | TruncatedPayload  // fewer bytes are left than the header declares

  datatype Result<T> = Ok(value: T) | Err(error: Error)

  datatype Option<T> = None | Some(value: T)
}
