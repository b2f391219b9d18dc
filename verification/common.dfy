/** Shared result types: the C++ exceptions of the cache become error values. */
module Common {

  datatype Option<T> = None | Some(value: T)

  /** The exceptions the cache throws: std::invalid_argument and std::out_of_range. */
  datatype Error = InvalidArgument | OutOfRange

  datatype Result<T> = Ok(value: T) | Err(error: Error)
}
