/** Failure-compatible wrappers shared by every module of the model. */
module Optional {

  /** A value that may be absent: Python's `None` versus a present value. */
  datatype Option<+T> = None | Some(value: T)

  /** The outcome of a Python call that may raise: a returned value or an escaped exception. */
  datatype Result<+T, +E> = Ok(value: T) | Raised(error: E)
}
