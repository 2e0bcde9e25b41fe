/** Small failure-carrying datatypes shared by every module of the model. */
module Wrappers {

  /** A value that may be absent: Python's `None` versus a present value. */
  datatype Option<T> = None | Some(value: T)

  /** The outcome of a call into a library the model does not look inside:
      either it raised (with the text `str(e)` would give) or it returned. */
  datatype Read<T> = Raised(message: string) | Returned(value: T)
}
