/** Optional and fallible values shared by every module of the model. */
module Common {

  /** A value that may be missing: `None` stands for Python's `None`. */
  datatype Option<+T> = None | Some(value: T)

  /** The result of a step that may raise instead of returning. */
  datatype Result<+T, +E> = Ok(value: T) | Err(error: E)
}
