/** The optional value used wherever the source works with a reference that may
    be null, and the result of a step that may fail. */
module Options {

  datatype Option<+T> = None | Some(value: T)

  /** The outcome of a step that either yields a value or stops with an error. */
  datatype Result<+T, +E> = Ok(value: T) | Err(error: E)

}
