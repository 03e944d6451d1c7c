/** Result and Option, the two failure-carrying shapes the modelled code returns. */
module Wrappers {

  datatype Option<+T> = None | Some(value: T)

  datatype Result<+T, +E> = Ok(value: T) | Err(error: E)

  /** The unit type of Rust's `()`, used as the payload of `Ok(())` and `Err(())`. */
  datatype Unit = Unit
}
