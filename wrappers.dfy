/** Option and Result, the two failure-carrying shapes the model uses. */
module Wrappers {

  /** `None` stands for JavaScript's `null` (or `undefined`) where the source returns one. */
  datatype Option<+T> = None | Some(value: T)

  /** `Err` carries the message of the `Error` the source throws. */
  datatype Result<+T> = Ok(value: T) | Err(message: string)
}
