/** Failure-carrying results shared by every module of the model.
    `Err` stands for an exception the source throws; its message is the
    source's error text. */
module Wrappers {

  datatype Option<+T> = None | Some(value: T)

  datatype Result<+T> = Ok(value: T) | Err(msg: string)

  /** Outcome of an operation that returns nothing but may throw. */
  datatype Outcome = Pass | Fail(msg: string)
}
