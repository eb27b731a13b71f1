/** Option and Result, used wherever the library returns `null`/`undefined` or throws. */
module Wrappers {

  datatype Option<+T> = None | Some(value: T)

  /** `Err` stands for a thrown `Error` carrying its message. */
  datatype Result<+T> = Ok(value: T) | Err(message: string)
}
