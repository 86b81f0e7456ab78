/** The results of operations that can fail, and values that can be missing. */
module Outcome {
  datatype Result<+T> = Ok(value: T) | Err

  datatype Option<+T> = None | Some(value: T)
}
