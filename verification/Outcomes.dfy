/** Results of operations that can fail. */
module Outcomes {
  datatype Outcome<+T, +E> = Ok(value: T) | Err(error: E)
}
