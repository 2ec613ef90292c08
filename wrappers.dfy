/** Outcome of a routine that aborts on a failed assertion. */
module Wrappers {
  datatype Option<T> = None | Some(value: T)
}
