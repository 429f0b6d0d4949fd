/** An optional value, used across the model. */
module Wrappers {

  /** An optional value, for JavaScript's `null` and for readers that can fail. */
  datatype Option<+T> = None | Some(value: T)
}
