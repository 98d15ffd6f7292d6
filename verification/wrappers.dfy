/** The optional value used throughout the model in place of JavaScript's `null`. */
module Wrappers {

  /** `None` is the JavaScript `null` (or a missing field); `Some(v)` a present value. */
  datatype Option<+T> = None | Some(value: T)
}
