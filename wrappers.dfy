/** The optional value used throughout the model for JavaScript's
    "absent or present" fields. */
module Wrappers {

  datatype Option<T> = None | Some(value: T)
}
