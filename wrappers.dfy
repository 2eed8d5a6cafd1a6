/** Small value wrappers shared by the other modules. */
module Wrappers {

  /** A value that may be absent; the Go code's `error` results are `Option<Error>`,
      with `None` standing for `nil`. */
  datatype Option<+T> = None | Some(value: T)
}
