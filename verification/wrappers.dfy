/** The failure-compatible wrapper the model uses for Go's `error` results. */
module Wrappers {

  /** `None` stands for Go's `nil` error; `Some(e)` for a returned error `e`. */
  datatype Option<+T> = None | Some(value: T)
}
