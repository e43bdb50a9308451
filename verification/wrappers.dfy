/** Failure-compatible wrapper used for the compile-time rejections of the C++ header. */
module Wrappers {

  /** `None` stands for "this would not compile"; `Some(v)` for a well-formed result. */
  datatype Option<+T> = None | Some(value: T)
}
