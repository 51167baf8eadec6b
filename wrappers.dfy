/** The optional value used for a landmark that may or may not have been detected. */
module Wrappers {

  /** `None` stands for Python's `None`; `Some(v)` for a present value. */
  datatype Option<+T> = None | Some(value: T)
}
