/** The optional-value datatype used for operations that can fail. */
module Wrappers {

  /** `None` stands for a Python exception or a missing value. */
  datatype Option<+T> = None | Some(value: T)
}
