/** The optional-value datatype used for the stored record and for lookups. */
module Wrappers {

  /** `None` stands for JavaScript's `null`/`undefined`; `Some(v)` for a present value. */
  datatype Option<+T> = None | Some(value: T)
}
