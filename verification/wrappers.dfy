/** The optional value used wherever the source may produce `undefined`. */
module Wrappers {

  /** `None` stands for JavaScript's `undefined`; `Some(v)` for a defined value `v`. */
  datatype Option<+T> = None | Some(value: T)
}
