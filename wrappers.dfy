/** Small failure-carrying datatypes shared by the modules of this model. */
module Wrappers {

  /** An optional value: JavaScript's `undefined` or an array hole is `None`. */
  datatype Option<+T> = None | Some(value: T)
}
