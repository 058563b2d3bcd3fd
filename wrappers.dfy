/** The optional value shared by the banner record and the decoder. */
module Wrappers {
  /** An absent key or property (`undefined`), or a present value. */
  datatype Option<T> = None | Some(value: T)
}
