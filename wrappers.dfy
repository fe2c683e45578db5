/** The optional value used for TypeScript's optional record fields (`field?: T`). */
module Wrappers {

  /** `None` is an absent field, `Some(v)` a present one. */
  datatype Option<+T> = None | Some(value: T)
}
