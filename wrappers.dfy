/** The absent-or-present value used for lookups whose failure the source treats as fatal. */
module Wrappers {
  datatype Option<+T> = None | Some(value: T)
}
