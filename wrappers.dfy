/** The absent-or-present value that the TDISP readers return instead of failing. */
module Wrappers {

  datatype Option<+T> = None | Some(value: T)
}
