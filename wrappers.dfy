/** The absent-or-present wrapper used for the storage slot and optional record fields. */
module Wrappers {
  datatype Option<+T> = None | Some(value: T)
}
