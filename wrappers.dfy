/** Option, for the values the source keeps as `T | null`. */
module Wrappers {
  datatype Option<+T> = None | Some(value: T)
}
