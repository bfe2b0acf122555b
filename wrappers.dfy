/** The optional value used wherever the source has `T | null`, `T | undefined` or an optional prop. */
module Wrappers {
  datatype Option<+T> = None | Some(value: T)
}
