/** The optional value used wherever the source has `None` / `Option`. */
module Wrappers {
  datatype Option<+T> = None | Some(value: T)
}
