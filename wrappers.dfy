/** The optional value used wherever the source may have nothing (a missing
    attribute or text) or raises instead of returning. */
module Wrappers {
  datatype Option<T> = None | Some(value: T)
}
