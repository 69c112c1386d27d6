/** A value that may be missing: `None` stands for a thrown error or an
    `undefined` result. */
module Wrappers {
  datatype Option<T> = None | Some(value: T)
}
