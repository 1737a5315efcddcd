/** An optional value: `None` stands for the source's `undefined`. */
module Wrappers {
  datatype Option<T> = None | Some(value: T)
}
