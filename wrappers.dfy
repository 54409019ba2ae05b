/** The optional value the source expresses with `undefined` or `null`. */
module Wrappers {
  datatype Option<+T> = None | Some(value: T)
}
