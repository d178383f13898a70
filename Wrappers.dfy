/** An optional value: JavaScript's `null`/`undefined` on one side, a value on the other. */
module Wrappers {
  datatype Option<+T> = None | Some(value: T)
}
