/** An optional value: the model's stand-in for a JavaScript property that may be absent. */
module Wrappers {
  datatype Option<+T> = None | Some(value: T)
}
