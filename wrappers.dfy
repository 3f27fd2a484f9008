/** An optional value: `None` stands for a JavaScript `undefined` (an unset field, a missing key). */
module Wrappers {
  datatype Option<+T> = None | Some(value: T)
}
