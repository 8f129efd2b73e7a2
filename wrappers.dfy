/** Python's `Optional[...]`: `None` or a value. */
module Wrappers {

  datatype Option<+T> = None | Some(value: T)
}
