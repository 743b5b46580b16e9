/** An optional value, for PHP's nullable parameters and "not found" results. */
module Wrappers {
  datatype Option<+T> = None | Some(value: T)
}
