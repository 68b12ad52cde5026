/** The optional value used wherever the dashboard's Python code either yields a value or raises. */
module Wrappers {
  datatype Option<+T> = None | Some(value: T)
}
