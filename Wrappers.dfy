/** The optional value the widget uses for `Date?` and for absent host objects. */
module Wrappers {
  datatype Option<+T> = None | Some(value: T)
}
