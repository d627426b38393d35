/** The optional result of a lookup (`null` in the source). */
module Wrappers {

  datatype Option<+T> = None | Some(value: T)
}
