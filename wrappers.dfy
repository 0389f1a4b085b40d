/** The optional value used wherever the source returns `null` or JavaScript yields NaN. */
module Wrappers {

  datatype Option<+T> = None | Some(value: T)

}
