/** The Option datatype used for JavaScript values that may be missing
    (`undefined`) or not a number (`NaN`). */
module Wrappers {

  datatype Option<+T> = None | Some(value: T)
}
