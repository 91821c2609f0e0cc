/** The optional value used where the script distinguishes a missing value (undefined, null, NaN) from a present one. */
module Wrappers {

  datatype Option<+T> = None | Some(value: T)
}
