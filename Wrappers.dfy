/** The absence signal every container uses: a value, or nothing. */
module Wrappers {
  datatype Option<+T> = None | Some(value: T)
}
