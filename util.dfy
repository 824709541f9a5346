/** Small shared vocabulary. */
module Util {

  /** An optional value. */
  datatype Option<T> = None | Some(value: T)
}
