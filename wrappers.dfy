/** The optional value used for the firmware's NULL returns and "no frame sent". */
module Wrappers {
  datatype Option<T> = None | Some(value: T)
}
