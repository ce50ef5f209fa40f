// A value that may be absent: a null buffer pointer, a byte no block writes.

module Wrappers {

  datatype Option<T> = None | Some(value: T)
}
