/** An optional value: a field that JavaScript leaves `undefined` until it is first assigned. */
module Wrappers {

  datatype Option<+T> = None | Some(value: T)
}
