/** The optional value used wherever the source has `undefined`, `NaN` or "no error". */
module Wrappers {

  datatype Option<+T> = None | Some(value: T)
}
