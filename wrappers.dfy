/** The optional value used for every step that may fail. */
module Wrappers {

  /** `None` stands for a Python exception; `Some(v)` for a normal return of `v`. */
  datatype Option<+T> = None | Some(value: T)
}
