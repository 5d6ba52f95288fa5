/** The optional value shared by all modules; `None` also stands for JavaScript's `NaN`,
    `null` and `undefined` where the source produces them. */
module Wrappers {
  datatype Option<T> = None | Some(value: T)
}
