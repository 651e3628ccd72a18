/** The optional value used wherever the server works with JavaScript's `null`. */
module Wrappers {

  /** `None` stands for `null` (and for `undefined`, which `==` does not tell apart from it). */
  datatype Option<+T> = None | Some(value: T)
}
