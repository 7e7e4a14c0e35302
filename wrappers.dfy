/** The optional-value datatype used for empty child slots, an empty tree and a failed lookup. */
module Wrappers {

  /** `None` stands for JavaScript's `undefined` in a slot or a result. */
  datatype Option<+T> = None | Some(value: T)
}
