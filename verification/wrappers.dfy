/** The optional-value datatype used for lookups that may find nothing. */
module Wrappers {

  /** `None` stands for the `null`/`undefined` a lookup returns when nothing matches. */
  datatype Option<+T> = None | Some(value: T)
}
