/** The optional-value datatype shared by every module of the model. */
module Wrappers {

  /** Python's `None`-or-a-value, for lookups that may find nothing. */
  datatype Option<+T> = None | Some(value: T)
}
