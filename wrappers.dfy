/** Option and the expansion outcome, shared by the model. */
module Wrappers {

  datatype Option<+T> = None | Some(value: T)

  /** The outcome of a macro expansion: the expanded output, or an expansion
      that aborts compilation (an explicit error item, or no rule matching). */
  datatype Result<+T> = Success(value: T) | Failure
}
