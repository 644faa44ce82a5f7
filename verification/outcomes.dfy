/** Optional values and success/failure results, used wherever the modelled code
    returns `null`, omits a field, or throws. */
module Outcomes {

  /** `None` stands for JavaScript's `null`/`undefined` where a value may be missing. */
  datatype Option<+T> = None | Some(value: T)

  /** `Err` stands for an exception the modelled code throws or a rejected promise. */
  datatype Result<+T, +E> = Ok(value: T) | Err(error: E)
}
