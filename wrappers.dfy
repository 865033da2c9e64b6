/** Small result types shared by the modules of the model. */
module Wrappers {

  /** A value that may be absent (`undefined` / `null` in the source). */
  datatype Option<+T> = None | Some(value: T)

  /** The outcome of a computation that may throw a JavaScript `TypeError`
      (the `in` operator applied to a primitive value). */
  datatype Outcome<+T> = Normal(value: T) | TypeError
}
